/**
 * The extension's reaction to a saved image: `on_image_saved` reads the
 * settings, gathers the prompt texts, extracts the LoRA names and picks the
 * targets; `_save_cover_for_targets` then writes, for each target whose
 * model file is found, the prepared image as a PNG next to the model file.
 * The host's option store, the disk and the outcome of each write are
 * parameters; what the loop does to the disk is the set of covers it writes.
 */
module CoverUpdate {
  import opened Wrappers
  import opened Text
  import opened Paths
  import opened Dedup
  import opened Tags
  import opened Dirs
  import opened Resolve
  import opened Cover

  /**
   * The extension's five options as the host's option store holds them:
   * `None` when the key is not stored (or there is no option store at all).
   */
  datatype Settings = Settings(enable: Option<bool>, target: Option<string>, overwrite: Option<bool>,
                               squareCrop: Option<bool>, maxSize: Option<int>)

  /** An option store that holds none of the keys. */
  const Unset := Settings(None, None, None, None, None)

  /** The values the options are registered with. */
  const Registered := Settings(Some(false), Some("first"), Some(true), Some(false), Some(0))

  /** `_get_opt(key, default)` for a stored value that may be missing. */
  function OptOr<T>(v: Option<T>, default: T): T
  {
    if v.Some? then v.value else default
  }

  /** `lora_cover_enable`, off unless stored. */
  function Enabled(s: Settings): bool
  {
    OptOr(s.enable, false)
  }

  /** Which of the extracted names get a cover. */
  datatype TargetMode = First | Last | All

  /** `str(_get_opt("lora_cover_target", "first") or "first").lower()`. */
  function TargetName(v: Option<string>): string
  {
    Lower(if v.None? || v.value == [] then "first" else v.value)
  }

  /** The target mode a stored value selects: `last` and `all` by name, ignoring case, anything else `first`. */
  function ParseTargetMode(v: Option<string>): (m: TargetMode)
    ensures v.None? || v.value == [] ==> m == First
  {
    var m := TargetName(v);
    if m == "last" then Last else if m == "all" then All else First
  }

  /** The options `_save_cover_for_targets` reads once before its loop. */
  datatype CoverOptions = CoverOptions(overwrite: bool, squareCrop: bool, maxSize: int)

  /** Overwrite on, crop off and no size limit unless stored otherwise. */
  function CoverOptionsOf(s: Settings): CoverOptions
  {
    CoverOptions(OptOr(s.overwrite, true), OptOr(s.squareCrop, false), OptOr(s.maxSize, 0))
  }

  /**
   * The fallbacks used when an option is not stored are the values the
   * options are registered with, so a fresh install behaves the same
   * whether or not the settings were ever saved: disabled, first target,
   * overwrite, no crop, no size limit.
   */
  lemma DefaultsAgree()
    ensures !Enabled(Unset) && !Enabled(Registered)
    ensures ParseTargetMode(Unset.target) == First && ParseTargetMode(Registered.target) == First
    ensures CoverOptionsOf(Unset) == CoverOptionsOf(Registered) == CoverOptions(true, false, 0)
  {
    LowerFirst(TargetName(Unset.target), "first");
  }

  lemma LowerFirst(m: string, first: string)
    requires first == "first" && m == Lower(first)
    ensures m == first
  {
  }

  /**
   * The stored target value selects `last` or `all` exactly when it spells
   * that word in any mix of letter case; everything else, the empty value
   * and a missing one included, selects `first`.
   */
  lemma TargetModeSpec(v: Option<string>)
    ensures ParseTargetMode(v) == Last <==> v.Some? && Lower(v.value) == "last"
    ensures ParseTargetMode(v) == All <==> v.Some? && Lower(v.value) == "all"
  {
    if v.None? || v.value == [] {
      LowerFirst(TargetName(v), "first");
    }
  }

  /** `LAST` and `Last` select the last name as `last` does. */
  lemma ExampleTargetModeCase(upper: string, title: string)
    requires upper == "LAST" && title == "Last"
    ensures ParseTargetMode(Some(upper)) == ParseTargetMode(Some(title)) == Last
  {
    assert Lower(upper) == "last";
    assert Lower(title) == "last";
  }

  /** The targets among the extracted names: the first, the last, or all of them. */
  function SelectTargets(mode: TargetMode, names: seq<string>): (t: seq<string>)
    requires names != []
    ensures t != [] && forall i :: 0 <= i < |t| ==> t[i] in names
    ensures mode != All ==> |t| == 1
  {
    match mode
    case First => [names[0]]
    case Last => [names[|names| - 1]]
    case All => names
  }

  /**
   * The targets for the texts of a generation: extracted names, no two
   * equal ignoring case; in `first` mode, the name of the very first tag of
   * the texts, as written there; in `all` mode, every extracted name.
   */
  lemma TargetsOfTexts(mode: TargetMode, texts: seq<string>)
    requires RawNames(texts) != []
    ensures ExtractedNames(texts) != []
    ensures var t := SelectTargets(mode, ExtractedNames(texts));
      && t != []
      && (forall i :: 0 <= i < |t| ==> t[i] in ExtractedNames(texts) && ValidName(t[i]))
      && (forall i, j :: 0 <= i < j < |t| ==> Lower(t[i]) != Lower(t[j]))
      && (mode == First ==> t == [RawNames(texts)[0]])
      && (mode == All ==> t == ExtractedNames(texts))
  {
    DedupHead(RawNames(texts), Lower);
    ExtractedNamesShape(texts);
  }

  /**
   * `last` picks the name whose first mention comes last, not the last tag
   * written: for the tags `a`, `b`, `a` it is `b`.
   */
  lemma LastIsLatestNewName(a: string, b: string)
    requires Lower(a) != Lower(b)
    ensures DedupBy([a, b, a], Lower) == [a, b]
    ensures SelectTargets(Last, DedupBy([a, b, a], Lower)) == [b]
  {
    DedupTwo(a, b, Lower);
    DedupSnoc([a, b, a], 2, Lower);
    assert [a, b, a][..2] == [a, b];
    assert [a, b, a][..3] == [a, b, a];
    assert KeysOf([a, b], Lower) == KeysOf([a], Lower) + {Lower(b)} by {
      DedupSnoc([a, b], 1, Lower);
      assert [a, b][..1] == [a];
    }
    DedupSnoc([a], 0, Lower);
    assert [a][..1] == [a];
  }

  /** `os.path.splitext(model_file)[0] + ".png"`: the cover sits next to the model file. */
  function CoverPath(model: string): (c: string)
    ensures |c| >= 4 && c[|c| - 4..] == ".png"
    ensures c[..|c| - 4] + SplitExt(model).1 == model
  {
    SplitExt(model).0 + ".png"
  }

  /** A model file `root + ext` gets the cover `root + ".png"`. */
  lemma CoverPathOfModel(root: string, ext: string)
    requires |ext| >= 2 && ext[0] == '.' && '.' !in ext[1..] && '/' !in ext
    requires NonDotIn(Basename(root), 0, |Basename(root)|)
    ensures CoverPath(root + ext) == root + ".png"
  {
    SplitExtAppend(root, ext);
  }

  /**
   * The cover is in the model file's directory, and its name is the model
   * file's name without its extension, followed by `.png`.
   */
  lemma CoverBesideModel(p: string)
    ensures DirPart(CoverPath(p)) == DirPart(p)
    ensures Basename(CoverPath(p)) == SplitName(Basename(p)).0 + ".png"
  {
    RootOfSplit(p);
    BasenameAppend(SplitExt(p).0, ".png");
  }

  /** A cover path ends in `g`. */
  lemma CoverLastChar(p: string)
    ensures CoverPath(p) != [] && CoverPath(p)[|CoverPath(p)| - 1] == 'g'
  {
  }

  /** Every model extension ends in `s` or `t`. */
  lemma ModelExtLastChar(e: string)
    requires e in ModelExts
    ensures |e| >= 2 && (e[|e| - 1] == 's' || e[|e| - 1] == 't')
  {
  }

  /** A model file is never its own cover: the cover ends in `g`, no model extension does. */
  lemma CoverIsNotModel(p: string)
    requires EndsWithModelExt(p)
    ensures CoverPath(p) != p
  {
    var e :| e in ModelExts && |e| <= |p| && Lower(p[|p| - |e|..]) == e;
    ModelExtLastChar(e);
    var tail := p[|p| - |e|..];
    assert tail[|e| - 1] == p[|p| - 1];
    assert LowerChar(p[|p| - 1]) != 'g';
    CoverLastChar(p);
  }

  /**
   * What the save loop depends on besides the settings: the host's
   * directory settings and the models root (from which every lookup
   * recomputes the candidate directories), `os.path.isdir`,
   * `os.path.abspath`, the disk, and the cover paths whose write fails
   * (the directory cannot be created or the file cannot be written).
   */
  datatype Environment = Environment(host: Option<HostSettings>, modelsRoot: Option<string>, isDir: set<string>,
                                     abspath: string -> string, fs: FileSystem, unwritable: set<string>)

  /** What happens to one target. */
  datatype Outcome =
    | ModelNotFound(name: string)
    | CoverKept(name: string, cover: string)
    | CoverWritten(name: string, cover: string, image: Image)
    | WriteFailed(name: string, cover: string)

  /** `_find_lora_file(name)`: the model file of a name, searched in the candidate directories. */
  function ModelOf(env: Environment, name: string): Option<string>
  {
    Resolve.Resolve(name, CandidateDirs(env.host, env.modelsRoot, env.isDir, env.abspath), env.fs)
  }

  /** `os.path.exists`: a file or a directory of the disk, or a cover written earlier by the same loop. */
  predicate Exists(env: Environment, written: set<string>, p: string)
  {
    p in env.fs.files || p in env.isDir || p in written
  }

  /**
   * One iteration of `_save_cover_for_targets`: no model file, or what
   * happens to the cover of the model file found.
   */
  function SaveOne(name: string, img: Image, opts: CoverOptions, env: Environment, written: set<string>): Outcome
  {
    match ModelOf(env, name)
    case None => ModelNotFound(name)
    case Some(model) => SaveModel(name, model, img, opts, env, written)
  }

  /**
   * The cover of a model file found for `name`: an existing cover kept
   * because overwriting is off; the prepared image written; or the
   * preparation or the write failing.
   */
  function SaveModel(name: string, model: string, img: Image, opts: CoverOptions, env: Environment,
                     written: set<string>): (o: Outcome)
    ensures o.name == name && !o.ModelNotFound? && o.cover == CoverPath(model)
  {
    var cover := CoverPath(model);
    if !opts.overwrite && Exists(env, written, cover) then CoverKept(name, cover)
    else
      match PrepareCover(img, opts.squareCrop, opts.maxSize)
      case None => WriteFailed(name, cover)
      case Some(out) => if cover in env.unwritable then WriteFailed(name, cover) else CoverWritten(name, cover, out)
  }

  /** `SaveOne` for fixed image, options and environment, as a function of the name and the covers written so far. */
  function SaveStep(img: Image, opts: CoverOptions, env: Environment): (string, set<string>) -> Outcome
  {
    (name, written) => SaveOne(name, img, opts, env, written)
  }

  /** The covers written so far, after one more outcome. */
  function Record(written: set<string>, o: Outcome): set<string>
  {
    if o.CoverWritten? then written + {o.cover} else written
  }

  /** The covers the loop has written after handling `targets`, one `step` per target. */
  function WrittenAfter(targets: seq<string>, step: (string, set<string>) -> Outcome): set<string>
  {
    if targets == [] then {}
    else
      var before := WrittenAfter(targets[..|targets| - 1], step);
      Record(before, step(targets[|targets| - 1], before))
  }

  /** The outcome for each of `targets`, in order. */
  function Outcomes(targets: seq<string>, step: (string, set<string>) -> Outcome): (os: seq<Outcome>)
    ensures |os| == |targets|
  {
    if targets == [] then []
    else
      var init := targets[..|targets| - 1];
      Outcomes(init, step) + [step(targets[|targets| - 1], WrittenAfter(init, step))]
  }

  lemma SaveSnoc(targets: seq<string>, i: nat, step: (string, set<string>) -> Outcome)
    requires i < |targets|
    ensures var before := WrittenAfter(targets[..i], step);
      var o := step(targets[i], before);
      && Outcomes(targets[..i + 1], step) == Outcomes(targets[..i], step) + [o]
      && WrittenAfter(targets[..i + 1], step) == Record(before, o)
  {
    assert targets[..i + 1][..i] == targets[..i];
  }

  /** The body of the loop of `_save_cover_for_targets` for one name. */
  method SaveCover(name: string, img: Image, opts: CoverOptions, env: Environment, written: set<string>)
    returns (o: Outcome)
    ensures o == SaveOne(name, img, opts, env, written)
  {
    var roots := CandidateLoraDirs(env.host, env.modelsRoot, env.isDir, env.abspath);
    var model := FindLoraFile(name, roots, env.fs);
    if model.None? {
      return ModelNotFound(name);
    }
    var cover := CoverPath(model.value);
    if !opts.overwrite && Exists(env, written, cover) {
      return CoverKept(name, cover);
    }
    var out := PrepareCover(img, opts.squareCrop, opts.maxSize);
    if out.None? || cover in env.unwritable {
      return WriteFailed(name, cover);
    }
    return CoverWritten(name, cover, out.value);
  }

  /**
   * `_save_cover_for_targets`: reads the options once, then handles the
   * targets in order; `written` is what the loop adds to the disk.
   */
  method SaveCoverForTargets(img: Image, s: Settings, env: Environment, targets: seq<string>)
    returns (outcomes: seq<Outcome>, written: set<string>)
    ensures outcomes == Outcomes(targets, SaveStep(img, CoverOptionsOf(s), env))
    ensures written == WrittenAfter(targets, SaveStep(img, CoverOptionsOf(s), env))
  {
    var opts := CoverOptionsOf(s);
    ghost var step := SaveStep(img, opts, env);
    outcomes, written := [], {};
    for i := 0 to |targets|
      invariant outcomes == Outcomes(targets[..i], step)
      invariant written == WrittenAfter(targets[..i], step)
    {
      SaveSnoc(targets, i, step);
      var o := SaveCover(targets[i], img, opts, env, written);
      assert o == step(targets[i], written);
      outcomes := outcomes + [o];
      if o.CoverWritten? {
        written := written + {o.cover};
      }
    }
    assert targets[..|targets|] == targets;
  }

  /** A step that reports on the name it is given. */
  ghost predicate NamesItsTarget(step: (string, set<string>) -> Outcome)
  {
    forall name, written :: step(name, written).name == name
  }

  /** Every target gets exactly one outcome, in the order of the targets. */
  lemma {:induction false} OutcomesPerTarget(targets: seq<string>, step: (string, set<string>) -> Outcome)
    requires NamesItsTarget(step)
    ensures var os := Outcomes(targets, step);
      |os| == |targets| && forall i :: 0 <= i < |os| ==> os[i].name == targets[i]
  {
    if targets != [] {
      OutcomesPerTarget(targets[..|targets| - 1], step);
    }
  }

  /** The covers on disk after the loop are exactly the covers of the `CoverWritten` outcomes. */
  lemma {:induction false} WrittenAreOutcomes(targets: seq<string>, step: (string, set<string>) -> Outcome, c: string)
    ensures var os := Outcomes(targets, step);
      c in WrittenAfter(targets, step) <==> exists i :: 0 <= i < |os| && os[i].CoverWritten? && os[i].cover == c
  {
    if targets != [] {
      var init := targets[..|targets| - 1];
      WrittenAreOutcomes(init, step, c);
      var os0 := Outcomes(init, step);
      var os := Outcomes(targets, step);
      assert os == os0 + [os[|os| - 1]];
      if exists i :: 0 <= i < |os0| && os0[i].CoverWritten? && os0[i].cover == c {
        var i :| 0 <= i < |os0| && os0[i].CoverWritten? && os0[i].cover == c;
        assert os[i] == os0[i];
      }
    }
  }

  /** The save step reports on the name it is given. */
  lemma SaveStepNamesTarget(img: Image, opts: CoverOptions, env: Environment)
    ensures NamesItsTarget(SaveStep(img, opts, env))
  {
    forall name, written ensures SaveStep(img, opts, env)(name, written).name == name {
      SaveOneName(name, img, opts, env, written);
    }
  }

  lemma SaveOneName(name: string, img: Image, opts: CoverOptions, env: Environment, written: set<string>)
    ensures SaveOne(name, img, opts, env, written).name == name
  {
  }

  /** The outcomes of the first targets are the first outcomes. */
  lemma {:induction false} OutcomesPrefix(targets: seq<string>, step: (string, set<string>) -> Outcome, i: nat)
    requires i <= |targets|
    ensures Outcomes(targets[..i], step) == Outcomes(targets, step)[..i]
    decreases |targets|
  {
    if i < |targets| {
      var init := targets[..|targets| - 1];
      assert init[..i] == targets[..i];
      OutcomesPrefix(init, step, i);
      assert Outcomes(targets, step)[..|init|] == Outcomes(init, step);
    } else {
      assert targets[..i] == targets;
    }
  }

  /** Each outcome is the step applied to its target and to the covers written before it. */
  lemma OutcomeAt(targets: seq<string>, step: (string, set<string>) -> Outcome, i: nat)
    requires i < |targets|
    ensures Outcomes(targets, step)[i] == step(targets[i], WrittenAfter(targets[..i], step))
  {
    OutcomesPrefix(targets, step, i + 1);
    SaveSnoc(targets, i, step);
  }

  /** A step that writes only covers that neither were on the disk nor were written before. */
  ghost predicate WritesOnlyNew(step: (string, set<string>) -> Outcome, existing: set<string>)
  {
    forall name, written :: step(name, written).CoverWritten? ==>
      step(name, written).cover !in existing && step(name, written).cover !in written
  }

  /** With such a step, no cover already on the disk is replaced and no cover is written twice. */
  lemma NoCoverReplaced(targets: seq<string>, step: (string, set<string>) -> Outcome, existing: set<string>)
    requires WritesOnlyNew(step, existing)
    ensures var os := Outcomes(targets, step);
      forall i :: 0 <= i < |os| && os[i].CoverWritten? ==>
        && os[i].cover !in existing
        && forall j :: 0 <= j < i && os[j].CoverWritten? ==> os[j].cover != os[i].cover
  {
    var os := Outcomes(targets, step);
    forall i | 0 <= i < |os| && os[i].CoverWritten?
      ensures os[i].cover !in existing
      ensures forall j :: 0 <= j < i && os[j].CoverWritten? ==> os[j].cover != os[i].cover
    {
      var before := WrittenAfter(targets[..i], step);
      OutcomeAt(targets, step, i);
      OutcomesPrefix(targets, step, i);
      forall j | 0 <= j < i && os[j].CoverWritten? ensures os[j].cover != os[i].cover {
        assert Outcomes(targets[..i], step)[j] == os[j];
        WrittenAreOutcomes(targets[..i], step, os[j].cover);
      }
    }
  }

  /**
   * What happens to one target: nothing when no model file is found; else
   * its cover is the model path with `.png` for the extension, never the
   * model file itself, and on a well-formed disk the model is an existing
   * file; the cover is kept exactly when overwriting is off and the cover
   * exists; it is written, with the prepared image, exactly when it is not
   * kept, the image could be prepared and the path is writable.
   */
  lemma SaveOneSpec(name: string, img: Image, opts: CoverOptions, env: Environment, written: set<string>)
    ensures var o := SaveOne(name, img, opts, env, written);
      var m := ModelOf(env, name);
      var prepared := PrepareCover(img, opts.squareCrop, opts.maxSize);
      && o.name == name
      && (o.ModelNotFound? <==> m.None?)
      && (m.Some? ==>
            && o.cover == CoverPath(m.value) && o.cover != m.value
            && (WellFormed(env.fs) ==> m.value in env.fs.files)
            && (o.CoverKept? <==> !opts.overwrite && Exists(env, written, o.cover))
            && (o.CoverWritten? <==> (opts.overwrite || !Exists(env, written, o.cover))
                                     && prepared.Some? && o.cover !in env.unwritable)
            && (o.CoverWritten? ==> prepared == Some(o.image)))
  {
    var roots := CandidateDirs(env.host, env.modelsRoot, env.isDir, env.abspath);
    var m := ModelOf(env, name);
    if m.Some? {
      SaveModelSpec(name, m.value, img, opts, env, written);
      ResolveHasModelExt(name, roots, env.fs);
      CoverIsNotModel(m.value);
      if WellFormed(env.fs) {
        ResolveIsFile(name, roots, env.fs);
      }
    }
  }

  lemma SaveModelSpec(name: string, model: string, img: Image, opts: CoverOptions, env: Environment,
                      written: set<string>)
    ensures var o := SaveModel(name, model, img, opts, env, written);
      var prepared := PrepareCover(img, opts.squareCrop, opts.maxSize);
      && (o.CoverKept? <==> !opts.overwrite && Exists(env, written, o.cover))
      && (o.CoverWritten? <==> (opts.overwrite || !Exists(env, written, o.cover))
                               && prepared.Some? && o.cover !in env.unwritable)
      && (o.CoverWritten? ==> prepared == Some(o.image))
  {
  }

  /** With overwriting off, the save step only writes covers that do not exist yet. */
  lemma SaveStepWritesOnlyNew(img: Image, opts: CoverOptions, env: Environment)
    requires !opts.overwrite
    ensures WritesOnlyNew(SaveStep(img, opts, env), env.fs.files + env.isDir)
  {
    forall name, written | SaveStep(img, opts, env)(name, written).CoverWritten?
      ensures SaveStep(img, opts, env)(name, written).cover !in env.fs.files + env.isDir
      ensures SaveStep(img, opts, env)(name, written).cover !in written
    {
      SaveOneSpec(name, img, opts, env, written);
    }
  }

  /**
   * With overwriting off, the loop never replaces a file or directory that
   * was on the disk, and never writes the same cover twice (two targets
   * whose model files share a stem get one cover).
   */
  lemma NoOverwriteKeepsExisting(targets: seq<string>, img: Image, opts: CoverOptions, env: Environment)
    requires !opts.overwrite
    ensures var os := Outcomes(targets, SaveStep(img, opts, env));
      forall i :: 0 <= i < |os| && os[i].CoverWritten? ==>
        && os[i].cover !in env.fs.files && os[i].cover !in env.isDir
        && forall j :: 0 <= j < i && os[j].CoverWritten? ==> os[j].cover != os[i].cover
  {
    SaveStepWritesOnlyNew(img, opts, env);
    NoCoverReplaced(targets, SaveStep(img, opts, env), env.fs.files + env.isDir);
  }

  /** With overwriting on, no target's cover is ever kept. */
  lemma OverwriteNeverKeeps(targets: seq<string>, img: Image, opts: CoverOptions, env: Environment)
    requires opts.overwrite
    ensures var os := Outcomes(targets, SaveStep(img, opts, env));
      forall i :: 0 <= i < |os| ==> !os[i].CoverKept?
  {
    var step := SaveStep(img, opts, env);
    var os := Outcomes(targets, step);
    forall i | 0 <= i < |os| ensures !os[i].CoverKept? {
      OutcomeAt(targets, step, i);
      SaveOneSpec(targets[i], img, opts, env, WrittenAfter(targets[..i], step));
    }
  }

  /** The generation behind a saved image, with the two texts the extension reads. */
  datatype Processing = Processing(prompt: Option<string>, negativePrompt: Option<string>)

  /** The parameters of the image-saved callback: the generation, if any, and the saved image. */
  datatype SaveEvent = SaveEvent(p: Option<Processing>, image: Image)

  /** The non-empty prompt, then the non-empty negative prompt. */
  function PromptTexts(p: Processing): (texts: seq<string>)
  {
    (if p.prompt.Some? && p.prompt.value != [] then [p.prompt.value] else [])
    + (if p.negativePrompt.Some? && p.negativePrompt.value != [] then [p.negativePrompt.value] else [])
  }

  /**
   * The names `on_image_saved` hands to the save loop: none without a
   * generation, when the extension is disabled or when the texts hold no
   * tag; otherwise the targets the target option selects.
   */
  function TargetsFor(ev: SaveEvent, s: Settings): (t: seq<string>)
    ensures t != [] ==> (ev.p.Some? && Enabled(s)
                         && forall i :: 0 <= i < |t| ==> t[i] in ExtractedNames(PromptTexts(ev.p.value)))
  {
    if ev.p.None? || !Enabled(s) then []
    else
      var names := ExtractedNames(PromptTexts(ev.p.value));
      if names == [] then [] else SelectTargets(ParseTargetMode(s.target), names)
  }

  /** `on_image_saved`: the outcomes of the save loop and the covers it writes. */
  method OnImageSaved(ev: SaveEvent, s: Settings, env: Environment) returns (outcomes: seq<Outcome>, written: set<string>)
    ensures outcomes == Outcomes(TargetsFor(ev, s), SaveStep(ev.image, CoverOptionsOf(s), env))
    ensures written == WrittenAfter(TargetsFor(ev, s), SaveStep(ev.image, CoverOptionsOf(s), env))
  {
    if ev.p.None? || !Enabled(s) {
      return [], {};
    }
    var p := ev.p.value;
    var texts: seq<string> := [];
    if p.prompt.Some? && p.prompt.value != [] {
      texts := texts + [p.prompt.value];
    }
    if p.negativePrompt.Some? && p.negativePrompt.value != [] {
      texts := texts + [p.negativePrompt.value];
    }
    assert texts == PromptTexts(p);
    var names := ExtractLoraNames(texts);
    if names == [] {
      return [], {};
    }
    var targets := SelectTargets(ParseTargetMode(s.target), names);
    outcomes, written := SaveCoverForTargets(ev.image, s, env, targets);
  }

  /**
   * Nothing is looked up or written without a generation, with the
   * extension disabled, or when neither prompt holds a tag.
   */
  lemma QuietWhenInactive(ev: SaveEvent, s: Settings, env: Environment)
    requires ev.p.None? || !Enabled(s)
      || (var texts := PromptTexts(ev.p.value); forall i :: 0 <= i < |texts| ==> NoMatchIn(texts[i]))
    ensures TargetsFor(ev, s) == []
    ensures Outcomes(TargetsFor(ev, s), SaveStep(ev.image, CoverOptionsOf(s), env)) == []
    ensures WrittenAfter(TargetsFor(ev, s), SaveStep(ev.image, CoverOptionsOf(s), env)) == {}
  {
    if ev.p.Some? && Enabled(s) {
      NoTagNoNames(PromptTexts(ev.p.value));
    }
  }

  /**
   * With the default target option, an enabled extension targets the name
   * of the first tag of the prompt, when the prompt has one.
   */
  lemma FirstTagOfPrompt(ev: SaveEvent, s: Settings, t: string)
    requires ev.p.Some? && Enabled(s) && ParseTargetMode(s.target) == First
    requires ev.p.value.prompt == Some(t) && TextNames(t) != []
    ensures TargetsFor(ev, s) == [TextNames(t)[0]]
  {
    var texts := PromptTexts(ev.p.value);
    assert t != [] by {
      if t == [] {
        NoTagNoNames([t]);
        RawNamesSingle(t);
      }
    }
    assert texts == [t] + texts[1..];
    RawNamesAppend([t], texts[1..]);
    RawNamesSingle(t);
    TargetsOfTexts(First, texts);
  }

  /** Every target of an event gets exactly one outcome, in order, and the targets are the selected names. */
  lemma EveryTargetReported(ev: SaveEvent, s: Settings, env: Environment)
    ensures var targets := TargetsFor(ev, s);
      var os := Outcomes(targets, SaveStep(ev.image, CoverOptionsOf(s), env));
      && |os| == |targets|
      && (forall i :: 0 <= i < |os| ==> os[i].name == targets[i])
      && (ev.p.Some? && Enabled(s) && RawNames(PromptTexts(ev.p.value)) != [] ==>
            targets != [] && forall i :: 0 <= i < |targets| ==> targets[i] in ExtractedNames(PromptTexts(ev.p.value)))
  {
    SaveStepNamesTarget(ev.image, CoverOptionsOf(s), env);
    OutcomesPerTarget(TargetsFor(ev, s), SaveStep(ev.image, CoverOptionsOf(s), env));
    if ev.p.Some? && Enabled(s) && RawNames(PromptTexts(ev.p.value)) != [] {
      TargetsOfTexts(ParseTargetMode(s.target), PromptTexts(ev.p.value));
    }
  }

  /**
   * The save loop gets no target exactly when there is no generation, the
   * extension is disabled, or the prompt texts hold no tag.
   */
  lemma TargetsForEmpty(ev: SaveEvent, s: Settings)
    ensures TargetsFor(ev, s) == [] <==> ev.p.None? || !Enabled(s) || RawNames(PromptTexts(ev.p.value)) == []
  {
    if ev.p.Some? && Enabled(s) && RawNames(PromptTexts(ev.p.value)) != [] {
      TargetsOfTexts(ParseTargetMode(s.target), PromptTexts(ev.p.value));
    }
  }

  /**
   * For an enabled extension and texts with tags: the stored target `last`
   * (in any letter case) selects the last extracted name, `all` every
   * extracted name, and any other value, a missing or empty one included,
   * the first extracted name.
   */
  lemma TargetsForSpec(ev: SaveEvent, s: Settings)
    requires ev.p.Some? && Enabled(s)
    requires ExtractedNames(PromptTexts(ev.p.value)) != []
    ensures var names := ExtractedNames(PromptTexts(ev.p.value));
      var t := s.target;
      && (t.Some? && Lower(t.value) == "last" ==> TargetsFor(ev, s) == [names[|names| - 1]])
      && (t.Some? && Lower(t.value) == "all" ==> TargetsFor(ev, s) == names)
      && (!(t.Some? && Lower(t.value) in {"last", "all"}) ==> TargetsFor(ev, s) == [names[0]])
  {
    TargetModeSpec(s.target);
  }
}
