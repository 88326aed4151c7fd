/**
 * Finding model files on disk: `_search_file_in_dirs` (an exact file name,
 * searched by walking every root) and `_find_lora_file` (a model name,
 * matched as a path relative to each root and then by extension-less file
 * name, ignoring case, anywhere below the root). The disk is a value: the
 * set of paths that are files and, per root, the listing `os.walk` yields.
 */
module Resolve {
  import opened Wrappers
  import opened Text
  import opened Paths

  /** The recognised model file extensions, in the order they are tried. */
  const ModelExts: seq<string> := [".safetensors", ".pt", ".ckpt"]

  /** One triple of `os.walk`: a directory and the names of the files in it (sub-directories are not needed). */
  datatype WalkStep = WalkStep(dirpath: string, files: seq<string>)

  /** What the searches can observe of the disk: `os.path.isfile`, and `os.walk(root)` in its own order. */
  datatype FileSystem = FileSystem(files: set<string>, walks: map<string, seq<WalkStep>>)

  /** `os.walk(root)`: a root that cannot be walked yields nothing. */
  function Walk(fs: FileSystem, root: string): seq<WalkStep>
  {
    if root in fs.walks then fs.walks[root] else []
  }

  /** A disk whose walks list plain file names, each of which is a file when joined to its directory. */
  predicate WellFormed(fs: FileSystem)
  {
    forall root, k, i :: root in fs.walks && 0 <= k < |fs.walks[root]| && 0 <= i < |fs.walks[root][k].files| ==>
      var step := fs.walks[root][k];
      '/' !in step.files[i] && Join(step.dirpath, step.files[i]) in fs.files
  }

  /** `ext.lower() in exts`. */
  predicate IsModelExt(ext: string)
  {
    Lower(ext) in ModelExts
  }

  /** The test of `_find_lora_file`'s walk: a model extension, and the stem equal to `base` ignoring case. */
  predicate StemMatches(base: string, fn: string)
  {
    IsModelExt(SplitExt(fn).1) && Lower(SplitExt(fn).0) == Lower(base)
  }

  /** The file names a walk accepts: exactly `base` (`_search_file_in_dirs`). */
  function SameName(base: string): string -> bool
  {
    fn => fn == base
  }

  /** The file names a walk accepts: a model file whose stem is `base` ignoring case (`_find_lora_file`). */
  function StemQuery(base: string): string -> bool
  {
    fn => StemMatches(base, fn)
  }

  /** The first accepted file of one directory, joined to the directory. */
  function FirstInDir(dirpath: string, files: seq<string>, accept: string -> bool): Option<string>
  {
    if files == [] then None
    else if accept(files[0]) then Some(Join(dirpath, files[0]))
    else FirstInDir(dirpath, files[1..], accept)
  }

  /** The first accepted file of a walk, directory by directory in walk order. */
  function FirstInWalk(steps: seq<WalkStep>, accept: string -> bool): Option<string>
  {
    if steps == [] then None
    else
      var d := FirstInDir(steps[0].dirpath, steps[0].files, accept);
      if d.Some? then d else FirstInWalk(steps[1..], accept)
  }

  /** The result of `f` for the first element for which it has one: the loops over the roots. */
  function FirstSome<T, R>(xs: seq<T>, f: T -> Option<R>): Option<R>
  {
    if xs == [] then None
    else
      var r := f(xs[0]);
      if r.Some? then r else FirstSome(xs[1..], f)
  }

  /** One step of the loop over `xs`: the element at `i` decides, or the search goes on after it. */
  lemma FirstSomeStep<T, R>(xs: seq<T>, i: nat, f: T -> Option<R>)
    requires i < |xs|
    ensures FirstSome(xs[i..], f) == if f(xs[i]).Some? then f(xs[i]) else FirstSome(xs[i + 1..], f)
  {
    assert xs[i..][0] == xs[i];
    assert xs[i..][1..] == xs[i + 1..];
  }

  /** The walk of one root, as `_search_file_in_dirs` and `_find_lora_file` run it. */
  function WalkRoot(fs: FileSystem, accept: string -> bool): string -> Option<string>
  {
    root => FirstInWalk(Walk(fs, root), accept)
  }

  /** `_search_file_in_dirs`: the first file named like the last component of `filename`, root by root. */
  function SearchRoots(roots: seq<string>, accept: string -> bool, fs: FileSystem): Option<string>
  {
    FirstSome(roots, WalkRoot(fs, accept))
  }

  function SearchFile(filename: string, dirs: seq<string>, fs: FileSystem): Option<string>
  {
    SearchRoots(dirs, SameName(Basename(filename)), fs)
  }

  /** `name.strip().replace("\\", "/")`. */
  function CleanName(name: string): (r: string)
    ensures '\\' !in r
    ensures var stripped := Strip(name);
      && |r| == |stripped|
      && forall i :: 0 <= i < |r| ==> r[i] == if stripped[i] == '\\' then '/' else stripped[i]
  {
    ReplaceBackslash(Strip(name))
  }

  /** The first of `root/rel + ext` over `exts` that is a file. */
  function FirstWithExt(root: string, rel: string, exts: seq<string>, fs: FileSystem): (r: Option<string>)
    ensures r.Some? ==> r.value in fs.files
  {
    if exts == [] then None
    else
      var p := Join(root, rel + exts[0]);
      if p in fs.files then Some(p) else FirstWithExt(root, rel, exts[1..], fs)
  }

  /**
   * The direct match of a name holding `/` under one root: the name itself
   * when it ends in a model extension, otherwise the name with each model
   * extension appended.
   */
  function DirectMatch(root: string, rel: string, fs: FileSystem): (r: Option<string>)
    ensures r.Some? ==> r.value in fs.files
  {
    if IsModelExt(SplitExt(rel).1) then
      var p := Join(root, rel);
      if p in fs.files then Some(p) else None
    else FirstWithExt(root, rel, ModelExts, fs)
  }

  /** Both strategies for one root of `_find_lora_file`, direct match first; `n` is the cleaned name. */
  function ResolveInRoot(root: string, n: string, fs: FileSystem): Option<string>
  {
    var d := if '/' in n then DirectMatch(root, n, fs) else None;
    if d.Some? then d else FirstInWalk(Walk(fs, root), StemQuery(Basename(n)))
  }

  function RootResolver(n: string, fs: FileSystem): string -> Option<string>
  {
    root => ResolveInRoot(root, n, fs)
  }

  /** The match of the first root that has one. */
  function ResolveFrom(roots: seq<string>, n: string, fs: FileSystem): Option<string>
  {
    FirstSome(roots, RootResolver(n, fs))
  }

  /** `_find_lora_file(name)` over the candidate directories `roots`. */
  function Resolve(name: string, roots: seq<string>, fs: FileSystem): (r: Option<string>)
    ensures name == [] ==> r.None?
  {
    if name == [] then None else ResolveFrom(roots, CleanName(name), fs)
  }

  /** The nested loops over one walk: directory by directory, file by file. */
  method SearchWalk(steps: seq<WalkStep>, accept: string -> bool) returns (r: Option<string>)
    ensures r == FirstInWalk(steps, accept)
  {
    for k := 0 to |steps|
      invariant FirstInWalk(steps, accept) == FirstInWalk(steps[k..], accept)
    {
      var step := steps[k];
      for i := 0 to |step.files|
        invariant FirstInDir(step.dirpath, step.files, accept) == FirstInDir(step.dirpath, step.files[i..], accept)
      {
        var fn := step.files[i];
        assert step.files[i..][1..] == step.files[i + 1..];
        if accept(fn) {
          return Some(Join(step.dirpath, fn));
        }
      }
      assert step.files[|step.files|..] == [];
      assert steps[k..][1..] == steps[k + 1..];
    }
    return None;
  }

  /** `_search_file_in_dirs(filename, dirs)`. */
  method SearchFileInDirs(filename: string, dirs: seq<string>, fs: FileSystem) returns (r: Option<string>)
    ensures r == SearchFile(filename, dirs, fs)
  {
    var base := Basename(filename);
    ghost var f := WalkRoot(fs, SameName(base));
    for i := 0 to |dirs|
      invariant SearchRoots(dirs, SameName(base), fs) == FirstSome(dirs[i..], f)
    {
      FirstSomeStep(dirs, i, f);
      var w := SearchWalk(Walk(fs, dirs[i]), SameName(base));
      assert w == f(dirs[i]);
      if w.Some? {
        return w;
      }
    }
    assert dirs[|dirs|..] == [];
    return None;
  }

  /** `_find_lora_file(name)`, with the candidate directories given as `roots`. */
  method FindLoraFile(name: string, roots: seq<string>, fs: FileSystem) returns (r: Option<string>)
    ensures r == Resolve(name, roots, fs)
  {
    if name == [] {
      return None;
    }
    var n := CleanName(name);
    ghost var f := RootResolver(n, fs);
    for i := 0 to |roots|
      invariant ResolveFrom(roots, n, fs) == FirstSome(roots[i..], f)
    {
      FirstSomeStep(roots, i, f);
      var found := TryRoot(roots[i], n, fs);
      assert found == f(roots[i]);
      if found.Some? {
        return found;
      }
    }
    assert roots[|roots|..] == [];
    return None;
  }

  /** One iteration of the loop over the roots in `_find_lora_file`. */
  method TryRoot(root: string, n: string, fs: FileSystem) returns (r: Option<string>)
    ensures r == ResolveInRoot(root, n, fs)
  {
    if '/' in n {
      r := TryDirect(root, n, fs);
      if r.Some? {
        return r;
      }
    }
    r := SearchWalk(Walk(fs, root), StemQuery(Basename(n)));
  }

  /** The relative-path attempts of `_find_lora_file` under one root. */
  method TryDirect(root: string, rel: string, fs: FileSystem) returns (r: Option<string>)
    ensures r == DirectMatch(root, rel, fs)
  {
    if IsModelExt(SplitExt(rel).1) {
      var p := Join(root, rel);
      return if p in fs.files then Some(p) else None;
    }
    r := TryExts(root, rel, ModelExts, fs);
  }

  /** The loop over the extensions in `_find_lora_file`: `root/rel + ext` for each, until one is a file. */
  method TryExts(root: string, rel: string, exts: seq<string>, fs: FileSystem) returns (r: Option<string>)
    ensures r == FirstWithExt(root, rel, exts, fs)
  {
    for e := 0 to |exts|
      invariant FirstWithExt(root, rel, exts, fs) == FirstWithExt(root, rel, exts[e..], fs)
    {
      FirstWithExtStep(root, rel, exts, e, fs);
      var p := Join(root, rel + exts[e]);
      if p in fs.files {
        return Some(p);
      }
    }
    assert exts[|exts|..] == [];
    return None;
  }

  lemma FirstWithExtStep(root: string, rel: string, exts: seq<string>, e: nat, fs: FileSystem)
    requires e < |exts|
    ensures FirstWithExt(root, rel, exts[e..], fs)
      == if Join(root, rel + exts[e]) in fs.files then Some(Join(root, rel + exts[e])) else FirstWithExt(root, rel, exts[e + 1..], fs)
  {
    assert exts[e..][0] == exts[e];
    assert exts[e..][1..] == exts[e + 1..];
  }

  /**
   * A directory yields nothing exactly when it holds no accepted file, and
   * otherwise its first accepted file, joined to the directory.
   */
  lemma {:induction false} FirstInDirSpec(dirpath: string, files: seq<string>, accept: string -> bool)
    ensures FirstInDir(dirpath, files, accept).None? <==> forall i :: 0 <= i < |files| ==> !accept(files[i])
    ensures FirstInDir(dirpath, files, accept).Some? ==>
      exists i :: IsFirstAccepted(files, i, accept) && FirstInDir(dirpath, files, accept).value == Join(dirpath, files[i])
  {
    if files != [] && !accept(files[0]) {
      FirstInDirSpec(dirpath, files[1..], accept);
      forall i | 1 <= i < |files| ensures files[1..][i - 1] == files[i] { }
      if FirstInDir(dirpath, files, accept).Some? {
        var i :| IsFirstAccepted(files[1..], i, accept)
          && FirstInDir(dirpath, files, accept).value == Join(dirpath, files[1..][i]);
        assert IsFirstAccepted(files, i + 1, accept);
      }
    } else if files != [] {
      assert IsFirstAccepted(files, 0, accept);
    }
  }

  /** File `i` is accepted and no earlier file is. */
  predicate IsFirstAccepted(files: seq<string>, i: int, accept: string -> bool)
  {
    0 <= i < |files| && accept(files[i]) && forall j :: 0 <= j < i ==> !accept(files[j])
  }

  /**
   * A walk yields nothing exactly when none of its directories holds an
   * accepted file, and otherwise the result of the first directory that does.
   */
  lemma {:induction false} FirstInWalkSpec(steps: seq<WalkStep>, accept: string -> bool)
    ensures FirstInWalk(steps, accept).None? <==> forall k :: 0 <= k < |steps| ==> NoneInDir(steps[k], accept)
    ensures FirstInWalk(steps, accept).Some? ==>
      exists k :: (0 <= k < |steps| && (forall j :: 0 <= j < k ==> NoneInDir(steps[j], accept))
        && FirstInWalk(steps, accept) == FirstInDir(steps[k].dirpath, steps[k].files, accept))
  {
    if steps != [] && NoneInDir(steps[0], accept) {
      FirstInWalkSpec(steps[1..], accept);
      forall k | 1 <= k < |steps| ensures steps[1..][k - 1] == steps[k] { }
      if FirstInWalk(steps, accept).Some? {
        var k :| 0 <= k < |steps[1..]| && (forall j :: 0 <= j < k ==> NoneInDir(steps[1..][j], accept))
          && FirstInWalk(steps, accept) == FirstInDir(steps[1..][k].dirpath, steps[1..][k].files, accept);
        assert forall j :: 0 <= j < k + 1 ==> NoneInDir(steps[j], accept) by {
          forall j | 0 < j < k + 1 ensures NoneInDir(steps[j], accept) {
            assert NoneInDir(steps[1..][j - 1], accept);
          }
        }
      }
    }
  }

  predicate NoneInDir(step: WalkStep, accept: string -> bool)
  {
    FirstInDir(step.dirpath, step.files, accept).None?
  }

  /** Nothing is found exactly when `f` has no result for any element; otherwise the result is `f`'s for some element. */
  lemma {:induction false} FirstSomeSpec<T, R>(xs: seq<T>, f: T -> Option<R>)
    ensures FirstSome(xs, f).None? <==> forall i :: 0 <= i < |xs| ==> f(xs[i]).None?
    ensures FirstSome(xs, f).Some? ==> exists i :: 0 <= i < |xs| && FirstSome(xs, f) == f(xs[i])
  {
    if xs != [] && f(xs[0]).None? {
      FirstSomeSpec(xs[1..], f);
      forall i | 1 <= i < |xs| ensures xs[1..][i - 1] == xs[i] { }
      if FirstSome(xs, f).Some? {
        var i :| 0 <= i < |xs[1..]| && FirstSome(xs, f) == f(xs[1..][i]);
        assert xs[i + 1] == xs[1..][i];
      }
    }
  }

  /**
   * Elements are tried in order: over `a + b` the result is that of `a`
   * when `a` has one, and that of `b` otherwise.
   */
  lemma {:induction false} FirstSomeAppend<T, R>(a: seq<T>, b: seq<T>, f: T -> Option<R>)
    ensures FirstSome(a + b, f) == if FirstSome(a, f).Some? then FirstSome(a, f) else FirstSome(b, f)
  {
    if a == [] {
      assert a + b == b;
    } else {
      assert (a + b)[0] == a[0];
      assert (a + b)[1..] == a[1..] + b;
      FirstSomeAppend(a[1..], b, f);
    }
  }

  /** Roots are tried in order: a match in the earlier roots hides every later root. */
  lemma ResolveFromAppend(a: seq<string>, b: seq<string>, n: string, fs: FileSystem)
    ensures ResolveFrom(a + b, n, fs) == if ResolveFrom(a, n, fs).Some? then ResolveFrom(a, n, fs) else ResolveFrom(b, n, fs)
  {
    FirstSomeAppend(a, b, RootResolver(n, fs));
  }

  /** Nothing is found exactly when no root yields a match; otherwise some root's own match is the result. */
  lemma ResolveFromSpec(roots: seq<string>, n: string, fs: FileSystem)
    ensures ResolveFrom(roots, n, fs).None? <==> forall i :: 0 <= i < |roots| ==> ResolveInRoot(roots[i], n, fs).None?
    ensures ResolveFrom(roots, n, fs).Some? ==>
      exists i :: 0 <= i < |roots| && ResolveFrom(roots, n, fs) == ResolveInRoot(roots[i], n, fs)
  {
    FirstSomeSpec(roots, RootResolver(n, fs));
  }

  /** The shape of a walk's result: a directory of the walk joined to one of its accepted files. */
  lemma WalkResult(steps: seq<WalkStep>, accept: string -> bool)
    requires FirstInWalk(steps, accept).Some?
    ensures exists k, i :: (0 <= k < |steps| && 0 <= i < |steps[k].files| && accept(steps[k].files[i])
      && FirstInWalk(steps, accept).value == Join(steps[k].dirpath, steps[k].files[i]))
  {
    FirstInWalkSpec(steps, accept);
    var k :| 0 <= k < |steps| && FirstInWalk(steps, accept) == FirstInDir(steps[k].dirpath, steps[k].files, accept);
    FirstInDirSpec(steps[k].dirpath, steps[k].files, accept);
    var i :| IsFirstAccepted(steps[k].files, i, accept)
      && FirstInDir(steps[k].dirpath, steps[k].files, accept).value == Join(steps[k].dirpath, steps[k].files[i]);
  }

  /** A walk has a result as soon as one of its directories holds an accepted file. */
  lemma WalkFinds(steps: seq<WalkStep>, accept: string -> bool, k: nat, i: nat)
    requires k < |steps| && i < |steps[k].files| && accept(steps[k].files[i])
    ensures FirstInWalk(steps, accept).Some?
  {
    FirstInDirSpec(steps[k].dirpath, steps[k].files, accept);
    FirstInWalkSpec(steps, accept);
  }

  /** `p` ends with one of the model extensions, compared ignoring case. */
  predicate EndsWithModelExt(p: string)
  {
    exists e :: e in ModelExts && |e| <= |p| && Lower(p[|p| - |e|..]) == e
  }

  lemma EndsWithSuffix(p: string, x: string, ext: string)
    requires |x| <= |p| && p[|p| - |x|..] == x
    requires |ext| <= |x| && x[|x| - |ext|..] == ext
    requires IsModelExt(ext)
    ensures EndsWithModelExt(p)
  {
    assert p[|p| - |ext|..] == ext;
    var e := Lower(ext);
    assert e in ModelExts && |e| <= |p| && Lower(p[|p| - |e|..]) == e;
  }

  lemma ModelExtsLower()
    ensures forall e :: e in ModelExts ==> Lower(e) == e && |e| >= 2 && e[0] == '.' && '.' !in e[1..] && '/' !in e
  {
    assert Lower(".safetensors") == ".safetensors";
    assert Lower(".pt") == ".pt";
    assert Lower(".ckpt") == ".ckpt";
  }

  lemma FirstWithExtShape(root: string, rel: string, exts: seq<string>, fs: FileSystem)
    requires FirstWithExt(root, rel, exts, fs).Some?
    ensures exists e :: e in exts && FirstWithExt(root, rel, exts, fs).value == Join(root, rel + e)
  {
    if Join(root, rel + exts[0]) !in fs.files {
      FirstWithExtShape(root, rel, exts[1..], fs);
    }
  }

  lemma DirectResultExt(root: string, n: string, fs: FileSystem)
    requires DirectMatch(root, n, fs).Some?
    ensures EndsWithModelExt(DirectMatch(root, n, fs).value)
  {
    if IsModelExt(SplitExt(n).1) {
      assert DirectMatch(root, n, fs).value == Join(root, n);
      JoinKeepsModelExt(root, n);
    } else {
      assert DirectMatch(root, n, fs) == FirstWithExt(root, n, ModelExts, fs);
      ExtAppendedResultExt(root, n, fs);
    }
  }

  /** A relative path or file name whose own extension is a model extension keeps it when joined to a directory. */
  lemma JoinKeepsModelExt(root: string, n: string)
    requires IsModelExt(SplitExt(n).1)
    ensures EndsWithModelExt(Join(root, n))
  {
    SplitExtSuffix(n);
    EndsWithSuffix(Join(root, n), n, SplitExt(n).1);
  }

  lemma ExtAppendedResultExt(root: string, n: string, fs: FileSystem)
    requires FirstWithExt(root, n, ModelExts, fs).Some?
    ensures EndsWithModelExt(FirstWithExt(root, n, ModelExts, fs).value)
  {
    var p := FirstWithExt(root, n, ModelExts, fs).value;
    FirstWithExtShape(root, n, ModelExts, fs);
    var e :| e in ModelExts && p == Join(root, n + e);
    ModelExtsLower();
    EndsWithSuffix(p, n + e, e);
  }

  lemma WalkResultExt(steps: seq<WalkStep>, base: string)
    requires FirstInWalk(steps, StemQuery(base)).Some?
    ensures EndsWithModelExt(FirstInWalk(steps, StemQuery(base)).value)
  {
    var accept := StemQuery(base);
    WalkResult(steps, accept);
    var k, i :| 0 <= k < |steps| && 0 <= i < |steps[k].files| && accept(steps[k].files[i])
      && FirstInWalk(steps, accept).value == Join(steps[k].dirpath, steps[k].files[i]);
    var fn := steps[k].files[i];
    assert StemMatches(base, fn);
    JoinKeepsModelExt(steps[k].dirpath, fn);
  }

  /** Whatever one root yields, by either strategy, ends with a model extension (ignoring case). */
  lemma RootResultExt(root: string, n: string, fs: FileSystem)
    requires ResolveInRoot(root, n, fs).Some?
    ensures EndsWithModelExt(ResolveInRoot(root, n, fs).value)
  {
    if '/' in n && DirectMatch(root, n, fs).Some? {
      DirectResultExt(root, n, fs);
    } else {
      WalkResultExt(Walk(fs, root), Basename(n));
    }
  }

  /** A resolved model file always carries one of the recognised extensions (ignoring case). */
  lemma ResolveHasModelExt(name: string, roots: seq<string>, fs: FileSystem)
    requires Resolve(name, roots, fs).Some?
    ensures EndsWithModelExt(Resolve(name, roots, fs).value)
  {
    var n := CleanName(name);
    ResolveFromSpec(roots, n, fs);
    var i :| 0 <= i < |roots| && ResolveFrom(roots, n, fs) == ResolveInRoot(roots[i], n, fs);
    RootResultExt(roots[i], n, fs);
  }

  /** On a well-formed disk, a root's walk only yields paths that are files, named by their last walk entry. */
  lemma WalkResultIsFile(fs: FileSystem, root: string, accept: string -> bool)
    requires WellFormed(fs) && FirstInWalk(Walk(fs, root), accept).Some?
    ensures FirstInWalk(Walk(fs, root), accept).value in fs.files
    ensures accept(Basename(FirstInWalk(Walk(fs, root), accept).value))
  {
    var steps := Walk(fs, root);
    WalkResult(steps, accept);
    var k, i :| 0 <= k < |steps| && 0 <= i < |steps[k].files| && accept(steps[k].files[i])
      && FirstInWalk(steps, accept).value == Join(steps[k].dirpath, steps[k].files[i]);
    assert root in fs.walks;
    BasenameJoin(steps[k].dirpath, steps[k].files[i]);
  }

  /**
   * On a well-formed disk, a resolved model is an existing file. Its file
   * name is a model file whose stem is the name's last component, ignoring
   * case, unless the name holds `/` and the file is the direct match of the
   * name under one of the roots; a name without `/` is always found by
   * its stem.
   */
  lemma ResolveIsFile(name: string, roots: seq<string>, fs: FileSystem)
    requires WellFormed(fs) && Resolve(name, roots, fs).Some?
    ensures Resolve(name, roots, fs).value in fs.files
    ensures var n := CleanName(name); var p := Resolve(name, roots, fs).value;
      || StemMatches(Basename(n), Basename(p))
      || ('/' in n && exists i :: 0 <= i < |roots| && DirectMatch(roots[i], n, fs) == Some(p))
    ensures '/' !in CleanName(name) ==> StemMatches(CleanName(name), Basename(Resolve(name, roots, fs).value))
  {
    var n := CleanName(name);
    ResolveFromSpec(roots, n, fs);
    var i :| 0 <= i < |roots| && ResolveFrom(roots, n, fs) == ResolveInRoot(roots[i], n, fs);
    var d := if '/' in n then DirectMatch(roots[i], n, fs) else None;
    if d.None? {
      WalkResultIsFile(fs, roots[i], StemQuery(Basename(n)));
    } else {
      assert DirectMatch(roots[i], n, fs) == ResolveFrom(roots, n, fs);
    }
  }

  /**
   * Search continues across roots: a model file accepted by the walk of any
   * root is enough for the name to resolve.
   */
  lemma ResolveFindsStemMatch(name: string, roots: seq<string>, fs: FileSystem, r: nat, k: nat, i: nat)
    requires name != [] && r < |roots|
    requires k < |Walk(fs, roots[r])| && i < |Walk(fs, roots[r])[k].files|
    requires StemMatches(Basename(CleanName(name)), Walk(fs, roots[r])[k].files[i])
    ensures Resolve(name, roots, fs).Some?
  {
    var n := CleanName(name);
    WalkFinds(Walk(fs, roots[r]), StemQuery(Basename(n)), k, i);
    ResolveFromSpec(roots, n, fs);
  }

  /** A file named by a stem and a model extension is accepted for any name equal to the stem ignoring case. */
  lemma ModelFileMatches(stem: string, ext: string, base: string)
    requires ext in ModelExts && '/' !in stem && NonDotIn(stem, 0, |stem|)
    requires Lower(stem) == Lower(base)
    ensures StemMatches(base, stem + ext)
  {
    ModelExtsLower();
    SplitExtAppend(stem, ext);
  }

  /**
   * `_search_file_in_dirs` finds nothing exactly when no walked directory
   * holds a file named like the last component of `filename`; on a
   * well-formed disk what it finds is a file with that name.
   */
  lemma SearchFileSpec(filename: string, dirs: seq<string>, fs: FileSystem)
    ensures SearchFile(filename, dirs, fs).None? <==>
      forall d, k, i :: 0 <= d < |dirs| && 0 <= k < |Walk(fs, dirs[d])| && 0 <= i < |Walk(fs, dirs[d])[k].files|
        ==> Walk(fs, dirs[d])[k].files[i] != Basename(filename)
    ensures WellFormed(fs) && SearchFile(filename, dirs, fs).Some? ==>
      var p := SearchFile(filename, dirs, fs).value;
      p in fs.files && Basename(p) == Basename(filename)
  {
    var accept := SameName(Basename(filename));
    FirstSomeSpec(dirs, WalkRoot(fs, accept));
    if SearchFile(filename, dirs, fs).None? {
      forall d, k, i | 0 <= d < |dirs| && 0 <= k < |Walk(fs, dirs[d])| && 0 <= i < |Walk(fs, dirs[d])[k].files|
        ensures Walk(fs, dirs[d])[k].files[i] != Basename(filename)
      {
        if Walk(fs, dirs[d])[k].files[i] == Basename(filename) {
          WalkFinds(Walk(fs, dirs[d]), accept, k, i);
        }
      }
    } else {
      var d :| 0 <= d < |dirs| && SearchFile(filename, dirs, fs) == FirstInWalk(Walk(fs, dirs[d]), accept);
      WalkResult(Walk(fs, dirs[d]), accept);
      if WellFormed(fs) {
        WalkResultIsFile(fs, dirs[d], accept);
      }
    }
  }
}
