/**
 * `_candidate_lora_dirs`: the directories searched for model files, in
 * priority order. First the directory given on the command line, then the
 * directories stored under the option keys `lora_dir`, `lyco_dir` and
 * `lycoris_dir`, then the conventional sub-directories of the models root
 * that exist; all made absolute and without repetitions. The host's
 * settings, the models root, `os.path.isdir` and `os.path.abspath` (which
 * depends on the working directory) are parameters.
 */
module Dirs {
  import opened Wrappers
  import opened Paths
  import opened Seqs
  import opened Dedup

  /** The option keys that may name a model directory, in the order they are read. */
  const DirOptionKeys: seq<string> := ["lora_dir", "lyco_dir", "lycoris_dir"]

  /** The sub-directories of the models root that conventionally hold model files, in the order they are tried. */
  const ConventionalSubdirs: seq<string> := ["Lora", "LyCORIS", "LoRA", "lycoris"]

  /**
   * What the host exposes: the `lora_dir` command-line value (absent when
   * the host has no command-line options or no such value) and the stored
   * option values.
   */
  datatype HostSettings = HostSettings(cmdLoraDir: Option<string>, optionData: map<string, string>)

  /** The non-empty values stored under `keys`, in key order. */
  function PresentValues(data: map<string, string>, keys: seq<string>): (r: seq<string>)
    ensures forall i :: 0 <= i < |r| ==> r[i] != []
    ensures |r| <= |keys|
  {
    if keys == [] then []
    else
      var k := keys[|keys| - 1];
      PresentValues(data, keys[..|keys| - 1]) + (if k in data && data[k] != [] then [data[k]] else [])
  }

  /** The directories the host names explicitly: the command-line value first, then the stored options. */
  function ExplicitDirs(host: Option<HostSettings>): seq<string>
  {
    match host
    case None => []
    case Some(h) =>
      (if h.cmdLoraDir.Some? && h.cmdLoraDir.value != [] then [h.cmdLoraDir.value] else [])
      + PresentValues(h.optionData, DirOptionKeys)
  }

  /** `os.path.join(root, sub)` as a function of `sub`. */
  function JoinTo(root: string): string -> string
  {
    sub => Join(root, sub)
  }

  /**
   * The conventional directories under the models root, when the root is
   * known and non-empty: each conventional name joined to the root, kept
   * when `os.path.isdir` accepts it.
   */
  function ConventionalDirs(modelsRoot: Option<string>, isDir: set<string>): (r: seq<string>)
    ensures forall i :: 0 <= i < |r| ==> r[i] in isDir
  {
    if modelsRoot.Some? && modelsRoot.value != [] then FilterIn(MapSeq(JoinTo(modelsRoot.value), ConventionalSubdirs), isDir)
    else []
  }

  /** The directories before normalisation, in priority order. */
  function RawDirs(host: Option<HostSettings>, modelsRoot: Option<string>, isDir: set<string>): seq<string>
  {
    ExplicitDirs(host) + ConventionalDirs(modelsRoot, isDir)
  }

  /** Paths are compared as they are, after `abspath`. */
  function Id(s: string): string
  {
    s
  }

  /** What `_candidate_lora_dirs` returns. */
  function CandidateDirs(host: Option<HostSettings>, modelsRoot: Option<string>, isDir: set<string>,
                         abspath: string -> string): seq<string>
  {
    DedupBy(MapSeq(abspath, RawDirs(host, modelsRoot, isDir)), Id)
  }

  lemma PresentValuesSnoc(data: map<string, string>, keys: seq<string>, i: nat)
    requires i < |keys|
    ensures PresentValues(data, keys[..i + 1])
      == PresentValues(data, keys[..i]) + (if keys[i] in data && data[keys[i]] != [] then [data[keys[i]]] else [])
  {
    assert keys[..i + 1][..i] == keys[..i];
  }

  /** The explicit half of `_candidate_lora_dirs`: the command-line value, then the stored options. */
  method CollectExplicitDirs(host: Option<HostSettings>) returns (dirs: seq<string>)
    ensures dirs == ExplicitDirs(host)
  {
    dirs := [];
    if host.Some? {
      var h := host.value;
      var first := if h.cmdLoraDir.Some? && h.cmdLoraDir.value != [] then [h.cmdLoraDir.value] else [];
      var opts: seq<string> := [];
      for i := 0 to |DirOptionKeys|
        invariant opts == PresentValues(h.optionData, DirOptionKeys[..i])
      {
        PresentValuesSnoc(h.optionData, DirOptionKeys, i);
        var key := DirOptionKeys[i];
        if key in h.optionData && h.optionData[key] != [] {
          opts := opts + [h.optionData[key]];
        }
      }
      assert DirOptionKeys[..|DirOptionKeys|] == DirOptionKeys;
      dirs := first + opts;
    }
  }

  /** The conventional half of `_candidate_lora_dirs`: the sub-directories of the models root that exist. */
  method CollectConventionalDirs(modelsRoot: Option<string>, isDir: set<string>) returns (dirs: seq<string>)
    ensures dirs == ConventionalDirs(modelsRoot, isDir)
  {
    dirs := [];
    if modelsRoot.Some? && modelsRoot.value != [] {
      var root := modelsRoot.value;
      ghost var joined := MapSeq(JoinTo(root), ConventionalSubdirs);
      for i := 0 to |ConventionalSubdirs|
        invariant dirs == FilterIn(joined[..i], isDir)
      {
        FilterInSnoc(joined, isDir, i);
        var d := Join(root, ConventionalSubdirs[i]);
        assert d == joined[i];
        if d in isDir {
          dirs := dirs + [d];
        }
      }
      assert joined[..|ConventionalSubdirs|] == joined;
    }
  }

  /** `_candidate_lora_dirs`: collects the directories, makes each absolute and keeps the first of each. */
  method CandidateLoraDirs(host: Option<HostSettings>, modelsRoot: Option<string>, isDir: set<string>,
                           abspath: string -> string) returns (normed: seq<string>)
    ensures normed == CandidateDirs(host, modelsRoot, isDir, abspath)
  {
    var explicit := CollectExplicitDirs(host);
    var conventional := CollectConventionalDirs(modelsRoot, isDir);
    var dirs := explicit + conventional;
    ghost var abs := MapSeq(abspath, dirs);
    var seen: set<string> := {};
    normed := [];
    for i := 0 to |dirs|
      invariant seen == KeysOf(abs[..i], Id)
      invariant normed == DedupBy(abs[..i], Id)
    {
      var nd := abspath(dirs[i]);
      assert nd == abs[i];
      DedupSnoc(abs, i, Id);
      if nd !in seen {
        seen := seen + {nd};
        normed := normed + [nd];
      }
    }
    assert abs[..|dirs|] == abs;
  }

  /** A value is collected exactly when one of the keys holds it and it is non-empty. */
  lemma {:induction false} PresentValuesMembers(data: map<string, string>, keys: seq<string>, x: string)
    ensures x in PresentValues(data, keys) <==> x != [] && exists i :: 0 <= i < |keys| && keys[i] in data && data[keys[i]] == x
  {
    if keys != [] {
      var n := |keys| - 1;
      PresentValuesMembers(data, keys[..n], x);
      if exists i :: 0 <= i < |keys| && keys[i] in data && data[keys[i]] == x {
        var i :| 0 <= i < |keys| && keys[i] in data && data[keys[i]] == x;
        if i < n {
          assert keys[..n][i] == keys[i];
        }
      }
      if exists i :: 0 <= i < |keys[..n]| && keys[..n][i] in data && data[keys[..n][i]] == x {
        var i :| 0 <= i < |keys[..n]| && keys[..n][i] in data && data[keys[..n][i]] == x;
        assert keys[i] == keys[..n][i];
      }
    }
  }

  /** No directory is listed twice. */
  lemma CandidateDirsDistinct(host: Option<HostSettings>, modelsRoot: Option<string>, isDir: set<string>,
                              abspath: string -> string)
    ensures var r := CandidateDirs(host, modelsRoot, isDir, abspath);
      forall i, j :: 0 <= i < j < |r| ==> r[i] != r[j]
  {
    var r := CandidateDirs(host, modelsRoot, isDir, abspath);
    forall i, j | 0 <= i < j < |r| ensures r[i] != r[j] {
      assert Id(r[i]) != Id(r[j]);
    }
  }

  /** A directory is a candidate exactly when it is the absolute form of one of the collected directories. */
  lemma CandidateDirsMembers(host: Option<HostSettings>, modelsRoot: Option<string>, isDir: set<string>,
                             abspath: string -> string, x: string)
    ensures var raw := RawDirs(host, modelsRoot, isDir);
      x in CandidateDirs(host, modelsRoot, isDir, abspath) <==> exists i :: 0 <= i < |raw| && abspath(raw[i]) == x
  {
    var raw := RawDirs(host, modelsRoot, isDir);
    var abs := MapSeq(abspath, raw);
    var r := DedupBy(abs, Id);
    if x in r {
      var i :| 0 <= i < |abs| && abs[i] == x;
    }
    if exists i :: 0 <= i < |raw| && abspath(raw[i]) == x {
      var i :| 0 <= i < |raw| && abspath(raw[i]) == x;
      assert Id(abs[i]) in KeysOf(abs, Id);
      DedupKeys(abs, Id);
      KeysOfExact(r, Id);
      var j :| 0 <= j < |r| && Id(r[j]) == x;
    }
  }

  /**
   * Explicitly configured directories come first: the candidates begin
   * with the normalised explicit directories, in their own order, and only
   * then come the conventional ones.
   */
  lemma ExplicitDirsFirst(host: Option<HostSettings>, modelsRoot: Option<string>, isDir: set<string>,
                          abspath: string -> string)
    ensures DedupBy(MapSeq(abspath, ExplicitDirs(host)), Id) <= CandidateDirs(host, modelsRoot, isDir, abspath)
  {
    MapAppend(abspath, ExplicitDirs(host), ConventionalDirs(modelsRoot, isDir));
    DedupPrefix(MapSeq(abspath, ExplicitDirs(host)), MapSeq(abspath, ConventionalDirs(modelsRoot, isDir)), Id);
  }

  /**
   * The explicit directories: the non-empty command-line value, if any,
   * first, and then exactly the non-empty values of the three option keys.
   */
  lemma ExplicitDirsSpec(h: HostSettings, x: string)
    ensures var r := ExplicitDirs(Some(h));
      && (h.cmdLoraDir.Some? && h.cmdLoraDir.value != [] ==> r[0] == h.cmdLoraDir.value)
      && (x in r <==>
            || (h.cmdLoraDir == Some(x) && x != [])
            || (x != [] && exists i :: (0 <= i < |DirOptionKeys| && DirOptionKeys[i] in h.optionData
                                        && h.optionData[DirOptionKeys[i]] == x)))
  {
    PresentValuesMembers(h.optionData, DirOptionKeys, x);
  }

  /** A conventional candidate exists and is one of the four sub-directory names under the models root. */
  lemma ConventionalDirsSpec(root: string, isDir: set<string>, x: string)
    requires root != []
    ensures x in ConventionalDirs(Some(root), isDir) <==>
      x in isDir && exists i :: 0 <= i < |ConventionalSubdirs| && x == Join(root, ConventionalSubdirs[i])
  {
    var joined := MapSeq(JoinTo(root), ConventionalSubdirs);
    FilterInMembers(joined, isDir, x);
    if x in joined {
      var i :| 0 <= i < |joined| && joined[i] == x;
    }
  }
}
