/**
 * The tag extractor: the pattern `<(?:lora|lyco):([^:>]+)(?::[^>]+)?>`
 * (keyword matched ignoring case) as a left-to-right scanner, and the
 * collection of the tagged model names of several texts, stripped, without
 * empty names and with case-insensitive duplicates removed.
 */
module Tags {
  import opened Wrappers
  import opened Text
  import opened Dedup
  import opened Seqs

  /** One match of the tag pattern at the start of a text: the captured name and the matched length. */
  datatype TagMatch = TagMatch(name: string, len: nat)

  /** The tag keyword `lora` or `lyco`, compared ignoring case, character by character. */
  predicate IsKeyword(s: string)
  {
    && |s| == 4
    && LowerChar(s[0]) == 'l'
    && ((LowerChar(s[1]) == 'o' && LowerChar(s[2]) == 'r' && LowerChar(s[3]) == 'a')
        || (LowerChar(s[1]) == 'y' && LowerChar(s[2]) == 'c' && LowerChar(s[3]) == 'o'))
  }

  /** The keyword test is the case-insensitive comparison with the two keywords. */
  lemma KeywordIgnoresCase(s: string)
    ensures IsKeyword(s) <==> Lower(s) == "lora" || Lower(s) == "lyco"
  {
    if Lower(s) == "lora" || Lower(s) == "lyco" {
      assert Lower(s)[0] == 'l';
    }
  }

  /** What `[^:>]+` can capture: at least one character, none of them `:` or `>`. */
  predicate ValidName(n: string)
  {
    n != [] && ':' !in n && '>' !in n
  }

  /** What `[^>]+` after the second colon can match. */
  predicate ValidWeight(w: Option<string>)
  {
    w.Some? ==> w.value != [] && '>' !in w.value
  }

  /** The first index at or after `i` whose character is in `stops`, or `|t|`. */
  function SkipUntil(t: string, i: nat, stops: set<char>): (k: nat)
    requires i <= |t|
    ensures i <= k <= |t|
    ensures forall m :: i <= m < k ==> t[m] !in stops
    ensures k < |t| ==> t[k] in stops
    decreases |t| - i
  {
    if i == |t| || t[i] in stops then i else SkipUntil(t, i + 1, stops)
  }

  /**
   * The match of the tag pattern anchored at the first character of `t`.
   * The name group is the longest run of characters other than `:` and `>`;
   * after it comes either `>` or a colon, a non-empty weight without `>`,
   * and `>`. No shorter name can lead to a match, because the character
   * after a shorter name is neither `:` nor `>`.
   */
  function MatchTag(t: string): (r: Option<TagMatch>)
    ensures r.Some? ==> ValidName(r.value.name) && |r.value.name| + 7 <= r.value.len <= |t|
  {
    if |t| < 6 || t[0] != '<' || !IsKeyword(t[1..5]) || t[5] != ':' then None
    else
      var q := SkipUntil(t, 6, {':', '>'});
      if q == 6 || q == |t| then None
      else
        assert ValidName(t[6..q]) by {
          forall k | 0 <= k < q - 6 ensures t[6..q][k] !in {':', '>'} {
            assert t[6..q][k] == t[6 + k];
          }
        }
        if t[q] == '>' then Some(TagMatch(t[6..q], q + 1))
        else
          var e := SkipUntil(t, q + 1, {'>'});
          if e == q + 1 || e == |t| then None
          else Some(TagMatch(t[6..q], e + 1))
  }

  /** The text of the tag `<kw:name>` or `<kw:name:weight>`. */
  function Render(kw: string, name: string, weight: Option<string>): string
  {
    "<" + kw + ":" + name + (if weight.Some? then ":" + weight.value else "") + ">"
  }

  /** The weight of a match of `MatchTag(t)`, recovered from the matched text. */
  function WeightOf(t: string, m: TagMatch): Option<string>
    requires |m.name| + 7 <= m.len <= |t|
  {
    if m.len == |m.name| + 7 then None else Some(t[|m.name| + 7..m.len - 1])
  }

  lemma SkipPast(t: string, i: nat, stops: set<char>, k: nat)
    requires i <= k <= |t|
    requires forall m :: i <= m < k ==> t[m] !in stops
    requires k < |t| ==> t[k] in stops
    ensures SkipUntil(t, i, stops) == k
    decreases k - i
  {
    if i < k {
      SkipPast(t, i + 1, stops, k);
    }
  }

  /** Every rendered tag is matched, whatever follows it, with exactly its name and length. */
  lemma MatchRendered(kw: string, name: string, weight: Option<string>, rest: string)
    requires |kw| == 4 && IsKeyword(kw) && ValidName(name) && ValidWeight(weight)
    ensures MatchTag(Render(kw, name, weight) + rest) == Some(TagMatch(name, |Render(kw, name, weight)|))
  {
    var tag := Render(kw, name, weight);
    var t := tag + rest;
    var q := 6 + |name|;
    assert t[1..5] == kw;
    forall m | 6 <= m < q ensures t[m] !in {':', '>'} {
      assert t[m] == name[m - 6];
    }
    SkipPast(t, 6, {':', '>'}, q);
    assert t[6..q] == name;
    if weight.Some? {
      var w := weight.value;
      var e := q + 1 + |w|;
      forall m | q + 1 <= m < e ensures t[m] !in {'>'} {
        assert t[m] == w[m - q - 1];
      }
      SkipPast(t, q + 1, {'>'}, e);
    }
  }

  /** Conversely, whatever `MatchTag` accepts is a rendered tag with a valid keyword, name and weight. */
  lemma MatchIsRendered(t: string)
    requires MatchTag(t).Some?
    ensures var m := MatchTag(t).value;
      && |t[1..5]| == 4 && IsKeyword(t[1..5]) && ValidWeight(WeightOf(t, m))
      && t[..m.len] == Render(t[1..5], m.name, WeightOf(t, m))
  {
    var m := MatchTag(t).value;
    var q := SkipUntil(t, 6, {':', '>'});
    assert m.name == t[6..q];
    var w := WeightOf(t, m);
    if t[q] == '>' {
      assert m.len == q + 1;
    } else {
      var e := SkipUntil(t, q + 1, {'>'});
      assert m.len == e + 1;
      assert w.value == t[q + 1..e];
      forall k | 0 <= k < e - q - 1 ensures w.value[k] != '>' {
        assert w.value[k] == t[q + 1 + k];
      }
    }
  }

  /**
   * `finditer`: the names captured by the successive non-overlapping
   * matches, scanning left to right; after a match the scan resumes at its
   * end, otherwise one character further.
   */
  function Scan(t: string): (r: seq<string>)
    ensures forall i :: 0 <= i < |r| ==> ValidName(r[i])
    decreases |t|
  {
    if t == [] then []
    else
      match MatchTag(t)
      case Some(m) => [m.name] + Scan(t[m.len..])
      case None => Scan(t[1..])
  }

  /** A rendered tag contributes its name, and scanning resumes right after it. */
  lemma ScanRendered(kw: string, name: string, weight: Option<string>, rest: string)
    requires |kw| == 4 && IsKeyword(kw) && ValidName(name) && ValidWeight(weight)
    ensures Scan(Render(kw, name, weight) + rest) == [name] + Scan(rest)
  {
    MatchRendered(kw, name, weight, rest);
    var tag := Render(kw, name, weight);
    assert (tag + rest)[|tag|..] == rest;
  }

  /** Text without `<` contributes no name. */
  lemma {:induction false} ScanPlain(a: string, rest: string)
    requires '<' !in a
    ensures Scan(a + rest) == Scan(rest)
    decreases |a|
  {
    if a != [] {
      assert (a + rest)[0] == a[0];
      assert (a + rest)[1..] == a[1..] + rest;
      ScanPlain(a[1..], rest);
    } else {
      assert a + rest == rest;
    }
  }

  /** A stripped name: non-empty, without whitespace at either end. */
  predicate IsStripped(n: string)
  {
    n != [] && !IsSpace(n[0]) && !IsSpace(n[|n| - 1])
  }

  /** Stripping keeps only characters of its argument. */
  lemma StripSubset(s: string)
    ensures forall c :: c in Strip(s) ==> c in s
  {
    var r := Strip(s);
    var i := |s| - |TrimStart(s)|;
    forall c | c in r ensures c in s {
      var k :| 0 <= k < |r| && r[k] == c;
      assert s[i + k] == c;
    }
  }

  /** `m.group(1).strip()` for every match, keeping only the non-empty results (`if n:`). */
  function StripNames(ms: seq<string>): seq<string>
  {
    if ms == [] then []
    else
      var n := Strip(ms[|ms| - 1]);
      StripNames(ms[..|ms| - 1]) + (if n != [] then [n] else [])
  }

  lemma StripNamesSnoc(ms: seq<string>, j: nat)
    requires j < |ms|
    ensures var n := Strip(ms[j]);
      StripNames(ms[..j + 1]) == StripNames(ms[..j]) + (if n != [] then [n] else [])
  {
    assert ms[..j + 1][..j] == ms[..j];
  }

  /** A name without whitespace at either end is left as it is by stripping. */
  lemma StripStripped(n: string)
    requires IsStripped(n)
    ensures Strip(n) == n
  {
    assert TrimStart(n) == n;
    assert TrimEnd(n) == n;
  }

  /** Names that are already stripped pass through unchanged. */
  lemma {:induction false} StripNamesOfStripped(ms: seq<string>)
    requires forall i :: 0 <= i < |ms| ==> IsStripped(ms[i])
    ensures StripNames(ms) == ms
  {
    if ms != [] {
      var n := |ms| - 1;
      StripNamesOfStripped(ms[..n]);
      StripStripped(ms[n]);
      assert ms[..n] + [ms[n]] == ms;
    }
  }

  /** Names captured by the pattern keep their shape when stripped. */
  lemma {:induction false} StripNamesValid(ms: seq<string>)
    requires forall i :: 0 <= i < |ms| ==> ValidName(ms[i])
    ensures forall i :: 0 <= i < |StripNames(ms)| ==> ValidName(StripNames(ms)[i]) && IsStripped(StripNames(ms)[i])
  {
    if ms != [] {
      StripSubset(ms[|ms| - 1]);
      assert ValidName(ms[|ms| - 1]);
      StripNamesValid(ms[..|ms| - 1]);
    }
  }

  /** The names one text contributes, in order of appearance; an empty text is skipped. */
  function TextNames(t: string): seq<string>
  {
    if t == [] then [] else StripNames(Scan(t))
  }

  /** All names of the texts, in order, before duplicates are removed. */
  function RawNames(texts: seq<string>): seq<string>
  {
    Concat(MapSeq(TextNames, texts))
  }

  /** Names are collected text by text, in the order the texts are given. */
  lemma RawNamesAppend(a: seq<string>, b: seq<string>)
    ensures RawNames(a + b) == RawNames(a) + RawNames(b)
  {
    MapAppend(TextNames, a, b);
    ConcatAppend(MapSeq(TextNames, a), MapSeq(TextNames, b));
  }

  lemma RawNamesSnoc(texts: seq<string>, i: nat)
    requires i < |texts|
    ensures RawNames(texts[..i + 1]) == RawNames(texts[..i]) + TextNames(texts[i])
  {
    MapPrefix(TextNames, texts, i);
    ConcatAppend(MapSeq(TextNames, texts[..i]), [TextNames(texts[i])]);
    assert Concat([TextNames(texts[i])]) == TextNames(texts[i]) by {
      assert [TextNames(texts[i])][..0] == [];
    }
  }

  /** Every collected name is a stripped capture of the name group. */
  lemma {:induction false} RawNamesShape(texts: seq<string>)
    ensures forall i :: 0 <= i < |RawNames(texts)| ==> ValidName(RawNames(texts)[i]) && IsStripped(RawNames(texts)[i])
  {
    if texts != [] {
      var n := |texts| - 1;
      RawNamesShape(texts[..n]);
      RawNamesSnoc(texts, n);
      assert texts[..n + 1] == texts;
      if texts[n] != [] {
        StripNamesValid(Scan(texts[n]));
      }
    }
  }

  /** What `_extract_lora_names` returns. */
  function ExtractedNames(texts: seq<string>): seq<string>
  {
    DedupBy(RawNames(texts), Lower)
  }

  /**
   * `_TAG_RE.finditer(t)`, reduced to the captured names: tries the pattern
   * at the current position, resumes after a match or one character later.
   */
  method FindTagNames(t: string) returns (ms: seq<string>)
    ensures ms == Scan(t)
  {
    ms := [];
    var pos := 0;
    while pos < |t|
      invariant 0 <= pos <= |t|
      invariant ms + Scan(t[pos..]) == Scan(t)
    {
      var rest := t[pos..];
      var found := MatchTag(rest);
      if found.Some? {
        var m := found.value;
        ScanMatched(rest, m);
        assert rest[m.len..] == t[pos + m.len..];
        assert ms + ([m.name] + Scan(rest[m.len..])) == (ms + [m.name]) + Scan(rest[m.len..]);
        ghost var before := ms;
        ms := ms + [m.name];
        pos := pos + m.len;
        assert ms + Scan(t[pos..]) == before + Scan(rest);
      } else {
        ScanUnmatched(rest);
        assert rest[1..] == t[pos + 1..];
        pos := pos + 1;
        assert Scan(t[pos..]) == Scan(rest);
      }
    }
    assert t[pos..] == [] && ms + [] == ms;
    assert t[0..] == t;
  }

  /** Where the pattern matches, scanning yields the name and resumes after the match. */
  lemma ScanMatched(s: string, m: TagMatch)
    requires MatchTag(s) == Some(m)
    ensures Scan(s) == [m.name] + Scan(s[m.len..])
  {
  }

  /** Where the pattern does not match, scanning resumes one character later. */
  lemma ScanUnmatched(s: string)
    requires s != [] && MatchTag(s).None?
    ensures Scan(s) == Scan(s[1..])
  {
  }

  /** Strips each captured name and keeps the non-empty ones, appending them to `names`. */
  method AppendStripped(names: seq<string>, ms: seq<string>) returns (out: seq<string>)
    ensures out == names + StripNames(ms)
  {
    var kept: seq<string> := [];
    for j := 0 to |ms|
      invariant kept == StripNames(ms[..j])
    {
      StripNamesSnoc(ms, j);
      var n := Strip(ms[j]);
      if n != [] {
        kept := kept + [n];
      }
    }
    assert ms[..|ms|] == ms;
    out := names + kept;
  }

  /** Keeps the first name of each lower-cased spelling, using a set of keys already seen. */
  method DedupIgnoringCase(names: seq<string>) returns (uniq: seq<string>)
    ensures uniq == DedupBy(names, Lower)
  {
    var seen: set<string> := {};
    uniq := [];
    for i := 0 to |names|
      invariant seen == KeysOf(names[..i], Lower)
      invariant uniq == DedupBy(names[..i], Lower)
    {
      var n := names[i];
      DedupSnoc(names, i, Lower);
      var k := Lower(n);
      if k !in seen {
        seen := seen + {k};
        uniq := uniq + [n];
      }
    }
    assert names[..|names|] == names;
  }

  /**
   * Scans every non-empty text for tags, strips the captured names, drops
   * the empty ones, and then removes duplicates ignoring case while keeping
   * the first spelling and the first-seen order.
   */
  method ExtractLoraNames(texts: seq<string>) returns (uniq: seq<string>)
    ensures uniq == ExtractedNames(texts)
  {
    var names: seq<string> := [];
    for i := 0 to |texts|
      invariant names == RawNames(texts[..i])
    {
      var t := texts[i];
      RawNamesSnoc(texts, i);
      if t == [] {
        continue;
      }
      var ms := FindTagNames(t);
      names := AppendStripped(names, ms);
    }
    assert texts[..|texts|] == texts;
    uniq := DedupIgnoringCase(names);
  }

  /**
   * Every extracted name is non-empty, has no surrounding whitespace and
   * contains neither `:` nor `>`; no two are equal ignoring case.
   */
  lemma ExtractedNamesShape(texts: seq<string>)
    ensures var r := ExtractedNames(texts);
      && (forall i :: 0 <= i < |r| ==> ValidName(r[i]) && IsStripped(r[i]))
      && (forall i, j :: 0 <= i < j < |r| ==> Lower(r[i]) != Lower(r[j]))
  {
    var r := ExtractedNames(texts);
    RawNamesShape(texts);
    forall i | 0 <= i < |r| ensures ValidName(r[i]) && IsStripped(r[i]) {
      assert r[i] in r;
    }
  }

  /**
   * Positive before negative: the names extracted from the first texts
   * come first, in the same order and spelling, in the names extracted
   * from the first texts followed by further texts.
   */
  lemma EarlierTextsFirst(a: seq<string>, b: seq<string>)
    ensures ExtractedNames(a) <= ExtractedNames(a + b)
  {
    RawNamesAppend(a, b);
    DedupPrefix(RawNames(a), RawNames(b), Lower);
  }

  /** The tag pattern matches at no position of `t`. */
  predicate NoMatchIn(t: string)
  {
    forall i :: 0 <= i < |t| ==> MatchTag(t[i..]).None?
  }

  /** Text without `<` holds no tag. */
  lemma PlainNoMatch(t: string)
    requires '<' !in t
    ensures NoMatchIn(t)
  {
    forall i | 0 <= i < |t| ensures MatchTag(t[i..]).None? {
      assert t[i..][0] == t[i];
    }
  }

  /**
   * Scanning finds nothing exactly when the pattern matches nowhere in the
   * text; a `<` that starts no tag does not count.
   */
  lemma {:induction false} ScanEmpty(t: string)
    ensures Scan(t) == [] <==> NoMatchIn(t)
    decreases |t|
  {
    if t != [] {
      assert t[0..] == t;
      ScanEmpty(t[1..]);
      forall i | 0 <= i < |t| - 1 ensures t[1..][i..] == t[i + 1..] {
      }
      if MatchTag(t).None? {
        assert NoMatchIn(t) <==> NoMatchIn(t[1..]) by {
          if NoMatchIn(t[1..]) {
            forall i | 0 <= i < |t| ensures MatchTag(t[i..]).None? {
              if i > 0 {
                assert MatchTag(t[1..][i - 1..]).None?;
              }
            }
          }
          if NoMatchIn(t) {
            forall i | 0 <= i < |t[1..]| ensures MatchTag(t[1..][i..]).None? {
              assert MatchTag(t[i + 1..]).None?;
            }
          }
        }
      }
    }
  }

  /** Texts in which the pattern matches nowhere (empty texts and texts without `<` among them) yield no names. */
  lemma {:induction false} NoTagNoNames(texts: seq<string>)
    requires forall i :: 0 <= i < |texts| ==> NoMatchIn(texts[i])
    ensures RawNames(texts) == [] && ExtractedNames(texts) == []
  {
    if texts != [] {
      var n := |texts| - 1;
      NoTagNoNames(texts[..n]);
      RawNamesSnoc(texts, n);
      assert texts[..n + 1] == texts;
      ScanEmpty(texts[n]);
    }
  }

  lemma ScanTwoTags(k1: string, n1: string, w1: Option<string>, sep: string,
                    k2: string, n2: string, w2: Option<string>)
    requires |k1| == 4 && IsKeyword(k1) && ValidName(n1) && ValidWeight(w1)
    requires |k2| == 4 && IsKeyword(k2) && ValidName(n2) && ValidWeight(w2)
    requires '<' !in sep
    ensures Scan(Render(k1, n1, w1) + sep + Render(k2, n2, w2)) == [n1, n2]
  {
    var t2 := Render(k2, n2, w2);
    assert Render(k1, n1, w1) + sep + t2 == Render(k1, n1, w1) + (sep + (t2 + []));
    ScanRendered(k1, n1, w1, sep + (t2 + []));
    ScanPlain(sep, t2 + []);
    ScanRendered(k2, n2, w2, []);
  }

  /** A single text contributes exactly its own names. */
  lemma RawNamesSingle(t: string)
    ensures RawNames([t]) == TextNames(t)
  {
    RawNamesSnoc([t], 0);
    assert [t][..0] == [] && [t][..1] == [t];
  }

  /**
   * A text holding two tags separated by text without `<` yields both
   * names in order, spelled as written, when they differ ignoring case,
   * and only the first when they are equal ignoring case.
   */
  lemma TwoTags(k1: string, n1: string, w1: Option<string>, sep: string,
                k2: string, n2: string, w2: Option<string>)
    requires |k1| == 4 && IsKeyword(k1) && ValidName(n1) && IsStripped(n1) && ValidWeight(w1)
    requires |k2| == 4 && IsKeyword(k2) && ValidName(n2) && IsStripped(n2) && ValidWeight(w2)
    requires '<' !in sep
    ensures var names := ExtractedNames([Render(k1, n1, w1) + sep + Render(k2, n2, w2)]);
      names == if Lower(n1) == Lower(n2) then [n1] else [n1, n2]
  {
    var t := Render(k1, n1, w1) + sep + Render(k2, n2, w2);
    ScanTwoTags(k1, n1, w1, sep, k2, n2, w2);
    assert t[0] == '<';
    NamesOfTwoMatches(t, n1, n2);
  }

  /** A non-empty text whose scan finds two stripped names yields them with duplicates removed. */
  lemma NamesOfTwoMatches(t: string, n1: string, n2: string)
    requires t != [] && Scan(t) == [n1, n2] && IsStripped(n1) && IsStripped(n2)
    ensures ExtractedNames([t]) == if Lower(n1) == Lower(n2) then [n1] else [n1, n2]
  {
    StripNamesOfStripped([n1, n2]);
    assert TextNames(t) == [n1, n2];
    RawNamesSingle(t);
    DedupTwo(n1, n2, Lower);
  }

  lemma ExampleFirstTag(k: string, n: string)
    requires k == "lora" && n == "foo"
    ensures |k| == 4 && IsKeyword(k) && ValidName(n) && IsStripped(n) && ValidWeight(None)
  {
  }

  lemma ExampleSecondTag(k: string, n: string, w: string)
    requires k == "lyco" && n == "Bar" && w == "0.8"
    ensures |k| == 4 && IsKeyword(k) && ValidName(n) && IsStripped(n) && ValidWeight(Some(w))
  {
  }

  lemma ExampleText(t: string)
    requires t == "<lora:foo>, <lyco:Bar:0.8>"
    ensures t == Render("lora", "foo", None) + ", " + Render("lyco", "Bar", Some("0.8"))
  {
  }

  lemma ExampleNamesDiffer(a: string, b: string)
    requires a == "foo" && b == "Bar"
    ensures Lower(a) != Lower(b)
  {
    assert Lower(a)[0] != Lower(b)[0];
  }

  /** `<lora:foo>, <lyco:Bar:0.8>` yields `foo` and then `Bar`. */
  lemma ExampleTwoTags(t: string)
    requires t == "<lora:foo>, <lyco:Bar:0.8>"
    ensures ExtractedNames([t]) == ["foo", "Bar"]
  {
    ExampleText(t);
    ExampleNamesDiffer("foo", "Bar");
    ExampleFirstTag("lora", "foo");
    ExampleSecondTag("lyco", "Bar", "0.8");
    TwoTags("lora", "foo", None, ", ", "lyco", "Bar", Some("0.8"));
  }
}
