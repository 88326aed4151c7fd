/** Mapping a function over a sequence and concatenating a sequence of sequences. */
module Seqs {

  /** `[f(x) for x in s]`. */
  function MapSeq<A, B>(f: A -> B, s: seq<A>): (r: seq<B>)
    ensures |r| == |s|
    ensures forall i :: 0 <= i < |s| ==> r[i] == f(s[i])
  {
    seq(|s|, i requires 0 <= i < |s| => f(s[i]))
  }

  lemma MapAppend<A, B>(f: A -> B, a: seq<A>, b: seq<A>)
    ensures MapSeq(f, a + b) == MapSeq(f, a) + MapSeq(f, b)
  {
  }

  lemma MapPrefix<A, B>(f: A -> B, s: seq<A>, i: nat)
    requires i < |s|
    ensures MapSeq(f, s[..i + 1]) == MapSeq(f, s[..i]) + [f(s[i])]
  {
  }

  /** The sequences one after the other. */
  function Concat<T>(xss: seq<seq<T>>): seq<T>
  {
    if xss == [] then [] else Concat(xss[..|xss| - 1]) + xss[|xss| - 1]
  }

  lemma {:induction false} ConcatAppend<T>(a: seq<seq<T>>, b: seq<seq<T>>)
    ensures Concat(a + b) == Concat(a) + Concat(b)
    decreases |b|
  {
    if b == [] {
      assert a + b == a;
    } else {
      assert (a + b)[..|a + b| - 1] == a + b[..|b| - 1];
      ConcatAppend(a, b[..|b| - 1]);
    }
  }

  /** The elements of `s` that are in `keep`, in order. */
  function FilterIn<T>(s: seq<T>, keep: set<T>): (r: seq<T>)
    ensures forall i :: 0 <= i < |r| ==> r[i] in keep
  {
    if s == [] then []
    else FilterIn(s[..|s| - 1], keep) + (if s[|s| - 1] in keep then [s[|s| - 1]] else [])
  }

  lemma FilterInSnoc<T>(s: seq<T>, keep: set<T>, i: nat)
    requires i < |s|
    ensures FilterIn(s[..i + 1], keep) == FilterIn(s[..i], keep) + (if s[i] in keep then [s[i]] else [])
  {
    assert s[..i + 1][..i] == s[..i];
  }

  /** An element survives the filter exactly when it is in `s` and in `keep`. */
  lemma {:induction false} FilterInMembers<T>(s: seq<T>, keep: set<T>, x: T)
    ensures x in FilterIn(s, keep) <==> x in s && x in keep
  {
    if s != [] {
      var n := |s| - 1;
      FilterInMembers(s[..n], keep, x);
      assert s == s[..n] + [s[n]];
    }
  }
}
