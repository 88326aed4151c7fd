/**
 * Order-preserving removal of duplicates: an element is kept when no earlier
 * element has the same key. The tag extractor uses it with the lower-cased
 * name as key, the directory discoverer with the normalised path itself.
 */
module Dedup {

  /** The set of keys of the elements of `s` (the `seen` set of a scan over `s`). */
  function KeysOf<T, K(==)>(s: seq<T>, key: T -> K): (r: set<K>)
    ensures forall i :: 0 <= i < |s| ==> key(s[i]) in r
  {
    if s == [] then {} else KeysOf(s[..|s| - 1], key) + {key(s[|s| - 1])}
  }

  /** Every key in `KeysOf(s, key)` is the key of an element of `s`. */
  lemma {:induction false} KeysOfExact<T, K>(s: seq<T>, key: T -> K)
    ensures forall k :: k in KeysOf(s, key) ==> exists i :: 0 <= i < |s| && key(s[i]) == k
  {
    if s != [] {
      var init := s[..|s| - 1];
      KeysOfExact(init, key);
      forall k | k in KeysOf(s, key) ensures exists i :: 0 <= i < |s| && key(s[i]) == k {
        if k != key(s[|s| - 1]) {
          assert k in KeysOf(init, key);
          var i :| 0 <= i < |init| && key(init[i]) == k;
          assert key(s[i]) == k;
        }
      }
    }
  }

  /**
   * `s` without the elements whose key occurred earlier: the keys of the
   * result are pairwise distinct, and every element of the result is an
   * element of `s`.
   */
  function DedupBy<T, K(==)>(s: seq<T>, key: T -> K): (r: seq<T>)
    ensures forall i, j :: 0 <= i < j < |r| ==> key(r[i]) != key(r[j])
    ensures forall x :: x in r ==> x in s
  {
    if s == [] then []
    else
      var init := s[..|s| - 1];
      var last := s[|s| - 1];
      var kept := DedupBy(init, key);
      if key(last) in KeysOf(init, key) then kept
      else
        assert forall i :: 0 <= i < |kept| ==> key(kept[i]) != key(last) by {
          forall i | 0 <= i < |kept| ensures key(kept[i]) != key(last) {
            assert kept[i] in kept;
            var j :| 0 <= j < |init| && init[j] == kept[i];
          }
        }
        kept + [last]
  }

  /** Deduplication loses no key: the result has exactly the keys of its argument. */
  lemma {:induction false} DedupKeys<T, K>(s: seq<T>, key: T -> K)
    ensures KeysOf(DedupBy(s, key), key) == KeysOf(s, key)
  {
    if s != [] {
      var init := s[..|s| - 1];
      var kept := DedupBy(init, key);
      DedupKeys(init, key);
      if key(s[|s| - 1]) !in KeysOf(init, key) {
        assert (kept + [s[|s| - 1]])[..|kept|] == kept;
      }
    }
  }

  /** One more element: it is kept exactly when its key is new, and its key joins the seen keys. */
  lemma DedupSnoc<T, K>(s: seq<T>, i: nat, key: T -> K)
    requires i < |s|
    ensures KeysOf(s[..i + 1], key) == KeysOf(s[..i], key) + {key(s[i])}
    ensures DedupBy(s[..i + 1], key)
      == DedupBy(s[..i], key) + (if key(s[i]) in KeysOf(s[..i], key) then [] else [s[i]])
  {
    assert s[..i + 1][..i] == s[..i];
  }

  /** Two elements: the second is kept exactly when its key differs from the first one's. */
  lemma DedupTwo<T, K>(a: T, b: T, key: T -> K)
    ensures DedupBy([a, b], key) == if key(a) == key(b) then [a] else [a, b]
  {
    DedupSnoc([a, b], 0, key);
    DedupSnoc([a, b], 1, key);
    assert [a, b][..0] == [] && [a, b][..1] == [a] && [a, b][..2] == [a, b];
  }

  /** Element `j` of `s` is the first one with its key. */
  ghost predicate IsFirstAt<T, K>(s: seq<T>, j: int, key: T -> K)
  {
    0 <= j < |s| && key(s[j]) !in KeysOf(s[..j], key)
  }

  /** The indices of `s` that `DedupBy` keeps, in increasing order. */
  ghost function FirstOccurrences<T, K>(s: seq<T>, key: T -> K): seq<nat>
  {
    if s == [] then []
    else
      var init := s[..|s| - 1];
      FirstOccurrences(init, key) + (if key(s[|s| - 1]) in KeysOf(init, key) then [] else [|s| - 1])
  }

  /** The kept indices are increasing and pick out the elements `DedupBy` returns. */
  lemma {:induction false} FirstOccurrencesPick<T, K>(s: seq<T>, key: T -> K)
    ensures var idx := FirstOccurrences(s, key);
      && |idx| == |DedupBy(s, key)|
      && (forall k :: 0 <= k < |idx| ==> idx[k] < |s| && DedupBy(s, key)[k] == s[idx[k]])
      && (forall k1, k2 :: 0 <= k1 < k2 < |idx| ==> idx[k1] < idx[k2])
  {
    if s != [] {
      var init := s[..|s| - 1];
      FirstOccurrencesPick(init, key);
      var idx0 := FirstOccurrences(init, key);
      var r0 := DedupBy(init, key);
      assert forall k :: 0 <= k < |idx0| ==> s[idx0[k]] == init[idx0[k]];
      if key(s[|s| - 1]) in KeysOf(init, key) {
        assert FirstOccurrences(s, key) == idx0 && DedupBy(s, key) == r0;
      } else {
        assert FirstOccurrences(s, key) == idx0 + [|s| - 1];
        assert DedupBy(s, key) == r0 + [s[|s| - 1]];
      }
    }
  }

  /** An index is kept exactly when its element is the first with its key. */
  lemma {:induction false} FirstOccurrencesExact<T, K>(s: seq<T>, key: T -> K)
    ensures forall j :: 0 <= j < |s| ==> (j in FirstOccurrences(s, key) <==> IsFirstAt(s, j, key))
  {
    if s != [] {
      var init := s[..|s| - 1];
      FirstOccurrencesExact(init, key);
      FirstOccurrencesPick(init, key);
      var idx0 := FirstOccurrences(init, key);
      var idx := FirstOccurrences(s, key);
      forall j | 0 <= j < |s| ensures j in idx <==> IsFirstAt(s, j, key) {
        if j < |s| - 1 {
          assert s[..j] == init[..j];
          assert IsFirstAt(s, j, key) <==> IsFirstAt(init, j, key);
        } else {
          assert s[..j] == init;
          assert |s| - 1 !in idx0;
        }
      }
    }
  }

  /**
   * `DedupBy(s, key)` is exactly the subsequence of `s` formed by the first
   * occurrence of every key, in the order of `s`: it keeps the element
   * itself (not another one with the same key) and never reorders.
   */
  lemma DedupKeepsFirstOccurrences<T, K>(s: seq<T>, key: T -> K)
    ensures var idx := FirstOccurrences(s, key);
      && |idx| == |DedupBy(s, key)|
      && (forall k :: 0 <= k < |idx| ==> idx[k] < |s| && DedupBy(s, key)[k] == s[idx[k]])
      && (forall k1, k2 :: 0 <= k1 < k2 < |idx| ==> idx[k1] < idx[k2])
      && (forall j :: 0 <= j < |s| ==> (j in idx <==> IsFirstAt(s, j, key)))
  {
    FirstOccurrencesPick(s, key);
    FirstOccurrencesExact(s, key);
  }

  /** Deduplicating a longer sequence only appends: the result for `a` is a prefix of that for `a + b`. */
  lemma {:induction false} DedupPrefix<T, K>(a: seq<T>, b: seq<T>, key: T -> K)
    ensures DedupBy(a, key) <= DedupBy(a + b, key)
    decreases |b|
  {
    if b == [] {
      assert a + b == a;
    } else {
      var b0 := b[..|b| - 1];
      assert (a + b)[..|a + b| - 1] == a + b0;
      DedupPrefix(a, b0, key);
    }
  }

  /** The first element always survives, in first place. */
  lemma DedupHead<T, K>(s: seq<T>, key: T -> K)
    requires s != []
    ensures DedupBy(s, key) != [] && DedupBy(s, key)[0] == s[0]
  {
    DedupSnoc([s[0]], 0, key);
    assert [s[0]][..1] == [s[0]];
    DedupPrefix([s[0]], s[1..], key);
    assert [s[0]] + s[1..] == s;
  }
}
