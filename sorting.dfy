/** Sorting a list by a string key with a strict "comes before" test, the
    way the standard library's `sorted(by:)` is used by the resort list:
    the result is a reordering of the input whose keys never decrease.
    How elements with equal keys end up ordered is not specified. */
module Sorting {
  import opened Text

  /** The keys of `s` never decrease from left to right. */
  ghost predicate SortedBy<T>(s: seq<T>, key: T -> string) {
    forall i, j :: 0 <= i < j < |s| ==> LessEq(key(s[i]), key(s[j]))
  }

  /** Every element of the sequence has a key that `k` does not exceed. */
  ghost predicate LowerBound<T>(k: string, s: seq<T>, key: T -> string) {
    forall y :: y in s ==> LessEq(k, key(y))
  }

  /** Insert `x` into `s` in front of the first element that does not come
      strictly before it. */
  function Insert<T(==)>(x: T, s: seq<T>, key: T -> string): (r: seq<T>)
    ensures multiset(r) == multiset(s) + multiset{x}
  {
    if s == [] then [x]
    else if Less(key(s[0]), key(x)) then
      assert s == [s[0]] + s[1..];
      [s[0]] + Insert(x, s[1..], key)
    else [x] + s
  }

  /** Inserting into a sorted sequence keeps it sorted. */
  lemma {:induction false} InsertSorted<T>(x: T, s: seq<T>, key: T -> string)
    requires SortedBy(s, key)
    ensures SortedBy(Insert(x, s, key), key)
  {
    if s == [] {
    } else if Less(key(s[0]), key(x)) {
      var rest := Insert(x, s[1..], key);
      assert s == [s[0]] + s[1..];
      assert SortedBy(s[1..], key);
      InsertSorted(x, s[1..], key);
      forall y | y in rest
        ensures LessEq(key(s[0]), key(y))
      {
        assert y in multiset(rest);
        if y != x {
          assert y in multiset(s[1..]);
          var j :| 0 <= j < |s[1..]| && s[1..][j] == y;
          assert s[j + 1] == y;
        }
      }
      SortedCons(s[0], rest, key);
    } else {
      forall y | y in s
        ensures LessEq(key(x), key(y))
      {
        var j :| 0 <= j < |s| && s[j] == y;
        LessEqTotalPreorder(key(x), key(s[0]), key(y));
      }
      SortedCons(x, s, key);
    }
  }

  /** A sorted tail headed by a lower bound of it is sorted. */
  lemma SortedCons<T>(x: T, s: seq<T>, key: T -> string)
    requires SortedBy(s, key) && LowerBound(key(x), s, key)
    ensures SortedBy([x] + s, key)
  {
    var r := [x] + s;
    forall i, j | 0 <= i < j < |r|
      ensures LessEq(key(r[i]), key(r[j]))
    {
      assert r[j] == s[j - 1];
      if i > 0 {
        assert r[i] == s[i - 1];
      }
    }
  }

  /** Insertion sort by `key`: the result holds exactly the elements of
      `s`, each as often as in `s`, with keys in non-decreasing order. */
  function SortBy<T(==)>(s: seq<T>, key: T -> string): (r: seq<T>)
    ensures multiset(r) == multiset(s)
    ensures |r| == |s|
    ensures SortedBy(r, key)
  {
    if s == [] then []
    else
      assert s == [s[0]] + s[1..];
      InsertSorted(s[0], SortBy(s[1..], key), key);
      Insert(s[0], SortBy(s[1..], key), key)
  }

  /** Removing the element at position `j` keeps a sequence sorted. */
  lemma SortedWithout<T>(s: seq<T>, j: nat, key: T -> string)
    requires j < |s| && SortedBy(s, key)
    ensures SortedBy(s[..j] + s[j + 1..], key)
  {
    var t := s[..j] + s[j + 1..];
    forall i, k | 0 <= i < k < |t|
      ensures LessEq(key(t[i]), key(t[k]))
    {
      var i' := if i < j then i else i + 1;
      var k' := if k < j then k else k + 1;
      assert t[i] == s[i'] && t[k] == s[k'];
    }
  }

  /** Removing the element at position `j` removes one copy of it. */
  lemma MultisetWithout<T>(s: seq<T>, j: nat)
    requires j < |s|
    ensures multiset(s[..j] + s[j + 1..]) == multiset(s) - multiset{s[j]}
  {
    assert s == s[..j] + [s[j]] + s[j + 1..];
  }

  /** Two sorted rearrangements of the same elements start with equal keys. */
  lemma SortedPermutationsHeadKey<T>(a: seq<T>, b: seq<T>, key: T -> string)
    requires multiset(a) == multiset(b) && a != []
    requires SortedBy(a, key) && SortedBy(b, key)
    ensures b != [] && key(a[0]) == key(b[0])
  {
    assert a[0] in multiset(b);
    var j :| 0 <= j < |b| && b[j] == a[0];
    assert b[0] in multiset(a);
    var m :| 0 <= m < |a| && a[m] == b[0];
    LessIrreflexive(key(a[0]));
    assert LessEq(key(a[0]), key(b[0])) by {
      if m > 0 { assert LessEq(key(a[0]), key(a[m])); }
    }
    assert LessEq(key(b[0]), key(a[0])) by {
      if j > 0 { assert LessEq(key(b[0]), key(b[j])); }
    }
    LessEqAntisymmetric(key(a[0]), key(b[0]));
  }

  /** In a sorted sequence, every key between two equal keys equals them. */
  lemma SortedPlateau<T>(b: seq<T>, j: nat, key: T -> string)
    requires j < |b| && SortedBy(b, key) && key(b[j]) == key(b[0])
    ensures forall q :: 0 <= q <= j ==> key(b[q]) == key(b[0])
  {
    forall q | 0 < q < j
      ensures key(b[q]) == key(b[0])
    {
      assert LessEq(key(b[0]), key(b[q])) && LessEq(key(b[q]), key(b[j]));
      LessEqAntisymmetric(key(b[q]), key(b[0]));
    }
  }

  /** If the tail of `a` has the keys of `b` without position `j`, and the
      keys of `b` up to `j` all equal the head key of `a`, then `a` and `b`
      have the same keys. */
  lemma StitchKeys<T>(a: seq<T>, b: seq<T>, j: nat, key: T -> string)
    requires 0 < |a| == |b| && j < |b|
    requires forall q :: 0 <= q <= j ==> key(b[q]) == key(a[0])
    requires forall i :: 0 <= i < |a| - 1 ==> key(a[1..][i]) == key((b[..j] + b[j + 1..])[i])
    ensures forall i :: 0 <= i < |a| ==> key(a[i]) == key(b[i])
  {
    var rest := b[..j] + b[j + 1..];
    forall i | 0 < i < |a|
      ensures key(a[i]) == key(b[i])
    {
      assert a[i] == a[1..][i - 1];
      if i - 1 < j {
        assert rest[i - 1] == b[i - 1];
      } else {
        assert rest[i - 1] == b[j + 1..][i - 1 - j] == b[i];
      }
    }
  }

  /** The ordering a sort must produce is unique up to ties: two sorted
      rearrangements of the same elements list the same keys in the same
      order. So any sort meeting the contract of `SortBy` shows the same
      sequence of keys, whatever it does with equal keys. */
  lemma {:induction false} SortedPermutationsAgreeOnKeys<T>(a: seq<T>, b: seq<T>, key: T -> string)
    requires multiset(a) == multiset(b)
    requires SortedBy(a, key) && SortedBy(b, key)
    ensures |a| == |b|
    ensures forall i :: 0 <= i < |a| ==> key(a[i]) == key(b[i])
    decreases |a|
  {
    assert |a| == |multiset(a)| == |multiset(b)| == |b|;
    if a != [] {
      SortedPermutationsHeadKey(a, b, key);
      assert a[0] in multiset(b);
      var j :| 0 <= j < |b| && b[j] == a[0];
      SortedPlateau(b, j, key);
      var rest := b[..j] + b[j + 1..];
      assert a[..0] + a[1..] == a[1..];
      assert multiset(a[1..]) == multiset(rest) by {
        MultisetWithout(b, j);
        MultisetWithout(a, 0);
      }
      assert SortedBy(rest, key) by {
        SortedWithout(b, j, key);
      }
      assert SortedBy(a[1..], key) by {
        SortedWithout(a, 0, key);
      }
      SortedPermutationsAgreeOnKeys(a[1..], rest, key);
      StitchKeys(a, b, j, key);
    }
  }
}
