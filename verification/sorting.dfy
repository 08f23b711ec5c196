/** Descending sort by a numeric key, the shape of pandas'
    `sort_values(ascending=False)`. pandas' default sort is not stable, so
    nothing is promised about the relative order of equal keys: only that the
    result is a rearrangement of the input with keys never increasing. */
module Sorting {

  /** Keys never increase from left to right. */
  predicate SortedDesc<T>(s: seq<T>, key: T -> real) {
    forall i, j :: 0 <= i < j < |s| ==> key(s[i]) >= key(s[j])
  }

  /** `x` placed in front of the first element whose key is not larger. */
  function Insert<T>(x: T, s: seq<T>, key: T -> real): (r: seq<T>)
    ensures |r| == |s| + 1
    ensures multiset(r) == multiset(s) + multiset{x}
  {
    if s == [] || key(x) >= key(s[0]) then
      [x] + s
    else
      assert s == [s[0]] + s[1..];
      [s[0]] + Insert(x, s[1..], key)
  }

  /** Inserting into a sorted sequence keeps it sorted, and the new head is
      either `x` or the old head. */
  lemma {:induction false} InsertSorted<T>(x: T, s: seq<T>, key: T -> real)
    requires SortedDesc(s, key)
    ensures SortedDesc(Insert(x, s, key), key)
    ensures Insert(x, s, key)[0] == x || (s != [] && Insert(x, s, key)[0] == s[0])
  {
    if s == [] || key(x) >= key(s[0]) {
      ConsSorted(x, s, key);
    } else {
      var rest := Insert(x, s[1..], key);
      InsertSorted(x, s[1..], key);
      assert rest[0] == x || rest[0] == s[1];
      ConsSorted(s[0], rest, key);
    }
  }

  /** An element no smaller than the head of a sorted sequence can go in front. */
  lemma ConsSorted<T>(y: T, rest: seq<T>, key: T -> real)
    requires SortedDesc(rest, key) && (rest == [] || key(y) >= key(rest[0]))
    ensures SortedDesc([y] + rest, key)
  {
    var r := [y] + rest;
    forall i, j | 0 <= i < j < |r|
      ensures key(r[i]) >= key(r[j])
    {
      if i == 0 {
        assert r[j] == rest[j - 1];
        assert key(rest[0]) >= key(rest[j - 1]);
      } else {
        assert r[i] == rest[i - 1] && r[j] == rest[j - 1];
      }
    }
  }

  /** Insertion sort from the back, descending by `key`. */
  function SortDesc<T>(s: seq<T>, key: T -> real): (r: seq<T>)
    ensures |r| == |s|
    ensures multiset(r) == multiset(s)
    ensures SortedDesc(r, key)
  {
    if s == [] then []
    else
      assert s == [s[0]] + s[1..];
      InsertSorted(s[0], SortDesc(s[1..], key), key);
      Insert(s[0], SortDesc(s[1..], key), key)
  }

  /** Two sorted rearrangements of the same elements have the same keys in
      the same positions: only ties may be ordered differently. */
  lemma {:induction false} SortedKeysUnique<T>(a: seq<T>, b: seq<T>, key: T -> real)
    requires SortedDesc(a, key) && SortedDesc(b, key)
    requires multiset(a) == multiset(b)
    ensures |a| == |b|
    ensures forall i :: 0 <= i < |a| ==> key(a[i]) == key(b[i])
    decreases |a|
  {
    assert |a| == |multiset(a)| == |multiset(b)| == |b|;
    if a != [] {
      var i := HeadKeysAgree(a, b, key);
      var b' := b[..i] + b[i + 1..];
      RemoveFirst(a, b, i);
      SortedRemove(b, key, i);
      SortedKeysUnique(a[1..], b', key);
      RemoveKeepsKeys(b, key, i);
      CombineKeys(a, b, b', key);
    }
  }

  /** Taking the first element of `a` out of `b` leaves the rest of `a`. */
  lemma RemoveFirst<T>(a: seq<T>, b: seq<T>, i: nat)
    requires multiset(a) == multiset(b) && a != [] && i < |b| && b[i] == a[0]
    ensures multiset(a[1..]) == multiset(b[..i] + b[i + 1..])
  {
    var b' := b[..i] + b[i + 1..];
    assert a == [a[0]] + a[1..];
    assert b == b[..i] + [a[0]] + b[i + 1..];
    assert multiset(a) == multiset{a[0]} + multiset(a[1..]);
    assert multiset(b) == multiset(b[..i]) + multiset{a[0]} + multiset(b[i + 1..]);
    assert multiset(b') == multiset(b[..i]) + multiset(b[i + 1..]);
    assert multiset(a[1..]) == multiset(a) - multiset{a[0]};
    assert multiset(b') == multiset(b) - multiset{a[0]};
  }

  /** Keys agreeing at the head and, shifted by one, on the rest agree everywhere. */
  lemma CombineKeys<T>(a: seq<T>, b: seq<T>, b': seq<T>, key: T -> real)
    requires |a| == |b| == |b'| + 1
    requires key(a[0]) == key(b[0])
    requires forall k :: 0 <= k < |b'| ==> key(a[1..][k]) == key(b'[k])
    requires forall k :: 1 <= k < |b| ==> key(b'[k - 1]) == key(b[k])
    ensures forall k :: 0 <= k < |a| ==> key(a[k]) == key(b[k])
  {
    forall k | 1 <= k < |a|
      ensures key(a[k]) == key(b[k])
    {
      assert a[1..][k - 1] == a[k];
    }
  }

  /** Sorted rearrangements start with the same key, and the first element of
      one sits at some position `i` of the other. */
  lemma HeadKeysAgree<T>(a: seq<T>, b: seq<T>, key: T -> real) returns (i: nat)
    requires SortedDesc(a, key) && SortedDesc(b, key)
    requires multiset(a) == multiset(b) && a != []
    ensures i < |b| && b[i] == a[0]
    ensures key(a[0]) == key(b[0])
  {
    assert a[0] in multiset(b);
    assert b[0] in multiset(a);
    i :| 0 <= i < |b| && b[i] == a[0];
    var j :| 0 <= j < |a| && a[j] == b[0];
    assert key(a[0]) >= key(a[j]) && key(b[0]) >= key(b[i]);
  }

  /** When `b[i]` has the first key, removing it leaves the keys of `b`
      shifted by one position. */
  lemma RemoveKeepsKeys<T>(b: seq<T>, key: T -> real, i: nat)
    requires SortedDesc(b, key) && i < |b| && key(b[i]) == key(b[0])
    ensures forall k :: 1 <= k < |b| ==> key((b[..i] + b[i + 1..])[k - 1]) == key(b[k])
  {
    var r := b[..i] + b[i + 1..];
    forall k | 1 <= k < |b|
      ensures key(r[k - 1]) == key(b[k])
    {
      if k <= i {
        assert r[k - 1] == b[k - 1];
        assert key(b[0]) >= key(b[k - 1]) >= key(b[i]);
        assert key(b[0]) >= key(b[k]) >= key(b[i]);
      } else {
        assert r[k - 1] == b[k];
      }
    }
  }

  /** Removing one element keeps a sequence sorted. */
  lemma SortedRemove<T>(b: seq<T>, key: T -> real, i: nat)
    requires SortedDesc(b, key) && i < |b|
    ensures SortedDesc(b[..i] + b[i + 1..], key)
  {
    var r := b[..i] + b[i + 1..];
    forall p, q | 0 <= p < q < |r|
      ensures key(r[p]) >= key(r[q])
    {
      var p' := if p < i then p else p + 1;
      var q' := if q < i then q else q + 1;
      assert r[p] == b[p'] && r[q] == b[q'];
    }
  }
}
