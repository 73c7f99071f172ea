/** Sequence helpers shared by the pipeline: Python's stable `sorted(..., key=...)`
    and "distinct values in order of first appearance". */
module Seqs {

  /** Every pair of positions is in ascending key order. */
  predicate SortedBy<T>(s: seq<T>, key: T -> int) {
    forall i, j :: 0 <= i < j < |s| ==> key(s[i]) <= key(s[j])
  }

  /** Inserts x after every element whose key is not larger than x's, which keeps
      equal keys in insertion order (the sort is stable). */
  function InsertBy<T>(t: seq<T>, x: T, key: T -> int): (r: seq<T>)
    ensures multiset(r) == multiset(t) + multiset{x}
    ensures |r| == |t| + 1
    ensures forall i :: 0 <= i < |r| ==> r[i] == x || r[i] in t
  {
    if t == [] then [x]
    else if key(t[|t| - 1]) <= key(x) then t + [x]
    else
      var init, last := t[..|t| - 1], t[|t| - 1];
      assert t == init + [last];
      var r' := InsertBy(init, x, key);
      assert forall i :: 0 <= i < |r'| ==> r'[i] == x || r'[i] in t;
      r' + [last]
  }

  /** Inserting into a sorted sequence keeps it sorted. */
  lemma {:induction false} InsertBySorted<T>(t: seq<T>, x: T, key: T -> int)
    requires SortedBy(t, key)
    ensures SortedBy(InsertBy(t, x, key), key)
  {
    var r := InsertBy(t, x, key);
    if t != [] && key(t[|t| - 1]) > key(x) {
      var init, last := t[..|t| - 1], t[|t| - 1];
      assert t == init + [last];
      assert SortedBy(init, key) by {
        forall i, j | 0 <= i < j < |init| ensures key(init[i]) <= key(init[j]) {
          assert init[i] == t[i] && init[j] == t[j];
        }
      }
      InsertBySorted(init, x, key);
      var r' := InsertBy(init, x, key);
      assert r == r' + [last];
      forall i | 0 <= i < |r'| ensures key(r'[i]) <= key(last) {
        if r'[i] != x {
          var k := IndexOf(init, r'[i]);
          assert init[k] == t[k];
        }
      }
      forall i, j | 0 <= i < j < |r| ensures key(r[i]) <= key(r[j]) {
        if j < |r'| {
          assert r[i] == r'[i] && r[j] == r'[j];
        } else {
          assert r[i] == r'[i] && r[j] == last;
        }
      }
    } else if t != [] {
      assert r == t + [x];
      forall i, j | 0 <= i < j < |r| ensures key(r[i]) <= key(r[j]) {
        if j < |t| {
          assert r[i] == t[i] && r[j] == t[j];
        } else {
          assert r[i] == t[i] && key(t[i]) <= key(t[|t| - 1]);
        }
      }
    }
  }

  /** Python's `sorted(s, key=key)`: insertion sort from the front of s. */
  function SortBy<T>(s: seq<T>, key: T -> int): (r: seq<T>)
    ensures multiset(r) == multiset(s)
    ensures |r| == |s|
    ensures SortedBy(r, key)
  {
    if s == [] then []
    else
      assert s == s[..|s| - 1] + [s[|s| - 1]];
      var p := SortBy(s[..|s| - 1], key);
      InsertBySorted(p, s[|s| - 1], key);
      InsertBy(p, s[|s| - 1], key)
  }

  /** Sorting an already sorted sequence changes nothing. */
  lemma {:induction false} SortBySorted<T>(s: seq<T>, key: T -> int)
    requires SortedBy(s, key)
    ensures SortBy(s, key) == s
  {
    if s != [] {
      var init, x := s[..|s| - 1], s[|s| - 1];
      SortedInit(s, key);
      SortBySorted(init, key);
      InsertAtEnd(init, x, key);
      assert SortBy(s, key) == InsertBy(SortBy(init, key), x, key);
    }
  }

  /** The front of a sorted sequence is sorted and ends no higher than its last element. */
  lemma SortedInit<T>(s: seq<T>, key: T -> int)
    requires SortedBy(s, key) && s != []
    ensures SortedBy(s[..|s| - 1], key)
    ensures |s| > 1 ==> key(s[..|s| - 1][|s| - 2]) <= key(s[|s| - 1])
  {
    var init := s[..|s| - 1];
    forall i, j | 0 <= i < j < |init| ensures key(init[i]) <= key(init[j]) {
      assert init[i] == s[i] && init[j] == s[j];
    }
  }

  /** An element no smaller than the last goes at the end. */
  lemma InsertAtEnd<T>(t: seq<T>, x: T, key: T -> int)
    requires t == [] || key(t[|t| - 1]) <= key(x)
    ensures InsertBy(t, x, key) == t + [x]
  {
  }

  lemma SortedAppend<T>(a: seq<T>, b: seq<T>, key: T -> int)
    requires SortedBy(a, key) && SortedBy(b, key)
    requires forall i, j :: 0 <= i < |a| && 0 <= j < |b| ==> key(a[i]) <= key(b[j])
    ensures SortedBy(a + b, key)
  {
    var c := a + b;
    forall i, j | 0 <= i < j < |c| ensures key(c[i]) <= key(c[j]) {
      if j < |a| { assert c[i] == a[i] && c[j] == a[j]; }
      else if i >= |a| { assert c[i] == b[i - |a|] && c[j] == b[j - |a|]; }
      else { assert c[i] == a[i] && c[j] == b[j - |a|]; }
    }
  }

  /** No value occurs twice. */
  predicate NoDuplicates<T(==)>(s: seq<T>) {
    forall i, j :: 0 <= i < j < |s| ==> s[i] != s[j]
  }

  /** Appending a new value keeps a sequence free of duplicates. */
  lemma NoDuplicatesAppend<T>(s: seq<T>, x: T)
    requires NoDuplicates(s) && x !in s
    ensures NoDuplicates(s + [x])
  {
    forall p, q | 0 <= p < q < |s| + 1 ensures (s + [x])[p] != (s + [x])[q] {
      if q == |s| { assert s[p] in s; }
    }
  }

  /** A non-empty sequence has its first element as a member. */
  lemma HeadMember<T>(s: seq<T>)
    ensures s != [] ==> s[0] in s
  {
  }

  /** Index of the first occurrence of x in s. */
  function IndexOf<T(==)>(s: seq<T>, x: T): (i: nat)
    requires x in s
    ensures i < |s| && s[i] == x
    ensures forall j :: 0 <= j < i ==> s[j] != x
  {
    if s[0] == x then 0 else 1 + IndexOf(s[1..], x)
  }

  lemma IndexOfPrefix<T>(s: seq<T>, k: nat, x: T)
    requires k <= |s| && x in s[..k]
    ensures IndexOf(s[..k], x) == IndexOf(s, x)
  {
    var i := IndexOf(s[..k], x);
    var j := IndexOf(s, x);
    assert s[..k][i] == s[i];
  }

  /** The distinct values of s, each once, in order of first appearance
      (the `if x not in seen: seen.append(x)` idiom). */
  function FirstAppearances<T(==)>(s: seq<T>): (r: seq<T>)
    ensures NoDuplicates(r)
    ensures forall i :: 0 <= i < |s| ==> s[i] in r
    ensures forall i :: 0 <= i < |r| ==> r[i] in s
    ensures |r| <= |s|
  {
    if s == [] then []
    else
      var p := FirstAppearances(s[..|s| - 1]);
      var x := s[|s| - 1];
      assert s == s[..|s| - 1] + [x];
      if x in p then p else p + [x]
  }

  /** One step of FirstAppearances, for callers that hold s only through its prefix. */
  lemma FirstAppearancesStep<T>(s: seq<T>, init: seq<T>, x: T)
    requires s == init + [x]
    ensures FirstAppearances(s)
      == if x in FirstAppearances(init) then FirstAppearances(init) else FirstAppearances(init) + [x]
  {
    assert s[..|s| - 1] == init;
  }

  /** The values of FirstAppearances(s) are ordered by where they first occur in s. */
  lemma {:induction false} FirstAppearancesOrdered<T>(s: seq<T>)
    ensures forall i, j :: 0 <= i < j < |FirstAppearances(s)| ==>
      IndexOf(s, FirstAppearances(s)[i]) < IndexOf(s, FirstAppearances(s)[j])
  {
    if s != [] {
      var init := s[..|s| - 1];
      var x := s[|s| - 1];
      var p := FirstAppearances(init);
      FirstAppearancesOrdered(init);
      forall y | y in p ensures IndexOf(s, y) == IndexOf(init, y) && IndexOf(init, y) < |init| {
        IndexOfPrefix(s, |s| - 1, y);
      }
      if x !in p {
        assert x !in init;
        assert IndexOf(s, x) == |s| - 1;
      }
    }
  }

  /** The first value to appear comes first. */
  lemma FirstAppearancesHead<T>(s: seq<T>)
    requires s != []
    ensures FirstAppearances(s) != [] && FirstAppearances(s)[0] == s[0]
  {
    var r := FirstAppearances(s);
    FirstAppearancesOrdered(s);
    var q := IndexOf(r, s[0]);
    assert IndexOf(s, r[q]) == 0;
    assert q == 0;
  }

  /** A value occurs at most once in a sequence without duplicates. */
  lemma {:induction false} NoDuplicatesCount<T>(s: seq<T>, x: T)
    requires NoDuplicates(s)
    ensures multiset(s)[x] <= 1
  {
    if s != [] {
      var init := s[..|s| - 1];
      assert s == init + [s[|s| - 1]];
      assert NoDuplicates(init) by {
        forall i, j | 0 <= i < j < |init| ensures init[i] != init[j] { assert init[i] == s[i] && init[j] == s[j]; }
      }
      NoDuplicatesCount(init, x);
      if s[|s| - 1] == x {
        forall k | 0 <= k < |init| ensures init[k] != x { assert init[k] == s[k]; }
        assert x !in init;
      }
    }
  }

  /** A value found at two positions occurs at least twice. */
  lemma DuplicateCount<T>(s: seq<T>, a: nat, b: nat)
    requires a < b < |s|
    ensures s[a] == s[b] ==> multiset(s)[s[a]] >= 2
  {
    assert s == s[..b] + [s[b]] + s[b + 1..];
    assert s[..b][a] == s[a];
    assert s[a] in multiset(s[..b]);
  }

  /** A rearrangement keeps a key that is distinct per element distinct. */
  lemma PermutationKeysDistinct<T, K>(s: seq<T>, r: seq<T>, key: T -> K)
    requires multiset(r) == multiset(s)
    requires forall a, b :: 0 <= a < b < |s| ==> key(s[a]) != key(s[b])
    ensures forall a, b :: 0 <= a < b < |r| ==> key(r[a]) != key(r[b])
  {
    assert NoDuplicates(s) by {
      forall a, b | 0 <= a < b < |s| ensures s[a] != s[b] { assert key(s[a]) != key(s[b]); }
    }
    forall a, b | 0 <= a < b < |r| ensures key(r[a]) != key(r[b]) {
      assert r[a] in multiset(s) && r[b] in multiset(s);
      var p := IndexOf(s, r[a]);
      var q := IndexOf(s, r[b]);
      NoDuplicatesCount(s, r[a]);
      DuplicateCount(r, a, b);
      assert r[a] != r[b];
      assert p != q;
    }
  }
}
