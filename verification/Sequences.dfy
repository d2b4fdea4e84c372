/** What the kernel's lists are as sequences: places for sorted insertion, insertion,
    removal, and lists without repetition. */
module Sequences {
  // ----- sorted insertion, on the keys alone -----

  predicate Sorted(s: seq<int>) { forall i, j | 0 <= i < j < |s| :: s[i] <= s[j] }

  /** The place before the first larger key. */
  function InsertPos(s: seq<int>, key: int): (k: nat)
    ensures k <= |s|
    ensures forall i | 0 <= i < k :: s[i] <= key
    ensures k < |s| ==> s[k] > key
  {
    if s == [] || s[0] > key then 0 else 1 + InsertPos(s[1..], key)
  }

  lemma FirstLarger(s: seq<int>, key: int, i: nat)
    requires i <= |s| && (forall j | 0 <= j < i :: s[j] <= key) && (i < |s| ==> s[i] > key)
    ensures InsertPos(s, key) == i
  {
    var k := InsertPos(s, key);
    assert i < |s| ==> s[i] > key;
  }

  function InsertAt<T>(s: seq<T>, k: nat, x: T): seq<T>
    requires k <= |s|
  {
    s[..k] + [x] + s[k..]
  }

  function RemoveAt<T>(s: seq<T>, k: nat): seq<T>
    requires k < |s|
  {
    s[..k] + s[k + 1..]
  }

  lemma RemoveAtIndex<T>(s: seq<T>, k: nat)
    requires k < |s|
    ensures |RemoveAt(s, k)| == |s| - 1
    ensures forall i | 0 <= i < k :: RemoveAt(s, k)[i] == s[i]
    ensures forall i | k <= i < |s| - 1 :: RemoveAt(s, k)[i] == s[i + 1]
  {}

  lemma InsertAtIndex<T>(s: seq<T>, k: nat, x: T)
    requires k <= |s|
    ensures |InsertAt(s, k, x)| == |s| + 1 && InsertAt(s, k, x)[k] == x
    ensures forall i | 0 <= i < k :: InsertAt(s, k, x)[i] == s[i]
    ensures forall i | k < i <= |s| :: InsertAt(s, k, x)[i] == s[i - 1]
  {}

  lemma SortedAround(s: seq<int>, k: nat, key: int, r: seq<int>)
    requires Sorted(s) && k <= |s| && |r| == |s| + 1 && r[k] == key
    requires forall i | 0 <= i < k :: r[i] == s[i] && s[i] <= key
    requires forall i | k < i <= |s| :: r[i] == s[i - 1]
    requires k < |s| ==> s[k] > key
    ensures Sorted(r) && forall i | k < i < |r| :: r[i] > key
  {
    forall i | k < i < |r| ensures r[i] == s[i - 1] && s[i - 1] > key {
      assert s[k] <= s[i - 1];
    }
    forall i, j | 0 <= i < j < |r| ensures r[i] <= r[j] {
      if j < k { assert s[i] <= s[j]; }
      if k < i { assert s[i - 1] <= s[j - 1]; }
    }
  }

  /** Sorted insertion keeps a list sorted, loses nothing and puts a key behind its equals. */
  lemma InsertKeepsSorted(s: seq<int>, key: int)
    requires Sorted(s)
    ensures var k := InsertPos(s, key); var r := InsertAt(s, k, key);
            && Sorted(r) && multiset(r) == multiset(s) + multiset{key}
            && r[k] == key && (forall i | k < i < |r| :: r[i] > key) && (forall i | 0 <= i < k :: r[i] == s[i] <= key)
  {
    var k := InsertPos(s, key);
    InsertAtIndex(s, k, key);
    InsertMultiset(s, k, key);
    SortedAround(s, k, key, InsertAt(s, k, key));
  }

  lemma InsertMultiset(s: seq<int>, k: nat, key: int)
    requires k <= |s|
    ensures multiset(InsertAt(s, k, key)) == multiset(s) + multiset{key}
  {
    assert s == s[..k] + s[k..];
  }

  // ----- distinct elements and removal -----

  predicate Distinct<T(==)>(s: seq<T>) { forall i, j | 0 <= i < j < |s| :: s[i] != s[j] }

  /** list_remove. */
  function Without<T(==)>(s: seq<T>, x: T): seq<T> {
    if s == [] then [] else if s[0] == x then s[1..] else [s[0]] + Without(s[1..], x)
  }

  lemma {:induction false} WithoutIs<T>(s: seq<T>, x: T)
    requires Distinct(s)
    ensures Distinct(Without(s, x)) && forall y :: y in Without(s, x) <==> y in s && y != x
    ensures x !in s ==> Without(s, x) == s
  {
    if s != [] {
      assert s == [s[0]] + s[1..];
      assert s[0] !in s[1..];
      if s[0] != x {
        WithoutIs(s[1..], x);
        assert s[0] !in Without(s[1..], x);
      }
    }
  }

  lemma PushIs<T>(s: seq<T>, x: T)
    requires Distinct(s) && x !in s
    ensures Distinct([x] + s) && forall y :: y in [x] + s <==> y == x || y in s
  {}

  /** Removing keeps the order of what stays. */
  lemma WithoutOrder<T>(s: seq<T>, x: T, i: nat, j: nat) returns (i': nat, j': nat)
    requires i < j < |Without(s, x)|
    ensures i' < j' < |s| && s[i'] == Without(s, x)[i] && s[j'] == Without(s, x)[j]
  {
    if s[0] == x {
      i', j' := i + 1, j + 1;
    } else if i > 0 {
      i', j' := WithoutOrder(s[1..], x, i - 1, j - 1);
      i', j' := i' + 1, j' + 1;
    } else {
      i' := 0;
      j' := WithoutAt(s[1..], x, j - 1);
      j' := j' + 1;
    }
  }

  lemma WithoutAt<T>(s: seq<T>, x: T, i: nat) returns (i': nat)
    requires i < |Without(s, x)|
    ensures i' < |s| && s[i'] == Without(s, x)[i]
  {
    if s[0] == x { i' := i + 1; }
    else if i == 0 { i' := 0; }
    else { i' := WithoutAt(s[1..], x, i - 1); i' := i' + 1; }
  }
}
