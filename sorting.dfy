/** The two library routines the store's Sort and Binary Search commands
    call on a snapshot of its records: java.util.Arrays.sort, stated by its
    contract (ascending under compareTo, a permutation, stable) and
    realised by an insertion sort proved to meet it, and
    java.util.Arrays.binarySearch with a String key. */
module Sorting {
  import opened Strings
  import opened Recyclers

  /** Ascending under compareTo. */
  ghost predicate SortedByName(s: seq<Recycler>)
  {
    forall i, j :: 0 <= i < j < |s| ==> CompareTo(s[i], s[j]) <= 0
  }

  /** The records of s whose key is k, in their order in s. Two sequences
      that agree on WithKey for every k hold the same records, and records
      with equal names appear in the same relative order in both. */
  function WithKey(s: seq<Recycler>, k: string): seq<Recycler>
  {
    if s == [] then [] else (if Key(s[0]) == k then [s[0]] else []) + WithKey(s[1..], k)
  }

  /** Inserts x in front of the first record that does not sort below it. */
  function InsertByName(x: Recycler, s: seq<Recycler>): (r: seq<Recycler>)
    ensures |r| == |s| + 1
    ensures multiset(r) == multiset(s) + multiset{x}
  {
    if s == [] || CompareTo(x, s[0]) <= 0 then [x] + s
    else
      assert s == [s[0]] + s[1..];
      [s[0]] + InsertByName(x, s[1..])
  }

  /** The model of Arrays.sort on the snapshot: a stable insertion sort. */
  function SortByName(s: seq<Recycler>): (r: seq<Recycler>)
    ensures |r| == |s|
    ensures multiset(r) == multiset(s)
  {
    if s == [] then []
    else
      assert s == [s[0]] + s[1..];
      InsertByName(s[0], SortByName(s[1..]))
  }

  /** A record at or below h and every element of r, put in front, keeps it ascending. */
  lemma SortedCons(h: Recycler, r: seq<Recycler>)
    requires SortedByName(r)
    requires forall j :: 0 <= j < |r| ==> CompareTo(h, r[j]) <= 0
    ensures SortedByName([h] + r)
  {
    var hr := [h] + r;
    forall i, j | 0 <= i < j < |hr|
      ensures CompareTo(hr[i], hr[j]) <= 0
    {
      assert hr[j] == r[j - 1];
      if i > 0 {
        assert hr[i] == r[i - 1];
      }
    }
  }

  /** A lower bound of x and of every element of s bounds the insertion too. */
  lemma {:induction false} InsertByNameBounded(x: Recycler, s: seq<Recycler>, y: Recycler)
    requires CompareTo(y, x) <= 0
    requires forall j :: 0 <= j < |s| ==> CompareTo(y, s[j]) <= 0
    ensures forall j :: 0 <= j < |InsertByName(x, s)| ==> CompareTo(y, InsertByName(x, s)[j]) <= 0
  {
    if s != [] && CompareTo(x, s[0]) > 0 {
      InsertByNameBounded(x, s[1..], y);
      var r := InsertByName(x, s[1..]);
      assert InsertByName(x, s) == [s[0]] + r;
      forall j | 0 <= j < |[s[0]] + r|
        ensures CompareTo(y, ([s[0]] + r)[j]) <= 0
      {
        if j > 0 {
          assert ([s[0]] + r)[j] == r[j - 1];
        }
      }
    } else {
      var r := [x] + s;
      forall j | 0 <= j < |r|
        ensures CompareTo(y, r[j]) <= 0
      {
        if j > 0 {
          assert r[j] == s[j - 1];
        }
      }
    }
  }

  /** Inserting into an ascending sequence keeps it ascending. */
  lemma {:induction false} InsertByNameSorted(x: Recycler, s: seq<Recycler>)
    requires SortedByName(s)
    ensures SortedByName(InsertByName(x, s))
  {
    if s == [] || CompareTo(x, s[0]) <= 0 {
      forall j | 0 <= j < |s|
        ensures CompareTo(x, s[j]) <= 0
      {
        if j > 0 {
          CompareToTotalPreorder(x, s[0], s[j]);
        }
      }
      SortedCons(x, s);
    } else {
      var t := s[1..];
      assert SortedByName(t) by {
        forall i, j | 0 <= i < j < |t|
          ensures CompareTo(t[i], t[j]) <= 0
        {
          assert t[i] == s[i + 1] && t[j] == s[j + 1];
        }
      }
      InsertByNameSorted(x, t);
      CompareToTotalPreorder(x, s[0], s[0]);
      forall j | 0 <= j < |t|
        ensures CompareTo(s[0], t[j]) <= 0
      {
        assert t[j] == s[j + 1];
      }
      InsertByNameBounded(x, t, s[0]);
      SortedCons(s[0], InsertByName(x, t));
    }
  }

  /** The sorted snapshot is in ascending order. */
  lemma {:induction false} SortByNameSorted(s: seq<Recycler>)
    ensures SortedByName(SortByName(s))
  {
    if s != [] {
      SortByNameSorted(s[1..]);
      InsertByNameSorted(s[0], SortByName(s[1..]));
    }
  }

  /** Selecting one key distributes over concatenation. */
  lemma {:induction false} WithKeyConcat(s: seq<Recycler>, t: seq<Recycler>, k: string)
    ensures WithKey(s + t, k) == WithKey(s, k) + WithKey(t, k)
  {
    if s == [] {
      assert s + t == t;
    } else {
      var st := s + t;
      assert st[0] == s[0] && st[1..] == s[1..] + t;
      var head := if Key(s[0]) == k then [s[0]] else [];
      assert WithKey(st, k) == head + WithKey(s[1..] + t, k);
      WithKeyConcat(s[1..], t, k);
      assert WithKey(s, k) == head + WithKey(s[1..], k);
    }
  }

  lemma WithKeySingleton(y: Recycler, k: string)
    ensures WithKey([y], k) == if Key(y) == k then [y] else []
  {
    assert [y][1..] == [];
  }

  /** Insertion puts x before every record with x's key: it passes only
      records that sort strictly below it. */
  lemma {:induction false} InsertByNameWithKey(x: Recycler, s: seq<Recycler>, k: string)
    ensures WithKey(InsertByName(x, s), k) == WithKey([x], k) + WithKey(s, k)
  {
    if s == [] || CompareTo(x, s[0]) <= 0 {
      WithKeyConcat([x], s, k);
    } else {
      var rest := InsertByName(x, s[1..]);
      assert InsertByName(x, s) == [s[0]] + rest;
      assert s == [s[0]] + s[1..];
      InsertByNameWithKey(x, s[1..], k);
      WithKeyConcat([s[0]], rest, k);
      WithKeyConcat([s[0]], s[1..], k);
      WithKeySingleton(x, k);
      WithKeySingleton(s[0], k);
    }
  }

  /** Sorting is stable: for every key, the records with that key keep
      their relative order. */
  lemma {:induction false} SortByNameStable(s: seq<Recycler>, k: string)
    ensures WithKey(SortByName(s), k) == WithKey(s, k)
  {
    if s != [] {
      SortByNameStable(s[1..], k);
      InsertByNameWithKey(s[0], SortByName(s[1..]), k);
      WithKeyConcat([s[0]], s[1..], k);
      assert [s[0]] + s[1..] == s;
    }
  }

  /** What WithKey selects is in s and has key k. */
  lemma {:induction false} WithKeyMember(s: seq<Recycler>, k: string, y: Recycler)
    requires y in WithKey(s, k)
    ensures y in s && Key(y) == k
  {
    if s != [] {
      if y != s[0] || Key(s[0]) != k {
        WithKeyMember(s[1..], k, y);
      }
    }
  }

  /** Two ascending sequences that agree on the records of every key are
      equal. */
  lemma {:induction false} SortedStableUnique(a: seq<Recycler>, b: seq<Recycler>)
    requires SortedByName(a) && SortedByName(b)
    requires forall k :: WithKey(a, k) == WithKey(b, k)
    ensures a == b
    decreases |a| + |b|
  {
    if a == [] || b == [] {
      if a != [] {
        assert WithKey(a, Key(a[0])) != WithKey(b, Key(a[0]));
        assert false;
      } else if b != [] {
        assert WithKey(a, Key(b[0])) != WithKey(b, Key(b[0]));
        assert false;
      }
    } else {
      WithKeyMember(a, Key(b[0]), b[0]);
      WithKeyMember(b, Key(a[0]), a[0]);
      FirstIsLeast(a, b[0]);
      FirstIsLeast(b, a[0]);
      CompareToTotalPreorder(a[0], b[0], b[0]);
      CompareToZeroIffSameKey(a[0], b[0], "");
      var k0 := Key(a[0]);
      assert WithKey(a, k0) == [a[0]] + WithKey(a[1..], k0);
      assert WithKey(b, k0) == [b[0]] + WithKey(b[1..], k0);
      assert a[0] == WithKey(a, k0)[0] == WithKey(b, k0)[0] == b[0];
      forall k
        ensures WithKey(a[1..], k) == WithKey(b[1..], k)
      {
        var x, y := WithKey(a[1..], k), WithKey(b[1..], k);
        if k == k0 {
          assert WithKey(a, k) == [a[0]] + x && WithKey(b, k) == [a[0]] + y;
          assert x == ([a[0]] + x)[1..] && y == ([a[0]] + y)[1..];
        } else {
          assert WithKey(a, k) == x && WithKey(b, k) == y;
        }
      }
      SortedStableUnique(a[1..], b[1..]);
      assert a == [a[0]] + a[1..] && b == [b[0]] + b[1..];
    }
  }

  /** In an ascending sequence the first record sorts at or below every
      record of the sequence. */
  lemma FirstIsLeast(a: seq<Recycler>, y: Recycler)
    requires SortedByName(a) && y in a
    ensures CompareTo(a[0], y) <= 0
  {
    var j :| 0 <= j < |a| && a[j] == y;
    CompareToTotalPreorder(a[0], a[0], a[0]);
  }

  /** Arrays.sort is fully determined by its contract: any ascending,
      stable rearrangement of s is SortByName(s). */
  lemma SortByNameIsUnique(s: seq<Recycler>, t: seq<Recycler>)
    requires SortedByName(t)
    requires forall k :: WithKey(t, k) == WithKey(s, k)
    ensures t == SortByName(s)
  {
    SortByNameSorted(s);
    forall k
      ensures WithKey(t, k) == WithKey(SortByName(s), k)
    {
      SortByNameStable(s, k);
    }
    SortedStableUnique(t, SortByName(s));
  }

  /** Sorting an already sorted sequence changes nothing. */
  lemma SortByNameIdempotent(s: seq<Recycler>)
    requires SortedByName(s)
    ensures SortByName(s) == s
  {
    SortByNameIsUnique(s, s);
  }

  /** Arrays.binarySearch(a, key) on an array sorted by compareTo: the
      index of a record whose name equals key ignoring case, or, when there
      is none, -(p + 1) for the insertion point p. */
  method BinarySearch(a: seq<Recycler>, key: string) returns (index: int)
    requires SortedByName(a)
    ensures index < |a|
    ensures 0 <= index ==> CompareToName(a[index], key) == 0
    ensures index < 0 <==> forall i :: 0 <= i < |a| ==> CompareToName(a[i], key) != 0
    ensures index < 0 ==> 0 <= -(index + 1) <= |a|
    ensures index < 0 ==> forall i :: 0 <= i < -(index + 1) ==> CompareToName(a[i], key) < 0
    ensures index < 0 ==> forall i :: -(index + 1) <= i < |a| ==> CompareToName(a[i], key) > 0
  {
    var low, high := 0, |a| - 1;
    while low <= high
      invariant 0 <= low <= high + 1 <= |a|
      invariant forall i :: 0 <= i < low ==> CompareToName(a[i], key) < 0
      invariant forall i :: high < i < |a| ==> CompareToName(a[i], key) > 0
    {
      var mid := (low + high) / 2;
      var cmp := CompareToName(a[mid], key);
      if cmp < 0 {
        forall i | low <= i <= mid
          ensures CompareToName(a[i], key) < 0
        {
          if i < mid {
            CompareTransitiveStrict(a[i].businessName, a[mid].businessName, key);
          }
        }
        low := mid + 1;
      } else if cmp > 0 {
        forall i | mid <= i <= high
          ensures CompareToName(a[i], key) > 0
        {
          if mid < i {
            CompareAntisymmetric(a[mid].businessName, key);
            CompareTransitiveStrict(key, a[mid].businessName, a[i].businessName);
            CompareAntisymmetric(key, a[i].businessName);
          }
        }
        high := mid - 1;
      } else {
        return mid;
      }
    }
    return -(low + 1);
  }
}
