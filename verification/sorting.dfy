/**
 * The stable sort the editor relies on: JavaScript's Array.prototype.sort with
 * a numeric comparator, which keeps elements with equal keys in their original
 * order.  It is modelled as a stable insertion sort on a real-valued key.
 */
module Sorting {

  /** The keys of s never decrease from left to right. */
  predicate SortedBy<T>(s: seq<T>, key: T -> real) {
    forall i, j :: 0 <= i < j < |s| ==> key(s[i]) <= key(s[j])
  }

  /** No element occurs twice in s. */
  predicate NoDuplicates<T(==)>(s: seq<T>) {
    forall i, j :: 0 <= i < j < |s| ==> s[i] != s[j]
  }

  /** The sequence of f's values on s, in the same order. */
  function Project<T, U>(s: seq<T>, f: T -> U): (r: seq<U>)
    ensures |r| == |s|
    ensures forall i :: 0 <= i < |s| ==> r[i] == f(s[i])
  {
    seq(|s|, i requires 0 <= i < |s| => f(s[i]))
  }

  /**
   * Inserts x after every leading element whose key is at most key(x): on a
   * sorted sequence that is after all elements with a key <= key(x).
   */
  function InsertBy<T>(s: seq<T>, x: T, key: T -> real): (r: seq<T>)
    ensures |r| == |s| + 1
    decreases |s|
  {
    if |s| == 0 then [x]
    else if key(x) < key(s[0]) then [x] + s
    else [s[0]] + InsertBy(s[1..], x, key)
  }

  /** Inserting adds exactly x to the multiset of elements. */
  lemma {:induction false} InsertByMultiset<T>(s: seq<T>, x: T, key: T -> real)
    ensures multiset(InsertBy(s, x, key)) == multiset(s) + multiset{x}
    decreases |s|
  {
    if |s| > 0 && key(s[0]) <= key(x) {
      InsertByMultiset(s[1..], x, key);
      assert s == [s[0]] + s[1..];
    }
  }

  /** The number of leading elements of s that InsertBy steps over. */
  function InsertionIndex<T>(s: seq<T>, x: T, key: T -> real): (i: nat)
    ensures i <= |s|
    decreases |s|
  {
    if |s| == 0 || key(x) < key(s[0]) then 0 else 1 + InsertionIndex(s[1..], x, key)
  }

  /** Stable insertion sort by key. */
  function SortBy<T>(s: seq<T>, key: T -> real): (r: seq<T>)
    ensures |r| == |s|
    ensures multiset(r) == multiset(s)
    ensures SortedBy(r, key)
    decreases |s|
  {
    if |s| == 0 then []
    else
      var p := SortBy(s[..|s| - 1], key);
      assert s == s[..|s| - 1] + [s[|s| - 1]];
      InsertBySorted(p, s[|s| - 1], key);
      InsertByMultiset(p, s[|s| - 1], key);
      InsertBy(p, s[|s| - 1], key)
  }

  /** Inserting into a sorted sequence keeps it sorted. */
  lemma {:induction false} InsertBySorted<T>(s: seq<T>, x: T, key: T -> real)
    requires SortedBy(s, key)
    ensures SortedBy(InsertBy(s, x, key), key)
    decreases |s|
  {
    if |s| > 0 && key(s[0]) <= key(x) {
      var rest := InsertBy(s[1..], x, key);
      InsertBySorted(s[1..], x, key);
      InsertByMultiset(s[1..], x, key);
      forall j | 0 <= j < |rest| ensures key(s[0]) <= key(rest[j]) {
        assert rest[j] in multiset(rest);
        if rest[j] != x {
          assert rest[j] in multiset(s[1..]);
          var k :| 0 <= k < |s[1..]| && s[1..][k] == rest[j];
          assert s[k + 1] == rest[j];
        }
      }
    }
  }

  /** InsertBy steps over InsertionIndex leading elements, each with key <= key(x), and stops before a larger key. */
  lemma {:induction false} InsertByShape<T>(s: seq<T>, x: T, key: T -> real)
    ensures var i := InsertionIndex(s, x, key);
      && InsertBy(s, x, key) == s[..i] + [x] + s[i..]
      && (forall j :: 0 <= j < i ==> key(s[j]) <= key(x))
      && (i < |s| ==> key(x) < key(s[i]))
    decreases |s|
  {
    if |s| == 0 || key(x) < key(s[0]) {
      assert InsertionIndex(s, x, key) == 0;
      assert s[..0] + [x] + s[0..] == [x] + s;
    } else {
      var t := s[1..];
      InsertByShape(t, x, key);
      var i := InsertionIndex(t, x, key);
      assert InsertionIndex(s, x, key) == i + 1;
      assert InsertBy(s, x, key) == [s[0]] + InsertBy(t, x, key);
      assert s[..i + 1] == [s[0]] + t[..i];
      assert s[i + 1..] == t[i..];
      forall j | 1 <= j < i + 1 ensures key(s[j]) <= key(x) {
        assert s[j] == t[j - 1];
      }
      assert i + 1 < |s| ==> s[i + 1] == t[i];
    }
  }

  /** On a sorted sequence, InsertBy places x after the elements with key <= key(x) and before the rest. */
  lemma InsertBySplit<T>(s: seq<T>, x: T, key: T -> real)
    requires SortedBy(s, key)
    ensures var i := InsertionIndex(s, x, key);
      && InsertBy(s, x, key) == s[..i] + [x] + s[i..]
      && (forall j :: 0 <= j < i ==> key(s[j]) <= key(x))
      && (forall j :: i <= j < |s| ==> key(x) < key(s[j]))
  {
    InsertByShape(s, x, key);
    var i := InsertionIndex(s, x, key);
    forall j | i <= j < |s| ensures key(x) < key(s[j]) {
      assert key(s[i]) <= key(s[j]);
    }
  }

  /** When every element's key is at most key(x), x goes to the end. */
  lemma {:induction false} InsertByAfterAll<T>(s: seq<T>, x: T, key: T -> real)
    requires forall j :: 0 <= j < |s| ==> key(s[j]) <= key(x)
    ensures InsertBy(s, x, key) == s + [x]
    decreases |s|
  {
    if |s| > 0 {
      InsertByAfterAll(s[1..], x, key);
      assert s == [s[0]] + s[1..];
    }
  }

  /** Sorting an already sorted sequence changes nothing (the sort is stable). */
  lemma {:induction false} SortBySortedIsIdentity<T>(s: seq<T>, key: T -> real)
    requires SortedBy(s, key)
    ensures SortBy(s, key) == s
    decreases |s|
  {
    if |s| > 0 {
      var p, x := s[..|s| - 1], s[|s| - 1];
      assert SortedBy(p, key) by {
        forall i, j | 0 <= i < j < |p| ensures key(p[i]) <= key(p[j]) {
          assert p[i] == s[i] && p[j] == s[j];
        }
      }
      SortBySortedIsIdentity(p, key);
      forall j | 0 <= j < |p| ensures key(p[j]) <= key(x) {
        assert p[j] == s[j];
      }
      InsertByAfterAll(p, x, key);
      assert SortBy(s, key) == InsertBy(SortBy(p, key), x, key);
      assert s == p + [x];
    }
  }

  /** Sorting a sorted sequence with x appended places x after all equal keys. */
  lemma SortByAppend<T>(s: seq<T>, x: T, key: T -> real)
    requires SortedBy(s, key)
    ensures SortBy(s + [x], key) == InsertBy(s, x, key)
  {
    assert (s + [x])[..|s + [x]| - 1] == s;
    SortBySortedIsIdentity(s, key);
  }

  /** Inserting a new element into a sequence without duplicates keeps it without duplicates. */
  lemma {:induction false} InsertByNoDuplicates<T>(s: seq<T>, x: T, key: T -> real)
    requires NoDuplicates(s) && x !in s
    ensures NoDuplicates(InsertBy(s, x, key))
    decreases |s|
  {
    if |s| > 0 && key(s[0]) <= key(x) {
      var rest := InsertBy(s[1..], x, key);
      InsertByNoDuplicates(s[1..], x, key);
      InsertByMultiset(s[1..], x, key);
      assert s[0] !in s[1..] by {
        forall k | 0 <= k < |s[1..]| ensures s[1..][k] != s[0] {
          assert s[1..][k] == s[k + 1];
        }
      }
      assert s[0] !in multiset(rest);
      forall i, j | 0 <= i < j < |rest| + 1 ensures ([s[0]] + rest)[i] != ([s[0]] + rest)[j] {
        if i == 0 {
          assert ([s[0]] + rest)[j] == rest[j - 1];
        }
      }
    }
  }

  /** The elements of s whose key is v, in their order in s. */
  function WithKey<T>(s: seq<T>, key: T -> real, v: real): seq<T>
    decreases |s|
  {
    if |s| == 0 then []
    else (if key(s[0]) == v then [s[0]] else []) + WithKey(s[1..], key, v)
  }

  /** Selecting the elements with key v distributes over concatenation. */
  lemma {:induction false} WithKeyConcat<T>(a: seq<T>, b: seq<T>, key: T -> real, v: real)
    ensures WithKey(a + b, key, v) == WithKey(a, key, v) + WithKey(b, key, v)
    decreases |a|
  {
    if |a| == 0 {
      assert a + b == b;
    } else {
      var h := if key(a[0]) == v then [a[0]] else [];
      WithKeyConcat(a[1..], b, key, v);
      calc {
        WithKey(a + b, key, v);
        { assert (a + b)[0] == a[0] && (a + b)[1..] == a[1..] + b; }
        h + WithKey(a[1..] + b, key, v);
        h + (WithKey(a[1..], key, v) + WithKey(b, key, v));
        (h + WithKey(a[1..], key, v)) + WithKey(b, key, v);
      }
    }
  }

  /** No element whose key exceeds v has key v. */
  lemma {:induction false} WithKeyAbove<T>(s: seq<T>, key: T -> real, v: real)
    requires forall j :: 0 <= j < |s| ==> v < key(s[j])
    ensures WithKey(s, key, v) == []
    decreases |s|
  {
    if |s| > 0 {
      WithKeyAbove(s[1..], key, v);
    }
  }

  /**
   * Inserting x into a sorted sequence puts it after every element with its
   * key: the elements with any key v keep their order, x joining them last.
   */
  lemma {:induction false} InsertByStable<T>(s: seq<T>, x: T, key: T -> real, v: real)
    requires SortedBy(s, key)
    ensures WithKey(InsertBy(s, x, key), key, v) == WithKey(s, key, v) + (if key(x) == v then [x] else [])
    decreases |s|
  {
    if |s| > 0 {
      if key(x) < key(s[0]) {
        if key(x) == v {
          WithKeyAbove(s, key, v);
        }
        WithKeyConcat([x], s, key, v);
      } else {
        var t := s[1..];
        assert SortedBy(t, key) by {
          forall i, j | 0 <= i < j < |t| ensures key(t[i]) <= key(t[j]) {
            assert t[i] == s[i + 1] && t[j] == s[j + 1];
          }
        }
        InsertByStable(t, x, key, v);
        WithKeyConcat([s[0]], InsertBy(t, x, key), key, v);
      }
    }
  }

  /**
   * The sort is stable: for every key v, the elements with key v come out in
   * the order they went in.
   */
  lemma {:induction false} SortByStable<T>(s: seq<T>, key: T -> real, v: real)
    ensures WithKey(SortBy(s, key), key, v) == WithKey(s, key, v)
    decreases |s|
  {
    if |s| > 0 {
      var p, x := s[..|s| - 1], s[|s| - 1];
      var sp := SortBy(p, key);
      var e := if key(x) == v then [x] else [];
      assert s == p + [x];
      assert WithKey([x], key, v) == e by {
        assert [x][1..] == [];
      }
      calc {
        WithKey(SortBy(s, key), key, v);
        WithKey(InsertBy(sp, x, key), key, v);
        { InsertByStable(sp, x, key, v); }
        WithKey(sp, key, v) + e;
        { SortByStable(p, key, v); }
        WithKey(p, key, v) + e;
        { WithKeyConcat(p, [x], key, v); }
        WithKey(s, key, v);
      }
    }
  }

  /** Sorting keeps a sequence without duplicates free of duplicates. */
  lemma {:induction false} SortByNoDuplicates<T>(s: seq<T>, key: T -> real)
    requires NoDuplicates(s)
    ensures NoDuplicates(SortBy(s, key))
    decreases |s|
  {
    if |s| > 0 {
      var p := s[..|s| - 1];
      var x := s[|s| - 1];
      SortByNoDuplicates(p, key);
      assert x !in multiset(p) by {
        forall k | 0 <= k < |p| ensures p[k] != x {
          assert p[k] == s[k];
        }
      }
      InsertByNoDuplicates(SortBy(p, key), x, key);
    }
  }

  /** Inserting x adds exactly f(x) to the multiset of projected values. */
  lemma {:induction false} ProjectInsertBy<T, U>(s: seq<T>, x: T, key: T -> real, f: T -> U)
    ensures multiset(Project(InsertBy(s, x, key), f)) == multiset(Project(s, f)) + multiset{f(x)}
    decreases |s|
  {
    if |s| == 0 {
      assert Project([x], f) == [f(x)];
    } else if key(x) < key(s[0]) {
      assert InsertBy(s, x, key) == [x] + s;
      assert Project([x] + s, f) == [f(x)] + Project(s, f);
    } else {
      var t := s[1..];
      ProjectInsertBy(t, x, key, f);
      assert InsertBy(s, x, key) == [s[0]] + InsertBy(t, x, key);
      assert Project([s[0]] + InsertBy(t, x, key), f) == [f(s[0])] + Project(InsertBy(t, x, key), f);
      assert Project(s, f) == [f(s[0])] + Project(t, f);
    }
  }

  /** Sorting keeps the multiset of any projection of the elements (ids, for instance). */
  lemma {:induction false} ProjectSortBy<T, U>(s: seq<T>, key: T -> real, f: T -> U)
    ensures multiset(Project(SortBy(s, key), f)) == multiset(Project(s, f))
    decreases |s|
  {
    if |s| > 0 {
      var p, x := s[..|s| - 1], s[|s| - 1];
      var sp := SortBy(p, key);
      ProjectSortBy(p, key, f);
      ProjectInsertBy(sp, x, key, f);
      assert SortBy(s, key) == InsertBy(sp, x, key);
      assert s == p + [x];
      ProjectAppend(p, x, f);
    }
  }

  lemma ProjectAppend<T, U>(s: seq<T>, x: T, f: T -> U)
    ensures Project(s + [x], f) == Project(s, f) + [f(x)]
  {
  }
}
