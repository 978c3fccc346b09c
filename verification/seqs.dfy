/** Sequence operations the stores are built from: filtering rows, key
    uniqueness, offset/limit paging and the two orders the queries use
    (by name ascending, by creation time descending). */
module Seqs {
  import opened Strings

  /** The rows of `s` that `keep` accepts, in their original order. */
  function Filter<T(!new)>(s: seq<T>, keep: T -> bool): (r: seq<T>)
    ensures |r| <= |s|
    ensures forall x :: x in r <==> x in s && keep(x)
    ensures forall i :: 0 <= i < |r| ==> keep(r[i])
  {
    if |s| == 0 then []
    else if keep(s[0]) then [s[0]] + Filter(s[1..], keep)
    else Filter(s[1..], keep)
  }

  /** Filtering keeps every kept row as many times as it occurs and drops the
      others entirely (the order is FilterAppend's business). */
  lemma {:induction false} FilterMultiset<T(!new)>(s: seq<T>, keep: T -> bool)
    ensures multiset(Filter(s, keep)) <= multiset(s)
    ensures forall x :: multiset(Filter(s, keep))[x] == if keep(x) then multiset(s)[x] else 0
  {
    if |s| > 0 {
      FilterMultiset(s[1..], keep);
      assert s == [s[0]] + s[1..];
    }
  }

  /** A filter that accepts every row returns the rows unchanged. */
  lemma {:induction false} FilterAll<T(!new)>(s: seq<T>, keep: T -> bool)
    requires forall x :: x in s ==> keep(x)
    ensures Filter(s, keep) == s
  {
    if |s| > 0 {
      FilterAll(s[1..], keep);
      assert s == [s[0]] + s[1..];
    }
  }

  /** Filtering distributes over concatenation. */
  lemma {:induction false} FilterAppend<T(!new)>(a: seq<T>, b: seq<T>, keep: T -> bool)
    ensures Filter(a + b, keep) == Filter(a, keep) + Filter(b, keep)
  {
    if |a| > 0 {
      FilterAppend(a[1..], b, keep);
      assert (a + b)[1..] == a[1..] + b;
    } else {
      assert a + b == b;
    }
  }

  lemma PrefixTransitive<T>(a: seq<T>, b: seq<T>, c: seq<T>)
    requires a <= b && b <= c
    ensures a <= c
  {
    assert forall k :: 0 <= k < |a| ==> a[k] == b[k] == c[k];
  }

  /** A sequence is its prefix followed by the rest. */
  lemma PrefixSplit<T>(a: seq<T>, b: seq<T>)
    requires a <= b
    ensures b == a + b[|a|..]
  {
  }

  lemma ConcatAssoc<T>(a: seq<T>, b: seq<T>, c: seq<T>)
    ensures (a + b) + c == a + (b + c)
  {
  }

  /** No two positions of `s` carry the same key. */
  predicate DistinctBy<T, K(==)>(s: seq<T>, key: T -> K) {
    forall i, j :: 0 <= i < j < |s| ==> key(s[i]) != key(s[j])
  }

  /** Appending a row whose key is new keeps the keys distinct. */
  lemma DistinctByAppend<T, K>(s: seq<T>, key: T -> K, x: T)
    requires DistinctBy(s, key)
    requires forall y :: y in s ==> key(y) != key(x)
    ensures DistinctBy(s + [x], key)
  {
    var t := s + [x];
    forall i, j | 0 <= i < j < |t| ensures key(t[i]) != key(t[j]) {
      if j == |s| {
        assert t[i] in s;
      } else {
        assert t[i] == s[i] && t[j] == s[j];
      }
    }
  }

  /** Filtering keeps the keys distinct. */
  lemma {:induction false} DistinctByFilter<T(!new), K>(s: seq<T>, key: T -> K, keep: T -> bool)
    requires DistinctBy(s, key)
    ensures DistinctBy(Filter(s, keep), key)
  {
    if |s| > 0 {
      var rest := s[1..];
      assert DistinctBy(rest, key) by {
        forall i, j | 0 <= i < j < |rest| ensures key(rest[i]) != key(rest[j]) {
          assert rest[i] == s[i + 1] && rest[j] == s[j + 1];
        }
      }
      DistinctByFilter(rest, key, keep);
      if keep(s[0]) {
        var f := Filter(rest, keep);
        forall y | y in f ensures key(y) != key(s[0]) {
          var k :| 0 <= k < |rest| && rest[k] == y;
          assert s[k + 1] == y;
        }
        assert Filter(s, keep) == [s[0]] + f;
        DistinctByPrepend(f, key, s[0]);
      }
    }
  }

  lemma DistinctByPrepend<T, K>(s: seq<T>, key: T -> K, x: T)
    requires DistinctBy(s, key)
    requires forall y :: y in s ==> key(y) != key(x)
    ensures DistinctBy([x] + s, key)
  {
    var t := [x] + s;
    forall i, j | 0 <= i < j < |t| ensures key(t[i]) != key(t[j]) {
      if i == 0 {
        assert t[j] in s;
      } else {
        assert t[i] == s[i - 1] && t[j] == s[j - 1];
      }
    }
  }

  /** Keys of `[x] + s` are distinct exactly when those of `s` are and `x`'s key is new. */
  lemma DistinctByCons<T, K>(s: seq<T>, key: T -> K, x: T)
    ensures DistinctBy([x] + s, key) <==> DistinctBy(s, key) && forall y :: y in s ==> key(y) != key(x)
  {
    var t := [x] + s;
    if DistinctBy(t, key) {
      forall i, j | 0 <= i < j < |s| ensures key(s[i]) != key(s[j]) {
        assert s[i] == t[i + 1] && s[j] == t[j + 1];
      }
      forall y | y in s ensures key(y) != key(x) {
        var k :| 0 <= k < |s| && s[k] == y;
        assert t[0] == x && t[k + 1] == y;
      }
    }
    if DistinctBy(s, key) && forall y :: y in s ==> key(y) != key(x) {
      DistinctByPrepend(s, key, x);
    }
  }

  /** No two rows of `s` that `keep` accepts share a key. */
  predicate DistinctKept<T, K(==)>(s: seq<T>, key: T -> K, keep: T -> bool) {
    forall i, j :: 0 <= i < j < |s| && keep(s[i]) && keep(s[j]) ==> key(s[i]) != key(s[j])
  }

  lemma DistinctKeptCons<T, K>(s: seq<T>, key: T -> K, keep: T -> bool)
    requires |s| > 0
    ensures DistinctKept(s, key, keep) <==>
      && DistinctKept(s[1..], key, keep)
      && (keep(s[0]) ==> forall y :: y in s[1..] && keep(y) ==> key(y) != key(s[0]))
  {
    var t := s[1..];
    if DistinctKept(s, key, keep) {
      forall i, j | 0 <= i < j < |t| && keep(t[i]) && keep(t[j]) ensures key(t[i]) != key(t[j]) {
        assert t[i] == s[i + 1] && t[j] == s[j + 1];
      }
      if keep(s[0]) {
        forall y | y in t && keep(y) ensures key(y) != key(s[0]) {
          var k :| 0 <= k < |t| && t[k] == y;
          assert s[k + 1] == y;
        }
      }
    }
    if && DistinctKept(t, key, keep) && (keep(s[0]) ==> forall y :: y in t && keep(y) ==> key(y) != key(s[0])) {
      forall i, j | 0 <= i < j < |s| && keep(s[i]) && keep(s[j]) ensures key(s[i]) != key(s[j]) {
        if i == 0 {
          assert s[j] in t;
        } else {
          assert s[i] == t[i - 1] && s[j] == t[j - 1];
        }
      }
    }
  }

  /** The rows `keep` accepts have distinct keys exactly when no two accepted rows share one. */
  lemma {:induction false} DistinctByFilterIff<T(!new), K>(s: seq<T>, key: T -> K, keep: T -> bool)
    ensures DistinctBy(Filter(s, keep), key) <==> DistinctKept(s, key, keep)
  {
    if |s| > 0 {
      var t := s[1..];
      DistinctByFilterIff(t, key, keep);
      DistinctKeptCons(s, key, keep);
      if keep(s[0]) {
        DistinctByCons(Filter(t, keep), key, s[0]);
      }
    }
  }

  /** Two rows with the same key in a key-distinct sequence are the same row. */
  lemma DistinctByUnique<T, K>(s: seq<T>, key: T -> K, x: T, y: T)
    requires DistinctBy(s, key)
    requires x in s && y in s && key(x) == key(y)
    ensures x == y
  {
    var i :| 0 <= i < |s| && s[i] == x;
    var j :| 0 <= j < |s| && s[j] == y;
    assert key(s[i]) == key(s[j]);
  }

  function Min(a: int, b: int): int {
    if a <= b then a else b
  }

  /** `OFFSET offset ROWS FETCH NEXT size ROWS ONLY` over an ordered result. */
  function Page<T>(s: seq<T>, offset: nat, size: nat): (r: seq<T>)
    ensures |r| <= size
    ensures offset >= |s| ==> r == []
    ensures offset < |s| ==> r == s[offset..Min(offset + size, |s|)]
    ensures offset + size <= |s| ==> |r| == size
  {
    s[Min(offset, |s|)..Min(offset + size, |s|)]
  }

  /** Rows in ascending name order. */
  predicate SortedByName<T>(s: seq<T>, name: T -> string) {
    forall i, j :: 0 <= i < j < |s| ==> LexLe(name(s[i]), name(s[j]))
  }

  /** A row no greater than every row of a sorted sequence can go in front. */
  lemma SortedByNameCons<T>(x: T, s: seq<T>, name: T -> string)
    requires SortedByName(s, name)
    requires forall y :: y in s ==> LexLe(name(x), name(y))
    ensures SortedByName([x] + s, name)
  {
    var t := [x] + s;
    forall i, j | 0 <= i < j < |t| ensures LexLe(name(t[i]), name(t[j])) {
      if i == 0 {
        assert t[j] in s;
      } else {
        assert t[i] == s[i - 1] && t[j] == s[j - 1];
      }
    }
  }

  function InsertByName<T>(x: T, s: seq<T>, name: T -> string): (r: seq<T>)
    requires SortedByName(s, name)
    ensures SortedByName(r, name)
    ensures multiset(r) == multiset(s) + multiset{x}
    ensures |r| == |s| + 1
  {
    if |s| == 0 then [x]
    else if LexLe(name(x), name(s[0])) then
      SortedByNameFront(x, s, name);
      SortedByNameCons(x, s, name);
      [x] + s
    else
      var tail := InsertByName(x, s[1..], name);
      LexTotal(name(x), name(s[0]));
      SortedByNameInserted(x, s, tail, name);
      SortedByNameCons(s[0], tail, name);
      assert s == [s[0]] + s[1..];
      [s[0]] + tail
  }

  /** A row no greater than the first row of a sorted sequence is no greater than any. */
  lemma SortedByNameFront<T>(x: T, s: seq<T>, name: T -> string)
    requires SortedByName(s, name) && |s| > 0 && LexLe(name(x), name(s[0]))
    ensures forall y :: y in s ==> LexLe(name(x), name(y))
  {
    forall y | y in s ensures LexLe(name(x), name(y)) {
      var k :| 0 <= k < |s| && s[k] == y;
      if k > 0 {
        LexTransitive(name(x), name(s[0]), name(y));
      }
    }
  }

  /** Inserting a row no smaller than the head into the rest of a sorted
      sequence keeps the head no greater than every row. */
  lemma SortedByNameInserted<T>(x: T, s: seq<T>, tail: seq<T>, name: T -> string)
    requires SortedByName(s, name) && |s| > 0 && LexLe(name(s[0]), name(x))
    requires multiset(tail) == multiset(s[1..]) + multiset{x}
    ensures forall y :: y in tail ==> LexLe(name(s[0]), name(y))
  {
    forall y | y in tail ensures LexLe(name(s[0]), name(y)) {
      assert y in multiset(tail);
      if y != x {
        assert y in multiset(s[1..]);
        var k :| 0 <= k < |s[1..]| && s[1..][k] == y;
        assert s[k + 1] == y;
      }
    }
  }

  /** Insertion sort into ascending name order (ORDER BY name). */
  function SortByName<T>(s: seq<T>, name: T -> string): (r: seq<T>)
    ensures SortedByName(r, name)
    ensures multiset(r) == multiset(s)
    ensures |r| == |s|
  {
    if |s| == 0 then []
    else
      assert s == [s[0]] + s[1..];
      InsertByName(s[0], SortByName(s[1..], name), name)
  }

  /** Rows in descending time order. */
  predicate NewestFirst<T>(s: seq<T>, time: T -> int) {
    forall i, j :: 0 <= i < j < |s| ==> time(s[i]) >= time(s[j])
  }

  /** A row no older than every row of a newest-first sequence can go in front. */
  lemma NewestFirstCons<T>(x: T, s: seq<T>, time: T -> int)
    requires NewestFirst(s, time)
    requires forall y :: y in s ==> time(x) >= time(y)
    ensures NewestFirst([x] + s, time)
  {
    var t := [x] + s;
    forall i, j | 0 <= i < j < |t| ensures time(t[i]) >= time(t[j]) {
      if i == 0 {
        assert t[j] in s;
      } else {
        assert t[i] == s[i - 1] && t[j] == s[j - 1];
      }
    }
  }

  function InsertByTime<T>(x: T, s: seq<T>, time: T -> int): (r: seq<T>)
    requires NewestFirst(s, time)
    ensures NewestFirst(r, time)
    ensures multiset(r) == multiset(s) + multiset{x}
    ensures |r| == |s| + 1
  {
    if |s| == 0 then [x]
    else if time(x) >= time(s[0]) then
      NewestFirstFront(x, s, time);
      NewestFirstCons(x, s, time);
      [x] + s
    else
      var tail := InsertByTime(x, s[1..], time);
      NewestFirstInserted(x, s, tail, time);
      NewestFirstCons(s[0], tail, time);
      assert s == [s[0]] + s[1..];
      [s[0]] + tail
  }

  /** A row no older than the first row of a newest-first sequence is no older than any. */
  lemma NewestFirstFront<T>(x: T, s: seq<T>, time: T -> int)
    requires NewestFirst(s, time) && |s| > 0 && time(x) >= time(s[0])
    ensures forall y :: y in s ==> time(x) >= time(y)
  {
    forall y | y in s ensures time(x) >= time(y) {
      var k :| 0 <= k < |s| && s[k] == y;
      if k > 0 {
        assert time(s[0]) >= time(s[k]);
      }
    }
  }

  /** Inserting an older row into the rest of a newest-first sequence keeps
      the head no older than every row. */
  lemma NewestFirstInserted<T>(x: T, s: seq<T>, tail: seq<T>, time: T -> int)
    requires NewestFirst(s, time) && |s| > 0 && time(s[0]) >= time(x)
    requires multiset(tail) == multiset(s[1..]) + multiset{x}
    ensures forall y :: y in tail ==> time(s[0]) >= time(y)
  {
    forall y | y in tail ensures time(s[0]) >= time(y) {
      assert y in multiset(tail);
      if y != x {
        assert y in multiset(s[1..]);
        var k :| 0 <= k < |s[1..]| && s[1..][k] == y;
        assert s[k + 1] == y;
      }
    }
  }

  /** Insertion sort into descending time order (ORDER BY createdAt DESC); rows with
      equal times keep their relative order. */
  function SortNewestFirst<T>(s: seq<T>, time: T -> int): (r: seq<T>)
    ensures NewestFirst(r, time)
    ensures multiset(r) == multiset(s)
    ensures |r| == |s|
  {
    if |s| == 0 then []
    else
      assert s == [s[0]] + s[1..];
      InsertByTime(s[0], SortNewestFirst(s[1..], time), time)
  }

  /** Paging a newest-first sequence yields a newest-first page of its rows. */
  lemma PageNewestFirst<T>(s: seq<T>, time: T -> int, offset: nat, size: nat)
    requires NewestFirst(s, time)
    ensures NewestFirst(Page(s, offset, size), time)
    ensures forall x :: x in Page(s, offset, size) ==> x in s
  {
  }

  /** A page of the sorted rows holds rows of the input only, newest first. */
  lemma PageOfSorted<T>(s: seq<T>, time: T -> int, offset: nat, size: nat)
    ensures forall x :: x in Page(SortNewestFirst(s, time), offset, size) ==> x in s
    ensures NewestFirst(Page(SortNewestFirst(s, time), offset, size), time)
  {
    var sorted := SortNewestFirst(s, time);
    PageNewestFirst(sorted, time, offset, size);
    forall x | x in Page(sorted, offset, size) ensures x in s {
      assert x in multiset(sorted);
    }
  }
}
