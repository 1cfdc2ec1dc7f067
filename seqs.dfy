/** Table queries over rows kept in insertion order: `filter(...).all()`, the rows a
    `filter(...)` does not match, `filter(...).first()`, `order_by(... desc())` and
    `offset(skip).limit(limit)`. A query's filter is a criterion value `c` together with a
    named match predicate `matches`. */
module Seqs {
  import opened Wrappers

  /** `filter(c).all()`: the matching rows, in table order. */
  function Select<T(!new), C>(s: seq<T>, c: C, matches: (T, C) -> bool): (r: seq<T>)
    ensures |r| <= |s|
    ensures forall x :: x in r <==> x in s && matches(x, c)
    ensures forall x {:trigger multiset(r)[x]} :: multiset(r)[x] == if matches(x, c) then multiset(s)[x] else 0
  {
    if s == [] then []
    else
      var r := (if matches(s[0], c) then [s[0]] else []) + Select(s[1..], c, matches);
      assert s == [s[0]] + s[1..];
      r
  }

  /** The table after deleting every row that `filter(c)` matches. */
  function Reject<T(!new), C>(s: seq<T>, c: C, matches: (T, C) -> bool): (r: seq<T>)
    ensures |r| <= |s|
    ensures forall x :: x in r <==> x in s && !matches(x, c)
    ensures forall x {:trigger multiset(r)[x]} :: multiset(r)[x] == if matches(x, c) then 0 else multiset(s)[x]
  {
    if s == [] then []
    else
      var r := (if matches(s[0], c) then [] else [s[0]]) + Reject(s[1..], c, matches);
      assert s == [s[0]] + s[1..];
      r
  }

  /** `filter(c).first()`: the earliest matching row, if any. */
  function First<T, C>(s: seq<T>, c: C, matches: (T, C) -> bool): (r: Option<T>)
    ensures r.Some? ==> r.value in s && matches(r.value, c)
    ensures r.None? <==> forall x :: x in s ==> !matches(x, c)
  {
    if s == [] then None
    else if matches(s[0], c) then Some(s[0])
    else First(s[1..], c, matches)
  }

  /** No two rows of `s` share a key: a primary key or a unique constraint. */
  ghost predicate DistinctBy<T, K>(s: seq<T>, key: T -> K) {
    forall i, j :: 0 <= i < j < |s| ==> key(s[i]) != key(s[j])
  }

  /** With distinct keys, a row is determined by its key. */
  lemma DistinctKeySame<T, K>(s: seq<T>, x: T, y: T, key: T -> K)
    requires DistinctBy(s, key)
    requires x in s && y in s && key(x) == key(y)
    ensures x == y
  {
    var i :| 0 <= i < |s| && s[i] == x;
    var j :| 0 <= j < |s| && s[j] == y;
    if i < j {
      assert key(s[i]) != key(s[j]);
    } else if j < i {
      assert key(s[j]) != key(s[i]);
    }
  }

  /** Appending a row whose key is new keeps the keys distinct. */
  lemma DistinctAppend<T, K>(s: seq<T>, x: T, key: T -> K)
    requires DistinctBy(s, key)
    requires forall y :: y in s ==> key(y) != key(x)
    ensures DistinctBy(s + [x], key)
  {
    var t := s + [x];
    forall i, j | 0 <= i < j < |t| ensures key(t[i]) != key(t[j]) {
      if j == |s| {
        assert t[i] in s;
      } else {
        assert t[i] == s[i] && t[j] == s[j];
      }
    }
  }

  /** Deleting rows keeps the keys distinct. */
  lemma {:induction false} DistinctReject<T(!new), C, K>(s: seq<T>, c: C, matches: (T, C) -> bool, key: T -> K)
    requires DistinctBy(s, key)
    ensures DistinctBy(Reject(s, c, matches), key)
  {
    if s != [] {
      var tail := s[1..];
      assert DistinctBy(tail, key) by {
        forall i, j | 0 <= i < j < |tail| ensures key(tail[i]) != key(tail[j]) {
          assert tail[i] == s[i + 1] && tail[j] == s[j + 1];
        }
      }
      DistinctReject(tail, c, matches, key);
      var rest := Reject(tail, c, matches);
      if !matches(s[0], c) {
        forall y | y in rest ensures key(y) != key(s[0]) {
          assert y in tail;
          var k :| 0 <= k < |tail| && tail[k] == y;
          assert s[k + 1] == y;
        }
        DistinctPrepend(s[0], rest, key);
      }
    }
  }

  lemma DistinctPrepend<T, K>(x: T, s: seq<T>, key: T -> K)
    requires DistinctBy(s, key)
    requires forall y :: y in s ==> key(y) != key(x)
    ensures DistinctBy([x] + s, key)
  {
    var t := [x] + s;
    forall i, j | 0 <= i < j < |t| ensures key(t[i]) != key(t[j]) {
      if i == 0 {
        assert t[j] in s;
      } else {
        assert t[i] == s[i - 1] && t[j] == s[j - 1];
      }
    }
  }

  /** `first()` on a table with one more row at the end: the new row is found only when no
      earlier row matches. */
  lemma {:induction false} FirstAppend<T, C>(s: seq<T>, x: T, c: C, matches: (T, C) -> bool)
    ensures First(s + [x], c, matches) ==
      if First(s, c, matches).Some? then First(s, c, matches)
      else if matches(x, c) then Some(x) else None
  {
    if s != [] {
      assert (s + [x])[1..] == s[1..] + [x];
      FirstAppend(s[1..], x, c, matches);
    }
  }

  /** Filtering a table with one more row at the end. */
  lemma {:induction false} SelectAppend<T(!new), C>(s: seq<T>, x: T, c: C, matches: (T, C) -> bool)
    ensures Select(s + [x], c, matches) == Select(s, c, matches) + (if matches(x, c) then [x] else [])
  {
    if s == [] {
      assert s + [x] == [x] && [x][1..] == [];
      assert Select([x], c, matches) == (if matches(x, c) then [x] else []) + Select([], c, matches);
    } else {
      var t := s + [x];
      assert t[0] == s[0] && t[1..] == s[1..] + [x];
      var head := if matches(s[0], c) then [s[0]] else [];
      SelectAppend(s[1..], x, c, matches);
      assert t != [] && t[0] == s[0];
      calc {
        Select(t, c, matches);
        head + Select(t[1..], c, matches);
        head + Select(s[1..] + [x], c, matches);
        head + (Select(s[1..], c, matches) + (if matches(x, c) then [x] else []));
        (head + Select(s[1..], c, matches)) + (if matches(x, c) then [x] else []);
        Select(s, c, matches) + (if matches(x, c) then [x] else []);
      }
    }
  }

  lemma {:induction false} RejectAppend<T(!new), C>(s: seq<T>, x: T, c: C, matches: (T, C) -> bool)
    ensures Reject(s + [x], c, matches) == Reject(s, c, matches) + (if matches(x, c) then [] else [x])
  {
    if s == [] {
      assert [x][1..] == [];
    } else {
      var t := s + [x];
      assert t[0] == s[0] && t[1..] == s[1..] + [x];
      var head := if matches(s[0], c) then [] else [s[0]];
      RejectAppend(s[1..], x, c, matches);
      assert t != [] && t[0] == s[0];
      calc {
        Reject(t, c, matches);
        head + Reject(t[1..], c, matches);
        head + Reject(s[1..] + [x], c, matches);
        head + (Reject(s[1..], c, matches) + (if matches(x, c) then [] else [x]));
        (head + Reject(s[1..], c, matches)) + (if matches(x, c) then [] else [x]);
        Reject(s, c, matches) + (if matches(x, c) then [] else [x]);
      }
    }
  }

  /** Deleting with a filter that matches no row leaves the table as it was. */
  lemma {:induction false} RejectNone<T(!new), C>(s: seq<T>, c: C, matches: (T, C) -> bool)
    requires forall x :: x in s ==> !matches(x, c)
    ensures Reject(s, c, matches) == s
  {
    if s != [] {
      assert forall x :: x in s[1..] ==> x in s;
      RejectNone(s[1..], c, matches);
    }
  }

  /** Two filters that agree on every row of the table delete the same rows. */
  lemma {:induction false} RejectSame<T(!new), C>(s: seq<T>, c1: C, c2: C, matches: (T, C) -> bool)
    requires forall x :: x in s ==> (matches(x, c1) <==> matches(x, c2))
    ensures Reject(s, c1, matches) == Reject(s, c2, matches)
  {
    if s != [] {
      assert forall x :: x in s[1..] ==> x in s;
      RejectSame(s[1..], c1, c2, matches);
    }
  }

  /** Deleting in two rounds deletes the rows either round matches. */
  lemma {:induction false} RejectTwice<T(!new), C>(s: seq<T>, c1: C, c2: C, both: C, matches: (T, C) -> bool)
    requires forall x :: x in s ==> (matches(x, both) <==> matches(x, c1) || matches(x, c2))
    ensures Reject(Reject(s, c1, matches), c2, matches) == Reject(s, both, matches)
  {
    if s != [] {
      var tail := s[1..];
      assert forall x :: x in tail ==> x in s;
      RejectTwice(tail, c1, c2, both, matches);
      var once := Reject(tail, c1, matches);
      if !matches(s[0], c1) {
        var r := [s[0]] + once;
        assert r[0] == s[0] && r[1..] == once;
      } else {
        assert Reject(s, c1, matches) == [] + once == once;
        assert Reject(s, both, matches) == [] + Reject(tail, both, matches);
      }
    }
  }

  /** With distinct keys, at most one row matches a filter on a key; deleting that row
      shortens the table by exactly one. */
  lemma {:induction false} RejectOne<T(!new), C>(s: seq<T>, x: T, c: C, matches: (T, C) -> bool)
    requires x in s && matches(x, c)
    requires forall y :: y in s && matches(y, c) ==> y == x
    requires forall i, j :: 0 <= i < j < |s| ==> s[i] != s[j]
    ensures |Reject(s, c, matches)| == |s| - 1
  {
    if s[0] == x {
      forall y | y in s[1..] ensures !matches(y, c) {
        var k :| 0 <= k < |s[1..]| && s[1..][k] == y;
        assert s[k + 1] == y;
      }
      RejectNone(s[1..], c, matches);
    } else {
      assert x in s[1..];
      var tail := s[1..];
      assert forall i, j :: 0 <= i < j < |tail| ==> tail[i] != tail[j] by {
        forall i, j | 0 <= i < j < |tail| ensures tail[i] != tail[j] {
          assert tail[i] == s[i + 1] && tail[j] == s[j + 1];
        }
      }
      RejectOne(tail, x, c, matches);
    }
  }

  /** `offset(skip).limit(limit)`: drop the first `skip` rows, keep at most `limit`. */
  function Page<T>(s: seq<T>, skip: nat, limit: nat): (r: seq<T>)
    ensures |r| <= limit
    ensures skip <= |s| ==> |r| == if |s| - skip < limit then |s| - skip else limit
    ensures skip >= |s| ==> r == []
    ensures forall i :: 0 <= i < |r| ==> skip + i < |s| && r[i] == s[skip + i]
  {
    if skip >= |s| then []
    else if |s| - skip <= limit then s[skip..]
    else s[skip..skip + limit]
  }

  /** Two consecutive pages make the page that spans both: paging neither drops nor repeats
      a row. */
  lemma PageSplit<T>(s: seq<T>, skip: nat, a: nat, b: nat)
    ensures Page(s, skip, a) + Page(s, skip + a, b) == Page(s, skip, a + b)
  {
    var left, right, both := Page(s, skip, a), Page(s, skip + a, b), Page(s, skip, a + b);
    if |left| < a {
      assert skip + a >= |s|;
    } else {
      assert |both| == |left| + |right|;
      forall i | 0 <= i < |both| ensures (left + right)[i] == both[i] {
        if i >= |left| {
          assert right[i - |left|] == s[skip + a + (i - |left|)];
        }
      }
    }
  }

  /** Deleting the rows one filter matches leaves another filter's rows alone when no row
      matches both. */
  lemma {:induction false} SelectAfterReject<T(!new), C>(s: seq<T>, gone: C, kept: C, matches: (T, C) -> bool)
    requires forall x :: x in s && matches(x, kept) ==> !matches(x, gone)
    ensures Select(Reject(s, gone, matches), kept, matches) == Select(s, kept, matches)
  {
    if s != [] {
      assert forall x :: x in s[1..] ==> x in s;
      SelectAfterReject(s[1..], gone, kept, matches);
      var rest := Reject(s[1..], gone, matches);
      if !matches(s[0], gone) {
        assert ([s[0]] + rest)[0] == s[0] && ([s[0]] + rest)[1..] == rest;
      } else {
        assert Reject(s, gone, matches) == rest;
      }
    }
  }

  /** `key` never increases along `s`: `order_by(key.desc())`. */
  ghost predicate DescendingBy<T>(s: seq<T>, key: T -> int) {
    forall i, j :: 0 <= i < j < |s| ==> key(s[i]) >= key(s[j])
  }

  /** Put `x` before the first row of `s` whose key is not larger. */
  function InsertDesc<T>(x: T, s: seq<T>, key: T -> int): (r: seq<T>)
    ensures multiset(r) == multiset(s) + multiset{x}
  {
    if s == [] then [x]
    else if key(x) >= key(s[0]) then [x] + s
    else
      assert s == [s[0]] + s[1..];
      [s[0]] + InsertDesc(x, s[1..], key)
  }

  /** A row no smaller than every row of a descending sequence can go in front of it. */
  lemma DescendingCons<T>(a: T, rest: seq<T>, key: T -> int)
    requires DescendingBy(rest, key)
    requires forall y :: y in rest ==> key(a) >= key(y)
    ensures DescendingBy([a] + rest, key)
  {
    var r := [a] + rest;
    forall i, j | 0 <= i < j < |r| ensures key(r[i]) >= key(r[j]) {
      assert r[j] == rest[j - 1];
      if i > 0 {
        assert r[i] == rest[i - 1];
      }
    }
  }

  lemma {:induction false} InsertDescSorted<T>(x: T, s: seq<T>, key: T -> int)
    requires DescendingBy(s, key)
    ensures DescendingBy(InsertDesc(x, s, key), key)
  {
    if s == [] {
    } else if key(x) >= key(s[0]) {
      forall y | y in s ensures key(x) >= key(y) {
        var k :| 0 <= k < |s| && s[k] == y;
        assert k == 0 || key(s[0]) >= key(s[k]);
      }
      DescendingCons(x, s, key);
    } else {
      var tail := s[1..];
      assert DescendingBy(tail, key);
      InsertDescSorted(x, tail, key);
      var rest := InsertDesc(x, tail, key);
      forall y | y in rest ensures key(s[0]) >= key(y) {
        assert y in multiset(rest);
        if y != x {
          var k :| 0 <= k < |tail| && tail[k] == y;
          assert s[k + 1] == y;
        }
      }
      DescendingCons(s[0], rest, key);
    }
  }

  /** The rows of `s` newest first: a permutation of `s` in descending key order. Rows with
      equal keys keep their table order (SQL leaves their order unspecified). */
  function SortDesc<T>(s: seq<T>, key: T -> int): (r: seq<T>)
    ensures multiset(r) == multiset(s)
    ensures DescendingBy(r, key)
  {
    if s == [] then []
    else
      assert s == [s[0]] + s[1..];
      var rest := SortDesc(s[1..], key);
      InsertDescSorted(s[0], rest, key);
      InsertDesc(s[0], rest, key)
  }

  /** A page of a descending sequence is descending, and holds only its rows. */
  lemma PageOfDescending<T>(s: seq<T>, skip: nat, limit: nat, key: T -> int)
    requires DescendingBy(s, key)
    ensures DescendingBy(Page(s, skip, limit), key)
    ensures forall x :: x in Page(s, skip, limit) ==> x in s
  {
    var r := Page(s, skip, limit);
    forall i, j | 0 <= i < j < |r| ensures key(r[i]) >= key(r[j]) {
      assert r[i] == s[skip + i] && r[j] == s[skip + j];
    }
    forall x | x in r ensures x in s {
      var k :| 0 <= k < |r| && r[k] == x;
      assert s[skip + k] == x;
    }
  }
}
