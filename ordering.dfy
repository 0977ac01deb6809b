/**
 * What the store's queries do to a sequence of rows: keep the rows a WHERE
 * clause accepts, order them by a timestamp column descending, and cut a
 * LIMIT/OFFSET window out of the result.
 */
module Ordering {
  import opened Outcomes
  import opened JsRuntime

  /** Rows in non-increasing order of `key`: ORDER BY key DESC. */
  ghost predicate SortedDesc<T>(s: seq<T>, key: T -> int) {
    forall i, j :: 0 <= i < j < |s| ==> key(s[i]) >= key(s[j])
  }

  /** `x` placed in front of the first row whose key does not exceed its own. */
  function Insert<T>(x: T, s: seq<T>, key: T -> int): (r: seq<T>)
    ensures multiset(r) == multiset(s) + multiset{x}
    ensures |r| == |s| + 1
  {
    if s == [] || key(x) >= key(s[0]) then
      [x] + s
    else
      assert s == [s[0]] + s[1..];
      [s[0]] + Insert(x, s[1..], key)
  }

  lemma {:induction false} InsertSorted<T>(x: T, s: seq<T>, key: T -> int)
    requires SortedDesc(s, key)
    ensures SortedDesc(Insert(x, s, key), key)
  {
    if s != [] && key(x) < key(s[0]) {
      InsertSorted(x, s[1..], key);
      var tail := Insert(x, s[1..], key);
      forall k | 0 <= k < |tail| ensures key(s[0]) >= key(tail[k]) {
        assert tail[k] in multiset(tail);
        if tail[k] != x {
          assert tail[k] in multiset(s[1..]);
          assert tail[k] in s[1..];
        }
      }
    }
  }

  /** The rows of `s` in ORDER BY key DESC order; rows with equal keys keep their order. */
  function SortDesc<T>(s: seq<T>, key: T -> int): (r: seq<T>)
    ensures SortedDesc(r, key)
    ensures multiset(r) == multiset(s)
    ensures |r| == |s|
  {
    if s == [] then []
    else
      assert s == [s[0]] + s[1..];
      InsertSorted(s[0], SortDesc(s[1..], key), key);
      Insert(s[0], SortDesc(s[1..], key), key)
  }

  /** The first rows of a sorted listing are sorted. */
  lemma PrefixSorted<T>(s: seq<T>, n: int, key: T -> int)
    requires SortedDesc(s, key)
    ensures SortedDesc(Slice(s, 0, n), key)
    ensures n >= 0 ==> |Slice(s, 0, n)| == (if |s| < n then |s| else n)
    ensures forall k :: 0 <= k < |Slice(s, 0, n)| ==> Slice(s, 0, n)[k] == s[k]
  {
    var r := Slice(s, 0, n);
    forall i, j | 0 <= i < j < |r| ensures key(r[i]) >= key(r[j]) {
      assert r[i] == s[i] && r[j] == s[j];
    }
  }

  /** The first rows of a sorted copy are rows of the original. */
  lemma SortedPrefixMembers<T>(s: seq<T>, n: int, key: T -> int)
    ensures forall x :: x in Slice(SortDesc(s, key), 0, n) ==> x in s
  {
    var sorted := SortDesc(s, key);
    forall x | x in Slice(sorted, 0, n) ensures x in s {
      var k :| 0 <= k < |Slice(sorted, 0, n)| && Slice(sorted, 0, n)[k] == x;
      assert x in multiset(sorted);
    }
  }

  /** The rows of `s` a WHERE clause `p` accepts, in their order. */
  function Filter<T>(s: seq<T>, p: T -> bool): (r: seq<T>)
    ensures |r| <= |s|
    ensures forall k :: 0 <= k < |r| ==> p(r[k])
  {
    if s == [] then []
    else
      assert s == [s[0]] + s[1..];
      (if p(s[0]) then [s[0]] else []) + Filter(s[1..], p)
  }

  lemma {:induction false} FilterAppend<T>(s: seq<T>, t: seq<T>, p: T -> bool)
    ensures Filter(s + t, p) == Filter(s, p) + Filter(t, p)
  {
    if s == [] {
      assert s + t == t;
    } else {
      var u, h := s + t, if p(s[0]) then [s[0]] else [];
      assert u != [] && u[0] == s[0] && u[1..] == s[1..] + t;
      FilterAppend(s[1..], t, p);
      AppendAssoc(h, Filter(s[1..], p), Filter(t, p));
    }
  }

  lemma AppendAssoc<T>(a: seq<T>, b: seq<T>, c: seq<T>)
    ensures a + (b + c) == (a + b) + c
  {
  }

  /** Every row is either kept or dropped: a filter and its complement split the rows between them. */
  lemma {:induction false} FilterSplitsCount<T>(s: seq<T>, p: T -> bool, q: T -> bool)
    requires forall x :: q(x) <==> !p(x)
    ensures |Filter(s, p)| + |Filter(s, q)| == |s|
  {
    if s != [] {
      FilterSplitsCount(s[1..], p, q);
    }
  }

  /** Keeping every row keeps the sequence. */
  lemma {:induction false} FilterAll<T>(s: seq<T>, p: T -> bool)
    requires forall x :: x in s ==> p(x)
    ensures Filter(s, p) == s
  {
    if s != [] {
      FilterAll(s[1..], p);
      assert s == [s[0]] + s[1..];
    }
  }

  /** The rows a filter keeps are exactly the rows of `s` that satisfy it. */
  lemma {:induction false} FilterMembers<T>(s: seq<T>, p: T -> bool)
    ensures forall x :: x in Filter(s, p) ==> x in s && p(x)
    ensures forall x :: x in s && p(x) ==> x in Filter(s, p)
  {
    if s != [] {
      FilterMembers(s[1..], p);
      assert s == [s[0]] + s[1..];
    }
  }

  /** A filter keeps the order: a sorted sequence stays sorted. */
  lemma {:induction false} FilterSorted<T>(s: seq<T>, p: T -> bool, key: T -> int)
    requires SortedDesc(s, key)
    ensures SortedDesc(Filter(s, p), key)
  {
    if s != [] {
      FilterSorted(s[1..], p, key);
      FilterMembers(s[1..], p);
      var tail := Filter(s[1..], p);
      forall k | 0 <= k < |tail| ensures key(s[0]) >= key(tail[k]) {
        assert tail[k] in tail;
        assert tail[k] in s[1..];
        var j :| 0 <= j < |s[1..]| && s[1..][j] == tail[k];
        assert s[1 + j] == tail[k];
      }
    }
  }

  /**
   * `LIMIT limit OFFSET offset`: the rows from position `offset` on, at most
   * `limit` of them; the store rejects a negative LIMIT or OFFSET.
   */
  function Window<T>(s: seq<T>, limit: int, offset: int): (r: Option<seq<T>>)
    ensures r.None? <==> limit < 0 || offset < 0
    ensures r.Some? ==>
      && |r.value| == (if offset >= |s| then 0 else if |s| - offset < limit then |s| - offset else limit)
      && forall k :: 0 <= k < |r.value| ==> offset + k < |s| && r.value[k] == s[offset + k]
  {
    if limit < 0 || offset < 0 then None
    else if offset >= |s| then Some([])
    else if offset + limit >= |s| then Some(s[offset..])
    else Some(s[offset..offset + limit])
  }

  /** A LIMIT/OFFSET window is the slice `[offset, offset + limit)` of the ordered rows. */
  lemma WindowSlice<T>(s: seq<T>, limit: int, offset: int)
    requires limit >= 0 && offset >= 0
    ensures Window(s, limit, offset) == Some(Slice(s, offset, offset + limit))
  {
    var w, l := Window(s, limit, offset).value, Slice(s, offset, offset + limit);
    assert |w| == |l|;
    assert forall k :: 0 <= k < |w| ==> w[k] == l[k];
    assert w == l;
  }

  /** A WHERE clause that accepts nothing yields no rows. */
  lemma {:induction false} FilterNone<T>(s: seq<T>, p: T -> bool)
    requires forall x :: x in s ==> !p(x)
    ensures Filter(s, p) == []
  {
    if s != [] {
      FilterNone(s[1..], p);
      assert s[0] in s;
    }
  }

  /** `SELECT ... WHERE p ORDER BY key DESC LIMIT limit OFFSET offset` over the rows `s`. */
  function Query<T>(s: seq<T>, p: T -> bool, key: T -> int, limit: int, offset: int): (r: Option<seq<T>>)
    ensures r.None? <==> limit < 0 || offset < 0
    ensures r.Some? ==> |r.value| <= limit && SortedDesc(r.value, key)
  {
    Window(SortDesc(Filter(s, p), key), limit, offset)
  }

  /** A query returns only rows of the table that its WHERE clause accepts. */
  lemma QuerySound<T>(s: seq<T>, p: T -> bool, key: T -> int, limit: int, offset: int)
    requires limit >= 0 && offset >= 0
    ensures forall k :: 0 <= k < |Query(s, p, key, limit, offset).value| ==>
      Query(s, p, key, limit, offset).value[k] in s && p(Query(s, p, key, limit, offset).value[k])
  {
    var sorted := SortDesc(Filter(s, p), key);
    FilterMembers(s, p);
    forall k | 0 <= k < |Query(s, p, key, limit, offset).value|
      ensures Query(s, p, key, limit, offset).value[k] in s && p(Query(s, p, key, limit, offset).value[k])
    {
      var x := sorted[offset + k];
      assert x in multiset(sorted);
      assert x in Filter(s, p);
    }
  }

  /** The first page, when it is large enough, holds every accepted row, each as often as in the table. */
  lemma {:induction false} QueryComplete<T>(s: seq<T>, p: T -> bool, key: T -> int, limit: int)
    requires limit >= |s|
    ensures multiset(Query(s, p, key, limit, 0).value) == multiset(Filter(s, p))
    ensures forall x :: x in s && p(x) ==> x in Query(s, p, key, limit, 0).value
  {
    var sorted := SortDesc(Filter(s, p), key);
    assert Query(s, p, key, limit, 0).value == sorted[0..];
    assert sorted[0..] == sorted;
    FilterMembers(s, p);
    forall x | x in s && p(x) ensures x in Query(s, p, key, limit, 0).value {
      assert x in multiset(Filter(s, p));
    }
  }

  // ---------------------------------------------------------------------------
  // Counting rows

  /** No row occurs twice. */
  ghost predicate NoDuplicates<T>(s: seq<T>) {
    forall i, j :: 0 <= i < j < |s| ==> s[i] != s[j]
  }

  /** A new row in front of distinct rows keeps them distinct. */
  lemma ConsNoDuplicates<T>(x: T, s: seq<T>)
    requires NoDuplicates(s) && x !in s
    ensures NoDuplicates([x] + s)
  {
    var r := [x] + s;
    forall i, j | 0 <= i < j < |r| ensures r[i] != r[j] {
      assert r[j] == s[j - 1];
      if i > 0 {
        assert r[i] == s[i - 1];
      }
    }
  }

  lemma {:induction false} FilterKeepsNoDuplicates<T>(s: seq<T>, p: T -> bool)
    requires NoDuplicates(s)
    ensures NoDuplicates(Filter(s, p))
  {
    if s != [] {
      FilterKeepsNoDuplicates(s[1..], p);
      FilterMembers(s[1..], p);
      var tail := Filter(s[1..], p);
      forall k | 0 <= k < |tail| ensures tail[k] != s[0] {
        assert tail[k] in s[1..];
        var j :| 0 <= j < |s[1..]| && s[1..][j] == tail[k];
        assert s[1 + j] == tail[k];
      }
    }
  }

  lemma {:induction false} InsertKeepsNoDuplicates<T>(x: T, s: seq<T>, key: T -> int)
    requires NoDuplicates(s) && x !in s
    ensures NoDuplicates(Insert(x, s, key))
  {
    if s != [] && key(x) < key(s[0]) {
      InsertKeepsNoDuplicates(x, s[1..], key);
      var tail := Insert(x, s[1..], key);
      forall k | 0 <= k < |tail| ensures tail[k] != s[0] {
        assert tail[k] in multiset(tail);
        if tail[k] != x {
          assert tail[k] in multiset(s[1..]);
          var j :| 0 <= j < |s[1..]| && s[1..][j] == tail[k];
          assert s[1 + j] == tail[k];
        }
      }
    }
  }

  lemma {:induction false} SortKeepsNoDuplicates<T>(s: seq<T>, key: T -> int)
    requires NoDuplicates(s)
    ensures NoDuplicates(SortDesc(s, key))
  {
    if s != [] {
      SortKeepsNoDuplicates(s[1..], key);
      var rest := SortDesc(s[1..], key);
      assert s[0] !in s[1..];
      assert s[0] !in rest by {
        assert s[0] !in multiset(s[1..]);
        assert multiset(rest) == multiset(s[1..]);
        assert s[0] !in multiset(rest);
      }
      InsertKeepsNoDuplicates(s[0], rest, key);
    }
  }

  /** Without duplicates, the number of rows a filter keeps is the number of distinct accepted rows. */
  lemma {:induction false} FilterCount<T>(s: seq<T>, p: T -> bool)
    requires NoDuplicates(s)
    ensures |Filter(s, p)| == |set x | x in s && p(x)|
  {
    if s != [] {
      var h, t := s[0], s[1..];
      TailNoDuplicates(s);
      FilterCount(t, p);
      var rest := set x | x in t && p(x);
      AcceptedSplit(s, p);
      assert Filter(s, p) == (if p(h) then [h] else []) + Filter(t, p);
      assert h !in rest;
    }
  }

  /** Without duplicates, the first row does not recur and the rest has no duplicates either. */
  lemma TailNoDuplicates<T>(s: seq<T>)
    requires NoDuplicates(s) && s != []
    ensures NoDuplicates(s[1..]) && s[0] !in s[1..]
  {
    var t := s[1..];
    forall i, j | 0 <= i < j < |t| ensures t[i] != t[j] {
      assert t[i] == s[i + 1] && t[j] == s[j + 1];
    }
    forall i | 0 <= i < |t| ensures t[i] != s[0] {
      assert t[i] == s[i + 1];
    }
  }

  /** The accepted rows are the first row, when accepted, and the accepted rows of the rest. */
  lemma AcceptedSplit<T>(s: seq<T>, p: T -> bool)
    requires s != []
    ensures (set x | x in s && p(x)) == (if p(s[0]) then {s[0]} else {}) + (set x | x in s[1..] && p(x))
  {
    assert s == [s[0]] + s[1..];
    assert forall x :: x in s <==> x == s[0] || x in s[1..];
  }
}
