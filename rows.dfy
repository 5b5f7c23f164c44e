/**
 * Query shapes over in-memory tables: a table is the sequence of its rows in
 * insertion order, a `filter(...)` is `Filter`, `.first()` is `FirstIndex`,
 * `order_by(created_at.desc())` over rows created in order is `Reverse`, and
 * `.offset(o).limit(n)` is `Window` with SQLite's treatment of negative values.
 */
module Rows {
  import opened Wrappers

  /** The rows of `s` that satisfy `p`, in table order. */
  function Filter<T>(s: seq<T>, p: T -> bool): (r: seq<T>)
    ensures |r| <= |s|
    ensures forall i :: 0 <= i < |r| ==> r[i] in s && p(r[i])
    ensures forall i :: 0 <= i < |s| && p(s[i]) ==> s[i] in r
  {
    if s == [] then [] else Filter(s[..|s| - 1], p) + (if p(s[|s| - 1]) then [s[|s| - 1]] else [])
  }

  lemma FilterAppend<T>(s: seq<T>, x: T, p: T -> bool)
    ensures Filter(s + [x], p) == Filter(s, p) + (if p(x) then [x] else [])
  {
    assert (s + [x])[..|s|] == s;
  }

  lemma {:induction false} FilterConcat<T>(s: seq<T>, t: seq<T>, p: T -> bool)
    ensures Filter(s + t, p) == Filter(s, p) + Filter(t, p)
    decreases |t|
  {
    if t == [] {
      assert s + t == s;
    } else {
      var t' := t[..|t| - 1];
      var x := t[|t| - 1];
      assert t == t' + [x];
      assert s + t == (s + t') + [x];
      FilterConcat(s, t', p);
      FilterAppend(s + t', x, p);
      FilterAppend(t', x, p);
    }
  }

  /** Two filters that agree on every row select the same rows. */
  lemma {:induction false} FilterSame<T>(s: seq<T>, p: T -> bool, q: T -> bool)
    requires forall i :: 0 <= i < |s| ==> p(s[i]) == q(s[i])
    ensures Filter(s, p) == Filter(s, q)
  {
    if s != [] {
      FilterSame(s[..|s| - 1], p, q);
    }
  }

  /** Filtering twice is filtering by both conditions. */
  lemma {:induction false} FilterFilter<T>(s: seq<T>, p: T -> bool, q: T -> bool)
    ensures Filter(Filter(s, p), q) == Filter(s, x => p(x) && q(x))
  {
    if s != [] {
      var s' := s[..|s| - 1];
      var x := s[|s| - 1];
      FilterFilter(s', p, q);
      FilterConcat(Filter(s', p), if p(x) then [x] else [], q);
      assert Filter(if p(x) then [x] else [], q) == if p(x) && q(x) then [x] else [] by {
        if p(x) {
          assert Filter([x], q) == Filter([x][..0], q) + (if q(x) then [x] else []);
        }
      }
    }
  }

  /** Updating a row in a way no filter decision notices keeps the filter's positions. */
  lemma {:induction false} FilterUpdate<T>(s: seq<T>, i: nat, y: T, p: T -> bool)
    requires i < |s| && p(s[i]) == p(y)
    ensures |Filter(s[i := y], p)| == |Filter(s, p)|
  {
    if i < |s| - 1 {
      assert s[i := y][..|s| - 1] == s[..|s| - 1][i := y];
      FilterUpdate(s[..|s| - 1], i, y, p);
    } else {
      assert s[i := y][..|s| - 1] == s[..|s| - 1];
    }
  }

  /** The rows in the opposite order. */
  function Reverse<T>(s: seq<T>): (r: seq<T>)
    ensures |r| == |s|
    ensures forall i :: 0 <= i < |s| ==> r[i] == s[|s| - 1 - i]
  {
    if s == [] then [] else [s[|s| - 1]] + Reverse(s[..|s| - 1])
  }

  /** Filtering commutes with reversing. */
  lemma {:induction false} FilterReverse<T>(s: seq<T>, p: T -> bool)
    ensures Filter(Reverse(s), p) == Reverse(Filter(s, p))
  {
    if s != [] {
      var s' := s[..|s| - 1];
      var x := s[|s| - 1];
      FilterReverse(s', p);
      assert Reverse(s) == [x] + Reverse(s');
      FilterConcat([x], Reverse(s'), p);
      assert Filter([x], p) == Filter([x][..0], p) + (if p(x) then [x] else []);
      var f := Filter(s', p);
      if p(x) {
        assert Filter(s, p) == f + [x];
        assert (f + [x])[..|f|] == f;
      } else {
        assert Filter(s, p) == f;
      }
    }
  }

  /** Narrowing a reversed filter by a further condition is the reversed filter for both. */
  lemma ReverseFilterSplit<T>(s: seq<T>, p: T -> bool, q: T -> bool, both: T -> bool)
    requires forall i :: 0 <= i < |s| ==> both(s[i]) == (p(s[i]) && q(s[i]))
    ensures Reverse(Filter(s, both)) == Filter(Reverse(Filter(s, p)), q)
  {
    FilterReverse(Filter(s, p), q);
    FilterFilter(s, p, q);
    FilterSame(s, x => p(x) && q(x), both);
  }

  /** The number of rows satisfying `p` (`.count()`). */
  function Count<T>(s: seq<T>, p: T -> bool): (n: nat)
    ensures n <= |s|
  {
    |Filter(s, p)|
  }

  /** The index of the first row satisfying `p` (`.first()`), or None. */
  function FirstIndex<T>(s: seq<T>, p: T -> bool): (r: Option<nat>)
    ensures r.None? <==> forall i :: 0 <= i < |s| ==> !p(s[i])
    ensures r.Some? ==> r.value < |s| && p(s[r.value])
    ensures r.Some? ==> forall i :: 0 <= i < r.value ==> !p(s[i])
  {
    if s == [] then None
    else if p(s[0]) then Some(0)
    else
      match FirstIndex(s[1..], p)
      case None => None
      case Some(i) => Some(i + 1)
  }

  /** The first row satisfying `p`, or None. */
  function First<T>(s: seq<T>, p: T -> bool): (r: Option<T>)
    ensures r.None? <==> forall i :: 0 <= i < |s| ==> !p(s[i])
    ensures r.Some? ==> r.value in s && p(r.value)
  {
    match FirstIndex(s, p)
    case None => None
    case Some(i) => Some(s[i])
  }

  lemma FirstAppend<T>(s: seq<T>, x: T, p: T -> bool)
    ensures First(s + [x], p) == if First(s, p).Some? then First(s, p) else if p(x) then Some(x) else None
  {
    var t := s + [x];
    if First(s, p).Some? {
      var i := FirstIndex(s, p).value;
      assert t[i] == s[i];
      forall j | 0 <= j < i ensures !p(t[j]) {
        assert t[j] == s[j];
      }
    } else {
      assert t[|s|] == x;
      forall j | 0 <= j < |s| ensures !p(t[j]) {
        assert t[j] == s[j];
      }
    }
  }

  /**
   * `.offset(offset).limit(limit)` as SQLite runs it: a negative offset acts
   * as 0 and a negative limit as no limit. The result is the contiguous run
   * of rows that starts at the (clamped) offset and is at most `limit` long.
   */
  function Window<T>(s: seq<T>, offset: int, limit: int): (r: seq<T>)
    ensures var a := if offset <= 0 then 0 else if offset <= |s| then offset else |s|;
      && a + |r| <= |s| && r == s[a..a + |r|]
      && |r| == if limit < 0 || |s| - a <= limit then |s| - a else limit
  {
    var a := if offset <= 0 then 0 else if offset <= |s| then offset else |s|;
    var rest := s[a..];
    if limit < 0 || |rest| <= limit then rest else rest[..limit]
  }

  /** With a positive page size, row `i` is on page `i / limit + 1`, at position `i % limit`. */
  lemma WindowPages<T>(s: seq<T>, limit: int, i: nat)
    requires limit > 0 && i < |s|
    ensures var page := i / limit + 1;
      |Window(s, (page - 1) * limit, limit)| > i % limit
      && Window(s, (page - 1) * limit, limit)[i % limit] == s[i]
  {
    var page := i / limit + 1;
    assert (page - 1) * limit == i / limit * limit;
    assert i / limit * limit + i % limit == i;
  }

  /** Pages below 1 give a negative offset, so they show the first page again. */
  lemma WindowBelowFirstPage<T>(s: seq<T>, page: int, limit: int)
    requires page <= 1 && limit >= 0
    ensures Window(s, (page - 1) * limit, limit) == Window(s, 0, limit)
  {
    assert (page - 1) * limit <= 0 by {
      assert page - 1 <= 0;
    }
  }
}
