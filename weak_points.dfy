/**
 * The "weak points" of the statistics page: every knowledge-point string of
 * an open wrong question is split on ",", each piece is stripped, empty
 * pieces are dropped, and the remaining tokens are counted in a dict kept in
 * first-seen order. The dict's items are then sorted by descending count
 * with Python's stable `sorted`, and the first five are kept.
 */
module WeakPoints {
  import opened PyText
  import PyDict

  type Tally = PyDict.Dict<int>

  /** The stripped pieces that are not empty, in order. */
  function StrippedTokens(pieces: seq<string>): (r: seq<string>)
    ensures forall i :: 0 <= i < |r| ==> r[i] != ""
    ensures |r| <= |pieces|
  {
    if pieces == [] then []
    else
      var t := Strip(pieces[|pieces| - 1]);
      StrippedTokens(pieces[..|pieces| - 1]) + (if t != "" then [t] else [])
  }

  /** One more piece adds its stripped form to the tokens when that is not empty. */
  lemma StrippedTokensStep(done: seq<string>, pieces: seq<string>, j: nat)
    requires j < |pieces|
    ensures Strip(pieces[j]) != "" ==>
      done + StrippedTokens(pieces[..j + 1]) == (done + StrippedTokens(pieces[..j])) + [Strip(pieces[j])]
    ensures Strip(pieces[j]) == "" ==>
      done + StrippedTokens(pieces[..j + 1]) == done + StrippedTokens(pieces[..j])
  {
    assert pieces[..j + 1][..j] == pieces[..j];
    if Strip(pieces[j]) == "" {
      assert StrippedTokens(pieces[..j + 1]) == StrippedTokens(pieces[..j]) + [];
    }
  }

  /** The tokens one stored knowledge-point string adds to the tally; an empty string adds none. */
  function PointTokens(kp: string): (r: seq<string>)
    ensures forall i :: 0 <= i < |r| ==> r[i] != ""
  {
    if kp == "" then [] else StrippedTokens(Split(kp, ","))
  }

  /** The dict built by `knowledge_points[kp] = knowledge_points.get(kp, 0) + 1` over `tokens`. */
  function TallyOf(tokens: seq<string>): (d: Tally)
  {
    if tokens == [] then [] else Bump(TallyOf(tokens[..|tokens| - 1]), tokens[|tokens| - 1])
  }

  /** `knowledge_points[kp] = knowledge_points.get(kp, 0) + 1`. */
  function Bump(d: Tally, t: string): Tally
  {
    PyDict.Set(d, t, PyDict.GetOr(d, t, 0) + 1)
  }

  lemma TallyAppend(tokens: seq<string>, t: string)
    ensures TallyOf(tokens + [t]) == Bump(TallyOf(tokens), t)
  {
    assert (tokens + [t])[..|tokens|] == tokens;
  }

  /** One more piece of a stored string: the tally counts its stripped form once more, unless that is empty. */
  lemma TallyPieceStep(done: seq<string>, pieces: seq<string>, j: nat)
    requires j < |pieces|
    ensures TallyOf(done + StrippedTokens(pieces[..j + 1]))
      == if Strip(pieces[j]) != "" then Bump(TallyOf(done + StrippedTokens(pieces[..j])), Strip(pieces[j]))
         else TallyOf(done + StrippedTokens(pieces[..j]))
  {
    StrippedTokensStep(done, pieces, j);
    if Strip(pieces[j]) != "" {
      TallyAppend(done + StrippedTokens(pieces[..j]), Strip(pieces[j]));
    }
  }

  /** The distinct tokens in the order they are first seen. */
  function FirstSeen(tokens: seq<string>): (r: seq<string>)
  {
    if tokens == [] then []
    else
      var r := FirstSeen(tokens[..|tokens| - 1]);
      var t := tokens[|tokens| - 1];
      if t in r then r else r + [t]
  }

  /** Each token's count in the tally is the number of times it occurs. */
  lemma {:induction false} TallyCounts(tokens: seq<string>, k: string)
    ensures PyDict.GetOr(TallyOf(tokens), k, 0) == multiset(tokens)[k]
  {
    if tokens != [] {
      var ts := tokens[..|tokens| - 1];
      var t := tokens[|tokens| - 1];
      assert tokens == ts + [t];
      assert multiset(tokens) == multiset(ts) + multiset{t};
      TallyCounts(ts, k);
      TallyCounts(ts, t);
      PyDict.GetOrSet(TallyOf(ts), t, PyDict.GetOr(TallyOf(ts), t, 0) + 1, k, 0);
    }
  }

  /** The tally's keys are the distinct tokens, in the order they are first seen. */
  lemma {:induction false} TallyKeys(tokens: seq<string>)
    ensures PyDict.Keys(TallyOf(tokens)) == FirstSeen(tokens)
  {
    if tokens != [] {
      var ts := tokens[..|tokens| - 1];
      var t := tokens[|tokens| - 1];
      TallyKeys(ts);
      PyDict.SetKeys(TallyOf(ts), t, PyDict.GetOr(TallyOf(ts), t, 0) + 1);
    }
  }

  /** A token is first seen somewhere exactly when it occurs. */
  lemma {:induction false} FirstSeenMembers(tokens: seq<string>)
    ensures forall k :: k in FirstSeen(tokens) <==> k in tokens
  {
    if tokens != [] {
      var ts := tokens[..|tokens| - 1];
      assert tokens == ts + [tokens[|tokens| - 1]];
      FirstSeenMembers(ts);
    }
  }

  /** The tally, like every dictionary, holds each key once. */
  lemma {:induction false} TallyUnique(tokens: seq<string>)
    ensures PyDict.UniqueKeys(TallyOf(tokens))
  {
    if tokens != [] {
      var ts := tokens[..|tokens| - 1];
      var t := tokens[|tokens| - 1];
      TallyUnique(ts);
      PyDict.SetUnique(TallyOf(ts), t, PyDict.GetOr(TallyOf(ts), t, 0) + 1);
    }
  }

  // ---------------------------------------------------------------------
  // sorted(items, key=lambda x: -x[1])[:5]
  // ---------------------------------------------------------------------

  /** Counts never increase along `s`. */
  predicate Descending(s: seq<(string, int)>) {
    forall i, j :: 0 <= i < j < |s| ==> s[i].1 >= s[j].1
  }

  /** Inserting an earlier item in front of every later item whose count is not greater. */
  function InsertDesc(x: (string, int), ys: seq<(string, int)>): (r: seq<(string, int)>)
    ensures multiset(r) == multiset{x} + multiset(ys)
    ensures |r| == |ys| + 1
  {
    if ys == [] then [x]
    else if ys[0].1 <= x.1 then [x] + ys
    else
      assert ys == [ys[0]] + ys[1..];
      [ys[0]] + InsertDesc(x, ys[1..])
  }

  /** Python's stable sort by descending count. */
  function SortByCount(items: seq<(string, int)>): (r: seq<(string, int)>)
    ensures multiset(r) == multiset(items)
    ensures |r| == |items|
  {
    if items == [] then []
    else
      assert items == [items[0]] + items[1..];
      InsertDesc(items[0], SortByCount(items[1..]))
  }

  /** The items with count `c`, in order. */
  function WithCount(s: seq<(string, int)>, c: int): seq<(string, int)>
  {
    if s == [] then [] else (if s[0].1 == c then [s[0]] else []) + WithCount(s[1..], c)
  }

  /** Every item of `InsertDesc(x, ys)` is `x` or an item of `ys`. */
  lemma InsertDescFrom(x: (string, int), ys: seq<(string, int)>, j: nat)
    requires j < |InsertDesc(x, ys)|
    ensures InsertDesc(x, ys)[j] == x || InsertDesc(x, ys)[j] in ys
  {
    var rest := InsertDesc(x, ys);
    assert rest[j] in multiset(rest);
  }

  lemma {:induction false} InsertDescSorted(x: (string, int), ys: seq<(string, int)>)
    requires Descending(ys)
    ensures Descending(InsertDesc(x, ys))
  {
    if ys != [] && ys[0].1 > x.1 {
      InsertDescSorted(x, ys[1..]);
      var r := InsertDesc(x, ys);
      var rest := InsertDesc(x, ys[1..]);
      assert r == [ys[0]] + rest;
      forall j | 0 <= j < |rest| ensures ys[0].1 >= rest[j].1 {
        InsertDescFrom(x, ys[1..], j);
        if rest[j] != x {
          var k :| 0 <= k < |ys[1..]| && ys[1..][k] == rest[j];
          assert ys[k + 1] == rest[j];
        }
      }
    }
  }

  lemma {:induction false} InsertDescStable(x: (string, int), ys: seq<(string, int)>, c: int)
    ensures WithCount(InsertDesc(x, ys), c) == WithCount([x] + ys, c)
  {
    if ys != [] && ys[0].1 > x.1 {
      InsertDescStable(x, ys[1..], c);
      var rest := InsertDesc(x, ys[1..]);
      assert InsertDesc(x, ys) == [ys[0]] + rest;
      assert ([ys[0]] + rest)[1..] == rest;
      assert ([x] + ys)[1..] == ys;
      assert ([x] + ys[1..])[1..] == ys[1..];
      assert ys == [ys[0]] + ys[1..];
    }
  }

  /**
   * The sort's promise: counts never increase, no item is lost or invented,
   * and items with equal counts keep their original order.
   */
  lemma {:induction false} SortByCountSpec(items: seq<(string, int)>)
    ensures Descending(SortByCount(items))
    ensures multiset(SortByCount(items)) == multiset(items)
    ensures forall c :: WithCount(SortByCount(items), c) == WithCount(items, c)
  {
    if items != [] {
      SortByCountSpec(items[1..]);
      InsertDescSorted(items[0], SortByCount(items[1..]));
      forall c ensures WithCount(SortByCount(items), c) == WithCount(items, c) {
        InsertDescStable(items[0], SortByCount(items[1..]), c);
        assert ([items[0]] + SortByCount(items[1..]))[1..] == SortByCount(items[1..]);
      }
    }
  }

  const WEAK_POINT_LIMIT: nat := 5

  /** `sorted(knowledge_points.items(), key=lambda x: -x[1])[:5]`. */
  function TopWeak(d: Tally): (r: seq<(string, int)>)
  {
    var sorted := SortByCount(d);
    if |sorted| <= WEAK_POINT_LIMIT then sorted else sorted[..WEAK_POINT_LIMIT]
  }

  /**
   * At most five entries, as many as the tally has up to five, counts never
   * increasing, every entry taken from the tally, and every entry left out
   * counted no more often than any entry kept.
   */
  lemma TopWeakSpec(d: Tally)
    ensures var r := TopWeak(d);
      && |r| == (if |d| <= WEAK_POINT_LIMIT then |d| else WEAK_POINT_LIMIT)
      && Descending(r)
      && (forall x :: x in r ==> x in d)
      && (forall x, y :: x in d && x !in r && y in r ==> x.1 <= y.1)
  {
    SortByCountSpec(d);
    var sorted := SortByCount(d);
    SortedPrefix(sorted, d, |TopWeak(d)|);
    assert TopWeak(d) == sorted[..|TopWeak(d)|];
  }

  /** A prefix of a descending permutation of `items` is descending, drawn from `items`, and beats what it leaves out. */
  lemma SortedPrefix(sorted: seq<(string, int)>, items: seq<(string, int)>, n: nat)
    requires Descending(sorted) && multiset(sorted) == multiset(items) && n <= |sorted|
    ensures Descending(sorted[..n])
    ensures forall x :: x in sorted[..n] ==> x in items
    ensures forall x, y :: x in items && x !in sorted[..n] && y in sorted[..n] ==> x.1 <= y.1
  {
    var r := sorted[..n];
    assert forall i :: 0 <= i < n ==> r[i] == sorted[i];
    forall x | x in r ensures x in items {
      assert x in multiset(sorted);
    }
    forall x, y | x in items && x !in r && y in r ensures x.1 <= y.1 {
      assert x in multiset(sorted);
      TopDropped(sorted, n, x, y);
    }
  }

  lemma TopDropped(sorted: seq<(string, int)>, n: nat, x: (string, int), y: (string, int))
    requires Descending(sorted) && n <= |sorted|
    requires x in sorted && x !in sorted[..n] && y in sorted[..n]
    ensures x.1 <= y.1
  {
    var j :| 0 <= j < |sorted| && sorted[j] == x;
    var i :| 0 <= i < n && sorted[..n][i] == y;
  }

  /**
   * Points stored as `",".join(points)` come back as exactly those points
   * when each is non-empty, already stripped and free of commas.
   */
  lemma JoinedPointsTokens(points: seq<string>)
    requires forall i :: 0 <= i < |points| ==> points[i] != "" && Strip(points[i]) == points[i] && ',' !in points[i]
    ensures PointTokens(Join(points, ",")) == points
  {
    if points != [] {
      SplitJoinChar(points, ',');
      assert Join(points, ",") != "" by {
        if |points| > 1 {
          assert |Join(points, ",")| >= |points[0]| + 1;
        }
      }
      StrippedClean(points);
    }
  }

  lemma {:induction false} StrippedClean(points: seq<string>)
    requires forall i :: 0 <= i < |points| ==> points[i] != "" && Strip(points[i]) == points[i]
    ensures StrippedTokens(points) == points
  {
    if points != [] {
      StrippedClean(points[..|points| - 1]);
      assert points == points[..|points| - 1] + [points[|points| - 1]];
    }
  }
}
