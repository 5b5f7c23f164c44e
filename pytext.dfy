/**
 * The Python `str` operations the application relies on, with CPython's
 * semantics on sequences of code points: `p in s`, `s.find(p)`,
 * `s.split(sep)`, `sep.join(xs)`, `s.strip()`, `s.startswith(p)`, `s[:n]`,
 * `str(n)` and `int(s)`.
 */
module PyText {
  import opened Wrappers

  // ---------------------------------------------------------------------
  // Occurrences, find and `in`
  // ---------------------------------------------------------------------

  /** `p` occurs in `s` starting at index `k`. */
  predicate OccursAt(s: string, p: string, k: int) {
    0 <= k && k + |p| <= |s| && s[k..k + |p|] == p
  }

  /** A slice of a slice is a slice of the original. */
  lemma SliceOfSlice(s: string, a: nat, b: nat, c: nat, d: nat)
    requires a <= b <= |s| && c <= d <= b - a
    ensures s[a..b][c..d] == s[a + c..a + d]
  {
    assert forall i :: 0 <= i < d - c ==> s[a..b][c..d][i] == s[a + c..a + d][i];
  }

  /** Occurrences in `s` past index 0 are the occurrences in `s[1..]`, shifted by one. */
  lemma OccursShift(s: string, p: string)
    requires |s| > 0
    ensures forall k :: 0 < k ==> (OccursAt(s, p, k) <==> OccursAt(s[1..], p, k - 1))
  {
    forall k | 0 < k && k + |p| <= |s|
      ensures OccursAt(s, p, k) <==> OccursAt(s[1..], p, k - 1)
    {
      SliceOfSlice(s, 1, |s|, k - 1, k - 1 + |p|);
      assert s[1..] == s[1..|s|];
    }
  }

  /** An occurrence inside the prefix `s[..n]` is an occurrence in `s` that ends by `n`. */
  lemma OccursInPrefix(s: string, p: string, n: nat, j: int)
    requires n <= |s|
    ensures OccursAt(s[..n], p, j) <==> OccursAt(s, p, j) && j + |p| <= n
  {
    if 0 <= j && j + |p| <= n {
      SliceOfSlice(s, 0, n, j, j + |p|);
      assert s[..n] == s[0..n];
    }
  }

  /** An occurrence inside the suffix `s[m..]` is an occurrence in `s`, shifted by `m`. */
  lemma OccursInSuffix(s: string, p: string, m: nat, j: int)
    requires m <= |s|
    ensures OccursAt(s[m..], p, j) <==> 0 <= j && OccursAt(s, p, m + j)
  {
    if 0 <= j && j + |p| <= |s| - m {
      SliceOfSlice(s, m, |s|, j, j + |p|);
      assert s[m..] == s[m..|s|];
    }
  }

  /** `s.find(p)`, with None standing for -1: the first index at which `p` occurs. */
  function Find(s: string, p: string): (r: Option<nat>)
    ensures r.Some? ==> OccursAt(s, p, r.value)
    ensures r.Some? ==> forall k :: 0 <= k < r.value ==> !OccursAt(s, p, k)
    ensures r.None? ==> forall k :: !OccursAt(s, p, k)
    decreases |s|
  {
    if |s| < |p| then None
    else if s[..|p|] == p then Some(0)
    else
      OccursShift(s, p);
      match Find(s[1..], p)
      case None => None
      case Some(k) => Some(k + 1)
  }

  /** In a prefix `s[..n]`, `find` sees the first occurrence of `s` when it ends by `n`, and nothing otherwise. */
  lemma FindInPrefix(s: string, p: string, n: nat)
    requires n <= |s| && Find(s, p).Some?
    ensures Find(s[..n], p) == if Find(s, p).value + |p| <= n then Find(s, p) else None
  {
    var m := Find(s, p).value;
    forall k | 0 <= k < m ensures !OccursAt(s[..n], p, k) {
      OccursInPrefix(s, p, n, k);
    }
    if m + |p| <= n {
      OccursInPrefix(s, p, n, m);
      FindFirst(s[..n], p, m);
    } else {
      forall k ensures !OccursAt(s[..n], p, k) {
        OccursInPrefix(s, p, n, k);
      }
      FindNone(s[..n], p);
    }
  }

  /** `find` returns the first index where `p` occurs. */
  lemma FindFirst(s: string, p: string, m: nat)
    requires OccursAt(s, p, m)
    requires forall k :: 0 <= k < m ==> !OccursAt(s, p, k)
    ensures Find(s, p) == Some(m)
  {
  }

  /** `find` returns -1 when `p` occurs nowhere. */
  lemma FindNone(s: string, p: string)
    requires forall k :: !OccursAt(s, p, k)
    ensures Find(s, p).None?
  {
  }

  /** Python `p in s`. */
  predicate Contains(s: string, p: string) {
    Find(s, p).Some?
  }

  lemma ContainsIff(s: string, p: string)
    ensures Contains(s, p) <==> exists k :: OccursAt(s, p, k)
  {
  }

  /** A string holding `p + q` at some index holds `p` there too. */
  lemma ContainsLonger(s: string, p: string, q: string)
    ensures Contains(s, p + q) ==> Contains(s, p)
  {
    if Contains(s, p + q) {
      var k := Find(s, p + q).value;
      SliceOfSlice(s, k, k + |p + q|, 0, |p|);
      assert s[k..k + |p + q|][..|p|] == s[k..k + |p + q|][0..|p|];
      assert OccursAt(s, p, k);
    }
  }

  // ---------------------------------------------------------------------
  // split and join
  // ---------------------------------------------------------------------

  /** `sep.join(xs)`. */
  function Join(xs: seq<string>, sep: string): string
  {
    if |xs| == 0 then "" else if |xs| == 1 then xs[0] else xs[0] + sep + Join(xs[1..], sep)
  }

  /**
   * `s.split(sep)` for a non-empty separator: the pieces between the
   * non-overlapping occurrences of `sep`, found left to right. The pieces
   * join back to `s` and none of them contains `sep`.
   */
  function Split(s: string, sep: string): (r: seq<string>)
    requires sep != ""
    ensures |r| >= 1
    decreases |s|
  {
    match Find(s, sep)
    case None => [s]
    case Some(k) => [s[..k]] + Split(s[k + |sep|..], sep)
  }

  /** Joining the pieces gives back the text, and no piece holds the separator. */
  lemma {:induction false} SplitSpec(s: string, sep: string)
    requires sep != ""
    ensures Join(Split(s, sep), sep) == s
    ensures forall i :: 0 <= i < |Split(s, sep)| ==> !Contains(Split(s, sep)[i], sep)
    decreases |s|
  {
    match Find(s, sep)
    case None =>
    case Some(k) =>
      var rest := Split(s[k + |sep|..], sep);
      SplitSpec(s[k + |sep|..], sep);
      assert Split(s, sep) == [s[..k]] + rest;
      assert ([s[..k]] + rest)[1..] == rest;
      assert s == s[..k] + sep + s[k + |sep|..] by {
        assert s[k..k + |sep|] == sep;
      }
      forall j | OccursAt(s[..k], sep, j) ensures false {
        OccursInPrefix(s, sep, k, j);
      }
      assert !Contains(s[..k], sep);
      forall i | 0 <= i < |Split(s, sep)| ensures !Contains(Split(s, sep)[i], sep) {
        if i > 0 {
          assert Split(s, sep)[i] == rest[i - 1];
        }
      }
  }

  /** The first piece of a split is the text before the first separator, or all of it. */
  lemma SplitHead(s: string, sep: string)
    requires sep != ""
    ensures Split(s, sep)[0] == (match Find(s, sep) case None => s case Some(k) => s[..k])
  {
  }

  /** There is a second piece exactly when `sep` occurs; it runs up to the next separator. */
  lemma SplitSecond(s: string, sep: string)
    requires sep != ""
    ensures |Split(s, sep)| >= 2 <==> Contains(s, sep)
    ensures Contains(s, sep) ==>
      var t := s[Find(s, sep).value + |sep|..];
      Split(s, sep)[1] == Split(t, sep)[0]
  {
  }

  /** A one-character separator splits a join of pieces free of it back into those pieces. */
  lemma {:induction false} SplitJoinChar(xs: seq<string>, c: char)
    requires |xs| >= 1
    requires forall i :: 0 <= i < |xs| ==> c !in xs[i]
    ensures Split(Join(xs, [c]), [c]) == xs
    decreases |xs|
  {
    var head := xs[0];
    var first := Find(Join(xs, [c]), [c]);
    if |xs| > 1 {
      var s := Join(xs, [c]);
      assert s == head + [c] + Join(xs[1..], [c]);
      assert OccursAt(s, [c], |head|) by {
        assert s[|head|..|head| + 1] == [c];
      }
      forall k | 0 <= k < |head| ensures !OccursAt(s, [c], k) {
        assert s[k] == head[k];
      }
      assert first == Some(|head|);
      assert s[..|head|] == head;
      assert s[|head| + 1..] == Join(xs[1..], [c]);
      forall i | 0 <= i < |xs[1..]| ensures c !in xs[1..][i] {
        assert xs[1..][i] == xs[i + 1];
      }
      SplitJoinChar(xs[1..], c);
      assert [head] + xs[1..] == xs;
    } else {
      forall k ensures !OccursAt(head, [c], k) {
        if 0 <= k < |head| {
          assert head[k..k + 1] == [head[k]];
        }
      }
      FindNone(head, [c]);
    }
  }

  /** Joining the empty list gives "", and splitting "" gives one empty piece, not none. */
  lemma JoinEmptySplit(sep: string)
    requires sep != ""
    ensures Join([], sep) == ""
    ensures Split("", sep) == [""]
  {
  }

  // ---------------------------------------------------------------------
  // startswith, [:n] and strip
  // ---------------------------------------------------------------------

  /** `s.startswith(p)`. */
  predicate StartsWith(s: string, p: string) {
    |p| <= |s| && s[..|p|] == p
  }

  /** `s[:n]` for a non-negative `n`: the first `n` code points, or all of them. */
  function Prefix(s: string, n: nat): (r: string)
    ensures |r| == if |s| <= n then |s| else n
    ensures r == s[..|r|]
  {
    if |s| <= n then s else s[..n]
  }

  /** Python's `str.isspace()` on one code point: the characters `str.strip()` removes. */
  predicate IsSpace(c: char) {
    var n := c as int;
    || n == 0x20 || 0x09 <= n <= 0x0d || 0x1c <= n <= 0x1f
    || n == 0x85 || n == 0xa0 || n == 0x1680 || 0x2000 <= n <= 0x200a
    || n == 0x2028 || n == 0x2029 || n == 0x202f || n == 0x205f || n == 0x3000
  }

  /** The number of whitespace code points at the front of `s`. */
  function LeadingSpaces(s: string): (n: nat)
    ensures n <= |s|
    ensures forall k :: 0 <= k < n ==> IsSpace(s[k])
    ensures n == |s| || !IsSpace(s[n])
  {
    if s == [] || !IsSpace(s[0]) then 0
    else
      var m := LeadingSpaces(s[1..]);
      assert forall k :: 1 <= k < m + 1 ==> s[k] == s[1..][k - 1];
      m + 1
  }

  /** The number of whitespace code points at the end of `s`. */
  function TrailingSpaces(s: string): (n: nat)
    ensures n <= |s|
    ensures forall k :: |s| - n <= k < |s| ==> IsSpace(s[k])
    ensures n == |s| || !IsSpace(s[|s| - 1 - n])
  {
    if s == [] || !IsSpace(s[|s| - 1]) then 0
    else
      var m := TrailingSpaces(s[..|s| - 1]);
      assert forall k :: 0 <= k < |s| - 1 ==> s[k] == s[..|s| - 1][k];
      m + 1
  }

  /** `s.strip()`: the text left after removing leading and trailing whitespace. */
  function Strip(s: string): string
  {
    var t := s[LeadingSpaces(s)..];
    t[..|t| - TrailingSpaces(t)]
  }

  /**
   * What strip promises: the result is a contiguous part of `s`, everything
   * cut away on either side is whitespace, and the result neither starts nor
   * ends with whitespace.
   */
  lemma StripSpec(s: string)
    ensures var r := Strip(s);
      && (r == [] || (!IsSpace(r[0]) && !IsSpace(r[|r| - 1])))
      && (exists i, j :: 0 <= i <= j <= |s| && r == s[i..j]
           && (forall k :: 0 <= k < i ==> IsSpace(s[k]))
           && (forall k :: j <= k < |s| ==> IsSpace(s[k])))
  {
    var a := LeadingSpaces(s);
    var t := s[a..];
    var b := TrailingSpaces(t);
    var r := Strip(s);
    assert r == s[a..|s| - b];
    if r != [] {
      assert r[0] == t[0];
      assert a < |s| && t[0] == s[a];
    }
    forall k | |s| - b <= k < |s| ensures IsSpace(s[k]) {
      assert s[k] == t[k - a];
    }
    assert 0 <= a <= |s| - b <= |s|;
  }

  /** A string with no whitespace at either end is its own strip. */
  lemma StripTrimmed(s: string)
    requires s == [] || (!IsSpace(s[0]) && !IsSpace(s[|s| - 1]))
    ensures Strip(s) == s
  {
    var a := LeadingSpaces(s);
    assert a == 0;
    assert s[a..] == s;
  }

  /** Stripping twice is stripping once. */
  lemma StripIdempotent(s: string)
    ensures Strip(Strip(s)) == Strip(s)
  {
    StripSpec(s);
    StripTrimmed(Strip(s));
  }

  // ---------------------------------------------------------------------
  // str(n) and int(s)
  // ---------------------------------------------------------------------

  predicate IsDigit(c: char) {
    '0' <= c <= '9'
  }

  function DigitChar(d: nat): (c: char)
    requires d < 10
    ensures IsDigit(c)
  {
    ('0' as int + d) as char
  }

  /** `str(n)` for a non-negative integer: its decimal digits, without leading zeros. */
  function NatToString(n: nat): (r: string)
    ensures |r| >= 1
    ensures forall i :: 0 <= i < |r| ==> IsDigit(r[i])
    ensures n > 0 ==> r[0] != '0'
  {
    if n < 10 then [DigitChar(n)] else NatToString(n / 10) + [DigitChar(n % 10)]
  }

  /** The value of a string of ASCII decimal digits. */
  function DigitsValue(s: string): nat
    requires forall i :: 0 <= i < |s| ==> IsDigit(s[i])
  {
    if s == [] then 0
    else
      var d := s[|s| - 1] as int - '0' as int;
      assert IsDigit(s[|s| - 1]);
      DigitsValue(s[..|s| - 1]) * 10 + d
  }

  /** Drops the `_` digit-group separators that `int()` accepts. */
  function WithoutUnderscores(s: string): (r: string)
    ensures forall i :: 0 <= i < |r| ==> r[i] != '_' && r[i] in s
    ensures (forall i :: 0 <= i < |s| ==> s[i] != '_') ==> r == s
  {
    if s == [] then []
    else if s[0] == '_' then WithoutUnderscores(s[1..])
    else [s[0]] + WithoutUnderscores(s[1..])
  }

  /**
   * The body of an integer literal `int()` accepts: ASCII digits, with single
   * underscores allowed between two digits.
   */
  predicate DigitGroups(s: string) {
    && |s| >= 1
    && IsDigit(s[0]) && IsDigit(s[|s| - 1])
    && (forall i :: 0 <= i < |s| ==> IsDigit(s[i]) || s[i] == '_')
    && (forall i :: 0 <= i < |s| - 1 ==> !(s[i] == '_' && s[i + 1] == '_'))
  }

  /**
   * `int(s)` for a string, with None standing for the ValueError it raises:
   * surrounding whitespace, then an optional sign, then digit groups.
   */
  function ParseInt(s: string): (r: Option<int>)
  {
    var t := Strip(s);
    var neg := |t| > 0 && t[0] == '-';
    var body := if |t| > 0 && (t[0] == '-' || t[0] == '+') then t[1..] else t;
    if !DigitGroups(body) then None
    else
      var v: int := DigitsValue(WithoutUnderscores(body));
      Some(if neg then -v else v)
  }

  lemma {:induction false} DigitsValueOfNat(n: nat)
    ensures DigitsValue(NatToString(n)) == n
    decreases n
  {
    if n >= 10 {
      var s := NatToString(n);
      assert s[..|s| - 1] == NatToString(n / 10);
      DigitsValueOfNat(n / 10);
    }
  }

  /** `int(str(n)) == n`: the decimal form of a user id reads back as that id. */
  lemma ParseIntOfNatToString(n: nat)
    ensures ParseInt(NatToString(n)) == Some(n)
  {
    var s := NatToString(n);
    assert IsDigit(s[0]) && IsDigit(s[|s| - 1]);
    assert !IsSpace(s[0]) && !IsSpace(s[|s| - 1]);
    StripTrimmed(s);
    assert s[0] != '-' && s[0] != '+';
    assert DigitGroups(s);
    assert WithoutUnderscores(s) == s;
    DigitsValueOfNat(n);
  }
}
