/** The ordinal .NET string operations the core relies on, over `string` = `seq<char>`. */
module Strings {

  /** `p` occurs in `s` starting at index `k`. */
  predicate OccursAt(s: string, p: string, k: int) {
    0 <= k && k + |p| <= |s| && s[k..k + |p|] == p
  }

  /** String.Contains (ordinal); every string contains "". */
  predicate Contains(s: string, p: string) {
    exists k :: 0 <= k <= |s| && OccursAt(s, p, k)
  }

  lemma ContainsPrefix(s: string, p: string)
    requires p <= s
    ensures Contains(s, p)
  {
    assert OccursAt(s, p, 0);
  }

  lemma ContainsSuffix(s: string, p: string)
    ensures Contains(s + p, p)
  {
    assert (s + p)[|s|..|s| + |p|] == p;
    assert OccursAt(s + p, p, |s|);
  }

  lemma ContainsInTail(s: string, j: nat, p: string)
    requires j <= |s| && Contains(s[j..], p)
    ensures Contains(s, p)
  {
    var k :| 0 <= k <= |s[j..]| && OccursAt(s[j..], p, k);
    assert k + |p| <= |s| - j;
    assert s[j..][k..k + |p|] == s[j + k..j + k + |p|];
    assert OccursAt(s, p, j + k);
  }

  lemma ContainsInFront(s: string, t: string, p: string)
    requires Contains(s, p)
    ensures Contains(s + t, p)
  {
    var k :| 0 <= k <= |s| && OccursAt(s, p, k);
    assert k + |p| <= |s|;
    assert (s + t)[k..k + |p|] == s[k..k + |p|];
    assert OccursAt(s + t, p, k);
  }

  // ---------------------------------------------------------------------------
  // String.LastIndexOfAny(new[] { '/', '\\' })

  predicate IsSeparator(c: char) {
    c == '/' || c == '\\'
  }

  /** The index of the last path separator in `s`, or -1 when `s` holds none. */
  function LastSeparator(s: string): (r: int)
    ensures -1 <= r < |s|
    ensures r >= 0 ==> IsSeparator(s[r])
    ensures forall j :: r < j < |s| ==> !IsSeparator(s[j])
  {
    if |s| == 0 then -1
    else if IsSeparator(s[|s| - 1]) then |s| - 1
    else LastSeparator(s[..|s| - 1])
  }

  // ---------------------------------------------------------------------------
  // String.Replace(p, r): ordinal, left to right, non-overlapping

  function ReplaceAll(s: string, p: string, r: string): string
    requires |p| > 0
    decreases |s|
  {
    if |s| < |p| then s
    else if s[..|p|] == p then r + ReplaceAll(s[|p|..], p, r)
    else [s[0]] + ReplaceAll(s[1..], p, r)
  }

  /** Characters before the first occurrence of `p` are copied unchanged. */
  lemma {:induction false} ReplaceAllSkip(s: string, p: string, r: string, i: nat)
    requires |p| > 0 && i <= |s|
    requires forall k :: 0 <= k < i ==> !OccursAt(s, p, k)
    ensures ReplaceAll(s, p, r) == s[..i] + ReplaceAll(s[i..], p, r)
  {
    if i == 0 {
      assert s[..0] == [] && s[0..] == s;
    } else if |s| < |p| {
      assert |s[i..]| < |p|;
    } else {
      assert !OccursAt(s, p, 0);
      assert ReplaceAll(s, p, r) == [s[0]] + ReplaceAll(s[1..], p, r);
      SkipTail(s, p, i);
      ReplaceAllSkip(s[1..], p, r, i - 1);
      assert s[1..][i - 1..] == s[i..];
      assert [s[0]] + s[1..][..i - 1] == s[..i];
    }
  }

  /** No occurrence of `p` before `i` in `s` means none before `i - 1` in `s[1..]`. */
  lemma SkipTail(s: string, p: string, i: nat)
    requires 1 <= i <= |s|
    requires forall k :: 0 <= k < i ==> !OccursAt(s, p, k)
    ensures forall k :: 0 <= k < i - 1 ==> !OccursAt(s[1..], p, k)
  {
    forall k | 0 <= k < i - 1
      ensures !OccursAt(s[1..], p, k)
    {
      assert !OccursAt(s, p, k + 1);
      if k + |p| <= |s[1..]| {
        assert s[1..][k..k + |p|] == s[k + 1..k + 1 + |p|];
      }
    }
  }

  /** Replacing a pattern that does not occur changes nothing. */
  lemma ReplaceAllAbsent(s: string, p: string, r: string)
    requires |p| > 0 && !Contains(s, p)
    ensures ReplaceAll(s, p, r) == s
  {
    ReplaceAllSkip(s, p, r, |s|);
    assert s[..|s|] == s && s[|s|..] == [];
  }

  /**
    * If `p` begins with a character `c` followed by a run `q` in which `c` does not occur,
    * and `u` does not contain `[c] + q`, then no occurrence of `p` in `u + p + t` starts inside `u`.
    */
  lemma NoOccurrenceBefore(u: string, c: char, q: string, rest: string, t: string)
    requires c !in q && !Contains(u, [c] + q)
    ensures forall k :: 0 <= k < |u| ==> !OccursAt(u + ([c] + q + rest) + t, [c] + q + rest, k)
  {
    var p := [c] + q + rest;
    var h := [c] + q;
    var s := u + p + t;
    assert p[..|h|] == h;
    forall k | 0 <= k < |u|
      ensures !OccursAt(s, p, k)
    {
      if k + |h| <= |u| {
        assert !OccursAt(u, h, k);
        assert s[k..k + |h|] == u[k..k + |h|];
        if k + |p| <= |s| {
          assert s[k..k + |p|][..|h|] == s[k..k + |h|];
        }
      } else {
        var j := |u| - k;
        assert 1 <= j <= |q|;
        assert s[|u|] == c;
        assert p[j] == q[j - 1];
        assert p[j] != c;
        if k + |p| <= |s| {
          assert s[k..k + |p|][j] == s[|u|];
        }
      }
    }
  }

  /**
    * With no occurrence of `p` inside `u`, replacing `p` in `u + p + t` removes the `p`
    * that follows `u` and keeps `u` as it is.
    */
  lemma ReplaceAllAfter(u: string, p: string, t: string, r: string)
    requires |p| > 0
    requires forall k :: 0 <= k < |u| ==> !OccursAt(u + p + t, p, k)
    ensures ReplaceAll(u + p + t, p, r) == u + r + ReplaceAll(t, p, r)
  {
    var s := u + p + t;
    ReplaceAllSkip(s, p, r, |u|);
    assert s[..|u|] == u;
    assert s[|u|..] == p + t;
    assert (p + t)[..|p|] == p && (p + t)[|p|..] == t;
  }

  // ---------------------------------------------------------------------------
  // String.Split(new[] { "\r\n", "\r", "\n" }, StringSplitOptions.None)

  predicate NoBreak(s: string) {
    '\r' !in s && '\n' !in s
  }

  /** The lines of `s`; "\r\n" is taken as one separator, as the first separator of the array wins. */
  function SplitLines(s: string): (lines: seq<string>)
    ensures |lines| >= 1
    ensures forall i :: 0 <= i < |lines| ==> NoBreak(lines[i])
    decreases |s|
  {
    if |s| == 0 then [""]
    else if s[0] == '\r' && |s| >= 2 && s[1] == '\n' then [""] + SplitLines(s[2..])
    else if s[0] == '\r' || s[0] == '\n' then [""] + SplitLines(s[1..])
    else
      var rest := SplitLines(s[1..]);
      [[s[0]] + rest[0]] + rest[1..]
  }

  /** A string without line breaks is one line. */
  lemma {:induction false} SplitLinesSingle(s: string)
    requires NoBreak(s)
    ensures SplitLines(s) == [s]
    decreases |s|
  {
    if |s| > 0 {
      assert s == [s[0]] + s[1..];
      SplitLinesSingle(s[1..]);
    }
  }

  /** A first line without line breaks, then "\n", then `b`. */
  lemma {:induction false} SplitLinesFirst(a: string, b: string)
    requires NoBreak(a)
    ensures SplitLines(a + "\n" + b) == [a] + SplitLines(b)
    decreases |a|
  {
    var w := a + "\n" + b;
    if |a| == 0 {
      assert w[1..] == b;
    } else {
      assert a == [a[0]] + a[1..];
      assert w[1..] == a[1..] + "\n" + b;
      SplitLinesFirst(a[1..], b);
    }
  }

  /** The lines `r` of a text ending in `t` are lines inside `s` followed by the lines of `t`. */
  ghost predicate LinesWithin(s: string, t: string, r: seq<string>) {
    var n := |r| - |SplitLines(t)|;
    n >= 1 && r[n..] == SplitLines(t) && r[0] <= s &&
    forall i :: 0 <= i < n ==> Contains(s, r[i])
  }

  /** One step of SplitLinesAfter: a line break of length `m` at the front of `s`. */
  lemma BreakThenLinesWithin(s: string, t: string, m: nat, r': seq<string>)
    requires 1 <= m <= |s| && LinesWithin(s[m..], t, r')
    ensures LinesWithin(s, t, [""] + r')
  {
    var r := [""] + r';
    ContainsPrefix(s, "");
    forall i | 1 <= i < |r| - |SplitLines(t)|
      ensures Contains(s, r[i])
    {
      assert r[i] == r'[i - 1];
      ContainsInTail(s, m, r[i]);
    }
  }

  /**
    * Splitting `s + "\n" + t` gives some lines that all lie inside `s` (the first a prefix
    * of `s`), followed by the lines of `t`.
    */
  lemma {:induction false} SplitLinesAfter(s: string, t: string)
    ensures LinesWithin(s, t, SplitLines(s + "\n" + t))
    decreases |s|
  {
    var w := s + "\n" + t;
    if |s| == 0 {
      assert w == "\n" + t;
      EmptyThenLinesWithin(s, t, 1);
    } else if |s| == 1 && s[0] == '\r' {
      assert w == "\r\n" + t;
      EmptyThenLinesWithin(s, t, 2);
    } else {
      assert w[0] == s[0] && w[1] == (s + "\n")[1];
      var m := if s[0] == '\r' && s[1] == '\n' then 2 else 1;
      assert w[m..] == s[m..] + "\n" + t;
      SplitLinesAfter(s[m..], t);
      if s[0] == '\r' || s[0] == '\n' {
        assert SplitLines(w) == [""] + SplitLines(w[m..]);
        BreakThenLinesWithin(s, t, m, SplitLines(w[m..]));
      } else {
        assert SplitLines(w) == [[s[0]] + SplitLines(w[1..])[0]] + SplitLines(w[1..])[1..];
        CharThenLinesWithin(s, t, SplitLines(w[1..]));
      }
    }
  }

  /** The base case of SplitLinesAfter: `s` is empty or a lone '\r', and the break has length `m`. */
  lemma EmptyThenLinesWithin(s: string, t: string, m: nat)
    requires (m == 1 && s == "") || (m == 2 && s == "\r")
    ensures LinesWithin(s, t, SplitLines(s + "\n" + t))
  {
    var w := s + "\n" + t;
    assert w[m..] == t;
    assert SplitLines(w) == [""] + SplitLines(t);
    ContainsPrefix(s, "");
  }

  /** One step of SplitLinesAfter: an ordinary character at the front of `s` joins the first line. */
  lemma CharThenLinesWithin(s: string, t: string, r': seq<string>)
    requires 1 <= |s| && LinesWithin(s[1..], t, r')
    ensures LinesWithin(s, t, [[s[0]] + r'[0]] + r'[1..])
  {
    var r := [[s[0]] + r'[0]] + r'[1..];
    assert r[0] <= s;
    ContainsPrefix(s, r[0]);
    forall i | 1 <= i < |r| - |SplitLines(t)|
      ensures Contains(s, r[i])
    {
      assert r[i] == r'[i];
      ContainsInTail(s, 1, r[i]);
    }
  }

  // ---------------------------------------------------------------------------
  // long.ToString() / int.ToString(): decimal, with a leading '-' for negative values

  function Digit(d: nat): (c: char)
    requires d < 10
    ensures '0' <= c <= '9'
  {
    (48 + d) as char
  }

  function NatToString(n: nat): (s: string)
    ensures |s| >= 1 && (|s| == 1 <==> n < 10) && '0' <= s[0] <= '9'
    decreases n
  {
    if n < 10 then [Digit(n)] else NatToString(n / 10) + [Digit(n % 10)]
  }

  function IntToString(n: int): string {
    if n < 0 then "-" + NatToString(-n) else NatToString(n)
  }

  lemma {:induction false} NatToStringInjective(a: nat, b: nat)
    requires NatToString(a) == NatToString(b)
    ensures a == b
    decreases a
  {
    var s := NatToString(a);
    if a >= 10 {
      assert b >= 10;
      assert s == NatToString(a / 10) + [Digit(a % 10)];
      assert s == NatToString(b / 10) + [Digit(b % 10)];
      assert s[|s| - 1] == Digit(a % 10) == Digit(b % 10);
      assert s[..|s| - 1] == NatToString(a / 10) == NatToString(b / 10);
      NatToStringInjective(a / 10, b / 10);
    } else {
      assert b < 10;
      assert Digit(a) == Digit(b);
    }
  }

  /** Distinct IDs print as distinct strings. */
  lemma IntToStringInjective(a: int, b: int)
    requires IntToString(a) == IntToString(b)
    ensures a == b
  {
    var s := IntToString(a);
    assert a < 0 <==> s[0] == '-';
    assert b < 0 <==> s[0] == '-';
    if a < 0 {
      assert s[1..] == NatToString(-a) == NatToString(-b);
      NatToStringInjective(-a, -b);
    } else {
      NatToStringInjective(a, b);
    }
  }
}
