/**
 * The few functions of Go's strings and strconv packages that the core relies on:
 * strings.Index for one character, strings.Split on one character, strings.Join,
 * strings.ReplaceAll, decimal formatting of integers (%d) and strconv.Atoi.
 */
module StringUtil {
  import opened Wrappers

  /** strings.Index(s, string(c)): the first position of c in s, or -1. */
  function IndexOf(s: string, c: char): (i: int)
    ensures -1 <= i < |s|
    ensures i == -1 <==> c !in s
    ensures 0 <= i ==> s[i] == c && c !in s[..i]
  {
    if |s| == 0 then -1
    else if s[0] == c then 0
    else
      var j := IndexOf(s[1..], c);
      assert j >= 0 ==> s[..j + 1] == [s[0]] + s[1..][..j];
      if j == -1 then -1 else j + 1
  }

  /** strings.Split(s, string(sep)). */
  function Split(s: string, sep: char): (parts: seq<string>)
    ensures |parts| >= 1
    ensures forall k :: 0 <= k < |parts| ==> sep !in parts[k]
    decreases |s|
  {
    var i := IndexOf(s, sep);
    if i < 0 then [s] else [s[..i]] + Split(s[i + 1..], sep)
  }

  /** strings.Join(parts, sep). */
  function Join(parts: seq<string>, sep: string): string
  {
    if |parts| == 0 then ""
    else if |parts| == 1 then parts[0]
    else parts[0] + sep + Join(parts[1..], sep)
  }

  /** Splitting a string that starts with an ordinary character extends the first part. */
  lemma SplitCons(c: char, rest: string, sep: char)
    requires c != sep
    ensures Split([c] + rest, sep) == [[c] + Split(rest, sep)[0]] + Split(rest, sep)[1..]
  {
    var s := [c] + rest;
    assert s[0] == c && s[1..] == rest;
    var i := IndexOf(rest, sep);
    assert IndexOf(s, sep) == if i == -1 then -1 else i + 1;
    if i >= 0 {
      assert s[..i + 1] == [c] + rest[..i];
      assert s[i + 2..] == rest[i + 1..];
      assert Split(s, sep) == [s[..i + 1]] + Split(s[i + 2..], sep);
      assert Split(rest, sep) == [rest[..i]] + Split(rest[i + 1..], sep);
    } else {
      assert Split(s, sep) == [s];
      assert Split(rest, sep) == [rest];
    }
  }

  /** Splitting a string that starts with the separator yields an empty first part. */
  lemma SplitSep(rest: string, sep: char)
    ensures Split([sep] + rest, sep) == [""] + Split(rest, sep)
  {
    var s := [sep] + rest;
    assert s[1..] == rest;
  }

  /** Joining the parts of a split with the separator gives the original string back. */
  lemma {:induction false} JoinSplit(s: string, sep: char)
    ensures Join(Split(s, sep), [sep]) == s
    decreases |s|
  {
    var i := IndexOf(s, sep);
    if i >= 0 {
      var a, t := s[..i], s[i + 1..];
      assert s == a + [sep] + t;
      SplitAfterPart(a, sep, t);
      JoinSplit(t, sep);
      JoinCons(a, Split(t, sep), [sep]);
    }
  }

  lemma JoinCons(x: string, rest: seq<string>, sep: string)
    requires |rest| >= 1
    ensures Join([x] + rest, sep) == x + sep + Join(rest, sep)
  {
    assert ([x] + rest)[1..] == rest;
  }

  /** Splitting the join of separator-free parts gives the parts back. */
  lemma {:induction false} SplitJoin(parts: seq<string>, sep: char)
    requires |parts| >= 1
    requires forall k :: 0 <= k < |parts| ==> sep !in parts[k]
    ensures Split(Join(parts, [sep]), sep) == parts
    decreases |parts|
  {
    if |parts| == 1 {
      assert IndexOf(parts[0], sep) == -1;
    } else {
      var tail := Join(parts[1..], [sep]);
      assert Join(parts, [sep]) == parts[0] + [sep] + tail;
      SplitAfterPart(parts[0], sep, tail);
      SplitJoin(parts[1..], sep);
      assert parts == [parts[0]] + parts[1..];
    }
  }

  /** A separator-free part followed by the separator is split off as the first part. */
  lemma SplitAfterPart(a: string, sep: char, t: string)
    requires sep !in a
    ensures Split(a + [sep] + t, sep) == [a] + Split(t, sep)
  {
    var s := a + [sep] + t;
    assert IndexOf(s, sep) == |a| by {
      IndexFirst(a, sep, t);
    }
    assert s[..|a|] == a;
    assert s[|a| + 1..] == t;
  }

  lemma {:induction false} IndexFirst(a: string, c: char, t: string)
    requires c !in a
    ensures IndexOf(a + [c] + t, c) == |a|
    decreases |a|
  {
    var s := a + [c] + t;
    if |a| > 0 {
      assert s[0] == a[0] && s[1..] == a[1..] + [c] + t;
      IndexFirst(a[1..], c, t);
    }
  }

  /** strings.ReplaceAll(s, pat, rep) for a non-empty old: leftmost, non-overlapping replacement. */
  function ReplaceAll(s: string, pat: string, rep: string): string
    requires |pat| > 0
    decreases |s|
  {
    if |s| == 0 then ""
    else if |pat| <= |s| && s[..|pat|] == pat then rep + ReplaceAll(s[|pat|..], pat, rep)
    else [s[0]] + ReplaceAll(s[1..], pat, rep)
  }

  /** A string starting with the pattern: the replacement, then the rest replaced. */
  lemma ReplaceAllHead(pat: string, rep: string, t: string)
    requires |pat| > 0
    ensures ReplaceAll(pat + t, pat, rep) == rep + ReplaceAll(t, pat, rep)
  {
    assert (pat + t)[..|pat|] == pat;
    assert (pat + t)[|pat|..] == t;
  }

  /** A string not starting with the pattern: its first character, then the rest replaced. */
  lemma ReplaceAllSkip(s: string, pat: string, rep: string)
    requires |pat| > 0 && |s| > 0
    requires !(|pat| <= |s| && s[..|pat|] == pat)
    ensures ReplaceAll(s, pat, rep) == [s[0]] + ReplaceAll(s[1..], pat, rep)
  {
  }

  /** Replacing one character by one character acts on each character on its own. */
  lemma {:induction false} ReplaceCharConcat(s: string, t: string, a: char, b: char)
    ensures ReplaceAll(s + t, [a], [b]) == ReplaceAll(s, [a], [b]) + ReplaceAll(t, [a], [b])
    decreases |s|
  {
    if |s| > 0 {
      assert (s + t)[1..] == s[1..] + t;
      assert (s + t)[..1] == s[..1];
      ReplaceCharConcat(s[1..], t, a, b);
    } else {
      assert s + t == t;
    }
  }

  /** Replacing a character that does not occur changes nothing. */
  lemma {:induction false} ReplaceAbsentChar(s: string, a: char, b: string)
    requires a !in s
    ensures ReplaceAll(s, [a], b) == s
    decreases |s|
  {
    if |s| > 0 {
      assert s[..1] == [s[0]];
      ReplaceAbsentChar(s[1..], a, b);
      assert s == [s[0]] + s[1..];
    }
  }

  /** The decimal digits of n, as %d prints a non-negative integer. */
  function NatToString(n: nat): (r: string)
    ensures |r| >= 1
    ensures forall k :: 0 <= k < |r| ==> '0' <= r[k] <= '9'
  {
    if n < 10 then [Digit(n)] else NatToString(n / 10) + [Digit(n % 10)]
  }

  function Digit(d: nat): (c: char)
    requires d < 10
    ensures '0' <= c <= '9'
  {
    ['0', '1', '2', '3', '4', '5', '6', '7', '8', '9'][d]
  }

  /** fmt's %d of an integer. */
  function IntToString(i: int): string
  {
    if i < 0 then "-" + NatToString(-i) else NatToString(i)
  }

  predicate IsDigit(c: char) { '0' <= c <= '9' }

  predicate AllDigits(s: string) { forall k :: 0 <= k < |s| ==> IsDigit(s[k]) }

  /** The number written by the decimal digits s. */
  function DigitsValue(s: string): (v: int)
    requires AllDigits(s)
    ensures v >= 0
  {
    if |s| == 0 then 0
    else
      var d := s[|s| - 1];
      assert IsDigit(d);
      assert d as int >= '0' as int;
      DigitsValue(s[..|s| - 1]) * 10 + (d as int - '0' as int)
  }

  const MinInt64: int := -0x8000_0000_0000_0000
  const MaxInt64: int := 0x7FFF_FFFF_FFFF_FFFF

  /**
   * strconv.Atoi on a 64-bit platform: an optional sign, then one or more decimal digits,
   * within the int64 range; anything else is an error (None).
   */
  function Atoi(s: string): (r: Option<int>)
    ensures r.Some? ==> MinInt64 <= r.value <= MaxInt64
    ensures r.Some? ==> |s| > 0 && AllDigits(if s[0] == '+' || s[0] == '-' then s[1..] else s)
  {
    if |s| == 0 then None
    else
      var digits := if s[0] == '+' || s[0] == '-' then s[1..] else s;
      if |digits| == 0 || !AllDigits(digits) then None
      else
        var v := if s[0] == '-' then -DigitsValue(digits) else DigitsValue(digits);
        if v < MinInt64 || v > MaxInt64 then None else Some(v)
  }

  lemma {:induction false} DigitsOfNat(n: nat)
    ensures AllDigits(NatToString(n))
    ensures DigitsValue(NatToString(n)) == n
  {
    var r := NatToString(n);
    if n >= 10 {
      DigitsOfNat(n / 10);
      assert r[..|r| - 1] == NatToString(n / 10);
    }
  }

  lemma AtoiUnsigned(d: string)
    requires |d| > 0 && AllDigits(d) && IsDigit(d[0]) && DigitsValue(d) <= MaxInt64
    ensures Atoi(d) == Some(DigitsValue(d))
  {
  }

  lemma AtoiNegative(d: string)
    requires |d| > 0 && AllDigits(d) && DigitsValue(d) <= -MinInt64
    ensures Atoi("-" + d) == Some(-DigitsValue(d))
  {
    var s := "-" + d;
    assert s[0] == '-' && s[1..] == d;
  }

  /** Atoi reads back what %d prints, for every int64. */
  lemma AtoiIntToString(i: int)
    requires MinInt64 <= i <= MaxInt64
    ensures Atoi(IntToString(i)) == Some(i)
  {
    if i < 0 {
      DigitsOfNat(-i);
      AtoiNegative(NatToString(-i));
    } else {
      DigitsOfNat(i);
      AtoiUnsigned(NatToString(i));
    }
  }
}
