/** The Python `str` operations the core relies on: `strip`, `lower`,
    `split`, the `in` substring test and `str(int)`. */
module PyText {
  import opened Prelude

  /** Python's `str.isspace` characters (bidirectional classes WS, B, S and
      category Zs). */
  predicate IsSpace(c: char) {
    var n := c as int;
    (0x09 <= n <= 0x0D) || (0x1C <= n <= 0x20) || n == 0x85 || n == 0xA0
    || n == 0x1680 || (0x2000 <= n <= 0x200A) || n == 0x2028 || n == 0x2029
    || n == 0x202F || n == 0x205F || n == 0x3000
  }

  /** Every character of `p` is whitespace. */
  predicate AllSpace(p: string) {
    forall k :: 0 <= k < |p| ==> IsSpace(p[k])
  }

  lemma SpaceBefore(c: char, p: string)
    requires IsSpace(c) && AllSpace(p)
    ensures AllSpace([c] + p)
  {
    assert forall k :: 1 <= k < |[c] + p| ==> ([c] + p)[k] == p[k - 1];
  }

  lemma SpaceAfter(p: string, c: char)
    requires AllSpace(p) && IsSpace(c)
    ensures AllSpace(p + [c])
  {
    assert forall k :: 0 <= k < |p| ==> (p + [c])[k] == p[k];
  }

  function TrimStart(s: string): (r: string)
    ensures |r| <= |s| && r == s[|s| - |r|..] && AllSpace(s[..|s| - |r|])
    ensures r != [] ==> !IsSpace(r[0])
  {
    if |s| > 0 && IsSpace(s[0]) then
      var r := TrimStart(s[1..]);
      SpaceBefore(s[0], s[1..][..|s| - 1 - |r|]);
      assert s[..|s| - |r|] == [s[0]] + s[1..][..|s| - 1 - |r|];
      r
    else
      s
  }

  function TrimEnd(s: string): (r: string)
    ensures IsPrefix(r, s) && AllSpace(s[|r|..])
    ensures r != [] ==> !IsSpace(r[|r| - 1])
  {
    if |s| > 0 && IsSpace(s[|s| - 1]) then
      var r := TrimEnd(s[..|s| - 1]);
      SpaceAfter(s[..|s| - 1][|r|..], s[|s| - 1]);
      assert s[|r|..] == s[..|s| - 1][|r|..] + [s[|s| - 1]];
      r
    else
      s
  }

  /** `str.strip()` with no argument. */
  function Trim(s: string): string {
    TrimEnd(TrimStart(s))
  }

  /** `s` is `r` with the whitespace `pre` before it and `post` after it. */
  predicate SpaceAround(s: string, r: string, pre: string, post: string) {
    s == pre + r + post && AllSpace(pre) && AllSpace(post)
  }

  /** `Trim(s)` is what is left of `s` after removing whitespace at both
      ends, and it neither starts nor ends with whitespace. */
  lemma TrimShape(s: string)
    ensures exists pre, post :: SpaceAround(s, Trim(s), pre, post)
    ensures var r := Trim(s); r != [] ==> !IsSpace(r[0]) && !IsSpace(r[|r| - 1])
  {
    var t := TrimStart(s);
    var r := TrimEnd(t);
    assert r == Trim(s);
    Surround(s, t, r);
    FirstOfPrefix(r, t);
  }

  /** Whitespace cut from the front of `s` leaving `t`, then from the back
      of `t` leaving `r`, surrounds `r` in `s`. */
  lemma Surround(s: string, t: string, r: string)
    requires |t| <= |s| && t == s[|s| - |t|..] && AllSpace(s[..|s| - |t|])
    requires IsPrefix(r, t) && AllSpace(t[|r|..])
    ensures exists pre, post :: SpaceAround(s, r, pre, post)
  {
    assert s == s[..|s| - |t|] + t;
    assert t == r + t[|r|..];
    assert SpaceAround(s, r, s[..|s| - |t|], t[|r|..]);
  }

  /** A non-empty prefix starts with the first character of the text. */
  lemma FirstOfPrefix(r: string, t: string)
    requires IsPrefix(r, t)
    ensures r != [] ==> r[0] == t[0]
  {
    if r != [] {
      assert r[0] == t[..|r|][0];
    }
  }

  /** Trimming twice is trimming once. */
  lemma TrimIdempotent(s: string)
    ensures Trim(Trim(s)) == Trim(s)
  {
    var r := Trim(s);
    TrimShape(s);
    assert TrimStart(r) == r;
    assert TrimEnd(r) == r;
  }

  function LowerChar(c: char): char {
    if 'A' <= c <= 'Z' then (c as int + 32) as char else c
  }

  /** `str.lower()` on ASCII letters; other characters are kept. */
  function AsciiLower(s: string): (r: string)
    ensures |r| == |s|
    ensures forall i :: 0 <= i < |s| ==> r[i] == LowerChar(s[i])
  {
    if s == [] then [] else [LowerChar(s[0])] + AsciiLower(s[1..])
  }

  /** The lowering of a text is fixed by its characters one by one. */
  lemma {:induction false} AsciiLowerOf(s: string, t: string)
    requires |s| == |t| && forall i :: 0 <= i < |s| ==> LowerChar(s[i]) == t[i]
    ensures AsciiLower(s) == t
  {
    var r := AsciiLower(s);
    assert forall i :: 0 <= i < |s| ==> r[i] == t[i];
  }

  /** The inverse of `Split`: the pieces glued back with `c` between them. */
  function JoinWith(parts: seq<string>, c: char): string
    requires |parts| >= 1
  {
    if |parts| == 1 then parts[0] else parts[0] + [c] + JoinWith(parts[1..], c)
  }

  /** `s.split(c)` for a one-character separator: one more piece than there
      are separators, the empty string giving `[""]`. */
  function Split(s: string, c: char): (r: seq<string>)
    ensures |r| >= 1
    ensures forall k, i :: 0 <= k < |r| && 0 <= i < |r[k]| ==> r[k][i] != c
  {
    if s == [] then [""]
    else
      var rest := Split(s[1..], c);
      if s[0] == c then [""] + rest else [[s[0]] + rest[0]] + rest[1..]
  }

  /** Splitting loses nothing: the pieces rejoin to the input. */
  lemma {:induction false} SplitJoin(s: string, c: char)
    ensures JoinWith(Split(s, c), c) == s
  {
    if s != [] {
      var rest := Split(s[1..], c);
      SplitJoin(s[1..], c);
      if s[0] == c {
        JoinAfterEmpty(rest, c);
      } else {
        JoinExtendFirst(s[0], rest, c);
      }
      assert s == [s[0]] + s[1..];
    }
  }

  /** An empty first piece contributes just the separator. */
  lemma JoinAfterEmpty(rest: seq<string>, c: char)
    requires |rest| >= 1
    ensures JoinWith([""] + rest, c) == [c] + JoinWith(rest, c)
  {
    assert ([""] + rest)[1..] == rest;
  }

  /** Putting `x` in front of the first piece puts it in front of the
      joined text. */
  lemma JoinExtendFirst(x: char, rest: seq<string>, c: char)
    requires |rest| >= 1
    ensures JoinWith([[x] + rest[0]] + rest[1..], c) == [x] + JoinWith(rest, c)
  {
    var r := [[x] + rest[0]] + rest[1..];
    if |rest| > 1 {
      assert r[1..] == rest[1..];
    }
  }

  /** Every piece of `s.split(c)` is empty exactly when `s` consists of
      separators only. */
  lemma {:induction false} SplitAllEmpty(s: string, c: char)
    ensures (forall k :: 0 <= k < |Split(s, c)| ==> Split(s, c)[k] == "")
        <==> (forall i :: 0 <= i < |s| ==> s[i] == c)
  {
    if s != [] {
      SplitAllEmpty(s[1..], c);
      var r, rest := Split(s, c), Split(s[1..], c);
      if s[0] == c {
        assert r == [""] + rest;
        assert (forall k :: 0 <= k < |r| ==> r[k] == "")
          <==> (forall k :: 0 <= k < |rest| ==> rest[k] == "") by {
          assert r[0] == "";
          assert forall k :: 1 <= k < |r| ==> r[k] == rest[k - 1];
          assert forall k :: 0 <= k < |rest| ==> rest[k] == r[k + 1];
        }
        assert (forall i :: 0 <= i < |s| ==> s[i] == c)
          <==> (forall i :: 0 <= i < |s[1..]| ==> s[1..][i] == c) by {
          assert forall i :: 1 <= i < |s| ==> s[i] == s[1..][i - 1];
        }
      } else {
        assert r[0] != "";
      }
    }
  }

  /** Number of occurrences of `c` in `s`. */
  function Count(s: string, c: char): nat {
    if s == [] then 0 else (if s[0] == c then 1 else 0) + Count(s[1..], c)
  }

  /** `s.split(c)` has exactly one piece more than `s` has separators. */
  lemma {:induction false} SplitLength(s: string, c: char)
    ensures |Split(s, c)| == Count(s, c) + 1
  {
    if s != [] {
      SplitLength(s[1..], c);
    }
  }

  /** The splitting of the empty text: one empty line. */
  lemma SplitEmpty(c: char)
    ensures Split("", c) == [""]
  {
  }

  /** `sub` occurs in `s` at offset `i`. */
  predicate OccursAt(s: string, sub: string, i: int) {
    0 <= i <= |s| - |sub| && s[i..i + |sub|] == sub
  }

  /** `sub in s`: `s` starts with `sub` or its tail contains it. */
  predicate Contains(s: string, sub: string)
    decreases |s|
  {
    IsPrefix(sub, s) || (|s| > |sub| && Contains(s[1..], sub))
  }

  /** The substring test holds exactly when some window of `s` is `sub`. */
  lemma {:induction false} ContainsIff(s: string, sub: string)
    ensures Contains(s, sub) <==> exists i :: OccursAt(s, sub, i)
    decreases |s|
  {
    if IsPrefix(sub, s) {
      assert OccursAt(s, sub, 0);
    } else if |s| <= |sub| {
      assert forall i :: OccursAt(s, sub, i) ==> i == 0;
    } else {
      ContainsIff(s[1..], sub);
      forall i | 1 <= i && OccursAt(s, sub, i) ensures OccursAt(s[1..], sub, i - 1) {
        assert s[1..][i - 1..i - 1 + |sub|] == s[i..i + |sub|];
      }
      if Contains(s[1..], sub) {
        var j :| OccursAt(s[1..], sub, j);
        assert s[1..][j..j + |sub|] == s[j + 1..j + 1 + |sub|];
        assert OccursAt(s, sub, j + 1);
      } else {
        assert !OccursAt(s, sub, 0);
      }
    }
  }

  /** The text before the first `c`, or all of `s` when there is none. */
  function BeforeFirst(s: string, c: char): (r: string)
    ensures IsPrefix(r, s)
    ensures forall i :: 0 <= i < |r| ==> r[i] != c
    ensures |r| < |s| ==> s[|r|] == c
  {
    if s == [] || s[0] == c then [] else [s[0]] + BeforeFirst(s[1..], c)
  }

  /** The text after the first `c`, or the empty text when there is none
      (the second half of `s.split(c, 1)`). */
  function AfterFirst(s: string, c: char): (r: string)
    ensures var h := BeforeFirst(s, c);
      if |h| < |s| then s == h + [c] + r else r == ""
  {
    var h := BeforeFirst(s, c);
    if |h| < |s| then
      assert s == h + [c] + s[|h| + 1..];
      s[|h| + 1..]
    else ""
  }

  /** The first `c` of `x + [c] + y` is the one after `x` when `x` has none. */
  lemma BeforeFirstJoined(x: string, c: char, y: string)
    requires forall i :: 0 <= i < |x| ==> x[i] != c
    ensures BeforeFirst(x + [c] + y, c) == x
    ensures AfterFirst(x + [c] + y, c) == y
  {
    var s := x + [c] + y;
    var h := BeforeFirst(s, c);
    assert s[|x|] == c;
    assert h == s[..|x|] == x;
  }

  /** The largest offset `i <= k` where `m` occurs in `s`. */
  function LastOccurrence(s: string, m: string, k: int): (r: Option<nat>)
    ensures r.Some? ==> r.value <= k && OccursAt(s, m, r.value)
    ensures r.Some? ==> forall j :: r.value < j <= k ==> !OccursAt(s, m, j)
    ensures r.None? ==> forall j :: j <= k ==> !OccursAt(s, m, j)
    decreases if k < 0 then 0 else k + 1
  {
    if k < 0 then None
    else if OccursAt(s, m, k) then Some(k)
    else LastOccurrence(s, m, k - 1)
  }

  /** Cuts `s` around the last occurrence of `m`: how a reader that knows
      the signature field comes last takes a signed artifact apart. */
  function SplitAtLast(s: string, m: string): Option<(string, string)> {
    match LastOccurrence(s, m, |s| - |m|)
    case None => None
    case Some(i) => Some((s[..i], s[i + |m|..]))
  }

  /** When neither the rest of the marker nor the text after it contains
      the marker's first character, the last occurrence of the marker is
      the one placed between `p` and `t`. */
  lemma SplitAtLastAppended(p: string, m: string, t: string)
    requires |m| >= 1
    requires forall i :: 1 <= i < |m| ==> m[i] != m[0]
    requires forall i :: 0 <= i < |t| ==> t[i] != m[0]
    ensures SplitAtLast(p + m + t, m) == Some((p, t))
  {
    var s := p + m + t;
    assert s[|p|..|p| + |m|] == m;
    assert OccursAt(s, m, |p|);
    forall j | |p| < j <= |s| - |m| ensures !OccursAt(s, m, j) {
      assert s[j..j + |m|][0] == s[j];
      if j < |p| + |m| {
        assert s[j] == m[j - |p|];
      } else {
        assert s[j] == t[j - |p| - |m|];
      }
    }
    var r := LastOccurrence(s, m, |s| - |m|);
    assert r == Some(|p|);
    assert s[..|p|] == p && s[|p| + |m|..] == t;
  }

  function DigitChar(d: int): char
    requires 0 <= d < 10
  {
    ('0' as int + d) as char
  }

  predicate IsDigit(c: char) {
    '0' <= c <= '9'
  }

  /** Decimal digits of a natural number, without leading zeros. */
  function NatToStr(n: nat): (r: string)
    ensures |r| >= 1
    ensures forall i :: 0 <= i < |r| ==> IsDigit(r[i])
    ensures |r| > 1 ==> r[0] != '0'
  {
    if n < 10 then [DigitChar(n)] else NatToStr(n / 10) + [DigitChar(n % 10)]
  }

  /** `str(n)` for a Python `int`. */
  function IntToStr(n: int): (r: string)
    ensures forall i :: 0 <= i < |r| ==> IsDigit(r[i]) || (i == 0 && r[i] == '-')
  {
    if n < 0 then "-" + NatToStr(-n) else NatToStr(n)
  }

  /** Value of a nonempty digit string. */
  function DigitsValue(s: string): int
    requires |s| >= 1 && forall i :: 0 <= i < |s| ==> IsDigit(s[i])
  {
    if |s| == 1 then s[0] as int - '0' as int
    else DigitsValue(s[..|s| - 1]) * 10 + (s[|s| - 1] as int - '0' as int)
  }

  /** `int(s)` restricted to the canonical form `str` produces; the
      reference reading of an embedded integer field. */
  function ParseInt(s: string): Option<int> {
    if |s| >= 2 && s[0] == '-' && (forall i :: 1 <= i < |s| ==> IsDigit(s[i])) then
      Some(-DigitsValue(s[1..]))
    else if |s| >= 1 && (forall i :: 0 <= i < |s| ==> IsDigit(s[i])) then
      Some(DigitsValue(s))
    else None
  }

  lemma {:induction false} NatToStrValue(n: nat)
    ensures DigitsValue(NatToStr(n)) == n
  {
    if n >= 10 {
      var r := NatToStr(n);
      assert r[..|r| - 1] == NatToStr(n / 10);
      NatToStrValue(n / 10);
    }
  }

  /** Reading back the decimal text of an integer gives the integer. */
  lemma IntToStrRoundTrip(n: int)
    ensures ParseInt(IntToStr(n)) == Some(n)
  {
    if n < 0 {
      NegativeRoundTrip(n);
    } else {
      NatToStrValue(n);
    }
  }

  lemma NegativeRoundTrip(n: int)
    requires n < 0
    ensures ParseInt(IntToStr(n)) == Some(n)
  {
    var d := NatToStr(-n);
    assert IntToStr(n) == "-" + d;
    ParseNegative(d);
    NatToStrValue(-n);
  }

  /** A minus sign before a digit string reads back as the negated value. */
  lemma ParseNegative(d: string)
    requires |d| >= 1 && forall i :: 0 <= i < |d| ==> IsDigit(d[i])
    ensures ParseInt("-" + d) == Some(-DigitsValue(d))
  {
    var r := "-" + d;
    assert r[1..] == d;
    assert forall i :: 1 <= i < |r| ==> r[i] == d[i - 1];
  }

  /** Distinct integers have distinct decimal texts. */
  lemma IntToStrInjective(a: int, b: int)
    requires IntToStr(a) == IntToStr(b)
    ensures a == b
  {
    IntToStrRoundTrip(a);
    IntToStrRoundTrip(b);
  }
}
