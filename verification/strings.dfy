/**
 * The handful of Python string operations the two scripts rely on, written
 * over `string` (a sequence of Unicode scalar values):
 * `str.startswith`, `str.endswith`, the `in` substring test, `str.lower`,
 * `str.strip`, `str.replace(pat, "")`, `str(int)` and `str.zfill`.
 */
module Strings {

  /** `s.startswith(prefix)` */
  predicate StartsWith(s: string, prefix: string)
  {
    |prefix| <= |s| && s[..|prefix|] == prefix
  }

  /** `s.endswith(suffix)` */
  predicate EndsWith(s: string, suffix: string)
  {
    |suffix| <= |s| && s[|s| - |suffix|..] == suffix
  }

  /** `sub in s`: some position of `s` starts with `sub`. */
  predicate Contains(s: string, sub: string)
    decreases |s|
  {
    StartsWith(s, sub) || (|s| > 0 && Contains(s[1..], sub))
  }

  /** The recursive `Contains` is the usual "occurs at some index" test. */
  lemma {:induction false} ContainsAtSomeIndex(s: string, sub: string)
    ensures Contains(s, sub) <==> exists i :: 0 <= i <= |s| && StartsWith(s[i..], sub)
    decreases |s|
  {
    assert s[0..] == s;
    if |s| > 0 {
      ContainsAtSomeIndex(s[1..], sub);
      if Contains(s[1..], sub) {
        var i :| 0 <= i <= |s[1..]| && StartsWith(s[1..][i..], sub);
        assert s[1..][i..] == s[i + 1..];
      }
      if exists i :: 0 <= i <= |s| && StartsWith(s[i..], sub) {
        var i :| 0 <= i <= |s| && StartsWith(s[i..], sub);
        if i > 0 {
          assert s[1..][i - 1..] == s[i..];
        }
      }
    } else {
      assert s[0..] == s;
    }
  }

  /** `str.lower` restricted to ASCII letters; every other character is kept. */
  function LowerChar(c: char): char
  {
    if 'A' <= c <= 'Z' then (c as int + 32) as char else c
  }

  function Lower(s: string): (r: string)
    ensures |r| == |s|
  {
    seq(|s|, i requires 0 <= i < |s| => LowerChar(s[i]))
  }

  /** The characters Python's argument-less `str.strip()` removes. */
  predicate IsSpace(c: char)
  {
    var n := c as int;
    (9 <= n <= 13) || (28 <= n <= 32) || n == 0x85 || n == 0xA0 || n == 0x1680
    || (0x2000 <= n <= 0x200A) || n == 0x2028 || n == 0x2029 || n == 0x202F
    || n == 0x205F || n == 0x3000
  }

  /** Drops leading whitespace: the result is the suffix after a run of spaces. */
  function StripLeft(s: string): (r: string)
    ensures |r| <= |s| && r == s[|s| - |r|..]
    ensures forall k :: 0 <= k < |s| - |r| ==> IsSpace(s[k])
    ensures |r| > 0 ==> !IsSpace(r[0])
    decreases |s|
  {
    if |s| > 0 && IsSpace(s[0]) then StripLeft(s[1..]) else s
  }

  /** Drops trailing whitespace: the result is the prefix before a run of spaces. */
  function StripRight(s: string): (r: string)
    ensures |r| <= |s| && r == s[..|r|]
    ensures forall k :: |r| <= k < |s| ==> IsSpace(s[k])
    ensures |r| > 0 ==> !IsSpace(r[|r| - 1])
    decreases |s|
  {
    if |s| > 0 && IsSpace(s[|s| - 1]) then StripRight(s[..|s| - 1]) else s
  }

  /** `s.strip()` */
  function Strip(s: string): (r: string)
    ensures |r| <= |s|
    ensures |r| > 0 ==> !IsSpace(r[0]) && !IsSpace(r[|r| - 1])
  {
    StripRight(StripLeft(s))
  }

  /**
   * `s.strip()` is `s` with a run of leading and a run of trailing whitespace
   * cut off, and nothing else: a slice whose ends do not start or end with whitespace.
   */
  lemma StripTrims(s: string)
    ensures exists i, j :: (&& 0 <= i <= j <= |s| && Strip(s) == s[i..j]
                            && (forall k :: 0 <= k < i ==> IsSpace(s[k]))
                            && (forall k :: j <= k < |s| ==> IsSpace(s[k])))
  {
    var l := StripLeft(s);
    var r := StripRight(l);
    var i, j := |s| - |l|, |s| - |l| + |r|;
    assert l == s[i..];
    assert r == s[i..j] by {
      assert r == l[..|r|];
    }
    forall k | j <= k < |s| ensures IsSpace(s[k]) {
      assert s[k] == l[k - i];
    }
    assert Strip(s) == s[i..j];
    assert forall k :: 0 <= k < i ==> IsSpace(s[k]);
    assert 0 <= i <= j <= |s|;
  }

  /** A string strips to "" exactly when it is all whitespace (the order file's blank-line test). */
  lemma StripEmptyIffAllSpace(s: string)
    ensures Strip(s) == "" <==> forall k :: 0 <= k < |s| ==> IsSpace(s[k])
  {
    var l := StripLeft(s);
    if Strip(s) == "" {
      assert |l| == 0;
    }
  }

  /** Stripping twice is stripping once, so `cfd_id.strip()` on an already stripped line changes nothing. */
  lemma StripIdempotent(s: string)
    ensures Strip(Strip(s)) == Strip(s)
  {
    var r := Strip(s);
    var l := StripLeft(s);
    if |r| > 0 {
      assert r[0] == l[0];
    }
    assert StripLeft(r) == r;
  }

  /**
   * `s.replace(pat, "")`: every non-overlapping occurrence of `pat`, found
   * left to right, is removed.
   */
  function RemoveAll(s: string, pat: string): (r: string)
    requires |pat| > 0
    ensures |r| <= |s|
    decreases |s|
  {
    if |s| < |pat| then s
    else if s[..|pat|] == pat then RemoveAll(s[|pat|..], pat)
    else [s[0]] + RemoveAll(s[1..], pat)
  }

  /** `pat` occurs in `p + pat` only at its very end. */
  predicate OnlyAtEnd(p: string, pat: string)
  {
    forall i :: 0 <= i < |p| ==> !StartsWith((p + pat)[i..], pat)
  }

  /**
   * When `pat` occurs in `p + pat` only at its end, removing every occurrence
   * from `p + pat + t` keeps `p` and drops that occurrence.
   */
  lemma {:induction false} RemoveAllAfterClean(p: string, pat: string, t: string)
    requires |pat| > 0 && OnlyAtEnd(p, pat)
    ensures RemoveAll(p + pat + t, pat) == p + RemoveAll(t, pat)
    decreases |p|
  {
    var s := p + pat + t;
    if |p| == 0 {
      assert s == pat + t;
      assert s[..|pat|] == pat;
      assert s[|pat|..] == t;
      assert RemoveAll(s, pat) == RemoveAll(t, pat);
      assert p + RemoveAll(t, pat) == RemoveAll(t, pat);
    } else {
      var rest := RemoveAll(t, pat);
      OnlyAtEndStep(p, pat, t);
      RemoveAllAfterClean(p[1..], pat, t);
      assert RemoveAll(s, pat) == [p[0]] + (p[1..] + rest);
      assert [p[0]] + (p[1..] + rest) == p + rest;
    }
  }

  /** One step of that removal: the first character of `p` is kept and the rest of `p` stays clean. */
  lemma OnlyAtEndStep(p: string, pat: string, t: string)
    requires |pat| > 0 && |p| > 0 && OnlyAtEnd(p, pat)
    ensures RemoveAll(p + pat + t, pat) == [p[0]] + RemoveAll(p[1..] + pat + t, pat)
    ensures OnlyAtEnd(p[1..], pat)
  {
    var s, q := p + pat + t, p + pat;
    assert !StartsWith(q[0..], pat);
    assert q[0..] == q;
    assert s[..|pat|] == q[..|pat|];
    assert s[1..] == p[1..] + pat + t;
    forall i | 0 <= i < |p[1..]|
      ensures !StartsWith((p[1..] + pat)[i..], pat)
    {
      assert (p[1..] + pat)[i..] == q[i + 1..];
      assert !StartsWith(q[i + 1..], pat);
    }
  }

  /** In particular, the only occurrence being the suffix, removing it leaves `p`. */
  lemma RemoveAllOnlyAtEnd(p: string, pat: string)
    requires |pat| > 0 && OnlyAtEnd(p, pat)
    ensures RemoveAll(p + pat, pat) == p
  {
    RemoveAllAfterClean(p, pat, "");
    assert p + pat + "" == p + pat;
  }

  /** Removing a pattern never touches a first character that cannot start it. */
  lemma RemoveAllKeepsHead(s: string, pat: string)
    requires |pat| > 0 && |s| > 0 && s[0] != pat[0]
    ensures |RemoveAll(s, pat)| > 0 && RemoveAll(s, pat)[0] == s[0]
  {
  }

  predicate IsDigit(c: char)
  {
    '0' <= c <= '9'
  }

  predicate IsDigits(s: string)
  {
    forall k :: 0 <= k < |s| ==> IsDigit(s[k])
  }

  function DigitChar(d: nat): (c: char)
    requires d < 10
    ensures IsDigit(c)
  {
    ('0' as int + d) as char
  }

  function DigitValue(c: char): nat
    requires IsDigit(c)
  {
    c as int - '0' as int
  }

  /** `str(n)` for a non-negative integer: decimal digits without leading zeros. */
  function NatToDecimal(n: nat): (r: string)
    ensures |r| > 0 && IsDigits(r)
    decreases n
  {
    if n < 10 then [DigitChar(n)] else NatToDecimal(n / 10) + [DigitChar(n % 10)]
  }

  /** The value of a digit string, read most significant digit first. */
  function DecimalValue(s: string): nat
    requires IsDigits(s)
    decreases |s|
  {
    if |s| == 0 then 0 else DecimalValue(s[..|s| - 1]) * 10 + DigitValue(s[|s| - 1])
  }

  /** Reading back what `str(n)` wrote yields `n`. */
  lemma {:induction false} DecimalRoundTrip(n: nat)
    ensures DecimalValue(NatToDecimal(n)) == n
    decreases n
  {
    if n >= 10 {
      var s := NatToDecimal(n);
      DecimalRoundTrip(n / 10);
      assert s[..|s| - 1] == NatToDecimal(n / 10);
    }
  }

  /** The number of digits `str(n)` writes, bracketed around three. */
  lemma DecimalLength(n: nat)
    ensures n < 10 ==> |NatToDecimal(n)| == 1
    ensures n < 1000 ==> |NatToDecimal(n)| <= 3
    ensures n >= 1000 ==> |NatToDecimal(n)| >= 4
  {
    if n >= 10 {
      assert NatToDecimal(n) == NatToDecimal(n / 10) + [DigitChar(n % 10)];
      if n >= 100 {
        assert NatToDecimal(n / 10) == NatToDecimal(n / 100) + [DigitChar((n / 10) % 10)];
        if n >= 1000 {
          assert NatToDecimal(n / 100) == NatToDecimal(n / 1000) + [DigitChar((n / 100) % 10)];
        }
      }
    }
  }

  /** `str(n)` has no leading zero: its first digit is `0` only for zero itself. */
  lemma {:induction false} NatToDecimalNoLeadingZero(n: nat)
    ensures NatToDecimal(n)[0] == '0' <==> n == 0
    decreases n
  {
    if n >= 10 {
      NatToDecimalNoLeadingZero(n / 10);
    }
  }

  /** `str(i)` for any integer: a minus sign before the digits of a negative value. */
  function IntToText(i: int): (r: string)
    ensures |r| > 0
    ensures forall k :: 0 <= k < |r| ==> IsDigit(r[k]) || r[k] == '-'
  {
    if i < 0 then "-" + NatToDecimal(-i) else NatToDecimal(i)
  }

  function Zeros(n: nat): (r: string)
    ensures |r| == n
  {
    seq(n, _ => '0')
  }

  /** Leading zeros do not change a digit string's value. */
  lemma {:induction false} LeadingZerosValue(k: nat, s: string)
    requires IsDigits(s)
    ensures IsDigits(Zeros(k) + s) && DecimalValue(Zeros(k) + s) == DecimalValue(s)
    decreases |s|
  {
    var t := Zeros(k) + s;
    assert IsDigits(t) by {
      forall j | 0 <= j < |t| ensures IsDigit(t[j]) {
        if j < k { assert t[j] == '0'; } else { assert t[j] == s[j - k]; }
      }
    }
    if |s| == 0 {
      assert t == Zeros(k);
      ZerosValue(k);
    } else {
      assert t[..|t| - 1] == Zeros(k) + s[..|s| - 1];
      LeadingZerosValue(k, s[..|s| - 1]);
    }
  }

  lemma {:induction false} ZerosValue(k: nat)
    ensures IsDigits(Zeros(k)) && DecimalValue(Zeros(k)) == 0
    decreases k
  {
    if k > 0 {
      assert Zeros(k)[..k - 1] == Zeros(k - 1);
      ZerosValue(k - 1);
    }
  }

  /**
   * `s.zfill(width)`: pads with '0' on the left up to `width`, keeping a
   * leading sign in front; a string already that long is returned unchanged.
   */
  function ZFill(s: string, width: nat): (r: string)
    ensures |r| == if |s| >= width then |s| else width
    ensures |s| >= width ==> r == s
    ensures IsDigits(s) ==> IsDigits(r) && DecimalValue(r) == DecimalValue(s)
    ensures IsDigits(s) && |s| < width ==>
      r[width - |s|..] == s && forall k :: 0 <= k < width - |s| ==> r[k] == '0'
  {
    if |s| >= width then s
    else if |s| > 0 && (s[0] == '+' || s[0] == '-') then [s[0]] + Zeros(width - |s|) + s[1..]
    else if IsDigits(s) then
      LeadingZerosValue(width - |s|, s);
      Zeros(width - |s|) + s
    else Zeros(width - |s|) + s
  }
}
