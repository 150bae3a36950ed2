/**
 * The few pieces of java.lang.String and java.lang.Long that the form helpers use:
 * String.indexOf(char) and Long.toString(long), together with a decimal reader that
 * is the inverse of Long.toString and is used to prove that rendered numbers are unambiguous.
 */
module JavaStrings {
  import opened Wrappers

  /** String.indexOf(c): the index of the first occurrence of c, or -1. */
  function IndexOf(s: string, c: char): (r: int)
    ensures -1 <= r < |s|
    ensures r == -1 <==> c !in s
    ensures r >= 0 ==> s[r] == c && c !in s[..r]
  {
    if |s| == 0 then -1
    else if s[0] == c then 0
    else
      var k := IndexOf(s[1..], c);
      assert s[1..][..if k < 0 then 0 else k] == s[1..1 + (if k < 0 then 0 else k)];
      if k == -1 then -1 else 1 + k
  }

  /** The first occurrence of c in a + [c] + b is the separator itself when a holds no c. */
  lemma {:induction false} IndexOfAfterPrefix(a: string, c: char, b: string)
    requires c !in a
    ensures IndexOf(a + [c] + b, c) == |a|
  {
    var s := a + [c] + b;
    assert s[..|a|] == a;
    assert s[|a|] == c;
  }

  function DigitChar(d: nat): (c: char)
    requires d < 10
    ensures '0' <= c <= '9'
  {
    "0123456789"[d]
  }

  predicate IsDigit(c: char) { '0' <= c <= '9' }

  function DigitValue(c: char): (d: nat)
    requires IsDigit(c)
    ensures d < 10
  {
    (c as int - '0' as int) as nat
  }

  /** The decimal digits of n, most significant first, with no leading zero. */
  function NatToString(n: nat): (s: string)
    ensures |s| > 0
    ensures forall i :: 0 <= i < |s| ==> IsDigit(s[i])
    decreases n
  {
    if n < 10 then [DigitChar(n)] else NatToString(n / 10) + [DigitChar(n % 10)]
  }

  /**
   * Long.toString(n): an optional minus sign followed by the decimal digits of |n|. It is never
   * empty, holds nothing but digits after the sign, and starts with '-' exactly when n is negative.
   */
  function LongToString(n: int): (s: string)
    ensures |s| > 0
    ensures forall i :: 0 <= i < |s| ==> IsDigit(s[i]) || (i == 0 && s[i] == '-')
    ensures s[0] == '-' <==> n < 0
  {
    if n < 0 then
      var t := NatToString(-n);
      assert forall i :: 1 <= i < |"-" + t| ==> ("-" + t)[i] == t[i - 1];
      "-" + t
    else NatToString(n)
  }

  /** The value of a non-empty string of decimal digits; None for anything else. */
  function ParseNat(s: string): (r: Option<nat>)
    ensures r.Some? ==> |s| > 0
    decreases |s|
  {
    if |s| == 0 || !IsDigit(s[|s| - 1]) then None
    else if |s| == 1 then Some(DigitValue(s[0]))
    else match ParseNat(s[..|s| - 1])
      case None => None
      case Some(high) => Some(high * 10 + DigitValue(s[|s| - 1]))
  }

  /** Long.parseLong restricted to what Long.toString produces. */
  function ParseLong(s: string): (r: Option<int>)
  {
    var digits := if |s| > 0 && s[0] == '-' then s[1..] else s;
    var magnitude := ParseNat(digits);
    if magnitude.None? then None
    else if digits == s then Some(magnitude.value as int)
    else Some(-(magnitude.value as int))
  }

  lemma {:induction false} DigitRoundTrip(d: nat)
    requires d < 10
    ensures DigitValue(DigitChar(d)) == d
  {
    assert d == 0 || d == 1 || d == 2 || d == 3 || d == 4 || d == 5 || d == 6 || d == 7 || d == 8 || d == 9;
  }

  /** Reading back the decimal rendering of n gives n. */
  lemma {:induction false} NatRoundTrip(n: nat)
    ensures ParseNat(NatToString(n)) == Some(n)
    decreases n
  {
    if n < 10 {
      DigitRoundTrip(n);
    } else {
      var s := NatToString(n);
      assert s[..|s| - 1] == NatToString(n / 10);
      NatRoundTrip(n / 10);
      DigitRoundTrip(n % 10);
    }
  }

  /** Reading back Long.toString(n) gives n: the rendering is unambiguous. */
  lemma {:induction false} LongRoundTrip(n: int)
    ensures ParseLong(LongToString(n)) == Some(n)
  {
    var s := LongToString(n);
    if n < 0 {
      assert s[1..] == NatToString(-n);
      NatRoundTrip(-n);
    } else {
      assert s[0] != '-';
      NatRoundTrip(n);
    }
  }
}
