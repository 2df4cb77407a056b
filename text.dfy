/**
 * Decimal text as Python's `str(int)` and `f"{x}"` produce it, and the
 * clipboard payload `"{a}, {b}, {c}"` that every ramp row offers, with a
 * decoder for each so that the payloads are shown to determine their numbers.
 */
module Text {

  import opened Wrappers

  predicate IsDecimalDigit(c: char) {
    '0' <= c <= '9'
  }

  function DecimalDigit(d: int): (c: char)
    requires 0 <= d < 10
    ensures IsDecimalDigit(c) && c as int - '0' as int == d
  {
    ('0' as int + d) as char
  }

  /** Decimal digits of a natural number, most significant first, no leading zero. */
  function NatToDecimal(n: nat): (s: string)
    ensures |s| >= 1
  {
    if n < 10 then [DecimalDigit(n)] else NatToDecimal(n / 10) + [DecimalDigit(n % 10)]
  }

  /** Python's `str` of an integer: a minus sign for negatives, then the digits. */
  function IntToString(x: int): (s: string)
    ensures |s| >= 1
    ensures s[0] == '-' <==> x < 0
  {
    NatToDecimalDigits(if x < 0 then -x else x);
    if x < 0 then "-" + NatToDecimal(-x) else NatToDecimal(x)
  }

  predicate AllDecimalDigits(s: string) {
    forall i :: 0 <= i < |s| ==> IsDecimalDigit(s[i])
  }

  /** The value of a string of decimal digits. */
  function DecimalValue(s: string): nat
    requires AllDecimalDigits(s)
  {
    if s == [] then 0
    else
      assert IsDecimalDigit(s[|s| - 1]);
      DecimalValue(s[..|s| - 1]) * 10 + (s[|s| - 1] as int - '0' as int)
  }

  /** Reads back a signed decimal integer; `None` on anything else. */
  function ParseInt(s: string): Option<int>
  {
    if |s| > 0 && s[0] == '-' then
      var t := s[1..];
      if |t| > 0 && AllDecimalDigits(t) then Some(0 - DecimalValue(t)) else None
    else if |s| > 0 && AllDecimalDigits(s) then Some(DecimalValue(s) as int)
    else None
  }

  lemma {:induction false} NatToDecimalDigits(n: nat)
    ensures AllDecimalDigits(NatToDecimal(n))
  {
    if n >= 10 {
      NatToDecimalDigits(n / 10);
    }
  }

  lemma {:induction false} DecimalRoundTrip(n: nat)
    ensures AllDecimalDigits(NatToDecimal(n))
    ensures DecimalValue(NatToDecimal(n)) == n
  {
    NatToDecimalDigits(n);
    if n >= 10 {
      var s := NatToDecimal(n);
      DecimalRoundTrip(n / 10);
      assert s[..|s| - 1] == NatToDecimal(n / 10);
    }
  }

  lemma ParseNonNegative(n: nat)
    ensures ParseInt(NatToDecimal(n)) == Some(n)
  {
    var t := NatToDecimal(n);
    DecimalRoundTrip(n);
    assert IsDecimalDigit(t[0]);
  }

  lemma ParseNegative(n: nat)
    requires n > 0
    ensures ParseInt("-" + NatToDecimal(n)) == Some(0 - n)
  {
    var t := NatToDecimal(n);
    DecimalRoundTrip(n);
    var s := "-" + t;
    assert s[0] == '-' && s[1..] == t;
  }

  /** Reading back what `str` wrote gives the integer again. */
  lemma IntToStringRoundTrip(x: int)
    ensures ParseInt(IntToString(x)) == Some(x)
  {
    if x < 0 {
      ParseNegative(-x);
    } else {
      ParseNonNegative(x);
    }
  }

  /** `str` of an integer never contains a comma, so it can be a field of a payload. */
  lemma IntToStringNoComma(x: int)
    ensures ',' !in IntToString(x)
  {
    var n: nat := if x < 0 then -x else x;
    NatToDecimalDigits(n);
    assert forall i :: 0 <= i < |NatToDecimal(n)| ==> NatToDecimal(n)[i] != ',';
    if x < 0 {
      assert IntToString(x) == ['-'] + NatToDecimal(n);
    }
  }

  /** The clipboard payload of three integers: `"{a}, {b}, {c}"`. */
  function CopyText(a: int, b: int, c: int): string
  {
    IntToString(a) + ", " + IntToString(b) + ", " + IntToString(c)
  }

  /** Position of the first `c` in `s`, or `|s|` when there is none. */
  function IndexOf(s: string, c: char): (k: nat)
    ensures k <= |s|
    ensures forall i :: 0 <= i < k ==> s[i] != c
    ensures k < |s| ==> s[k] == c
  {
    if s == [] then 0 else if s[0] == c then 0 else 1 + IndexOf(s[1..], c)
  }

  /** Splits off the text before the first `", "`; `None` when there is no such separator. */
  function SplitField(s: string): Option<(string, string)>
  {
    var k := IndexOf(s, ',');
    if k + 1 < |s| && s[k + 1] == ' ' then Some((s[..k], s[k + 2..])) else None
  }

  /** Reads a payload `"{a}, {b}, {c}"` back into its three integers. */
  function ParseCopyText(s: string): Option<(int, int, int)>
  {
    match SplitField(s)
    case None => None
    case Some((first, rest)) =>
      match SplitField(rest)
      case None => None
      case Some((second, third)) =>
        match (ParseInt(first), ParseInt(second), ParseInt(third))
        case (Some(a), Some(b), Some(c)) => Some((a, b, c))
        case _ => None
  }

  lemma {:induction false} IndexOfAfterPrefix(a: string, t: string, c: char)
    requires c !in a
    ensures IndexOf(a + t, c) == |a| + IndexOf(t, c)
  {
    if a != [] {
      assert a[0] in a;
      assert (a + t)[0] == a[0] && (a + t)[1..] == a[1..] + t;
      assert forall x :: x in a[1..] ==> x in a;
      IndexOfAfterPrefix(a[1..], t, c);
      assert IndexOf(a + t, c) == 1 + IndexOf(a[1..] + t, c);
    } else {
      assert a + t == t;
    }
  }

  lemma SplitFieldPrefix(a: string, rest: string)
    requires ',' !in a
    ensures SplitField(a + ", " + rest) == Some((a, rest))
  {
    var s := a + ", " + rest;
    assert s == a + (", " + rest);
    IndexOfAfterPrefix(a, ", " + rest, ',');
    assert s[..|a|] == a;
    assert s[|a| + 2..] == rest;
  }

  /** Every payload decodes to the three integers it was made from. */
  lemma CopyTextRoundTrip(a: int, b: int, c: int)
    ensures ParseCopyText(CopyText(a, b, c)) == Some((a, b, c))
  {
    IntToStringNoComma(a);
    IntToStringNoComma(b);
    var tail := IntToString(b) + ", " + IntToString(c);
    assert CopyText(a, b, c) == IntToString(a) + ", " + tail;
    SplitFieldPrefix(IntToString(a), tail);
    SplitFieldPrefix(IntToString(b), IntToString(c));
    IntToStringRoundTrip(a);
    IntToStringRoundTrip(b);
    IntToStringRoundTrip(c);
  }

  /** Two equal payloads carry the same three integers. */
  lemma CopyTextInjective(a: int, b: int, c: int, x: int, y: int, z: int)
    requires CopyText(a, b, c) == CopyText(x, y, z)
    ensures a == x && b == y && c == z
  {
    CopyTextRoundTrip(a, b, c);
    CopyTextRoundTrip(x, y, z);
  }
}
