/** `String(n)` for the integer seconds value written into the `t` query
    parameter, and the decimal reading that undoes it. */
module Decimal {
  import opened Outcomes

  predicate IsDigit(c: char)
  {
    '0' <= c <= '9'
  }

  function DigitChar(d: nat): (c: char)
    requires d < 10
    ensures IsDigit(c) && c as int - '0' as int == d
  {
    (d + '0' as int) as char
  }

  /** The decimal digits of `n`, most significant first, with no leading
      zero. */
  function NatToString(n: nat): (r: string)
    ensures |r| >= 1
    ensures forall k :: 0 <= k < |r| ==> IsDigit(r[k])
    ensures n > 0 ==> r[0] != '0'
    decreases n
  {
    if n < 10 then [DigitChar(n)] else NatToString(n / 10) + [DigitChar(n % 10)]
  }

  /** JavaScript's `String(n)` on an integer: a minus sign for negatives,
      then the digits of the magnitude, with no leading zero. */
  function IntToString(n: int): (r: string)
    ensures |r| >= 1
    ensures n < 0 <==> r[0] == '-'
    ensures var sign := if n < 0 then 1 else 0;
            && |r| > sign
            && (forall k :: sign <= k < |r| ==> IsDigit(r[k]))
            && (n != 0 ==> r[sign] != '0')
    ensures n == 0 ==> r == "0"
  {
    if n < 0 then "-" + NatToString(-n) else NatToString(n)
  }

  /** The value of a non-empty run of decimal digits, `None` if `s` is empty
      or holds anything else. */
  function ParseDigits(s: string): Option<nat>
    decreases |s|
  {
    if |s| == 0 then None
    else if !IsDigit(s[|s| - 1]) then None
    else
      var d := s[|s| - 1] as int - '0' as int;
      if |s| == 1 then Some(d)
      else match ParseDigits(s[..|s| - 1])
        case None => None
        case Some(h) => Some(h * 10 + d)
  }

  /** Reads an optional minus sign followed by decimal digits. */
  function ParseInt(s: string): Option<int>
  {
    if |s| > 0 && s[0] == '-' then
      match ParseDigits(s[1..])
      case None => None
      case Some(m) => Some(-(m as int))
    else
      match ParseDigits(s)
      case None => None
      case Some(m) => Some(m)
  }

  lemma {:induction false} ParseNatToString(n: nat)
    ensures ParseDigits(NatToString(n)) == Some(n)
    decreases n
  {
    if n >= 10 {
      var s := NatToString(n);
      var h := NatToString(n / 10);
      assert s == h + [DigitChar(n % 10)];
      assert s[..|s| - 1] == h;
      ParseNatToString(n / 10);
    }
  }

  /** Reading back the decimal form of an integer gives that integer: the
      `t` parameter denotes exactly the seconds value that was written. */
  lemma IntToStringRoundTrip(n: int)
    ensures ParseInt(IntToString(n)) == Some(n)
  {
    var s := IntToString(n);
    if n < 0 {
      var m: nat := -n;
      ParseNatToString(m);
      assert s == "-" + NatToString(m);
      assert s[1..] == NatToString(m);
    } else {
      ParseNatToString(n);
      assert IsDigit(s[0]);
    }
  }

  /** Distinct integers are written differently. */
  lemma IntToStringInjective(a: int, b: int)
    requires IntToString(a) == IntToString(b)
    ensures a == b
  {
    IntToStringRoundTrip(a);
    IntToStringRoundTrip(b);
  }
}
