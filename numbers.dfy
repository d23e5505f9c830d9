/** Decimal digit strings and the two string-to-number conversions the handlers
    rely on: JavaScript's `parseInt(text, 10)` (legacy routes) and `Number(text)`
    as the schemas apply it to path and query parameters. */
module Numbers {
  import opened Wrappers

  predicate IsDigit(c: char) {
    '0' <= c <= '9'
  }

  function DigitValue(c: char): nat
    requires IsDigit(c)
  {
    (c as int) - ('0' as int)
  }

  function DigitChar(d: nat): (c: char)
    requires d < 10
    ensures IsDigit(c) && DigitValue(c) == d
  {
    (('0' as int) + d) as char
  }

  predicate AllDigits(s: string) {
    forall i :: 0 <= i < |s| ==> IsDigit(s[i])
  }

  /** The value of a decimal digit string, most significant digit first. */
  function DigitsValue(s: string): nat
    requires AllDigits(s)
    decreases |s|
  {
    if s == [] then 0 else 10 * DigitsValue(s[..|s| - 1]) + DigitValue(s[|s| - 1])
  }

  /** The shortest decimal spelling of `n`: it reads back as `n` and has no
      leading zero unless it is "0". */
  function NatToDigits(n: nat): (s: string)
    ensures |s| > 0 && AllDigits(s)
    ensures DigitsValue(s) == n
    ensures s[0] == '0' ==> n == 0
    decreases n
  {
    if n < 10 then [DigitChar(n)]
    else
      var front := NatToDigits(n / 10);
      var s := front + [DigitChar(n % 10)];
      assert s[..|s| - 1] == front;
      s
  }

  /** The white space `parseInt` skips before the number (the ASCII ones, no-break
      space, the byte order mark and the two Unicode line separators). */
  predicate IsJsSpace(c: char) {
    c == ' ' || c == '\t' || c == '\n' || c == '\r' || c == '\U{0B}' || c == '\U{0C}'
    || c == '\U{A0}' || c == '\U{FEFF}' || c == '\U{2028}' || c == '\U{2029}'
  }

  function TrimStart(s: string): (r: string)
    ensures |r| <= |s| && r == s[|s| - |r|..]
    ensures r == [] || !IsJsSpace(r[0])
    ensures forall i :: 0 <= i < |s| - |r| ==> IsJsSpace(s[i])
    decreases |s|
  {
    if s != [] && IsJsSpace(s[0]) then TrimStart(s[1..]) else s
  }

  /** The length of the longest prefix of `s` made of decimal digits. */
  function DigitPrefixLength(s: string): (n: nat)
    ensures n <= |s| && AllDigits(s[..n])
    ensures n < |s| ==> !IsDigit(s[n])
    decreases |s|
  {
    if s != [] && IsDigit(s[0]) then 1 + DigitPrefixLength(s[1..]) else 0
  }

  /** `parseInt(s, 10)`: skip leading white space, read an optional sign, then
      the longest run of digits; `None` stands for NaN (no digit at all).
      What follows the digits is ignored. */
  function ParseInt(s: string): (r: Option<int>)
  {
    ParseSigned(TrimStart(s))
  }

  /** The rest of `parseInt` once the white space is skipped: an optional sign
      and the longest run of digits after it. */
  function ParseSigned(t: string): (r: Option<int>)
  {
    var negative := |t| > 0 && t[0] == '-';
    var body := if |t| > 0 && (t[0] == '-' || t[0] == '+') then t[1..] else t;
    var n := DigitPrefixLength(body);
    if n == 0 then None
    else if negative then Some(0 - DigitsValue(body[..n]) as int)
    else Some(DigitsValue(body[..n]) as int)
  }

  /** `parseInt` skips the white space, takes the sign, and reads the digits
      up to the first character that is not one. */
  lemma {:induction false} ParseIntReads(space: string, sign: string, digits: string, rest: string)
    requires forall i :: 0 <= i < |space| ==> IsJsSpace(space[i])
    requires |sign| <= 1 && (|sign| == 1 ==> sign[0] == '+' || sign[0] == '-')
    requires |digits| >= 1 && AllDigits(digits)
    requires rest == [] || !IsDigit(rest[0])
    ensures ParseInt(space + sign + digits + rest) ==
      Some(if sign == ['-'] then 0 - DigitsValue(digits) as int else DigitsValue(digits) as int)
  {
    var t := sign + digits + rest;
    assert space + sign + digits + rest == space + t;
    assert t == [] || !IsJsSpace(t[0]) by {
      if sign == [] { assert t[0] == digits[0]; }
    }
    TrimStartSkips(space, t);
    ParseSignedReads(sign, digits, rest);
  }

  lemma {:induction false} ParseSignedReads(sign: string, digits: string, rest: string)
    requires |sign| <= 1 && (|sign| == 1 ==> sign[0] == '+' || sign[0] == '-')
    requires |digits| >= 1 && AllDigits(digits)
    requires rest == [] || !IsDigit(rest[0])
    ensures ParseSigned(sign + digits + rest) ==
      Some(if sign == ['-'] then 0 - DigitsValue(digits) as int else DigitsValue(digits) as int)
  {
    var t := sign + digits + rest;
    var body := digits + rest;
    assert |t| > 0;
    if sign == [] {
      assert t == body && IsDigit(t[0]);
    } else {
      assert t[0] == sign[0] && t[1..] == body;
    }
    DigitPrefixOf(digits, rest);
    assert body[..|digits|] == digits;
  }

  /** `parseInt` is NaN when no digit follows the white space and the sign. */
  lemma {:induction false} ParseIntRefuses(space: string, sign: string, rest: string)
    requires forall i :: 0 <= i < |space| ==> IsJsSpace(space[i])
    requires |sign| <= 1 && (|sign| == 1 ==> sign[0] == '+' || sign[0] == '-')
    requires rest == [] || !IsDigit(rest[0])
    requires sign == [] && rest != [] ==> !IsJsSpace(rest[0]) && rest[0] != '+' && rest[0] != '-'
    ensures ParseInt(space + sign + rest) == None
  {
    var t := sign + rest;
    assert space + sign + rest == space + t;
    TrimStartSkips(space, t);
    if sign != [] {
      assert t[1..] == rest;
    }
  }

  lemma {:induction false} TrimStartSkips(space: string, t: string)
    requires forall i :: 0 <= i < |space| ==> IsJsSpace(space[i])
    requires t == [] || !IsJsSpace(t[0])
    ensures TrimStart(space + t) == t
    decreases |space|
  {
    if space == [] {
      assert space + t == t;
    } else {
      assert (space + t)[1..] == space[1..] + t;
      TrimStartSkips(space[1..], t);
    }
  }

  /** `parseInt` reads back what `NatToDigits` spells, and ignores anything after
      the digits that does not start with a digit. */
  lemma ParseIntOfDigits(n: nat, rest: string)
    requires rest == [] || !IsDigit(rest[0])
    ensures ParseInt(NatToDigits(n) + rest) == Some(n)
  {
    var d := NatToDigits(n);
    var s := d + rest;
    assert s[0] == d[0] && IsDigit(s[0]) && !IsJsSpace(s[0]);
    assert TrimStart(s) == s;
    DigitPrefixOf(d, rest);
    assert s[..|d|] == d;
  }

  lemma {:induction false} DigitPrefixOf(d: string, rest: string)
    requires AllDigits(d)
    requires rest == [] || !IsDigit(rest[0])
    ensures DigitPrefixLength(d + rest) == |d|
    decreases |d|
  {
    if d != [] {
      assert (d + rest)[1..] == d[1..] + rest;
      DigitPrefixOf(d[1..], rest);
    } else {
      assert d + rest == rest;
    }
  }

  /** `Number(s)` restricted to the strings this model covers: the empty string,
      which JavaScript converts to 0, and plain decimal digit strings. Every
      other string is `None` here (see README, "Left out"). */
  function DecimalNumber(s: string): (r: Option<nat>)
    ensures r.Some? <==> AllDigits(s)
    ensures r.Some? ==> r.value == DigitsValue(s)
    ensures s == [] ==> r == Some(0)
  {
    if AllDigits(s) then Some(DigitsValue(s)) else None
  }
}
