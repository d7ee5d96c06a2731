/** Decimal numerals, as snprintf("%d") prints them and kstrtoint() reads them back. */
module Decimal {
  import opened Options

  const DIGITS := "0123456789"

  function Print(n: nat): (s: string)
    ensures |s| > 0
    ensures forall k :: 0 <= k < |s| ==> IsDigit(s[k])
  {
    if n < 10 then [DIGITS[n]] else Print(n / 10) + [DIGITS[n % 10]]
  }

  predicate IsDigit(c: char) {
    '0' <= c <= '9'
  }

  function DigitValue(c: char): nat
    requires IsDigit(c)
  {
    c as int - '0' as int
  }

  /** One or more digits and nothing else. */
  function Parse(s: string): Option<nat> {
    if s == [] || !IsDigit(s[|s| - 1]) then None
    else if |s| == 1 then Some(DigitValue(s[0]))
    else
      var front := Parse(s[..|s| - 1]);
      if front.None? then None else Some(10 * front.value + DigitValue(s[|s| - 1]))
  }

  const INT_MAX := 0x7fff_ffff

  /** What is left without the sign, and what is left of that without the newline. */
  function Body(s: string): string {
    if |s| > 0 && (s[0] == '-' || s[0] == '+') then s[1..] else s
  }

  function Digits(body: string): string {
    if |body| > 0 && body[|body| - 1] == '\n' then body[..|body| - 1] else body
  }

  /** kstrtoint() in base 10: a sign, digits, at most one trailing newline, within 32 bits. */
  function ParseInt(s: string): Option<int> {
    var negative := |s| > 0 && s[0] == '-';
    var signed := negative || (|s| > 0 && s[0] == '+');
    var body := if signed then s[1..] else s;
    var digits := if |body| > 0 && body[|body| - 1] == '\n' then body[..|body| - 1] else body;
    var v := Parse(digits);
    if v.None? then None
    else
      var magnitude: int := v.value;
      var value := if negative then -magnitude else magnitude;
      if -INT_MAX - 1 <= value <= INT_MAX then Some(value) else None
  }

  function Negated(n: nat, negative: bool): int {
    var m: int := n;
    if negative then -m else m
  }

  lemma {:induction false} ParsePrinted(n: nat)
    ensures Parse(Print(n)) == Some(n)
  {
    if n >= 10 {
      ParsePrinted(n / 10);
      assert Print(n)[..|Print(n)| - 1] == Print(n / 10);
    }
  }

  lemma PrintIsInjective(m: nat, n: nat)
    requires Print(m) == Print(n)
    ensures m == n
  {
    ParsePrinted(m);
    ParsePrinted(n);
  }

  lemma {:induction false} PrintedLength(n: nat, digits: nat, bound: nat)
    requires digits > 0 && n < bound && bound == Power10(digits)
    ensures |Print(n)| <= digits
  {
    if n >= 10 {
      PrintedLength(n / 10, digits - 1, bound / 10);
    }
  }

  function Power10(k: nat): nat {
    if k == 0 then 1 else 10 * Power10(k - 1)
  }

  lemma ParseIntPrinted(n: nat)
    requires n <= INT_MAX
    ensures ParseInt(Print(n)) == Some(n)
    ensures |Print(n)| <= 10
  {
    ParsePrinted(n);
    PrintedLength(n, 10, Power10(10));
    assert IsDigit(Print(n)[0]) && IsDigit(Print(n)[|Print(n)| - 1]);
  }

  // ---------- what numerals mean ----------

  predicate IsNumeral(s: string) {
    |s| > 0 && forall k :: 0 <= k < |s| ==> IsDigit(s[k])
  }

  /** Each digit times the power of ten of its place, from the left. */
  function PlaceValue(s: string): nat
    requires forall k :: 0 <= k < |s| ==> IsDigit(s[k])
  {
    if s == [] then 0 else DigitValue(s[0]) * Power10(|s| - 1) + PlaceValue(s[1..])
  }

  lemma {:induction false} LastPlace(s: string)
    requires IsNumeral(s)
    ensures PlaceValue(s) == 10 * PlaceValue(s[..|s| - 1]) + DigitValue(s[|s| - 1])
  {
    if |s| > 1 {
      LastPlace(s[1..]);
      var front := s[..|s| - 1];
      assert s[1..][..|s| - 2] == front[1..] && front[0] == s[0];
      assert Power10(|s| - 1) == 10 * Power10(|s| - 2);
      Move10(DigitValue(s[0]), Power10(|s| - 2));
    }
  }

  lemma Move10(d: nat, p: nat)
    ensures d * (10 * p) == 10 * (d * p)
  {
  }

  /** Exactly the numerals are read, for what their digits are worth in their places. */
  lemma {:induction false} ParseIsPlaceValue(s: string)
    ensures Parse(s).Some? <==> IsNumeral(s)
    ensures IsNumeral(s) ==> Parse(s) == Some(PlaceValue(s))
  {
    if |s| > 1 {
      ParseIsPlaceValue(s[..|s| - 1]);
    }
    if IsNumeral(s) {
      LastPlace(s);
      assert |s| == 1 ==> s[..0] == [];
    }
  }

  /** What is printed is the numeral for the number, without zeros before it. */
  lemma {:induction false} PrintIsTheNumeral(n: nat)
    ensures IsNumeral(Print(n)) && PlaceValue(Print(n)) == n
    ensures n > 0 ==> Print(n)[0] != '0'
  {
    ParsePrinted(n);
    ParseIsPlaceValue(Print(n));
    if n >= 10 {
      PrintIsTheNumeral(n / 10);
    }
  }

  /** A sign or none. */
  predicate IsSign(sign: string) {
    sign == "" || sign == "+" || sign == "-"
  }

  function Signed(sign: string, n: nat): int {
    Negated(n, sign == "-")
  }

  predicate InInt(v: int) {
    -0x8000_0000 <= v <= 0x7fff_ffff
  }

  predicate IsEnd(end: string) {
    end == "" || end == "\n"
  }

  lemma BodyOf(sign: string, rest: string)
    requires IsSign(sign) && |rest| > 0 && rest[0] != '-' && rest[0] != '+'
    ensures Body(sign + rest) == rest
    ensures |sign + rest| > 0 && ((sign + rest)[0] == '-' <==> sign == "-")
  {
    if sign == "" {
      assert sign + rest == rest;
    } else {
      assert (sign + rest)[1..] == rest && (sign + rest)[0] == sign[0];
    }
  }

  lemma DigitsOf(digits: string, end: string)
    requires IsNumeral(digits) && IsEnd(end)
    ensures Digits(digits + end) == digits
  {
    assert IsDigit(digits[|digits| - 1]);
    assert end == "\n" ==> (digits + end)[..|digits + end| - 1] == digits;
    assert end == "" ==> digits + end == digits;
  }

  /** kstrtoint() reads a sign or none, digits, and a newline or none, if the number fits. */
  lemma ParseIntOf(sign: string, digits: string, end: string)
    requires IsSign(sign) && IsNumeral(digits) && IsEnd(end)
    ensures var v := Signed(sign, PlaceValue(digits));
      ParseInt(sign + (digits + end)) == if InInt(v) then Some(v) else None
  {
    var rest := digits + end;
    assert IsDigit(digits[0]) && rest[0] == digits[0];
    BodyOf(sign, rest);
    DigitsOf(digits, end);
    ParseIntOfDigits(sign + rest, digits);
  }

  lemma ParseIntOfDigits(s: string, digits: string)
    requires |s| > 0 && Digits(Body(s)) == digits && IsNumeral(digits)
    ensures var v := Negated(PlaceValue(digits), s[0] == '-');
      ParseInt(s) == if InInt(v) then Some(v) else None
  {
    ParseIsPlaceValue(digits);
  }

  ghost predicate IsIntText(s: string, sign: string, digits: string, end: string) {
    IsSign(sign) && IsNumeral(digits) && IsEnd(end) && s == sign + (digits + end)
  }

  /** It reads nothing else. */
  lemma ParseIntReads(s: string)
    requires ParseInt(s).Some?
    ensures exists sign, digits, end :: IsIntText(s, sign, digits, end)
  {
    var digits := Digits(Body(s));
    var sign, end := s[..|s| - |Body(s)|], Body(s)[|digits|..];
    ParseIsPlaceValue(digits);
    SignAndBody(s);
    DigitsAndEnd(Body(s));
    assert IsIntText(s, sign, digits, end);
  }

  lemma SignAndBody(s: string)
    ensures |Body(s)| <= |s| && IsSign(s[..|s| - |Body(s)|]) && s == s[..|s| - |Body(s)|] + Body(s)
    ensures s[..|s| - |Body(s)|] == "-" <==> |s| > 0 && s[0] == '-'
  {
    if |s| > 0 && (s[0] == '-' || s[0] == '+') {
      assert s[..1] == [s[0]] && s == [s[0]] + s[1..];
    }
  }

  lemma DigitsAndEnd(body: string)
    ensures |Digits(body)| <= |body| && IsEnd(body[|Digits(body)|..]) && body == Digits(body) + body[|Digits(body)|..]
  {
  }
}
