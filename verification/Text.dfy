/** The string operations that keys and tags are built with. */
module Text {

  /** Unicode White_Space, which trimming removes. */
  predicate IsSpace(c: char) {
    c == ' ' || '\t' <= c <= '\r' || c == '\U{85}' || c == '\U{A0}' || c == '\U{1680}'
    || '\U{2000}' <= c <= '\U{200A}' || c == '\U{2028}' || c == '\U{2029}' || c == '\U{202F}'
    || c == '\U{205F}' || c == '\U{3000}'
  }

  function TrimStart(s: string): string {
    if s != [] && IsSpace(s[0]) then TrimStart(s[1..]) else s
  }

  function TrimEnd(s: string): string {
    if s != [] && IsSpace(s[|s| - 1]) then TrimEnd(s[..|s| - 1]) else s
  }

  function Trim(s: string): string { TrimEnd(TrimStart(s)) }

  predicate Blank(s: string) { Trim(s) == "" }

  // ---- Decimal notation ----

  function Digit(d: nat): char
    requires d < 10
  {
    ('0' as int + d) as char
  }

  function Digits(n: nat): string {
    if n < 10 then [Digit(n)] else Digits(n / 10) + [Digit(n % 10)]
  }

  function Decimal(n: int): string {
    if n < 0 then "-" + Digits(-n) else Digits(n)
  }

  predicate IsDecimalChar(c: char) { c == '-' || '0' <= c <= '9' }

  lemma {:induction false} DigitsFacts(n: nat)
    ensures Digits(n) != [] && forall c :: c in Digits(n) ==> '0' <= c <= '9'
  {
    if n >= 10 { DigitsFacts(n / 10); }
  }

  lemma {:induction false} DigitsInjective(a: nat, b: nat)
    requires Digits(a) == Digits(b)
    ensures a == b
  {
    DigitsFacts(a / 10);
    DigitsFacts(b / 10);
    var s, n := Digits(a), |Digits(a)|;
    if a >= 10 && b >= 10 {
      assert s[..n - 1] == Digits(a / 10) && s[..n - 1] == Digits(b / 10);
      DigitsInjective(a / 10, b / 10);
      assert s[n - 1] == Digit(a % 10) && s[n - 1] == Digit(b % 10);
    } else if a < 10 && b < 10 {
      assert s[0] == Digit(a) && s[0] == Digit(b);
    }
  }

  lemma DecimalFacts(n: int)
    ensures forall c :: c in Decimal(n) ==> IsDecimalChar(c)
  {
    DigitsFacts(if n < 0 then -n else n);
  }

  lemma DecimalInjective(a: int, b: int)
    requires Decimal(a) == Decimal(b)
    ensures a == b
  {
    DigitsFacts(if a < 0 then -a else a);
    DigitsFacts(if b < 0 then -b else b);
    var s := Decimal(a);
    assert a >= 0 ==> s[0] in Digits(a);
    assert b >= 0 ==> s[0] in Digits(b);
    if a < 0 && b < 0 {
      assert s[1..] == Digits(-a) && s[1..] == Digits(-b);
      DigitsInjective(-a, -b);
    } else if a >= 0 && b >= 0 {
      DigitsInjective(a, b);
    }
  }
}
