/** Numbers in text: printed by `%u` and `%d`, read back by `atoll` and a cast to a 32-bit unsigned number. */
module Numbers {
  import opened Regex

  const TWO_32: int := 0x1_0000_0000
  const LLONG_MAX: int := 0x7fff_ffff_ffff_ffff

  type guint = x: int | 0 <= x < TWO_32

  /** `%u`, and `%d` of a number that is not negative */
  function Decimal(n: nat): (s: string)
    ensures s != ""
  {
    if n < 10 then [DigitChar(n)] else Decimal(n / 10) + [DigitChar(n % 10)]
  }

  function DigitChar(d: nat): char
    requires d < 10
  {
    '0' + d as char
  }

  predicate AllDigits(s: string) {
    forall i :: 0 <= i < |s| ==> Digit.Has(s[i])
  }

  /** The number a row of digits stands for. */
  function Value(s: string): nat
    requires AllDigits(s)
  {
    if s == "" then 0 else Value(s[..|s| - 1]) * 10 + (s[|s| - 1] as int - '0' as int)
  }

  lemma {:induction false} ValueOfDecimal(n: nat)
    ensures AllDigits(Decimal(n)) && Value(Decimal(n)) == n
  {
    if n < 10 {
      assert [DigitChar(n)][..0] == "";
    } else {
      ValueOfDecimal(n / 10);
      var s, d := Decimal(n / 10), DigitChar(n % 10);
      assert (s + [d])[..|s|] == s;
    }
  }

  lemma {:induction false} LeadingDigit(s: string)
    requires AllDigits(s) && s != "" && s[0] != '0'
    ensures Value(s) > 0
  {
    if |s| > 1 {
      LeadingDigit(s[..|s| - 1]);
    }
  }

  /** No shorter row of digits stands for the number: there is no zero in front, and the row is the only such one. */
  lemma {:induction false} DecimalOfValue(s: string)
    requires AllDigits(s) && s != "" && (|s| == 1 || s[0] != '0')
    ensures Decimal(Value(s)) == s
  {
    var p, d := s[..|s| - 1], s[|s| - 1];
    if p == "" {
      assert Value(p) == 0;
      assert s == [d];
    } else {
      LeadingDigit(p);
      DecimalOfValue(p);
      assert Value(s) / 10 == Value(p) && Value(s) % 10 == d as int - '0' as int;
      assert s == p + [d];
    }
  }

  lemma {:induction false} NoZeroInFront(n: nat)
    ensures var s := Decimal(n); |s| == 1 || s[0] != '0'
    ensures n > 0 ==> Decimal(n)[0] != '0'
  {
    if n >= 10 {
      NoZeroInFront(n / 10);
    }
  }

  predicate IsSpace(c: char) {
    c == ' ' || 9 <= c as int <= 13
  }

  function SkipSpaces(s: string): string {
    if s != "" && IsSpace(s[0]) then SkipSpaces(s[1..]) else s
  }

  function LeadingValue(s: string): nat {
    Value(s[..RunLength(Digit, s, 0)])
  }

  /** `atoll`: blanks, a sign, digits up to the first other character; out of range it gives the nearest bound. */
  function Atoll(s: string): int {
    var t := SkipSpaces(s);
    if t != "" && t[0] == '-' then
      var v: int := LeadingValue(t[1..]);
      if v > LLONG_MAX + 1 then -LLONG_MAX - 1 else -v
    else
      var v := LeadingValue(if t != "" && t[0] == '+' then t[1..] else t);
      if v > LLONG_MAX then LLONG_MAX else v
  }

  /** A cast to `guint` */
  function ToGuint(x: int): guint {
    x % TWO_32
  }

  /** Every 32-bit id is read back as itself. */
  lemma AtollOfDecimal(id: guint)
    ensures ToGuint(Atoll(Decimal(id))) == id
  {
    var s := Decimal(id);
    ValueOfDecimal(id);
    hide Decimal, Value, RunLength;
    assert Digit.Has(s[0]) && SkipSpaces(s) == s;
    assert RunLength(Digit, s, 0) == |s| && s[..|s|] == s;
  }

  lemma {:induction false} SkipsBlanks(blanks: string, t: string)
    requires (forall i :: 0 <= i < |blanks| ==> IsSpace(blanks[i])) && (t == "" || !IsSpace(t[0]))
    ensures SkipSpaces(blanks + t) == t
  {
    if blanks == "" {
      assert blanks + t == t;
    } else {
      assert (blanks + t)[1..] == blanks[1..] + t;
      SkipsBlanks(blanks[1..], t);
    }
  }

  function Clamped(x: int): int {
    if x > 9223372036854775807 then 9223372036854775807
    else if x < -9223372036854775808 then -9223372036854775808 else x
  }

  /** The characters that `isspace` accepts. */
  predicate Blank(c: char) {
    c in " \t\n\U{0b}\U{0c}\r"
  }

  /**
   * Any text: blanks before a number and anything but a digit after it are ignored; a sign counts, the value is
   * clamped, and where there are no digits it is 0.
   */
  lemma AtollReads(blanks: string, negative: bool, plus: bool, digits: string, rest: string)
    requires forall i :: 0 <= i < |blanks| ==> Blank(blanks[i])
    requires AllDigits(digits) && (rest == "" || !('0' <= rest[0] <= '9'))
    requires digits != "" || negative || plus || rest == "" || !(Blank(rest[0]) || rest[0] in "+-")
    ensures var sign := if negative then "-" else if plus then "+" else "";
            Atoll(blanks + (sign + (digits + rest))) == Clamped((if negative then -1 else 1) * Value(digits))
  {
    hide Value, RunLength, SkipSpaces;
    var sign := if negative then "-" else if plus then "+" else "";
    var u := digits + rest;
    var t := sign + u;
    assert forall i :: 0 <= i < |digits| ==> u[i] == digits[i] && Digit.Has(digits[i]);
    assert rest != "" ==> u[|digits|] == rest[0];
    assert RunLength(Digit, u, 0) == |digits| && u[..|digits|] == digits;
    SkipsBlanks(blanks, t);
    if sign == "" {
      assert t == u;
    } else {
      assert t[1..] == u;
    }
  }
}
