/** Decimal numbers in text. */
module Numbers {
  import opened Http

  predicate IsDigit(c: char) {
    '0' <= c <= '9'
  }

  function Digit(c: char): (d: nat)
    requires IsDigit(c)
    ensures d <= 9
  {
    c as int - '0' as int
  }

  predicate AllDigits(s: string) {
    forall i :: 0 <= i < |s| ==> IsDigit(s[i])
  }

  /** The number that digits denote. */
  function Decimal(s: string): nat
    requires AllDigits(s)
  {
    if s == "" then 0 else 10 * Decimal(s[..|s| - 1]) + Digit(s[|s| - 1])
  }

  function Pow10(n: nat): nat {
    if n == 0 then 1 else 10 * Pow10(n - 1)
  }

  /** `str::parse` for an unsigned integer below `limit`: digits, with or without a plus sign. */
  function ParseUnsigned(s: string, limit: nat): Option<nat> {
    var digits := if s != "" && s[0] == '+' then s[1..] else s;
    if digits != "" && AllDigits(digits) && Decimal(digits) < limit then Some(Decimal(digits)) else None
  }

  /** `str::parse::<i32>`. */
  function ParseI32(s: string): Option<int> {
    if s != "" && s[0] == '-' then
      var digits := s[1..];
      if digits != "" && AllDigits(digits) && Decimal(digits) <= 0x8000_0000 then Some(0 - (Decimal(digits) as int)) else None
    else
      match ParseUnsigned(s, 0x8000_0000)
      case Some(n) => Some(n as int)
      case None => None
  }

  // What the parsers read.

  /** A number in decimal, without zeros in front. */
  function Show(n: nat): string {
    (if n < 10 then "" else Show(n / 10)) + ["0123456789"[n % 10]]
  }

  function Zeros(n: nat): string {
    seq(n, _ => '0')
  }

  lemma LastDigit(n: nat)
    ensures IsDigit("0123456789"[n % 10]) && Digit("0123456789"[n % 10]) == n % 10
  {
  }

  lemma {:induction false} ZerosInFront(zeros: nat, s: string)
    requires AllDigits(s)
    ensures AllDigits(Zeros(zeros) + s) && Decimal(Zeros(zeros) + s) == Decimal(s)
    decreases zeros + |s|
  {
    var t := Zeros(zeros) + s;
    if s != "" {
      assert t[..|t| - 1] == Zeros(zeros) + s[..|s| - 1];
      ZerosInFront(zeros, s[..|s| - 1]);
    } else if zeros > 0 {
      assert t[..|t| - 1] == Zeros(zeros - 1) + "";
      ZerosInFront(zeros - 1, "");
    }
  }

  lemma {:induction false} ShowDenotes(n: nat)
    ensures Show(n) != "" && AllDigits(Show(n)) && Decimal(Show(n)) == n
  {
    LastDigit(n);
    var s := Show(n);
    if n >= 10 {
      ShowDenotes(n / 10);
      assert s[..|s| - 1] == Show(n / 10);
    } else {
      assert s[..|s| - 1] == "";
    }
  }

  lemma ShownDigits(zeros: nat, n: nat)
    ensures var text := Zeros(zeros) + Show(n);
      text != "" && AllDigits(text) && Decimal(text) == n
  {
    ShowDenotes(n);
    ZerosInFront(zeros, Show(n));
  }

  lemma DigitsAreParsed(text: string, limit: nat)
    requires text != "" && AllDigits(text)
    ensures var read := if Decimal(text) < limit then Some(Decimal(text)) else None;
      ParseUnsigned(text, limit) == read && ParseUnsigned("+" + text, limit) == read
  {
    assert IsDigit(text[0]);
    assert ("+" + text)[1..] == text;
  }

  /** Read as the number from -2^31 to 2^31 - 1 that the sign makes of `n`, or not at all. */
  predicate ReadsSigned(text: string, n: nat) {
    && ParseI32(text) == (if n < 0x8000_0000 then Some(n as int) else None)
    && ParseI32("+" + text) == (if n < 0x8000_0000 then Some(n as int) else None)
    && ParseI32("-" + text) == (if n <= 0x8000_0000 then Some(0 - (n as int)) else None)
  }

  lemma SignedDigitsAreParsed(text: string)
    requires text != "" && AllDigits(text)
    ensures ReadsSigned(text, Decimal(text))
  {
    DigitsAreParsed(text, 0x8000_0000);
    assert IsDigit(text[0]);
    assert ("-" + text)[1..] == text;
  }

  /** Reading inverts printing: a number in decimal, with zeros in front or a plus sign, is read if and only if it is
      below the limit. */
  lemma ShownIsParsed(zeros: nat, n: nat, limit: nat)
    ensures var text := Zeros(zeros) + Show(n);
      && AllDigits(text)
      && ParseUnsigned(text, limit) == (if n < limit then Some(n) else None)
      && ParseUnsigned("+" + text, limit) == (if n < limit then Some(n) else None)
  {
    ShownDigits(zeros, n);
    DigitsAreParsed(Zeros(zeros) + Show(n), limit);
  }

  /** The same for signed numbers. */
  lemma ShownIsParsedSigned(zeros: nat, n: nat)
    ensures ReadsSigned(Zeros(zeros) + Show(n), n)
  {
    ShownDigits(zeros, n);
    SignedDigitsAreParsed(Zeros(zeros) + Show(n));
  }

  /** Every text of digits is a number printed with zeros in front. */
  lemma {:induction false} DigitsAreShown(s: string) returns (zeros: nat, n: nat)
    requires s != "" && AllDigits(s)
    ensures s == Zeros(zeros) + Show(n) && Decimal(s) == n
  {
    var init, d := s[..|s| - 1], Digit(s[|s| - 1]);
    assert s == init + ["0123456789"[d]];
    if init == "" {
      zeros, n := 0, d;
      assert Show(n) == "" + ["0123456789"[d]];
    } else {
      var m;
      zeros, m := DigitsAreShown(init);
      if m == 0 {
        zeros, n := zeros + 1, d;
        assert Show(0) == "0" && Show(d) == ["0123456789"[d]];
        assert init == Zeros(zeros);
      } else {
        n := 10 * m + d;
        assert n / 10 == m && n % 10 == d;
        assert Show(n) == Show(m) + ["0123456789"[d]];
      }
    }
  }

  /** And nothing else is read: what is read as a number is an optional plus sign and that number printed. */
  lemma OnlyShownIsParsed(s: string, limit: nat) returns (sign: string, zeros: nat, n: nat)
    requires ParseUnsigned(s, limit).Some?
    ensures sign in {"", "+"} && s == sign + (Zeros(zeros) + Show(n)) && ParseUnsigned(s, limit) == Some(n)
  {
    if s[0] == '+' {
      sign := "+";
      zeros, n := DigitsAreShown(s[1..]);
      assert s == sign + s[1..];
    } else {
      sign := "";
      zeros, n := DigitsAreShown(s);
      assert s == sign + s;
    }
  }

  lemma OnlyShownIsParsedSigned(s: string) returns (sign: string, zeros: nat, n: nat)
    requires ParseI32(s).Some?
    ensures sign in {"", "+", "-"} && s == sign + (Zeros(zeros) + Show(n))
    ensures ParseI32(s) == Some(if sign == "-" then 0 - (n as int) else n as int)
  {
    if s[0] == '-' {
      sign := "-";
      zeros, n := DigitsAreShown(s[1..]);
      assert s == sign + s[1..];
    } else {
      sign, zeros, n := OnlyShownIsParsed(s, 0x8000_0000);
    }
  }
}
