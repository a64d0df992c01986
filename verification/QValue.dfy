/** Quality values: section 5.3.1 of RFC 7231. */
module QValue {
  import opened Http
  import opened Numbers

  /** Thousandths, from 0 to 1000. */
  type Weight = q: nat | q <= 1000

  /** The integer type of the parser: arithmetic that leaves it does not verify. */
  newtype U16 = x: int | 0 <= x < 0x1_0000

  /** The grammar of a qvalue: `"0" [ "." 0*3DIGIT ]` or `"1" [ "." 0*3("0") ]`. */
  predicate IsQValue(s: string) {
    && s != "" && (s[0] == '0' || s[0] == '1')
    && (|s| == 1 ||
        (2 <= |s| <= 5 && s[1] == '.' && AllDigits(s[2..]) && (s[0] == '1' ==> forall i :: 2 <= i < |s| ==> s[i] == '0')))
  }

  /** The digits after the point. */
  function Fraction(s: string): string {
    if |s| <= 2 then "" else s[2..]
  }

  /** 1000 times the decimal value of a qvalue. */
  function Thousandths(s: string): nat
    requires IsQValue(s)
  {
    (if s[0] == '1' then 1000 else 0) + Decimal(Fraction(s)) * Pow10(3 - |Fraction(s)|)
  }

  /** A weight parameter as it follows the semicolon: `q=`, in either case, and a qvalue. */
  predicate IsWeight(s: string) {
    |s| >= 2 && (s[0] == 'q' || s[0] == 'Q') && s[1] == '=' && IsQValue(s[2..])
  }

  lemma {:induction false} DecimalIsBelow(s: string)
    requires AllDigits(s)
    ensures Decimal(s) < Pow10(|s|)
    ensures Decimal(s) == 0 <==> forall i :: 0 <= i < |s| ==> s[i] == '0'
  {
    if s != "" {
      var init := s[..|s| - 1];
      DecimalIsBelow(init);
      assert forall i :: 0 <= i < |init| ==> s[i] == init[i];
      if Decimal(s) == 0 {
        assert Digit(s[|s| - 1]) == 0;
      }
    }
  }

  lemma ThousandthsInRange(s: string)
    requires IsQValue(s)
    ensures Thousandths(s) <= 1000
  {
    DecimalIsBelow(Fraction(s));
    if |s| > 2 {
      assert forall i :: 0 <= i < |Fraction(s)| ==> Fraction(s)[i] == s[i + 2];
    }
  }

  function WeightOf(s: string): Option<Weight> {
    if IsWeight(s) then
      ThousandthsInRange(s[2..]);
      Some(Thousandths(s[2..]))
    else None
  }

  /** The value of the digit at `i`, and 0 behind the end. */
  function DigitAt(s: string, i: nat): nat {
    if i < |s| && IsDigit(s[i]) then Digit(s[i]) else 0
  }

  /** Weights spelt out: `q=` in either case, then `0` or `1`, then perhaps a point and at most three digits, which
      after `1` are zeros. Tenths, hundredths and thousandths add up. */
  predicate IsSpelt(s: string, w: nat) {
    && 3 <= |s| <= 7 && s[0] in {'q', 'Q'} && s[1] == '=' && s[2] in {'0', '1'}
    && (|s| > 3 ==> s[3] == '.' && forall i :: 4 <= i < |s| ==> '0' <= s[i] <= '9')
    && (s[2] == '1' ==> forall i :: 4 <= i < |s| ==> s[i] == '0')
    && w == if s[2] == '1' then 1000 else 100 * DigitAt(s, 4) + 10 * DigitAt(s, 5) + DigitAt(s, 6)
  }

  lemma DecimalsUpToThree(f: string)
    requires |f| <= 3 && AllDigits(f)
    ensures Decimal(f) * Pow10(3 - |f|) == 100 * DigitAt(f, 0) + 10 * DigitAt(f, 1) + DigitAt(f, 2)
  {
    assert Pow10(0) == 1 && Pow10(1) == 10 && Pow10(2) == 100;
    if |f| == 1 {
      assert f[..0] == "";
    } else if |f| == 2 {
      assert f[..1][..0] == "" && Decimal(f[..1]) == Digit(f[0]);
    } else if |f| == 3 {
      assert f[..2][..1][..0] == "" && Decimal(f[..2][..1]) == Digit(f[0]) && Decimal(f[..2]) == 10 * Digit(f[0]) + Digit(f[1]);
    }
  }

  /** What is read as a weight, and as which, is exactly what is spelt so. */
  lemma WeightIffSpelt(s: string, w: Weight)
    ensures WeightOf(s) == Some(w) <==> IsSpelt(s, w)
  {
    if |s| >= 3 {
      var t := s[2..];
      var f := Fraction(t);
      assert forall i :: 0 <= i < |t| ==> t[i] == s[i + 2];
      if |t| > 2 {
        assert forall i :: 0 <= i < |f| ==> f[i] == s[i + 4];
        assert forall i :: 4 <= i < |s| ==> s[i] == f[i - 4];
      }
      if IsWeight(s) {
        DecimalsUpToThree(f);
        assert s[2] == '1' ==> DigitAt(f, 0) == 0 && DigitAt(f, 1) == 0 && DigitAt(f, 2) == 0;
      }
    }
  }

  /** What the digits before `i` add up to, in thousandths. */
  function Partial(s: string, i: nat): nat
    requires 4 <= i <= 7 && i <= |s| && AllDigits(s[4..i])
  {
    Decimal(s[4..i]) * Pow10(7 - i)
  }

  /** The weight of the digit at `i`; nothing follows the third. */
  function Factor(i: nat): nat {
    if i == 4 then 100 else if i == 5 then 10 else if i == 6 then 1 else 0
  }

  lemma PowersOfTen()
    ensures Pow10(0) == 1 && Pow10(1) == 10 && Pow10(2) == 100 && Pow10(3) == 1000
  {
    assert Pow10(2) == 10 * Pow10(1);
  }

  lemma PartialIsBelow(s: string, i: nat)
    requires 4 <= i <= 7 && i <= |s| && AllDigits(s[4..i])
    ensures Partial(s, i) < 1000
  {
    PowersOfTen();
    DecimalIsBelow(s[4..i]);
  }

  /** One more digit read. */
  lemma FractionStep(s: string, i: nat)
    requires 4 <= i < |s| && i < 7 && AllDigits(s[4..i]) && IsDigit(s[i])
    ensures AllDigits(s[4..i + 1])
    ensures Partial(s, i + 1) == Partial(s, i) + Factor(i) * Digit(s[i])
  {
    var next := s[4..i + 1];
    assert next[..|next| - 1] == s[4..i];
    PowersOfTen();
  }

  /** All digits read: whether the text is a qvalue is now a matter of its value. */
  lemma WholeFraction(s: string)
    requires 4 <= |s| <= 7 && (s[2] == '0' || s[2] == '1') && s[3] == '.' && AllDigits(s[4..])
    ensures Fraction(s[2..]) == s[4..]
    ensures IsQValue(s[2..]) <==> (s[2] == '1' ==> Decimal(s[4..]) == 0)
    ensures Partial(s, |s|) < 1000 && (Partial(s, |s|) == 0 <==> Decimal(s[4..]) == 0)
    ensures IsQValue(s[2..]) ==> Thousandths(s[2..]) == (if s[2] == '1' then 1000 else 0) + Partial(s, |s|)
  {
    var t := s[2..];
    assert t[2..] == s[4..] && s[4..|s|] == s[4..];
    DecimalIsBelow(s[4..]);
    PartialIsBelow(s, |s|);
    assert forall i :: 0 <= i < |s[4..]| ==> s[4..][i] == t[i + 2];
    if IsQValue(t) && s[2] == '1' {
      assert forall i :: 0 <= i < |s[4..]| ==> s[4..][i] == '0';
    }
    if Decimal(s[4..]) == 0 {
      assert forall i :: 2 <= i < |t| ==> t[i] == s[4..][i - 2];
    }
    PowersOfTen();
  }

  /** `QValue::parse`: reads the characters one by one; `value` and `factor` never leave 16 bits. */
  method Parse(s: string) returns (weight: Option<Weight>)
    ensures weight == WeightOf(s)
  {
    if |s| < 1 || (s[0] != 'q' && s[0] != 'Q') {
      return None;
    }
    if |s| < 2 || s[1] != '=' {
      return None;
    }
    ghost var t := s[2..];
    if |s| < 3 || (s[2] != '0' && s[2] != '1') {
      return None;
    }
    var value: U16 := if s[2] == '0' then 0 else 1000;
    if |s| == 3 {
      return Some(value as nat);
    }
    if s[3] != '.' {
      return None;
    }
    var factor: U16 := 100;
    var i := 4;
    while i < |s|
      invariant 4 <= i <= |s| && i <= 7
      invariant AllDigits(s[4..i])
      invariant factor as nat == Factor(i)
      invariant value as nat == (if s[2] == '1' then 1000 else 0) + Partial(s, i)
    {
      if !('0' <= s[i] <= '9') {
        assert t[2..][i - 4] == s[i];
        return None;
      }
      if factor < 1 {
        return None;
      }
      FractionStep(s, i);
      PartialIsBelow(s, i + 1);
      value := value + factor * (s[i] as U16 - '0' as U16);
      factor := factor / 10;
      i := i + 1;
    }
    assert s[4..i] == s[4..];
    WholeFraction(s);
    if value <= 1000 {
      return Some(value as nat);
    }
    return None;
  }
}
