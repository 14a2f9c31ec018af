/** What literals denote, said of their text: signs, points and exponents as a reader of the text means them. */
module NumberLaws {
  import opened Prelude
  import opened Digits
  import opened JsonNumber

  /** The exact number a literal denotes. */
  function Denotes(s: string): real
    requires Read(s).Some?
  {
    Value(Read(s).value)
  }

  /** Digits without a superfluous leading zero. */
  predicate Natural(s: string) {
    s != "" && AllDigits(s) && (s[0] == '0' ==> |s| == 1)
  }

  /** Appending a digit makes ten of each unit and adds the digit; the digits count up from 0. */
  lemma DigitsCount(s: string, c: char)
    requires AllDigits(s) && IsDigit(c)
    ensures DecVal(s + [c]) == 10 * DecVal(s) + DigitVal(c)
    ensures DigitVal('0') == 0 && (c < '9' ==> DigitVal((c as int + 1) as char) == DigitVal(c) + 1)
  {
    assert (s + [c])[..|s|] == s;
  }

  /** Reading is determined by any well-formed tree that prints the text. */
  lemma ReadsAs(s: string, l: Literal)
    requires WellFormed(l) && Print(l) == s
    ensures Read(s) == Some(l)
  {
    ReadComplete(l);
  }

  lemma WholeDenotes(i: string)
    requires Natural(i)
    ensures Read(i).Some? && Denotes(i) == DecVal(i) as real
  {
    var l := Literal(false, i, "", NoExponent);
    assert Print(l) == i;
    ReadsAs(i, l);
    ShiftZero(0);
  }

  lemma PrintMinus(l: Literal)
    requires WellFormed(l) && !l.negative
    ensures Print(l.(negative := true)) == "-" + Print(l)
    ensures Print(l) != "" && Print(l)[0] == l.integer[0] && IsDigit(Print(l)[0])
  {
    hide PrintTail;
    var rest := l.integer + PrintTail(l.fraction, l.exponent);
    assert Print(l) == rest && Print(l.(negative := true)) == "-" + rest;
  }

  lemma ValueMinus(l: Literal)
    requires WellFormed(l)
    ensures Value(l.(negative := true)) == -Value(l.(negative := false))
  {
  }

  lemma DropFirst(a: string, s: string)
    requires |a| == 1
    ensures (a + s)[1..] == s
  {
  }

  /** A minus sign in front negates. */
  lemma MinusNegates(s: string)
    requires s != "" && s[0] != '-'
    ensures Read("-" + s).Some? <==> Read(s).Some?
    ensures Read(s).Some? ==> Denotes("-" + s) == -Denotes(s)
  {
    hide Read, Print, Value;
    if Read(s).Some? {
      ReadSound(s);
      var l := Read(s).value;
      assert !l.negative by {
        if l.negative {
          PrintMinus(l.(negative := false));
        }
      }
      PrintMinus(l);
      ReadsAs("-" + s, l.(negative := true));
      ValueMinus(l);
    }
    if Read("-" + s).Some? {
      ReadSound("-" + s);
      var l := Read("-" + s).value;
      PrintMinus(l.(negative := false));
      assert l.negative by {
        assert ("-" + s)[0] == '-';
      }
      DropFirst("-", s);
      DropFirst("-", Print(l.(negative := false)));
      ReadsAs(s, l.(negative := false));
    }
  }

  /** Digits after the point: shifting the number by their count gives all digits as one integer. */
  lemma PointDivides(i: string, f: string)
    requires Natural(i) && f != "" && AllDigits(f)
    ensures Read(i + "." + f).Some? && AllDigits(i + f)
    ensures Shift10(Denotes(i + "." + f), |f|) == DecVal(i + f) as real
  {
    hide Print, Read, Shift10, DecVal;
    var l := Literal(false, i, f, NoExponent);
    PrintPoint(i, f);
    ReadsAs(i + "." + f, l);
    var v := DecVal(i) as real + Shift10(DecVal(f) as real, -|f|);
    ShiftNone(v);
    ShiftNone(DecVal(i + f) as real);
    JoinValue(i, f, |f|);
  }

  lemma PrintPoint(i: string, f: string)
    requires f != ""
    ensures Print(Literal(false, i, f, NoExponent)) == i + "." + f
  {
  }

  lemma ShiftNone(v: real)
    ensures Shift10(v, 0) == v
  {
  }

  /** A mantissa: a readable text without an exponent letter. */
  predicate Mantissa(m: string) {
    Read(m).Some? && 'e' !in m && 'E' !in m
  }

  lemma PrintWithExponent(l: Literal, e: Exponent)
    requires l.exponent == NoExponent
    ensures Print(l.(exponent := e)) == Print(l) + PrintExponent(e)
  {
    assert PrintExponent(NoExponent) == "";
    hide PrintFraction, PrintExponent;
    var front, f, x := (if l.negative then "-" else "") + l.integer, PrintFraction(l.fraction), PrintExponent(e);
    assert Print(l.(exponent := e)) == front + (f + x);
    assert Print(l) == front + (f + "");
    assert front + (f + x) == (front + f) + x && f + "" == f;
  }

  lemma MarkerIsPrinted(l: Literal)
    requires WellFormed(l)
    ensures l.exponent.Exponent? ==> l.exponent.marker in Print(l)
  {
    if l.exponent.Exponent? {
      PrintWithExponent(l.(exponent := NoExponent), l.exponent);
      assert PrintExponent(l.exponent)[0] == l.exponent.marker;
      assert l.(exponent := NoExponent).(exponent := l.exponent) == l;
    }
  }

  lemma MantissaTree(m: string)
    requires Mantissa(m)
    ensures WellFormed(Read(m).value) && Print(Read(m).value) == m && Read(m).value.exponent == NoExponent
  {
    hide Read, Print;
    ReadSound(m);
    MarkerIsPrinted(Read(m).value);
  }

  lemma Regroup(a: string, b: string, c: string, d: string)
    ensures a + (b + c + d) == a + b + c + d
  {
  }

  /** The text with an exponent reads as the mantissa with that exponent. */
  lemma ExponentReads(m: string, marker: char, sign: ExponentSign, text: string, d: string)
    requires Mantissa(m) && (marker == 'e' || marker == 'E') && d != "" && AllDigits(d)
    requires text == match sign case Bare => "" case Plus => "+" case Minus => "-"
    ensures Read(m + [marker] + text + d) == Some(Read(m).value.(exponent := Exponent(marker, sign, d)))
    ensures WellFormed(Read(m).value.(exponent := Exponent(marker, sign, d)))
    ensures Read(m).value.(exponent := Exponent(marker, sign, d)).(exponent := NoExponent) == Read(m).value
  {
    MantissaTree(m);
    var e := Exponent(marker, sign, d);
    assert PrintExponent(e) == [marker] + text + d;
    hide Read, Print, PrintExponent;
    var l := Read(m).value;
    PrintWithExponent(l, e);
    Regroup(m, [marker], text, d);
    ReadsAs(m + [marker] + text + d, l.(exponent := e));
  }

  /** Whatever the exponent, the value is the mantissa's value shifted by it. */
  lemma ValueOfExponent(l: Literal)
    requires WellFormed(l)
    ensures Value(l) == Shift10(Value(l.(exponent := NoExponent)), ExponentValue(l.exponent))
  {
    var v := DecVal(l.integer) as real + Shift10(DecVal(l.fraction) as real, -|l.fraction|);
    assert Magnitude(l.(exponent := NoExponent)) == v;
    ShiftNegate(v, ExponentValue(l.exponent));
  }

  /** A plain or plus exponent multiplies by that power of ten. */
  lemma ExponentMultiplies(m: string, marker: char, d: string)
    requires Mantissa(m) && (marker == 'e' || marker == 'E') && d != "" && AllDigits(d)
    ensures Read(m + [marker] + d).Some? && Denotes(m + [marker] + d) == Shift10(Denotes(m), DecVal(d))
    ensures Read(m + [marker] + "+" + d).Some? && Denotes(m + [marker] + "+" + d) == Shift10(Denotes(m), DecVal(d))
  {
    hide Read, Value, Shift10, DecVal;
    assert m + [marker] + "" + d == m + [marker] + d;
    ExponentReads(m, marker, Bare, "", d);
    ExponentReads(m, marker, Plus, "+", d);
    ValueOfExponent(Read(m).value.(exponent := Exponent(marker, Bare, d)));
    ValueOfExponent(Read(m).value.(exponent := Exponent(marker, Plus, d)));
  }

  /** A minus exponent divides by that power of ten: multiplying by it gives the mantissa's number back. */
  lemma MinusExponentDivides(m: string, marker: char, d: string)
    requires Mantissa(m) && (marker == 'e' || marker == 'E') && d != "" && AllDigits(d)
    ensures Read(m + [marker] + "-" + d).Some?
    ensures Shift10(Denotes(m + [marker] + "-" + d), DecVal(d)) == Denotes(m)
  {
    hide Read, Value, DecVal;
    ExponentReads(m, marker, Minus, "-", d);
    ValueOfExponent(Read(m).value.(exponent := Exponent(marker, Minus, d)));
    var k: int := DecVal(d);
    ShiftCompose(Denotes(m), -k, k);
  }

  /** Nothing else is readable: a text is cut into a sign, a mantissa and an exponent in just these ways. */
  lemma TextIsBuiltSo(s: string) returns (minus: string, i: string, point: string, exponent: string)
    requires Read(s).Some?
    ensures s == minus + i + point + exponent && minus in {"", "-"} && Natural(i)
    ensures point == "" || (point[0] == '.' && |point| > 1 && AllDigits(point[1..]))
    ensures exponent == "" || ((exponent[0] == 'e' || exponent[0] == 'E') && |exponent| > 1 &&
      ((AllDigits(exponent[1..])) || (exponent[1] in {'+', '-'} && |exponent| > 2 && AllDigits(exponent[2..]))))
  {
    hide Read;
    ReadSound(s);
    var l := Read(s).value;
    minus, i := if l.negative then "-" else "", l.integer;
    point, exponent := PrintFraction(l.fraction), PrintExponent(l.exponent);
    assert s == minus + i + (point + exponent);
    FractionText(l.fraction);
    ExponentText(l.exponent);
  }

  lemma FractionText(f: string)
    requires AllDigits(f)
    ensures var p := PrintFraction(f); p == "" || (p[0] == '.' && |p| > 1 && AllDigits(p[1..]))
  {
    if f != "" {
      assert PrintFraction(f)[1..] == f;
    }
  }

  lemma ExponentText(e: Exponent)
    requires WellFormedExponent(e)
    ensures var p := PrintExponent(e);
      p == "" || ((p[0] == 'e' || p[0] == 'E') && |p| > 1 &&
        (AllDigits(p[1..]) || (p[1] in {'+', '-'} && |p| > 2 && AllDigits(p[2..]))))
  {
    if e.Exponent? {
      var p := PrintExponent(e);
      if e.sign.Bare? {
        assert p[1..] == e.digits;
      } else {
        assert p[2..] == e.digits;
      }
    }
  }
}
