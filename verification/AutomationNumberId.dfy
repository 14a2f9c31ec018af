/**
 Reading a positive 64-bit identifier from a JSON number literal, in any decimal or
 exponent spelling, without expanding the value before it is known to be short.
 */
module AutomationNumberId {
  import opened Prelude
  import opened Digits
  import opened JsonNumber
  import Numeric = AutomationNumeric

  const MAX_BYTES := 1024
  const MAX_EXPONENT := 1024
  const TWO_TO_THE_64 := 0x1_0000_0000_0000_0000

  /** s spells the identifier n, within the byte and exponent limits. */
  predicate Spells(s: string, n: nat) {
    && |s| <= MAX_BYTES
    && Read(s).Some?
    && -MAX_EXPONENT <= ExponentValue(Read(s).value.exponent) <= MAX_EXPONENT
    && Value(Read(s).value) == n as real
    && 1 <= n < TWO_TO_THE_64
  }

  /** strconv.ParseUint(s, 10, 64): None is its range or syntax error. */
  function ParseUint(s: string): Option<nat> {
    if s != "" && AllDigits(s) && DecVal(s) < TWO_TO_THE_64 then Some(DecVal(s)) else None
  }

  // ---------- which canonical records are 64-bit integers ----------

  lemma {:induction false} ShiftNat(n: nat, k: nat)
    ensures Shift10(n as real, k) == (n * Pow10(k)) as real
  {
    if k > 0 {
      ShiftNat(n, k - 1);
      assert n * Pow10(k) == 10 * (n * Pow10(k - 1));
    }
  }

  lemma MultipleOfTen(n: nat, q: nat)
    ensures (n * (10 * q)) % 10 == 0
  {
    assert n * (10 * q) == 10 * (n * q);
  }

  /** A negative power under a nonzero last digit is never an integer. */
  lemma NegativePowerIsFraction(d: Numeric.Decimal, n: nat)
    requires Numeric.Canonical(d) && d.sign != 0 && d.power < 0
    ensures Numeric.Size(d) != n as real
  {
    var v, k := DecVal(d.digits), -d.power;
    assert v % 10 == DigitVal(d.digits[|d.digits| - 1]) != 0;
    ShiftCompose(v as real, d.power, k);
    ShiftNat(n, k);
    MultipleOfTen(n, Pow10(k - 1));
  }

  /** More than 20 places exceed every 64-bit integer. */
  lemma TooManyPlaces(d: Numeric.Decimal)
    requires Numeric.Canonical(d) && d.sign != 0 && Numeric.Top(d) > 20
    ensures Numeric.Size(d) >= TWO_TO_THE_64 as real
  {
    Numeric.SizeBounds(d);
    ShiftUnitMonotone(20, Numeric.Top(d) - 1);
    ShiftPow10(20, 0);
    assert Pow10(5) == 100000;
    Pow10Add(5, 5);
    Pow10Add(10, 10);
  }

  /** A nonnegative power is an integer, written out by appending that many zeros. */
  lemma WrittenOut(d: Numeric.Decimal)
    requires Numeric.Canonical(d) && d.sign != 0 && d.power >= 0
    ensures AllDigits(d.digits + Zeros(d.power))
    ensures Numeric.Size(d) == DecVal(d.digits + Zeros(d.power)) as real
  {
    PadValue(d.digits, d.power, d.power);
  }

  lemma MinusIsNotPositive(l: Literal)
    requires WellFormed(l)
    ensures l.negative ==> Value(l) <= 0.0
  {
    var d := Numeric.NormalForm(l);
    Numeric.NormalFormValue(l);
    if d.sign != 0 {
      Numeric.SizeBounds(d);
    }
  }

  // ---------- the scanner ----------

  method ScanExponentDigits(s: string, start: nat) returns (i: nat, exponent: nat, ok: bool)
    requires start <= |s|
    ensures ok <==> DecVal(s[start..DigitRun(s, start)]) <= MAX_EXPONENT
    ensures ok ==> i == DigitRun(s, start) && exponent == DecVal(s[start..i])
  {
    ghost var end := DigitRun(s, start);
    i, exponent := start, 0;
    while i < |s| && '0' <= s[i] <= '9'
      invariant start <= i <= end
      invariant DigitRun(s, i) == end
      invariant AllDigits(s[start..i]) && exponent == DecVal(s[start..i]) <= MAX_EXPONENT
    {
      var digit := s[i] as int - '0' as int;
      assert s[start..i + 1][..i - start] == s[start..i];
      if exponent > (MAX_EXPONENT - digit) / 10 {
        assert s[start..end][..i + 1 - start] == s[start..i + 1];
        DecValPrefix(s[start..end], i + 1 - start);
        return i, exponent, false;
      }
      exponent := exponent * 10 + digit;
      i := i + 1;
    }
    return i, exponent, true;
  }

  method ScanExponent(s: string, from: nat) returns (exponent: int, ok: bool)
    requires from <= |s|
    ensures ok <==>
      ReadExponent(s, from).Some? && -MAX_EXPONENT <= ExponentValue(ReadExponent(s, from).value) <= MAX_EXPONENT
    ensures ok ==> exponent == ExponentValue(ReadExponent(s, from).value)
  {
    var i := from;
    exponent := 0;
    if i < |s| && (s[i] == 'e' || s[i] == 'E') {
      i := i + 1;
      var negative := false;
      if i < |s| && (s[i] == '+' || s[i] == '-') {
        negative := s[i] == '-';
        i := i + 1;
      }
      var exponentStart := i;
      var within;
      i, exponent, within := ScanExponentDigits(s, exponentStart);
      if !within || i == exponentStart {
        return 0, false;
      }
      if negative {
        exponent := -exponent;
      }
    }
    ok := i == |s|;
  }

  /** Scans an unsigned mantissa; a literal with a minus sign is refused here. */
  method ScanMantissa(s: string) returns (integerEnd: nat, fractionDigits: nat, mantissaEnd: nat, ok: bool)
    requires s != ""
    ensures ok ==>
      && integerEnd <= mantissaEnd <= |s|
      && (fractionDigits > 0 ==> mantissaEnd == integerEnd + 1 + fractionDigits)
      && Numeric.MantissaScanned(
           s, mantissaEnd, 1, Mantissa(s, integerEnd, fractionDigits, mantissaEnd), fractionDigits)
    ensures !ok ==> Read(s).None? || Read(s).value.negative
  {
    integerEnd, fractionDigits, mantissaEnd, ok := 0, 0, 0, false;
    var i := 0;
    if s[0] == '0' {
      i := 1;
    } else if '1' <= s[0] <= '9' {
      i := Numeric.ScanDigits(s, i);
    } else {
      return;
    }
    assert i == IntegerEnd(s, 0);
    integerEnd := i;
    if i < |s| && s[i] == '.' {
      i := i + 1;
      var fractionStart := i;
      i := Numeric.ScanDigits(s, i);
      fractionDigits := i - fractionStart;
      if fractionDigits == 0 {
        return;
      }
    }
    mantissaEnd, ok := i, true;
  }

  function Mantissa(s: string, integerEnd: nat, fractionDigits: nat, mantissaEnd: nat): string
    requires integerEnd <= mantissaEnd <= |s|
    requires fractionDigits > 0 ==> integerEnd < mantissaEnd
  {
    s[..integerEnd] + (if fractionDigits > 0 then s[integerEnd + 1..mantissaEnd] else "")
  }

  /**
   Succeeds exactly on the spellings of an integer in 1 .. 2^64-1, and returns it: the
   early refusals of a negative scale and of more than 20 places lose no identifier.
   */
  method ParseAutomationNumberUint64(s: string) returns (n: nat, ok: bool)
    ensures ok ==> Spells(s, n)
    ensures !ok ==> n == 0 && forall m: nat :: !Spells(s, m)
  {
    if |s| == 0 || |s| > MAX_BYTES {
      return 0, false;
    }
    var integerEnd, fractionDigits, mantissaEnd, scanned := ScanMantissa(s);
    if Read(s).Some? {
      Numeric.NormalFormValue(Read(s).value);
      MinusIsNotPositive(Read(s).value);
    }
    if !scanned {
      return 0, false;
    }
    var exponent, within := ScanExponent(s, mantissaEnd);
    if !within {
      return 0, false;
    }
    ghost var d := Numeric.NormalForm(Read(s).value);
    var digits := Numeric.TrimLeft(Mantissa(s, integerEnd, fractionDigits, mantissaEnd));
    if digits == "" {
      return 0, false;
    }
    var trimmed := Numeric.TrimRight(digits);
    var scale := exponent - fractionDigits + |digits| - |trimmed|;
    assert d == Numeric.Decimal(1, trimmed, scale);
    if scale < 0 || |trimmed| + scale > 20 {
      forall m: nat ensures !Spells(s, m) {
        if scale < 0 {
          NegativePowerIsFraction(d, m);
        } else {
          TooManyPlaces(d);
        }
      }
      return 0, false;
    }
    WrittenOut(d);
    Numeric.SizeBounds(d);
    var parsed := ParseUint(trimmed + Zeros(scale));
    if parsed.None? {
      return 0, false;
    }
    return parsed.value, true;
  }

  /** The parsed record of an identifier writes the identifier out, in at most 20 places. */
  lemma RecordOfIdentifier(s: string, n: nat)
    requires Spells(s, n)
    ensures var d := Numeric.NormalForm(Read(s).value);
      && d.sign == 1 && d.power >= 0 && Numeric.Top(d) <= 20
      && AllDigits(d.digits) && DecVal(d.digits + Zeros(d.power)) == n
  {
    var d := Numeric.NormalForm(Read(s).value);
    Numeric.NormalFormValue(Read(s).value);
    if d.sign != 0 {
      Numeric.SizeBounds(d);
    }
    if d.power < 0 {
      NegativePowerIsFraction(d, n);
    } else {
      WrittenOut(d);
    }
    if Numeric.Top(d) > 20 {
      TooManyPlaces(d);
    }
  }

  /**
   The two scanners agree: an accepted identifier is an admitted number with the same
   value, the unsigned order of two identifiers is the order of the comparison, and two
   spellings are of one identifier exactly when they parse to one record.
   */
  lemma ScannersAgree(a: string, b: string, m: nat, n: nat)
    requires Spells(a, m) && Spells(b, n)
    ensures Numeric.Accepted(a) && Numeric.Accepted(b)
    ensures Numeric.Number(a) == m as real
    ensures Numeric.Cmp(a, b) == if m < n then -1 else if m > n then 1 else 0
    ensures m == n <==> Numeric.NormalForm(Read(a).value) == Numeric.NormalForm(Read(b).value)
  {
    Numeric.SameNumberSameRecord(a, b);
  }

  /** An identifier is spelled by the admitted literals of its value, from 1 to the largest 64-bit number. */
  lemma SpellsByValue(s: string, n: nat)
    ensures Spells(s, n) <==> Numeric.Accepted(s) && Numeric.Number(s) == n as real && 1 <= n <= 18446744073709551615
  {
  }
}
