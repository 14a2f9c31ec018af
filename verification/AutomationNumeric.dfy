/**
 Exact bounded comparison of JSON number literals: the scanner normalises a literal
 to (sign, digits, power), and the comparison orders such records without expanding
 a power of ten. Both are proved against the exact rational value of the literal.
 */
module AutomationNumeric {
  import opened Prelude
  import opened Digits
  import opened JsonNumber

  const MAX_LITERAL_BYTES := 1024
  const MAX_EXPONENT := 1024

  datatype Decimal = Decimal(sign: int, digits: string, power: int)

  /** The literals the profile admits: JSON numbers within the byte and exponent limits. */
  predicate Accepted(s: string) {
    && |s| <= MAX_LITERAL_BYTES
    && Read(s).Some?
    && -MAX_EXPONENT <= ExponentValue(Read(s).value.exponent) <= MAX_EXPONENT
  }

  /** The exact rational an admitted literal denotes. */
  function Number(s: string): real
    requires Accepted(s)
  {
    Value(Read(s).value)
  }

  function TrimLeft(s: string): (t: string)
    requires AllDigits(s)
    ensures AllDigits(t) && |t| <= |s|
    ensures t != "" ==> t[0] != '0'
  {
    if s != "" && s[0] == '0' then TrimLeft(s[1..]) else s
  }

  function TrimRight(s: string): (t: string)
    requires AllDigits(s)
    ensures AllDigits(t) && |t| <= |s| && t == s[..|t|]
    ensures t != "" ==> t[|t| - 1] != '0'
    ensures s == t + Zeros(|s| - |t|)
    ensures s != "" && s[0] != '0' ==> t != "" && t[0] != '0'
  {
    if s != "" && s[|s| - 1] == '0' then
      var t := TrimRight(s[..|s| - 1]);
      assert s == s[..|s| - 1] + "0";
      assert Zeros(|s| - |t|) == Zeros(|s| - 1 - |t|) + "0";
      t
    else s
  }

  function NormalForm(l: Literal): Decimal
    requires WellFormed(l)
  {
    var digits := TrimLeft(l.integer + l.fraction);
    if digits == "" then Decimal(0, "", 0)
    else
      var trimmed := TrimRight(digits);
      Decimal(if l.negative then -1 else 1, trimmed,
              ExponentValue(l.exponent) - |l.fraction| + |digits| - |trimmed|)
  }

  /** No leading or trailing zero; zero has one record only. */
  predicate Canonical(d: Decimal) {
    && AllDigits(d.digits)
    && (d.sign == 0 ==> d == Decimal(0, "", 0))
    && (d.sign != 0 ==>
        && (d.sign == 1 || d.sign == -1)
        && d.digits != "" && d.digits[0] != '0' && d.digits[|d.digits| - 1] != '0')
  }

  function Size(d: Decimal): real
    requires AllDigits(d.digits)
  {
    Shift10(DecVal(d.digits) as real, d.power)
  }

  function DecimalValue(d: Decimal): real
    requires Canonical(d)
  {
    if d.sign == 0 then 0.0 else if d.sign == 1 then Size(d) else -Size(d)
  }

  // ---------- normalisation keeps the value ----------

  lemma {:induction false} TrimLeftValue(s: string)
    requires AllDigits(s)
    ensures DecVal(TrimLeft(s)) == DecVal(s)
  {
    if s != "" && s[0] == '0' {
      TrimLeftValue(s[1..]);
      assert s == "0" + s[1..];
      DecValConcat("0", s[1..]);
      assert "0"[..0] == "";
      assert DecVal("0") == 0;
    }
  }

  lemma TrimRightValue(t: string, p: int)
    requires AllDigits(t) && t != "" && t[0] != '0'
    ensures TrimRight(t) != "" && TrimRight(t)[0] != '0'
    ensures Shift10(DecVal(TrimRight(t)) as real, p + |t| - |TrimRight(t)|) == Shift10(DecVal(t) as real, p)
  {
    var u := TrimRight(t);
    var n := |t| - |u|;
    PadValue(u, n, p + n);
  }

  /** Integer and fraction digits joined, leading zeros dropped, at the lowered power. */
  lemma JoinedMagnitude(l: Literal)
    requires WellFormed(l)
    ensures Magnitude(l)
         == Shift10(DecVal(TrimLeft(l.integer + l.fraction)) as real, ExponentValue(l.exponent) - |l.fraction|)
  {
    JoinValue(l.integer, l.fraction, ExponentValue(l.exponent));
    TrimLeftValue(l.integer + l.fraction);
  }

  /** The parsed record is canonical and denotes exactly the literal's value. */
  lemma NormalFormValue(l: Literal)
    requires WellFormed(l)
    ensures Canonical(NormalForm(l)) && DecimalValue(NormalForm(l)) == Value(l)
  {
    hide Shift10, TrimLeft, TrimRight;
    var p := ExponentValue(l.exponent) - |l.fraction|;
    var digits := TrimLeft(l.integer + l.fraction);
    var d := NormalForm(l);
    JoinedMagnitude(l);
    if digits == "" {
      ShiftZero(p);
    } else {
      TrimRightValue(digits, p);
      assert d.power == p + |digits| - |d.digits|;
    }
  }

  // ---------- the scanner ----------

  /** Advances over a run of digits. */
  method ScanDigits(s: string, start: nat) returns (i: nat)
    requires start <= |s|
    ensures i == DigitRun(s, start)
  {
    i := start;
    while i < |s| && '0' <= s[i] <= '9'
      invariant start <= i <= |s|
      invariant DigitRun(s, i) == DigitRun(s, start)
    {
      i := i + 1;
    }
  }

  /** Accumulates exponent digits, stopping as soon as the limit is passed. */
  method ScanExponentDigits(s: string, start: nat) returns (i: nat, exponent: nat, ok: bool)
    requires start <= |s|
    ensures ok <==> DecVal(s[start..DigitRun(s, start)]) <= MAX_EXPONENT
    ensures ok ==> i == DigitRun(s, start) && exponent == DecVal(s[start..i])
  {
    ghost var end := DigitRun(s, start);
    i, exponent := start, 0;
    while i < |s| && '0' <= s[i] <= '9'
      invariant start <= i <= end
      invariant DigitRun(s, i) == end
      invariant AllDigits(s[start..i]) && exponent == DecVal(s[start..i])
      invariant exponent <= MAX_EXPONENT
    {
      assert s[start..i + 1][..i - start] == s[start..i];
      exponent := exponent * 10 + (s[i] as int - '0' as int);
      if exponent > MAX_EXPONENT {
        assert s[start..end][..i + 1 - start] == s[start..i + 1];
        DecValPrefix(s[start..end], i + 1 - start);
        return i, exponent, false;
      }
      i := i + 1;
    }
    return i, exponent, true;
  }

  /** The mantissa has been scanned up to i, and what is left is an exponent or nothing. */
  ghost predicate MantissaScanned(s: string, i: nat, sign: int, digits: string, fraction: int)
    requires i <= |s|
  {
    && Read(s).Some? == ReadExponent(s, i).Some?
    && (Read(s).Some? ==>
        var l := Read(s).value;
        && sign == (if l.negative then -1 else 1)
        && digits == l.integer + l.fraction
        && fraction == |l.fraction|
        && l.exponent == ReadExponent(s, i).value)
  }

  method ScanMantissa(s: string) returns (i: nat, sign: int, digits: string, fraction: int, ok: bool)
    requires s != ""
    ensures ok ==> i <= |s| && MantissaScanned(s, i, sign, digits, fraction)
    ensures !ok ==> Read(s).None?
  {
    hide ReadExponent, DigitRun;
    i, sign, digits, fraction, ok := 0, 1, "", 0, false;
    if s[0] == '-' {
      sign := -1;
      i := i + 1;
    }
    if i == |s| {
      return;
    }
    var start := i;
    if s[i] == '0' {
      i := i + 1;
    } else {
      if s[i] < '1' || s[i] > '9' {
        return;
      }
      i := ScanDigits(s, i);
    }
    assert i == IntegerEnd(s, start);
    digits := s[start..i];
    if i < |s| && s[i] == '.' {
      i := i + 1;
      start := i;
      i := ScanDigits(s, i);
      if i == start {
        return;
      }
      fraction := i - start;
      digits := digits + s[start..i];
    }
    ok := true;
  }

  method ScanExponent(s: string, from: nat) returns (exponent: int, ok: bool)
    requires from <= |s|
    ensures ok <==>
      ReadExponent(s, from).Some? && -MAX_EXPONENT <= ExponentValue(ReadExponent(s, from).value) <= MAX_EXPONENT
    ensures ok ==> exponent == ExponentValue(ReadExponent(s, from).value)
  {
    var i := from;
    exponent := 0;
    if i < |s| && (s[i] == 'e' || s[i] == 'E') {
      i := i + 1;
      var es := 1;
      if i < |s| && (s[i] == '+' || s[i] == '-') {
        if s[i] == '-' {
          es := -1;
        }
        i := i + 1;
      }
      var start := i;
      var within;
      i, exponent, within := ScanExponentDigits(s, start);
      if !within || i == start {
        return 0, false;
      }
      exponent := exponent * es;
    }
    ok := i == |s|;
  }

  /** Scans a literal byte by byte; rejects early once the exponent exceeds the limit. */
  method ParseAutomationDecimal(s: string) returns (d: Decimal, ok: bool)
    ensures ok <==> Accepted(s)
    ensures d == if ok then NormalForm(Read(s).value) else Decimal(0, "", 0)
  {
    var bad := Decimal(0, "", 0);
    if |s| == 0 || |s| > MAX_LITERAL_BYTES {
      return bad, false;
    }
    var i, sign, digits, fraction, scanned := ScanMantissa(s);
    if !scanned {
      return bad, false;
    }
    var exponent, within := ScanExponent(s, i);
    if !within {
      return bad, false;
    }
    digits := TrimLeft(digits);
    if digits == "" {
      return Decimal(0, "", 0), true;
    }
    var power := exponent - fraction;
    var trimmed := TrimRight(digits);
    power := power + (|digits| - |trimmed|);
    return Decimal(sign, trimmed, power), true;
  }

  // ---------- the comparison ----------

  /** Decimal exponent just above the leading digit. */
  function Top(d: Decimal): int {
    |d.digits| + d.power
  }

  function Sign(r: real): int {
    if r < 0.0 then -1 else if r > 0.0 then 1 else 0
  }

  lemma SizeBounds(d: Decimal)
    requires Canonical(d) && d.sign != 0
    ensures Shift10(1.0, Top(d) - 1) <= Size(d) < Shift10(1.0, Top(d))
    ensures Size(d) > 0.0
  {
    DecValBound(d.digits);
    DecValLeading(d.digits);
    ShiftPow10(|d.digits|, d.power);
    ShiftPow10(|d.digits| - 1, d.power);
    ShiftMonotone(DecVal(d.digits) as real, Pow10(|d.digits|) as real, d.power);
    ShiftMonotone(DecVal(d.digits) as real, Pow10(|d.digits| - 1) as real, d.power);
    ShiftPositive(DecVal(d.digits) as real, d.power);
  }

  lemma SmallerTop(x: Decimal, y: Decimal)
    requires Canonical(x) && Canonical(y) && x.sign != 0 && y.sign != 0 && Top(x) < Top(y)
    ensures Size(x) < Size(y)
  {
    SizeBounds(x);
    SizeBounds(y);
    ShiftUnitMonotone(Top(x), Top(y) - 1);
  }

  /** The digits of d, extended with zeros to n places. */
  function Padded(d: Decimal, n: nat): (s: string)
    requires AllDigits(d.digits) && |d.digits| <= n
    ensures |s| == n && AllDigits(s)
  {
    d.digits + Zeros(n - |d.digits|)
  }

  lemma PaddedSize(d: Decimal, n: nat)
    requires AllDigits(d.digits) && |d.digits| <= n
    ensures Size(d) == Shift10(DecVal(Padded(d, n)) as real, Top(d) - n)
  {
    PadValue(d.digits, n - |d.digits|, d.power);
  }

  /** The first place where the padded digits differ decides the order. */
  lemma DigitDecides(x: Decimal, y: Decimal, n: nat, i: nat)
    requires AllDigits(x.digits) && AllDigits(y.digits)
    requires |x.digits| <= n && |y.digits| <= n && Top(x) == Top(y)
    requires i < n && Padded(x, n)[..i] == Padded(y, n)[..i] && Padded(x, n)[i] < Padded(y, n)[i]
    ensures Size(x) < Size(y)
  {
    PaddedSize(x, n);
    PaddedSize(y, n);
    DecValOrder(Padded(x, n), Padded(y, n), i);
    ShiftMonotone(DecVal(Padded(x, n)) as real, DecVal(Padded(y, n)) as real, Top(x) - n);
  }

  /** Orders two nonzero records of one sign by size, without expanding a power of ten. */
  method CompareSizes(x: Decimal, y: Decimal) returns (cmp: int)
    requires Canonical(x) && Canonical(y) && x.sign != 0 && y.sign != 0
    ensures cmp == Sign(Size(x) - Size(y))
  {
    var xm, ym := |x.digits| + x.power, |y.digits| + y.power;
    cmp := 0;
    if xm < ym {
      SmallerTop(x, y);
      cmp := -1;
    } else if xm > ym {
      SmallerTop(y, x);
      cmp := 1;
    } else {
      var n := |x.digits|;
      if |y.digits| > n {
        n := |y.digits|;
      }
      ghost var px, py := Padded(x, n), Padded(y, n);
      for i := 0 to n
        invariant px[..i] == py[..i] && cmp == 0
      {
        var xc, yc := '0', '0';
        if i < |x.digits| {
          xc := x.digits[i];
        }
        if i < |y.digits| {
          yc := y.digits[i];
        }
        assert xc == px[i] && yc == py[i];
        if xc < yc {
          DigitDecides(x, y, n, i);
          cmp := -1;
          break;
        }
        if xc > yc {
          DigitDecides(y, x, n, i);
          cmp := 1;
          break;
        }
      }
      if cmp == 0 {
        assert px[..n] == px && py[..n] == py;
        PaddedSize(x, n);
        PaddedSize(y, n);
      }
    }
  }

  /** Compares two literals; the answer is the sign of the difference of their exact values. */
  method CompareAutomationNumbers(a: string, b: string) returns (cmp: int, ok: bool)
    ensures ok <==> Accepted(a) && Accepted(b)
    ensures !ok ==> cmp == 0
    ensures ok ==> cmp == if Number(a) < Number(b) then -1 else if Number(a) > Number(b) then 1 else 0
  {
    var x, okA := ParseAutomationDecimal(a);
    if !okA {
      return 0, false;
    }
    var y, okB := ParseAutomationDecimal(b);
    if !okB {
      return 0, false;
    }
    NormalFormValue(Read(a).value);
    NormalFormValue(Read(b).value);
    if x.sign != 0 {
      SizeBounds(x);
    }
    if y.sign != 0 {
      SizeBounds(y);
    }
    if x.sign != y.sign {
      if x.sign < y.sign {
        return -1, true;
      }
      return 1, true;
    }
    if x.sign == 0 {
      return 0, true;
    }
    cmp := CompareSizes(x, y);
    return cmp * x.sign, true;
  }

  // ---------- what the normal form means ----------

  /** Equal padded digits of canonical records are equal digits. */
  lemma PaddedInjective(x: Decimal, y: Decimal, n: nat)
    requires Canonical(x) && Canonical(y) && x.sign != 0 && y.sign != 0
    requires |x.digits| <= |y.digits| == n
    ensures Padded(x, n) == Padded(y, n) ==> x.digits == y.digits
  {
    assert Padded(y, n) == y.digits;
    assert |x.digits| < n ==> Padded(x, n)[n - 1] == '0';
  }

  lemma SizeInjective(x: Decimal, y: Decimal)
    requires Canonical(x) && Canonical(y) && x.sign != 0 && y.sign != 0
    requires Size(x) == Size(y) && |x.digits| <= |y.digits|
    ensures x.digits == y.digits && x.power == y.power
  {
    if Top(x) < Top(y) {
      SmallerTop(x, y);
    } else if Top(y) < Top(x) {
      SmallerTop(y, x);
    } else {
      var n := |y.digits|;
      PaddedSize(x, n);
      PaddedSize(y, n);
      var u, v := DecVal(Padded(x, n)), DecVal(Padded(y, n));
      ShiftMonotone(u as real, v as real, Top(x) - n);
      ShiftMonotone(v as real, u as real, Top(x) - n);
      SameValueSameDigits(Padded(x, n), Padded(y, n));
      PaddedInjective(x, y, n);
    }
  }

  lemma {:induction false} SameValueSameDigits(a: string, b: string)
    requires AllDigits(a) && AllDigits(b) && |a| == |b| && DecVal(a) == DecVal(b)
    ensures a == b
  {
    if a != "" {
      var n := |a| - 1;
      SameValueSameDigits(a[..n], b[..n]);
      assert a == a[..n] + [a[n]] && b == b[..n] + [b[n]];
    }
  }

  /** Canonical records denote the same number only when they are the same record. */
  lemma CanonicalUnique(x: Decimal, y: Decimal)
    requires Canonical(x) && Canonical(y) && DecimalValue(x) == DecimalValue(y)
    ensures x == y
  {
    if x.sign != 0 {
      SizeBounds(x);
    }
    if y.sign != 0 {
      SizeBounds(y);
    }
    assert x.sign == y.sign;
    if x.sign != 0 {
      if |x.digits| <= |y.digits| {
        SizeInjective(x, y);
      } else {
        SizeInjective(y, x);
      }
    }
  }

  /**
   Two admitted literals denote the same number exactly when they parse to the same
   record, so the record is a normal form for every spelling, zero's included.
   */
  lemma SameNumberSameRecord(a: string, b: string)
    requires Accepted(a) && Accepted(b)
    ensures Number(a) == Number(b) <==> NormalForm(Read(a).value) == NormalForm(Read(b).value)
  {
    NormalFormValue(Read(a).value);
    NormalFormValue(Read(b).value);
    if Number(a) == Number(b) {
      CanonicalUnique(NormalForm(Read(a).value), NormalForm(Read(b).value));
    }
  }

  /** What CompareAutomationNumbers answers on admitted literals. */
  function Cmp(a: string, b: string): int
    requires Accepted(a) && Accepted(b)
  {
    Sign(Number(a) - Number(b))
  }

  /** The answers form a total preorder whose ties are the equal parsed records. */
  lemma ComparisonIsTotalPreorder(a: string, b: string, c: string)
    requires Accepted(a) && Accepted(b) && Accepted(c)
    ensures Cmp(a, b) == -Cmp(b, a)
    ensures Cmp(a, b) <= 0 && Cmp(b, c) <= 0 ==> Cmp(a, c) <= 0
    ensures Cmp(a, b) == 0 <==> NormalForm(Read(a).value) == NormalForm(Read(b).value)
  {
    SameNumberSameRecord(a, b);
  }

  /** The admitted strings are exactly the printed literals within the two limits. */
  lemma AcceptedIsTheGrammar(s: string)
    ensures Accepted(s) <==>
      |s| <= 1024 &&
      exists l :: WellFormed(l) && Print(l) == s && -1024 <= ExponentValue(l.exponent) <= 1024
  {
    if Read(s).Some? {
      ReadSound(s);
    }
    forall l | WellFormed(l) && Print(l) == s
      ensures Read(s) == Some(l)
    {
      ReadComplete(l);
    }
  }
}
