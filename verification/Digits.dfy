/** Decimal digit strings, the numbers they denote, and exact powers of ten. */
module Digits {

  predicate IsDigit(c: char) {
    '0' <= c <= '9'
  }

  function DigitVal(c: char): (v: nat)
    requires IsDigit(c)
    ensures v <= 9
  {
    c as int - '0' as int
  }

  predicate AllDigits(s: string) {
    forall i | 0 <= i < |s| :: IsDigit(s[i])
  }

  /** The natural number a digit string denotes, most significant digit first. */
  function DecVal(s: string): nat
    requires AllDigits(s)
  {
    if s == "" then 0 else 10 * DecVal(s[..|s| - 1]) + DigitVal(s[|s| - 1])
  }

  function Pow10(n: nat): (p: nat)
    ensures p > 0
  {
    if n == 0 then 1 else 10 * Pow10(n - 1)
  }

  /** v times ten to the power p, exactly, for any integer p. */
  function Shift10(v: real, p: int): real
    decreases if p < 0 then -p else p
  {
    if p == 0 then v else if p > 0 then 10.0 * Shift10(v, p - 1) else Shift10(v, p + 1) / 10.0
  }

  function Zeros(n: nat): (s: string)
    ensures |s| == n && AllDigits(s)
  {
    seq(n, _ => '0')
  }

  // ---------- digit strings ----------

  lemma {:induction false} DecValConcat(a: string, b: string)
    requires AllDigits(a) && AllDigits(b)
    ensures AllDigits(a + b)
    ensures DecVal(a + b) == DecVal(a) * Pow10(|b|) + DecVal(b)
  {
    if b == "" {
      assert a + b == a;
    } else {
      var n := |b| - 1;
      assert (a + b)[..|a + b| - 1] == a + b[..n];
      DecValConcat(a, b[..n]);
      Distribute(DecVal(a), Pow10(n), DecVal(b[..n]));
    }
  }

  lemma Distribute(a: nat, p: nat, b: nat)
    ensures 10 * (a * p + b) == a * (10 * p) + 10 * b
  {
  }

  lemma {:induction false} DecValZeros(n: nat)
    ensures DecVal(Zeros(n)) == 0
  {
    if n > 0 {
      DecValZeros(n - 1);
      assert Zeros(n)[..n - 1] == Zeros(n - 1);
    }
  }

  lemma DecValPad(s: string, n: nat)
    requires AllDigits(s)
    ensures AllDigits(s + Zeros(n))
    ensures DecVal(s + Zeros(n)) == DecVal(s) * Pow10(n)
  {
    DecValConcat(s, Zeros(n));
    DecValZeros(n);
  }

  lemma {:induction false} DecValBound(s: string)
    requires AllDigits(s)
    ensures DecVal(s) < Pow10(|s|)
  {
    if s != "" {
      DecValBound(s[..|s| - 1]);
    }
  }

  lemma DecValLeading(s: string)
    requires AllDigits(s) && s != "" && s[0] != '0'
    ensures DecVal(s) >= Pow10(|s| - 1)
  {
    assert s == s[..1] + s[1..];
    DecValConcat(s[..1], s[1..]);
    assert s[..1][..0] == "";
    assert DecVal(s[..1]) == DigitVal(s[0]);
    MulAtLeast(DecVal(s[..1]), Pow10(|s| - 1));
  }

  lemma MulAtLeast(a: nat, b: nat)
    requires a >= 1
    ensures a * b >= b
  {
  }

  lemma {:induction false} Pow10Add(a: nat, b: nat)
    ensures Pow10(a + b) == Pow10(a) * Pow10(b)
  {
    if a > 0 {
      Pow10Add(a - 1, b);
      assert 10 * (Pow10(a - 1) * Pow10(b)) == (10 * Pow10(a - 1)) * Pow10(b);
    }
  }

  /** A prefix never denotes more than the whole string. */
  lemma {:induction false} DecValPrefix(s: string, i: nat)
    requires AllDigits(s) && i <= |s|
    ensures AllDigits(s[..i]) && DecVal(s[..i]) <= DecVal(s)
    decreases |s| - i
  {
    if i == |s| {
      assert s[..i] == s;
    } else {
      DecValPrefix(s, i + 1);
      assert s[..i + 1][..i] == s[..i];
    }
  }

  /** The first differing digit decides the order of two strings of one length. */
  lemma DecValOrder(a: string, b: string, i: nat)
    requires AllDigits(a) && AllDigits(b) && |a| == |b|
    requires i < |a| && a[..i] == b[..i] && a[i] < b[i]
    ensures DecVal(a) < DecVal(b)
  {
    var x, y, k := a[..i + 1], b[..i + 1], |a| - i - 1;
    assert a == x + a[i + 1..] && b == y + b[i + 1..];
    DecValConcat(x, a[i + 1..]);
    DecValConcat(y, b[i + 1..]);
    assert x[..i] == a[..i] && y[..i] == b[..i];
    DecValBound(a[i + 1..]);
    MulStep(DecVal(x), DecVal(y), Pow10(k));
  }

  lemma MulStep(a: nat, b: nat, c: nat)
    requires a < b
    ensures a * c + c <= b * c
  {
    assert (a + 1) * c <= b * c;
  }

  // ---------- exact scaling by powers of ten ----------

  lemma ShiftUp(v: real, p: int)
    ensures Shift10(v, p + 1) == 10.0 * Shift10(v, p)
  {
  }

  lemma {:induction false} ShiftTen(v: real, p: int)
    ensures Shift10(10.0 * v, p) == Shift10(v, p + 1)
    decreases if p < 0 then -p else p
  {
    if p > 0 {
      ShiftTen(v, p - 1);
    } else if p < 0 {
      ShiftTen(v, p + 1);
      ShiftUp(v, p + 1);
    }
  }

  lemma {:induction false} ShiftAdd(v: real, w: real, p: int)
    ensures Shift10(v + w, p) == Shift10(v, p) + Shift10(w, p)
    decreases if p < 0 then -p else p
  {
    if p > 0 {
      ShiftAdd(v, w, p - 1);
    } else if p < 0 {
      ShiftAdd(v, w, p + 1);
    }
  }

  lemma {:induction false} ShiftNegate(v: real, p: int)
    ensures Shift10(-v, p) == -Shift10(v, p)
    decreases if p < 0 then -p else p
  {
    if p > 0 {
      ShiftNegate(v, p - 1);
    } else if p < 0 {
      ShiftNegate(v, p + 1);
    }
  }

  lemma {:induction false} ShiftCompose(v: real, p: int, q: int)
    ensures Shift10(Shift10(v, p), q) == Shift10(v, p + q)
    decreases if q < 0 then -q else q
  {
    if q > 0 {
      ShiftCompose(v, p, q - 1);
      ShiftUp(v, p + q - 1);
    } else if q < 0 {
      ShiftCompose(v, p, q + 1);
      ShiftUp(v, p + q);
    }
  }

  /** Scaling by one power is strictly monotone, so it also reflects equality. */
  lemma {:induction false} ShiftMonotone(v: real, w: real, p: int)
    ensures v < w <==> Shift10(v, p) < Shift10(w, p)
    decreases if p < 0 then -p else p
  {
    if p > 0 {
      ShiftMonotone(v, w, p - 1);
    } else if p < 0 {
      ShiftMonotone(v, w, p + 1);
    }
  }

  lemma {:induction false} ShiftZero(p: int)
    ensures Shift10(0.0, p) == 0.0
    decreases if p < 0 then -p else p
  {
    if p > 0 {
      ShiftZero(p - 1);
    } else if p < 0 {
      ShiftZero(p + 1);
    }
  }

  lemma ShiftPositive(v: real, p: int)
    requires v > 0.0
    ensures Shift10(v, p) > 0.0
  {
    ShiftZero(p);
    ShiftMonotone(0.0, v, p);
  }

  lemma {:induction false} ShiftUnitMonotone(p: int, q: int)
    requires p <= q
    ensures Shift10(1.0, p) <= Shift10(1.0, q)
    decreases q - p
  {
    if p < q {
      ShiftUnitMonotone(p, q - 1);
      ShiftUp(1.0, q - 1);
      ShiftPositive(1.0, q - 1);
    }
  }

  lemma {:induction false} ShiftPow10(n: nat, p: int)
    ensures Shift10(Pow10(n) as real, p) == Shift10(1.0, p + n)
  {
    if n > 0 {
      ShiftTen(Pow10(n - 1) as real, p);
      ShiftPow10(n - 1, p + 1);
    }
  }

  /** Appending n zeros while lowering the power by n keeps the value. */
  lemma {:induction false} PadValue(s: string, n: nat, p: int)
    requires AllDigits(s)
    ensures AllDigits(s + Zeros(n))
    ensures Shift10(DecVal(s + Zeros(n)) as real, p - n) == Shift10(DecVal(s) as real, p)
  {
    if n == 0 {
      assert s + Zeros(0) == s;
    } else {
      PadValue(s, n - 1, p);
      var t := s + Zeros(n);
      assert t[..|t| - 1] == s + Zeros(n - 1);
      ShiftTen(DecVal(s + Zeros(n - 1)) as real, p - n);
    }
  }

  /** Two digit strings written after one another, as integer and fraction digits. */
  lemma JoinValue(a: string, b: string, e: int)
    requires AllDigits(a) && AllDigits(b)
    ensures AllDigits(a + b)
    ensures Shift10(DecVal(a) as real + Shift10(DecVal(b) as real, -|b|), e)
         == Shift10(DecVal(a + b) as real, e - |b|)
  {
    hide Shift10, DecVal, Pow10;
    var k := |b|;
    var x, y := DecVal(a) as real, DecVal(b) as real;
    DecValConcat(a, b);
    DecValPad(a, k);
    var z := DecVal(a + Zeros(k)) as real;
    assert DecVal(a + b) as real == z + y;
    PadValue(a, k, e);
    ShiftAdd(x, Shift10(y, -k), e);
    ShiftCompose(y, -k, e);
    ShiftAdd(z, y, e - k);
  }
}
