/**
 The JSON number grammar (section 6 of RFC 8259) as a syntax tree with a printer,
 the exact rational each literal denotes, and a deterministic reader proved to be
 the inverse of the printer. A char of a literal stands for one byte.
 */
module JsonNumber {
  import opened Prelude
  import opened Digits

  datatype ExponentSign = Bare | Plus | Minus

  datatype Exponent = NoExponent | Exponent(marker: char, sign: ExponentSign, digits: string)

  /** `fraction` is empty when the literal has no fraction part. */
  datatype Literal = Literal(negative: bool, integer: string, fraction: string, exponent: Exponent)

  predicate WellFormedExponent(e: Exponent) {
    e.Exponent? ==> (e.marker == 'e' || e.marker == 'E') && e.digits != "" && AllDigits(e.digits)
  }

  predicate WellFormed(l: Literal) {
    && l.integer != "" && AllDigits(l.integer)
    && (l.integer[0] == '0' ==> |l.integer| == 1)
    && AllDigits(l.fraction)
    && WellFormedExponent(l.exponent)
  }

  function PrintExponent(e: Exponent): string {
    match e
    case NoExponent => ""
    case Exponent(marker, sign, digits) =>
      [marker] + (match sign case Bare => "" case Plus => "+" case Minus => "-") + digits
  }

  function PrintFraction(fraction: string): string {
    if fraction == "" then "" else "." + fraction
  }

  function Print(l: Literal): string {
    (if l.negative then "-" else "") + l.integer + PrintTail(l.fraction, l.exponent)
  }

  function PrintTail(fraction: string, e: Exponent): string {
    PrintFraction(fraction) + PrintExponent(e)
  }

  function ExponentValue(e: Exponent): int
    requires WellFormedExponent(e)
  {
    match e
    case NoExponent => 0
    case Exponent(_, sign, digits) =>
      var magnitude: int := DecVal(digits);
      if sign.Minus? then -magnitude else magnitude
  }

  /** Absolute value: (integer + fraction / 10^|fraction|) * 10^exponent, over exact rationals. */
  function Magnitude(l: Literal): real
    requires WellFormed(l)
  {
    Shift10(DecVal(l.integer) as real + Shift10(DecVal(l.fraction) as real, -|l.fraction|),
            ExponentValue(l.exponent))
  }

  function Value(l: Literal): real
    requires WellFormed(l)
  {
    if l.negative then -Magnitude(l) else Magnitude(l)
  }

  // ---------- reading ----------

  /** End of the maximal run of digits starting at i. */
  function DigitRun(s: string, i: nat): (j: nat)
    requires i <= |s|
    ensures i <= j <= |s|
    ensures AllDigits(s[i..j])
    ensures j < |s| ==> !IsDigit(s[j])
    decreases |s| - i
  {
    if i < |s| && IsDigit(s[i]) then
      var j := DigitRun(s, i + 1);
      assert s[i..j] == [s[i]] + s[i + 1..j];
      j
    else i
  }

  function ReadExponent(s: string, i: nat): (e: Option<Exponent>)
    requires i <= |s|
    ensures e.Some? ==> WellFormedExponent(e.value)
  {
    if i == |s| then Some(NoExponent)
    else if s[i] != 'e' && s[i] != 'E' then None
    else
      var signed := i + 1 < |s| && (s[i + 1] == '+' || s[i + 1] == '-');
      var start := if signed then i + 2 else i + 1;
      var end := DigitRun(s, start);
      if end == start || end != |s| then None
      else Some(Exponent(s[i], if !signed then Bare else if s[i + 1] == '-' then Minus else Plus, s[start..end]))
  }

  /** What may follow the integer digits: a fraction, then an exponent, then the end. */
  function ReadTail(s: string, j: nat): (t: Option<(string, Exponent)>)
    requires j <= |s|
    ensures t.Some? ==> AllDigits(t.value.0) && WellFormedExponent(t.value.1)
  {
    if j < |s| && s[j] == '.' then
      var k := DigitRun(s, j + 1);
      if k == j + 1 || ReadExponent(s, k).None? then None else Some((s[j + 1..k], ReadExponent(s, k).value))
    else if ReadExponent(s, j).None? then None
    else Some(("", ReadExponent(s, j).value))
  }

  function IntegerEnd(s: string, i: nat): (j: nat)
    requires i < |s| && IsDigit(s[i])
    ensures i < j <= |s| && AllDigits(s[i..j]) && (s[i] == '0' ==> j == i + 1)
  {
    if s[i] == '0' then i + 1 else DigitRun(s, i)
  }

  function Read(s: string): (l: Option<Literal>)
    ensures l.Some? ==> WellFormed(l.value)
  {
    var i := if s != "" && s[0] == '-' then 1 else 0;
    if i == |s| || !IsDigit(s[i]) then None
    else
      var j := IntegerEnd(s, i);
      var t := ReadTail(s, j);
      if t.None? then None else Some(Literal(i == 1, s[i..j], t.value.0, t.value.1))
  }

  // ---------- the reader is exactly the grammar ----------

  lemma {:induction false} RunEnds(s: string, i: nat, j: nat)
    requires i <= j <= |s| && AllDigits(s[i..j]) && (j < |s| ==> !IsDigit(s[j]))
    ensures DigitRun(s, i) == j
    decreases j - i
  {
    if i < j {
      assert s[i..j][0] == s[i];
      assert s[i + 1..j] == s[i..j][1..];
      RunEnds(s, i + 1, j);
    }
  }

  lemma ReadExponentSound(s: string, i: nat)
    requires i <= |s| && ReadExponent(s, i).Some?
    ensures PrintExponent(ReadExponent(s, i).value) == s[i..]
  {
  }

  lemma ReadTailSound(s: string, j: nat)
    requires j <= |s| && ReadTail(s, j).Some?
    ensures PrintTail(ReadTail(s, j).value.0, ReadTail(s, j).value.1) == s[j..]
  {
    if j < |s| && s[j] == '.' {
      var k := DigitRun(s, j + 1);
      ReadExponentSound(s, k);
      assert s[j..] == ("." + s[j + 1..k]) + s[k..];
    } else {
      ReadExponentSound(s, j);
    }
  }

  /** Whatever the reader accepts is a literal of the grammar, spelled exactly so. */
  lemma ReadSound(s: string)
    requires Read(s).Some?
    ensures WellFormed(Read(s).value) && Print(Read(s).value) == s
  {
    var i := if s[0] == '-' then 1 else 0;
    var j := IntegerEnd(s, i);
    var l := Read(s).value;
    ReadTailSound(s, j);
    Cut(s, i, j);
    assert (if l.negative then "-" else "") == s[..i];
    assert Print(l) == s[..i] + s[i..j] + s[j..];
  }

  lemma Cut(s: string, i: nat, j: nat)
    requires i <= j <= |s|
    ensures s == s[..i] + s[i..j] + s[j..]
  {
  }

  lemma ReadExponentComplete(s: string, i: nat, e: Exponent)
    requires i <= |s| && WellFormedExponent(e) && s[i..] == PrintExponent(e)
    ensures ReadExponent(s, i) == Some(e)
  {
    if e.Exponent? {
      var t := s[i..];
      assert t[0] == s[i];
      var start := if e.sign.Bare? then i + 1 else i + 2;
      assert s[start..] == e.digits by {
        assert s[start..] == t[start - i..];
      }
      assert t[1] == s[i + 1];
      assert s[start] == s[start..][0] == e.digits[0];
      assert s[start..|s|] == s[start..];
      RunEnds(s, start, |s|);
    }
  }

  lemma FractionSlices(s: string, j: nat, f: string, rest: string)
    requires j <= |s| && s[j..] == ("." + f) + rest
    ensures var k := j + 1 + |f|; k <= |s| && s[j] == '.' && s[j + 1..k] == f && s[k..] == rest
  {
    var t, k := s[j..], j + 1 + |f|;
    assert s[j] == t[0];
    assert s[j + 1..k] == t[1..1 + |f|];
    assert s[k..] == t[1 + |f|..];
  }

  lemma ReadTailComplete(s: string, j: nat, f: string, e: Exponent)
    requires j <= |s| && AllDigits(f) && WellFormedExponent(e) && s[j..] == PrintTail(f, e)
    ensures ReadTail(s, j) == Some((f, e))
    ensures j < |s| ==> !IsDigit(s[j])
  {
    hide ReadExponent, DigitRun, PrintExponent, ExponentValue;
    if f == "" {
      assert s[j..] == PrintExponent(e);
      ExponentStart(s, j, e);
      ReadExponentComplete(s, j, e);
    } else {
      var k := j + 1 + |f|;
      FractionSlices(s, j, f, PrintExponent(e));
      ReadExponentComplete(s, k, e);
      ExponentStart(s, k, e);
      RunEnds(s, j + 1, k);
    }
  }

  lemma ExponentStart(s: string, k: nat, e: Exponent)
    requires k <= |s| && WellFormedExponent(e) && s[k..] == PrintExponent(e)
    ensures k < |s| ==> !IsDigit(s[k]) && s[k] != '.'
  {
    assert k < |s| ==> s[k] == s[k..][0];
  }

  /** Every literal of the grammar is read back, so reading is unambiguous. */
  lemma ReadComplete(l: Literal)
    requires WellFormed(l)
    ensures Read(Print(l)) == Some(l)
  {
    var s := Print(l);
    var i := if l.negative then 1 else 0;
    var j := i + |l.integer|;
    assert s[i..j] == l.integer;
    assert s[i] == s[i..j][0];
    assert s[j..] == PrintTail(l.fraction, l.exponent);
    ReadTailComplete(s, j, l.fraction, l.exponent);
    RunEnds(s, i, j);
    assert IntegerEnd(s, i) == j;
  }
}
