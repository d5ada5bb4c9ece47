/** Numbers of section 6 of RFC 8259: their parts, their text, and a reader. */
module JsonNumber {
  import opened Common
  import opened DtoaDigits

  /** (-1)^negative * m * 10^e */
  datatype Decimal = Decimal(negative: bool, m: nat, e: int)

  datatype Exponent = NoExponent | Exponent(negative: bool, digits: seq<Digit>)

  /** An empty fraction is no fraction. */
  datatype Parts = Parts(negative: bool, whole: seq<Digit>, fraction: seq<Digit>, exponent: Exponent)

  // ---- text -------------------------------------------------------------------------------------

  function DigitChar(d: Digit): char { '0' + d as char }

  function Chars(ds: seq<Digit>): string {
    seq(|ds|, i requires 0 <= i < |ds| => DigitChar(ds[i]))
  }

  function ExponentText(x: Exponent): string {
    match x
    case NoExponent => ""
    case Exponent(negative, digits) => "e" + (if negative then "-" else "+") + Chars(digits)
  }

  function FractionText(ds: seq<Digit>): string { if ds == [] then "" else "." + Chars(ds) }

  function SignText(negative: bool): string { if negative then "-" else "" }

  function NumberText(p: Parts): string {
    SignText(p.negative) + Chars(p.whole) + FractionText(p.fraction) + ExponentText(p.exponent)
  }

  // ---- reading -----------------------------------------------------------------------------------

  predicate IsDigit(c: char) { '0' <= c <= '9' }

  function DigitOf(c: char): Digit { if IsDigit(c) then c as int - '0' as int else 0 }

  function DigitsOf(s: string): seq<Digit> {
    seq(|s|, i requires 0 <= i < |s| => DigitOf(s[i]))
  }

  /** Where the digits from i on end. */
  function RunEnd(s: string, i: nat): (j: nat)
    requires i <= |s|
    ensures i <= j <= |s|
    decreases |s| - i
  {
    if i < |s| && IsDigit(s[i]) then RunEnd(s, i + 1) else i
  }

  /** exp, and the end of the number; m * 10^scale has been read. */
  function ReadExponent(negative: bool, m: nat, scale: int, s: string, i: nat): Option<Decimal>
    requires i <= |s|
  {
    if i == |s| then Some(Decimal(negative, m, scale))
    else if s[i] != 'e' && s[i] != 'E' then None
    else
      var signed := i + 1 < |s| && (s[i + 1] == '-' || s[i + 1] == '+');
      var start := if signed then i + 2 else i + 1;
      var end := RunEnd(s, start);
      if end == start || end != |s| then None
      else
        var x: int := Dec(DigitsOf(s[start..end]));
        Some(Decimal(negative, m, scale + if s[i + 1] == '-' then -x else x))
  }

  /** [ frac ] [ exp ], behind the digits of int. */
  function ReadFraction(negative: bool, whole: seq<Digit>, s: string, i: nat): Option<Decimal>
    requires i <= |s|
  {
    if i < |s| && s[i] == '.' then
      var end := RunEnd(s, i + 1);
      var fraction := DigitsOf(s[i + 1..end]);
      if fraction == [] then None
      else ReadExponent(negative, Dec(whole + fraction), -|fraction|, s, end)
    else ReadExponent(negative, Dec(whole), 0, s, i)
  }

  /** number = [ minus ] int [ frac ] [ exp ] */
  function Read(s: string): Option<Decimal> {
    var negative := s != [] && s[0] == '-';
    var start := if negative then 1 else 0;
    var end := RunEnd(s, start);
    if end == start || (s[start] == '0' && end > start + 1) then None
    else ReadFraction(negative, DigitsOf(s[start..end]), s, end)
  }

  // ---- reading what was written --------------------------------------------------------------------

  ghost predicate WellFormed(p: Parts) {
    && p.whole != [] && (p.whole[0] == 0 ==> |p.whole| == 1)
    && (p.exponent.Exponent? ==> p.exponent.digits != [])
  }

  function ValueOf(p: Parts): Decimal {
    var x: int := if p.exponent.Exponent? then Dec(p.exponent.digits) else 0;
    var e := if p.exponent.Exponent? && p.exponent.negative then -x else x;
    Decimal(p.negative, Dec(p.whole + p.fraction), e - |p.fraction|)
  }

  lemma DigitsOfChars(ds: seq<Digit>)
    ensures DigitsOf(Chars(ds)) == ds && |Chars(ds)| == |ds|
    ensures forall i | 0 <= i < |ds| :: IsDigit(Chars(ds)[i])
  {
  }

  /** A run of digits ends where the digits written end. */
  lemma {:induction false} RunOfChars(s: string, i: nat, j: nat)
    requires i <= j <= |s| && (forall k | i <= k < j :: IsDigit(s[k])) && (j < |s| ==> !IsDigit(s[j]))
    ensures RunEnd(s, i) == j
    decreases j - i
  {
    if i < j { RunOfChars(s, i + 1, j); }
  }

  /** `a`, then the digits `ds`, then something that is no digit. */
  lemma RunIn(s: string, a: string, ds: seq<Digit>, b: string)
    requires s == a + Chars(ds) + b && (b != [] ==> !IsDigit(b[0]))
    ensures RunEnd(s, |a|) == |a| + |ds| <= |s| && DigitsOf(s[|a|..|a| + |ds|]) == ds
  {
    hide Chars, DigitsOf;
    DigitsOfChars(ds);
    assert s[|a|..|a| + |ds|] == Chars(ds);
    forall k | |a| <= k < |a| + |ds| ensures IsDigit(s[k]) {
      assert s[k] == Chars(ds)[k - |a|];
    }
    RunOfChars(s, |a|, |a| + |ds|);
  }

  lemma ReadExponentText(negative: bool, m: nat, scale: int, s: string, a: string, x: Exponent)
    requires s == a + ExponentText(x) && (x.Exponent? ==> x.digits != [])
    ensures var v: int := if x.Exponent? then Dec(x.digits) else 0;
            ReadExponent(negative, m, scale, s, |a|)
            == Some(Decimal(negative, m, scale + if x.Exponent? && x.negative then -v else v))
  {
    hide Chars, DigitsOf, RunEnd, Dec;
    if x.Exponent? {
      DigitsOfChars(x.digits);
      var sign := if x.negative then "-" else "+";
      assert s == (a + "e" + sign) + Chars(x.digits) + "";
      RunIn(s, a + "e" + sign, x.digits, "");
      assert s[|a|] == 'e' && s[|a| + 1] == sign[0];
    }
  }

  lemma ReadFractionText(negative: bool, whole: seq<Digit>, s: string, a: string, f: seq<Digit>, x: Exponent)
    requires s == a + FractionText(f) + ExponentText(x) && (x.Exponent? ==> x.digits != [])
    ensures ReadFraction(negative, whole, s, |a|)
            == ReadExponent(negative, Dec(whole + f), -|f|, s, |a| + |FractionText(f)|)
  {
    hide Chars, DigitsOf, RunEnd, Dec, ReadExponent, ExponentText, ReadFraction;
    ExponentStarts(x);
    if f == [] {
      assert whole + f == whole;
      Join2(a, ExponentText(x));
      ReadNoFraction(negative, whole, s, |a|);
    } else {
      DigitsOfChars(f);
      Join4(a, ".", Chars(f), ExponentText(x));
      RunIn(s, a + ".", f, ExponentText(x));
      ReadSomeFraction(negative, whole, s, |a|, f);
    }
  }

  lemma Join2(a: string, b: string)
    ensures a + "" + b == a + b && |a + b| == |a| + |b| && (b != "" ==> (a + b)[|a|] == b[0])
  {
  }

  lemma Join4(a: string, b: string, c: string, d: string)
    requires b != ""
    ensures a + (b + c) + d == (a + b) + c + d && (a + (b + c) + d)[|a|] == b[0]
    ensures |a + (b + c) + d| == |a| + |b| + |c| + |d|
  {
  }

  lemma ReadNoFraction(negative: bool, whole: seq<Digit>, s: string, i: nat)
    requires i <= |s| && (i < |s| ==> s[i] != '.')
    ensures ReadFraction(negative, whole, s, i) == ReadExponent(negative, Dec(whole), 0, s, i)
  {
    hide Dec, ReadExponent;
  }

  lemma ReadSomeFraction(negative: bool, whole: seq<Digit>, s: string, i: nat, f: seq<Digit>)
    requires i < |s| && s[i] == '.' && f != [] && RunEnd(s, i + 1) == i + 1 + |f| <= |s|
    requires DigitsOf(s[i + 1..i + 1 + |f|]) == f
    ensures ReadFraction(negative, whole, s, i)
            == ReadExponent(negative, Dec(whole + f), -|f|, s, i + 1 + |f|)
  {
    hide Dec, ReadExponent, RunEnd, DigitsOf;
  }

  lemma ExponentStarts(x: Exponent)
    ensures ExponentText(x) != "" ==> ExponentText(x)[0] == 'e'
  {
  }

  /** Every number written from its parts is a number by the grammar and has the value of its parts. */
  lemma ReadNumberText(p: Parts)
    requires WellFormed(p)
    ensures Read(NumberText(p)) == Some(ValueOf(p))
  {
    hide Chars, DigitsOf, RunEnd, Dec, ReadExponent, ReadFraction, FractionText, ExponentText;
    var s, a := NumberText(p), SignText(p.negative);
    var rest := FractionText(p.fraction) + ExponentText(p.exponent);
    DigitsOfChars(p.whole);
    assert s == a + Chars(p.whole) + rest;
    RestStarts(p);
    RunIn(s, a, p.whole, rest);
    assert s[|a|] == Chars(p.whole)[0];
    FirstChar(p.whole);
    assert s == (a + Chars(p.whole)) + FractionText(p.fraction) + ExponentText(p.exponent);
    ReadFractionText(p.negative, p.whole, s, a + Chars(p.whole), p.fraction, p.exponent);
    ReadExponentText(p.negative, Dec(p.whole + p.fraction), -|p.fraction|, s,
                     a + Chars(p.whole) + FractionText(p.fraction), p.exponent);
  }

  lemma RestStarts(p: Parts)
    ensures var rest := FractionText(p.fraction) + ExponentText(p.exponent); rest != [] ==> !IsDigit(rest[0])
  {
  }

  lemma FirstChar(ds: seq<Digit>)
    requires ds != []
    ensures |Chars(ds)| > 0 && (Chars(ds)[0] == '0' <==> ds[0] == 0) && IsDigit(Chars(ds)[0])
  {
  }
}
