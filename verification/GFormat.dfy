/** fpconv_g_fmt: the text of a decimal number given by its digits. */
module GFormat {
  import opened Bignum
  import opened DtoaDigits
  import opened JsonNumber

  /** Two ways to write the same number: one mantissa is the other with zeros behind it. */
  ghost predicate Same(a: Decimal, b: Decimal) {
    && a.negative == b.negative
    && if a.e >= b.e then a.m * Pow(10, a.e - b.e) == b.m else b.m * Pow(10, b.e - a.e) == a.m
  }

  /** 0.d1d2... * 10^decpt */
  function Meant(negative: bool, ds: seq<Digit>, decpt: int): Decimal { Decimal(negative, Dec(ds), decpt - |ds|) }

  /** What dtoa gives: no leading and no trailing zero, except for zero itself. */
  ghost predicate FromDtoa(ds: seq<Digit>, decpt: int) { Clean(ds) || (ds == [0] && decpt == 1) }

  // ---- digits ------------------------------------------------------------------------------------

  lemma {:induction false} DecJoin(a: seq<Digit>, b: seq<Digit>)
    ensures Dec(a + b) == Dec(a) * Pow(10, |b|) + Dec(b)
    decreases |b|
  {
    hide Pow, Dec;
    if b == [] {
      assert a + b == a;
      NoDigits(0, 0);
    } else {
      var k := |b| - 1;
      var front, d := b[..k], b[k];
      assert a + b == (a + front) + [d] && b == front + [d];
      DecJoin(a, front);
      DecSnoc(a + front, d);
      DecSnoc(front, d);
      PowGrows(10, k);
      TimesTen(Dec(a), Pow(10, k));
    }
  }

  lemma TimesTen(x: nat, p: nat)
    ensures x * (10 * p) == 10 * (x * p)
  {
  }

  function Zeros(n: nat): (ds: seq<Digit>)
    ensures |ds| == n
  {
    seq(n, i => 0)
  }

  lemma {:induction false} DecZeros(n: nat)
    ensures Dec(Zeros(n)) == 0
  {
    if n > 0 {
      DecZeros(n - 1);
      assert Zeros(n)[..n - 1] == Zeros(n - 1);
    }
  }

  lemma CharsSnoc(ds: seq<Digit>, i: nat)
    requires i < |ds|
    ensures Chars(ds[..i + 1]) == Chars(ds[..i]) + [DigitChar(ds[i])]
  {
  }

  // ---- the exponent --------------------------------------------------------------------------------

  /** The exponent loop: at least two digits of x, most significant first. */
  method ExponentDigits(x: nat) returns (ds: seq<Digit>)
    ensures Dec(ds) == x && |ds| >= 2 && (|ds| > 2 ==> ds[0] != 0)
    ensures x < 1000 ==> |ds| <= 3
  {
    hide Pow, Dec;
    var j: nat, k: nat := 2, 10;
    assert Pow(10, 1) == 10 by { TenPowers(); }
    while 10 * k <= x
      invariant j >= 2 && k == Pow(10, j - 1) && (j > 2 ==> k <= x)
      decreases x - k
    {
      PowGrows(10, j - 1);
      j, k := j + 1, k * 10;
    }
    assert x < 1000 ==> j <= 3 by { if j > 3 { TenPowers(); PowMonotone(3, j - 1); } }
    ghost var n := j;
    ds := [];
    var rem: nat := x;
    NoDigits(x, k);
    ghost var left: nat := 0;
    while true
      invariant 1 <= j <= n && |ds| == n - j && rem < 10 * k
      invariant x * Pow(10, |ds|) == Dec(ds) * (10 * k) + rem
      invariant n > 2 ==> if ds == [] then k <= rem else ds[0] != 0
      decreases j
    {
      var i := rem / k;
      OneDigit(x, ds, rem, k);
      NonzeroDigit(rem, k);
      ds := ds + [i];
      j := j - 1;
      left := rem - i * k;
      if j == 0 { break; }
      rem := rem - i * k;
      rem := rem * 10;
      Shifted(x, ds, rem, k);
    }
    AllDigits(x, ds, k, left);
  }

  lemma TenPowers()
    ensures Pow(10, 0) == 1 && Pow(10, 1) == 10 && Pow(10, 3) == 1000
  {
    assert Pow(10, 2) == 10 * Pow(10, 1);
  }

  lemma {:induction false} PowMonotone(m: nat, n: nat)
    requires m <= n
    ensures Pow(10, m) <= Pow(10, n)
  {
    if m < n { PowMonotone(m, n - 1); }
  }

  lemma NoDigits(x: nat, k: nat)
    ensures Pow(10, 0) == 1 && Dec([]) == 0
    ensures x * Pow(10, 0) == Dec([]) * (10 * k) + x
  {
  }

  /** One more digit: what is left is below k. */
  lemma OneDigit(x: nat, ds: seq<Digit>, rem: nat, k: nat)
    requires k > 0 && rem < 10 * k && x * Pow(10, |ds|) == Dec(ds) * (10 * k) + rem
    ensures 0 <= rem / k <= 9 && rem - rem / k * k == rem % k < k
    ensures x * Pow(10, |ds|) == Dec(ds + [rem / k]) * k + rem % k
  {
    hide Pow, Dec;
    var i, r := rem / k, rem % k;
    DigitOfRest(rem, k);
    DecSnoc(ds, i);
    Distribute(Dec(ds), i, k);
  }

  lemma NonzeroDigit(rem: nat, k: nat)
    requires k > 0
    ensures k <= rem ==> rem / k != 0
  {
  }

  lemma DigitOfRest(rem: nat, k: nat)
    requires k > 0 && rem < 10 * k
    ensures 0 <= rem / k <= 9 && rem == rem / k * k + rem % k
  {
    QuotientBelow(rem, k, 10);
  }

  lemma Distribute(d: nat, i: nat, k: nat)
    ensures (10 * d + i) * k == d * (10 * k) + i * k
  {
  }

  lemma Shifted(x: nat, ds: seq<Digit>, rem: nat, k: nat)
    requires ds != [] && rem % 10 == 0 && x * Pow(10, |ds| - 1) == Dec(ds) * k + rem / 10
    ensures x * Pow(10, |ds|) == Dec(ds) * (10 * k) + rem
  {
    hide Dec;
    var p, d := Pow(10, |ds| - 1), Dec(ds);
    assert x * (10 * p) == 10 * (x * p) && d * (10 * k) == 10 * (d * k);
  }

  /** With as many digits as x has, nothing is left. */
  lemma AllDigits(x: nat, ds: seq<Digit>, k: nat, rem: nat)
    requires ds != [] && k == Pow(10, |ds| - 1) && rem < k
    requires x * Pow(10, |ds| - 1) == Dec(ds) * k + rem
    ensures Dec(ds) == x
  {
    hide Pow, Dec;
    var d := x - Dec(ds);
    assert d * k == x * k - Dec(ds) * k;
    if d >= 1 { ScaleUp(1, d, k); }
    if d <= -1 { ScaleUp(d, -1, k); }
  }

  // ---- the three forms -------------------------------------------------------------------------------

  /** The copying loops. */
  method CopyDigits(text0: string, ds: seq<Digit>, from: nat) returns (text: string)
    requires from <= |ds|
    ensures text == text0 + Chars(ds[from..])
  {
    hide Chars;
    text := text0;
    var i := from;
    NoChars();
    while i < |ds|
      invariant from <= i <= |ds| && text == text0 + Chars(ds[from..][..i - from])
    {
      CharsSnoc(ds[from..], i - from);
      text := text + [DigitChar(ds[i])];
      i := i + 1;
    }
    assert ds[from..][..i - from] == ds[from..];
  }

  /** The loops that write zeros. */
  method CopyZeros(text0: string, n: int) returns (text: string)
    ensures text == text0 + Chars(Zeros(if n < 0 then 0 else n))
  {
    hide Chars, Zeros;
    text := text0;
    var left := n;
    NoChars();
    while left > 0
      invariant left <= n && (n >= 0 ==> left >= 0) && (n < 0 ==> left == n)
      invariant text == text0 + Chars(Zeros(if n < 0 then 0 else n - left))
    {
      MoreZeros(n - left);
      text := text + "0";
      left := left - 1;
    }
  }

  lemma NoChars()
    ensures Chars([]) == "" && Zeros(0) == []
  {
  }

  lemma MoreZeros(n: nat)
    ensures Chars(Zeros(n + 1)) == Chars(Zeros(n)) + "0"
  {
  }

  lemma CharsJoin(a: seq<Digit>, b: seq<Digit>)
    ensures Chars(a + b) == Chars(a) + Chars(b)
  {
  }

  lemma OneChar(d: Digit)
    ensures Chars([d]) == [DigitChar(d)]
  {
  }

  ghost predicate ExponentOf(x: Exponent, e: int) {
    && x.Exponent? && x.negative == (e < 0) && Dec(x.digits) == (if e < 0 then -e else e)
    && |x.digits| >= 2 && (|x.digits| > 2 ==> x.digits[0] != 0) && (-1000 < e < 1000 ==> |x.digits| <= 3)
  }

  /** d.ddde+xx */
  method Scientific(text0: string, ds: seq<Digit>, decpt: int) returns (text: string, ghost x: Exponent)
    requires ds != []
    ensures ExponentOf(x, decpt - 1)
    ensures text == text0 + Chars(ds[..1]) + FractionText(ds[1..]) + ExponentText(x)
  {
    hide Chars, ExponentText, ExponentOf;
    text := text0 + [DigitChar(ds[0])];
    OneChar(ds[0]);
    assert ds[..1] == [ds[0]];
    if |ds| > 1 {
      text := text + ".";
      text := CopyDigits(text, ds, 1);
    }
    assert text == text0 + Chars(ds[..1]) + FractionText(ds[1..]);
    text, x := ExponentPart(text, decpt - 1);
  }

  method ExponentPart(text0: string, e: int) returns (text: string, ghost x: Exponent)
    ensures ExponentOf(x, e) && text == text0 + ExponentText(x)
  {
    hide Chars, Dec;
    text := text0 + "e";
    var size := e;
    if e < 0 {
      text := text + "-";
      size := -e;
    } else {
      text := text + "+";
    }
    var xs := ExponentDigits(size);
    text := CopyDigits(text, xs, 0);
    assert xs[0..] == xs;
    x := Exponent(e < 0, xs);
  }

  /** 0.000ddd */
  method Small(text0: string, ds: seq<Digit>, decpt: int) returns (text: string)
    requires ds != [] && decpt <= 0
    ensures text == text0 + Chars([0]) + FractionText(Zeros(-decpt) + ds)
  {
    hide Chars, Zeros, FractionText;
    text := text0 + "0" + ".";
    text := CopyZeros(text, -decpt);
    text := CopyDigits(text, ds, 0);
    assert ds[0..] == ds;
    SmallText(text0, Zeros(-decpt), ds);
  }

  lemma SmallText(text0: string, zeros: seq<Digit>, ds: seq<Digit>)
    requires ds != []
    ensures ((text0 + "0" + ".") + Chars(zeros)) + Chars(ds) == text0 + Chars([0]) + FractionText(zeros + ds)
  {
    hide Chars;
    OneChar(0);
    CharsJoin(zeros, ds);
    assert ("." + Chars(zeros)) + Chars(ds) == "." + (Chars(zeros) + Chars(ds));
  }

  function WholePart(ds: seq<Digit>, decpt: nat): seq<Digit> {
    if decpt < |ds| then ds[..decpt] else ds + Zeros(decpt - |ds|)
  }

  function FractionPart(ds: seq<Digit>, decpt: nat): seq<Digit> { if decpt < |ds| then ds[decpt..] else [] }

  /** What has been written after i digits. */
  function Written(ds: seq<Digit>, decpt: nat, i: nat): string
    requires i <= |ds|
  {
    if i < decpt || decpt >= |ds| then Chars(ds[..i])
    else Chars(ds[..decpt]) + "." + Chars(ds[decpt..i])
  }

  /** ddd.ddd or ddd000 */
  method Fixed(text0: string, ds: seq<Digit>, decpt: nat) returns (text: string)
    requires ds != [] && decpt > 0
    ensures text == text0 + Chars(WholePart(ds, decpt)) + FractionText(FractionPart(ds, decpt))
  {
    hide Chars, Zeros, Written, WholePart, FractionPart, FractionText;
    text := text0;
    var left: int, i: nat := decpt, 0;
    WrittenNone(ds, decpt);
    while i < |ds|
      invariant i <= |ds| && left == decpt - i && text == text0 + Written(ds, decpt, i)
    {
      WrittenStep(ds, decpt, i);
      ghost var was, point := Written(ds, decpt, i), if i + 1 == decpt < |ds| then "." else "";
      Append3(text0, was, [DigitChar(ds[i])], point);
      text := text + [DigitChar(ds[i])];
      i := i + 1;
      left := left - 1;
      if left == 0 && i < |ds| {
        text := text + ".";
      }
    }
    WrittenAll(ds, decpt);
    ghost var a, z := Written(ds, decpt, |ds|), Chars(Zeros(if left < 0 then 0 else left));
    text := CopyZeros(text, left);
    Append3(text0, a, z, "");
    Append3(text0, Chars(WholePart(ds, decpt)), FractionText(FractionPart(ds, decpt)), "");
  }

  lemma Append3(a: string, b: string, c: string, d: string)
    ensures ((a + b) + c) + d == a + ((b + c) + d) && (a + b) + c == a + (b + c)
    ensures ((a + b) + c) + "" == (a + b) + c
  {
  }

  lemma WrittenNone(ds: seq<Digit>, decpt: nat)
    requires decpt > 0
    ensures Written(ds, decpt, 0) == ""
  {
  }

  lemma WrittenStep(ds: seq<Digit>, decpt: nat, i: nat)
    requires i < |ds| && decpt > 0
    ensures Written(ds, decpt, i + 1)
            == Written(ds, decpt, i) + [DigitChar(ds[i])] + (if i + 1 == decpt < |ds| then "." else "")
  {
    hide Chars;
    CharsSnoc(ds, i);
    if decpt <= i {
      CharsSnoc(ds[decpt..], i - decpt);
      assert ds[decpt..][..i - decpt] == ds[decpt..i] && ds[decpt..][..i + 1 - decpt] == ds[decpt..i + 1];
    }
    if i + 1 == decpt {
      assert ds[decpt..i + 1] == [];
      NoChars();
    }
  }

  lemma WrittenAll(ds: seq<Digit>, decpt: nat)
    ensures Written(ds, decpt, |ds|) + Chars(Zeros(if decpt < |ds| then 0 else decpt - |ds|))
            == Chars(WholePart(ds, decpt)) + FractionText(FractionPart(ds, decpt))
  {
    hide Chars, Zeros;
    NoChars();
    assert ds[..|ds|] == ds;
    if decpt >= |ds| {
      CharsJoin(ds, Zeros(decpt - |ds|));
    }
  }

  // ---- the number --------------------------------------------------------------------------------------

  lemma ScientificValue(negative: bool, ds: seq<Digit>, decpt: int, x: Exponent)
    requires ds != [] && ExponentOf(x, decpt - 1)
    ensures ValueOf(Parts(negative, ds[..1], ds[1..], x)) == Meant(negative, ds, decpt)
  {
    hide Dec;
    assert ds[..1] + ds[1..] == ds;
  }

  lemma SmallValue(negative: bool, ds: seq<Digit>, decpt: int)
    requires decpt <= 0
    ensures ValueOf(Parts(negative, [0], Zeros(-decpt) + ds, NoExponent)) == Meant(negative, ds, decpt)
  {
    hide Dec, Zeros;
    var z := Zeros(-decpt);
    assert [0] + (z + ds) == Zeros(1 - decpt) + ds by { ZerosCons(-decpt); }
    DecJoin(Zeros(1 - decpt), ds);
    DecZeros(1 - decpt);
  }

  lemma ZerosCons(n: nat)
    ensures [0] + Zeros(n) == Zeros(n + 1)
  {
  }

  lemma FixedValue(negative: bool, ds: seq<Digit>, decpt: nat)
    ensures Same(ValueOf(Parts(negative, WholePart(ds, decpt), FractionPart(ds, decpt), NoExponent)),
            Meant(negative, ds, decpt))
  {
    hide Dec, Zeros;
    if decpt < |ds| {
      assert ds[..decpt] + ds[decpt..] == ds;
      assert Pow(10, 0) == 1;
    } else {
      var z := Zeros(decpt - |ds|);
      assert (ds + z) + [] == ds + z;
      DecJoin(ds, z);
      DecZeros(decpt - |ds|);
    }
  }

  lemma SameItself(d: Decimal)
    ensures Same(d, d)
  {
    assert Pow(10, 0) == 1;
  }

  /** The exponent by which dtoa marks infinities and NaN. */
  const SPECIAL: int := 9999

  /** fpconv_g_fmt: what dtoa marks as special is copied. For every other exponent the text is a JSON
      number and denotes exactly 0.d1d2... * 10^decpt with the sign; for those of a double it has at
      most precision + 7 characters. It has an exponent if and only if decpt is -4 or less or above the
      precision, and a point if and only if there are digits behind it. */
  method Format(negative: bool, ds: seq<Digit>, decpt: int, precision: nat) returns (text: string)
    requires FromDtoa(ds, decpt) && |ds| <= precision
    ensures decpt == SPECIAL ==> text == SignText(negative) + Chars(ds)
    ensures decpt != SPECIAL ==> Read(text).Some? && Same(Read(text).value, Meant(negative, ds, decpt))
    ensures -1000 < decpt - 1 < 1000 ==> |text| <= precision + 7
    ensures decpt != SPECIAL ==> ('e' in text <==> decpt <= -4 || decpt > precision)
    ensures decpt != SPECIAL ==> ('.' in text <==> if decpt <= -4 || decpt > precision then |ds| > 1 else decpt < |ds|)
  {
    hide Dec, Chars, Zeros, Read, ExponentText, FractionText, ValueOf, WholePart, FractionPart, Same;
    text := SignText(negative);
    if decpt == SPECIAL {
      text := CopyDigits(text, ds, 0);
      assert ds[0..] == ds;
      return;
    }
    ghost var p: Parts;
    if decpt <= -4 || decpt > precision {
      ghost var x;
      text, x := Scientific(text, ds, decpt);
      p := Parts(negative, ds[..1], ds[1..], x);
      ScientificValue(negative, ds, decpt, x);
      SameItself(Meant(negative, ds, decpt));
    } else if decpt <= 0 {
      text := Small(text, ds, decpt);
      p := Parts(negative, [0], Zeros(-decpt) + ds, NoExponent);
      SmallValue(negative, ds, decpt);
      SameItself(Meant(negative, ds, decpt));
    } else {
      text := Fixed(text, ds, decpt);
      p := Parts(negative, WholePart(ds, decpt), FractionPart(ds, decpt), NoExponent);
      FixedValue(negative, ds, decpt);
      WholeStarts(ds, decpt);
    }
    NumberIs(p);
    assert text == NumberText(p);
    ReadNumberText(p);
    TextLength(p);
    TextForm(p);
    Points(ds, decpt);
  }

  /** An exponent is marked by an `e`, a fraction by a point. */
  lemma TextForm(p: Parts)
    ensures 'e' in NumberText(p) <==> p.exponent.Exponent?
    ensures '.' in NumberText(p) <==> p.fraction != []
  {
    hide Chars;
    NoMarks(p.whole);
    NoMarks(p.fraction);
    if p.exponent.Exponent? {
      NoMarks(p.exponent.digits);
      assert ExponentText(p.exponent)[0] == 'e';
    }
    if p.fraction != [] {
      assert FractionText(p.fraction)[0] == '.';
    }
  }

  lemma NoMarks(ds: seq<Digit>)
    ensures 'e' !in Chars(ds) && '.' !in Chars(ds)
  {
  }

  /** Digits behind the point. */
  lemma Points(ds: seq<Digit>, decpt: int)
    ensures ds != [] ==> (ds[1..] != [] <==> |ds| > 1)
    ensures decpt > 0 ==> (FractionPart(ds, decpt) != [] <==> decpt < |ds|)
    ensures decpt <= 0 && ds != [] ==> Zeros(-decpt) + ds != []
  {
  }

  lemma WholeStarts(ds: seq<Digit>, decpt: nat)
    requires FromDtoa(ds, decpt) && decpt > 0
    ensures WholePart(ds, decpt) != [] && (WholePart(ds, decpt)[0] == 0 ==> |WholePart(ds, decpt)| == 1)
    ensures |WholePart(ds, decpt)| + |FractionPart(ds, decpt)| <= if decpt < |ds| then |ds| else decpt
  {
  }

  lemma NumberIs(p: Parts)
    ensures p.exponent == NoExponent ==>
            NumberText(p) == SignText(p.negative) + Chars(p.whole) + FractionText(p.fraction)
  {
  }

  lemma TextLength(p: Parts)
    ensures |NumberText(p)| <= 2 + |p.whole| + |p.fraction|
            + (if p.exponent.Exponent? then 2 + |p.exponent.digits| else 0)
  {
  }
}
