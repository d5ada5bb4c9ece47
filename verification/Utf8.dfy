/** The UTF-8 codec of crab. */
module Utf8 {
  import opened Common

  /** _steps: the length a first byte announces, 0 for none. */
  function Steps(c: Byte): (n: nat)
    ensures n <= 4
  {
    if c < 0x80 then 1 else if c < 0xC0 then 0 else if c < 0xE0 then 2 else if c < 0xF0 then 3
        else if c < 0xF8 then 4 else 0
  }

  /** _bytes: the length of a rune, 0 for none. */
  function ByteCount(r: Rune): (n: nat)
    ensures n == 0 <==> r >= 0x11_0000
  {
    if r < 0x80 then 1 else if r < 0x800 then 2 else if r < 0x1_0000 then 3 else if r < 0x11_0000 then 4 else 0
  }

  // ---- one rune --------------------------------------------------------------------------------------

  /** The bit layout of section 3 of RFC 3629. */
  function Encoded(r: Rune): (s: seq<Byte>)
    requires r < 0x11_0000
    ensures |s| == ByteCount(r)
  {
    if r < 0x80 then [r]
    else if r < 0x800 then [0xC0 + r / 0x40, 0x80 + r % 0x40]
    else if r < 0x1_0000 then [0xE0 + r / 0x1000, 0x80 + r / 0x40 % 0x40, 0x80 + r % 0x40]
    else [0xF0 + r / 0x4_0000, 0x80 + r / 0x1000 % 0x40, 0x80 + r / 0x40 % 0x40, 0x80 + r % 0x40]
  }

  /** The first and the last rune of each length, and examples of section 7 of RFC 3629. */
  lemma EncodedExamples()
    ensures Encoded(0x7F) == [0x7F] && Encoded(0x80) == [0xC2, 0x80] && Encoded(0x7FF) == [0xDF, 0xBF]
    ensures Encoded(0x800) == [0xE0, 0xA0, 0x80] && Encoded(0xFFFF) == [0xEF, 0xBF, 0xBF]
    ensures Encoded(0x1_0000) == [0xF0, 0x90, 0x80, 0x80] && Encoded(0x10_FFFF) == [0xF4, 0x8F, 0xBF, 0xBF]
    ensures Encoded(0x2262) == [0xE2, 0x89, 0xA2] && Encoded(0x391) == [0xCE, 0x91]
    ensures Encoded(0x65E5) == [0xE6, 0x97, 0xA5] && Encoded(0x2_33B4) == [0xF0, 0xA3, 0x8E, 0xB4]
  {
  }

  /** The payload of the first byte: `c & (0xff >> step)`. */
  function Lead(c: Byte, step: nat): nat
    requires 1 <= step <= 4
  {
    c % (if step == 1 then 0x80 else if step == 2 then 0x40 else if step == 3 then 0x20 else 0x10)
  }

  /** The value of the first n bytes of a sequence of `step` bytes. */
  function Decoded(s: seq<Byte>, step: nat, n: nat): (v: nat)
    requires 1 <= n <= step <= 4 && n <= |s|
    ensures n == 1 ==> v < 0x80
    ensures n == 2 ==> v < 0x2000
    ensures n == 3 ==> v < 0x8_0000
    ensures n == 4 ==> v < 0x200_0000
  {
    if n == 1 then Lead(s[0], step) else Decoded(s, step, n - 1) * 0x40 + Payload(s[n - 1])
  }

  /** _decode */
  method Decode(s: seq<Byte>, i: nat, step: nat) returns (v: Rune)
    requires 1 <= step <= 4 && i + step <= |s|
    ensures v == Decoded(s[i..], step, step)
  {
    var j, x: nat := 1, Lead(s[i], step);
    while j < step
      invariant 1 <= j <= step && x == Decoded(s[i..], step, j)
    {
      x := x * 0x40 + Payload(s[i + j]);
      j := j + 1;
    }
    v := x;
  }

  /** The payload of a continuation byte: `b & 0x3f`. */
  function Payload(b: Byte): (p: nat)
    ensures p < 0x40
  {
    b % 0x40
  }

  lemma Unfold(s: seq<Byte>, step: nat)
    requires 1 <= step <= 4 && step <= |s|
    ensures step == 1 ==> Decoded(s, 1, 1) == Lead(s[0], 1)
    ensures step == 2 ==> Decoded(s, 2, 2) == Lead(s[0], 2) * 0x40 + Payload(s[1])
    ensures step == 3 ==> Decoded(s, 3, 3) == Lead(s[0], 3) * 0x1000 + Payload(s[1]) * 0x40 + Payload(s[2])
    ensures step == 4 ==>
              Decoded(s, 4, 4)
              == Lead(s[0], 4) * 0x4_0000 + Payload(s[1]) * 0x1000 + Payload(s[2]) * 0x40 + Payload(s[3])
  {
    hide Lead, Payload;
    DecodedStep(s, step, 1);
    if step >= 2 { DecodedStep(s, step, 2); }
    if step >= 3 { DecodedStep(s, step, 3); }
    if step >= 4 { DecodedStep(s, step, 4); }
  }

  lemma DecodedStep(s: seq<Byte>, step: nat, n: nat)
    requires 1 <= n <= step <= 4 && n <= |s|
    ensures Decoded(s, step, n)
            == if n == 1 then Lead(s[0], step) else Decoded(s, step, n - 1) * 0x40 + Payload(s[n - 1])
  {
  }

  /** First bytes and their payload. */
  lemma Leads(x: nat)
    ensures x < 0x80 ==> Steps(x) == 1 && Lead(x, 1) == x
    ensures x < 0x20 ==> Steps(0xC0 + x) == 2 && Lead(0xC0 + x, 2) == x
    ensures x < 0x10 ==> Steps(0xE0 + x) == 3 && Lead(0xE0 + x, 3) == x
    ensures x < 8 ==> Steps(0xF0 + x) == 4 && Lead(0xF0 + x, 4) == x
    ensures x < 0x40 ==> Payload(0x80 + x) == x
  {
  }

  /** The 6-bit groups of a number. */
  lemma Groups(r: nat)
    ensures r == r / 0x40 * 0x40 + r % 0x40
    ensures r / 0x40 == r / 0x1000 * 0x40 + r / 0x40 % 0x40
    ensures r / 0x1000 == r / 0x4_0000 * 0x40 + r / 0x1000 % 0x40
  {
  }

  /** Decoding a rune's bytes gives the rune, and the first byte announces their number. */
  lemma DecodeEncoded(r: Rune, rest: seq<Byte>)
    requires r < 0x11_0000
    ensures var s := Encoded(r) + rest;
            Steps(s[0]) == ByteCount(r) && Decoded(s, ByteCount(r), ByteCount(r)) == r
  {
    hide Decoded, Steps, Lead, Payload;
    Unfold(Encoded(r) + rest, ByteCount(r));
    Groups(r);
    Leads(if r < 0x80 then r else if r < 0x800 then r / 0x40 else if r < 0x1_0000 then r / 0x1000 else r / 0x4_0000);
    Leads(r / 0x1000 % 0x40);
    Leads(r / 0x40 % 0x40);
    Leads(r % 0x40);
  }

  /** The first bytes are a rune in the layout of RFC 3629: continuation bytes behind the first one,
      the shortest form, and below 0x110000. Surrogates, which RFC 3629 forbids, are let through. */
  ghost predicate Canonical(s: seq<Byte>, step: nat)
    requires 1 <= step <= 4 && step <= |s|
  {
    && (forall j | 1 <= j < step :: 0x80 <= s[j] < 0xC0)
    && ByteCount(Decoded(s, step, step)) == step
  }

  /** Encoding what was decoded gives the bytes back exactly when they are canonical. */
  lemma EncodeDecoded(s: seq<Byte>, step: nat)
    requires s != [] && step == Steps(s[0]) && 1 <= step <= |s|
    ensures var r := Decoded(s, step, step);
            (r < 0x11_0000 && Encoded(r) == s[..step]) <==> Canonical(s, step)
  {
    hide Decoded;
    var r := Decoded(s, step, step);
    if r < 0x11_0000 && Encoded(r) == s[..step] {
      Continued(r);
      forall j | 1 <= j < step ensures 0x80 <= s[j] < 0xC0 { assert s[j] == s[..step][j]; }
    }
    if Canonical(s, step) {
      Regrouped(s, step, r);
    }
  }

  lemma Continued(r: Rune)
    requires r < 0x11_0000
    ensures forall j | 1 <= j < |Encoded(r)| :: 0x80 <= Encoded(r)[j] < 0xC0
  {
  }

  /** The groups of a number put together from groups. */
  lemma Ungroup(a: nat, b: nat, c: nat, d: nat)
    requires b < 0x40 && c < 0x40 && d < 0x40
    ensures var r := a * 0x4_0000 + b * 0x1000 + c * 0x40 + d;
            r % 0x40 == d && r / 0x40 % 0x40 == c && r / 0x1000 % 0x40 == b && r / 0x4_0000 == a
            && r / 0x40 == a * 0x1000 + b * 0x40 + c && r / 0x1000 == a * 0x40 + b
  {
    var r := a * 0x4_0000 + b * 0x1000 + c * 0x40 + d;
    LastGroup(a * 0x1000 + b * 0x40 + c, d);
    LastGroup(a * 0x40 + b, c);
    LastGroup(a, b);
    DropGroups(r);
  }

  lemma LastGroup(x: nat, d: nat)
    requires d < 0x40
    ensures (x * 0x40 + d) / 0x40 == x && (x * 0x40 + d) % 0x40 == d
  {
  }

  lemma DropGroups(r: nat)
    ensures r / 0x1000 == r / 0x40 / 0x40 && r / 0x4_0000 == r / 0x1000 / 0x40
  {
  }

  /** First and continuation bytes from their payload. */
  lemma Bytes(c: Byte, n: nat)
    requires n <= 4
    ensures n == 1 && Steps(c) == 1 ==> Lead(c, 1) == c
    ensures n == 2 && Steps(c) == 2 ==> c == 0xC0 + Lead(c, 2) && Lead(c, 2) < 0x20
    ensures n == 3 && Steps(c) == 3 ==> c == 0xE0 + Lead(c, 3) && Lead(c, 3) < 0x10
    ensures n == 4 && Steps(c) == 4 ==> c == 0xF0 + Lead(c, 4) && Lead(c, 4) < 8
    ensures 0x80 <= c < 0xC0 ==> c == 0x80 + Payload(c)
  {
  }

  lemma Regrouped(s: seq<Byte>, step: nat, r: nat)
    requires 1 <= step <= 4 && step <= |s| && Steps(s[0]) == step && r < 0x11_0000 && ByteCount(r) == step
    requires forall j | 1 <= j < step :: 0x80 <= s[j] < 0xC0
    requires r == Decoded(s, step, step)
    ensures Encoded(r) == s[..step]
  {
    hide Decoded, Steps, Lead, Payload, Encoded;
    Unfold(s, step);
    Bytes(s[0], step);
    forall j | 1 <= j < step ensures s[j] == 0x80 + Payload(s[j]) { Bytes(s[j], 0); }
    if step == 1 {
      EncodedOf(0, 0, 0, Lead(s[0], 1));
    } else if step == 2 {
      EncodedOf(0, 0, Lead(s[0], 2), Payload(s[1]));
      assert s[..2] == [s[0], s[1]];
    } else if step == 3 {
      EncodedOf(0, Lead(s[0], 3), Payload(s[1]), Payload(s[2]));
      assert s[..3] == [s[0], s[1], s[2]];
    } else {
      EncodedOf(Lead(s[0], 4), Payload(s[1]), Payload(s[2]), Payload(s[3]));
      assert s[..4] == [s[0], s[1], s[2], s[3]];
    }
  }

  /** The bytes of a rune put together from groups. */
  lemma EncodedOf(a: nat, b: nat, c: nat, d: nat)
    requires b < 0x40 && c < 0x40 && (d < 0x40 || (a == b == c == 0 && d < 0x80))
    requires a * 0x4_0000 + b * 0x1000 + c * 0x40 + d < 0x11_0000
    ensures var r := a * 0x4_0000 + b * 0x1000 + c * 0x40 + d;
            && (ByteCount(r) == 1 ==> Encoded(r) == [r])
            && (ByteCount(r) == 2 && a == b == 0 ==> Encoded(r) == [0xC0 + c, 0x80 + d])
            && (ByteCount(r) == 3 && a == 0 ==> Encoded(r) == [0xE0 + b, 0x80 + c, 0x80 + d])
            && (ByteCount(r) == 4 ==> Encoded(r) == [0xF0 + a, 0x80 + b, 0x80 + c, 0x80 + d])
  {
    if d < 0x40 { Ungroup(a, b, c, d); }
  }

  // ---- strings -----------------------------------------------------------------------------------------

  /** The runes of a string, if every first byte announces bytes that are there. */
  function Runes(s: seq<Byte>): Option<seq<Rune>>
    decreases |s|
  {
    if s == [] then Some([])
    else
      var step := Steps(s[0]);
      if step == 0 || |s| < step then None
      else
        match Runes(s[step..])
        case None => None
        case Some(rest) => Some([Decoded(s, step, step)] + rest)
  }

  /** The runes from position i on, by the first of them. */
  lemma RunesAt(s: seq<Byte>, i: nat)
    requires i < |s|
    ensures var step := Steps(s[i]);
            if step == 0 || |s| < i + step then Runes(s[i..]).None?
            else
              && (Runes(s[i..]).Some? <==> Runes(s[i + step..]).Some?)
              && (Runes(s[i..]).Some? ==>
                    Runes(s[i..]).value == [Decoded(s[i..], step, step)] + Runes(s[i + step..]).value)
  {
    hide Decoded, Steps;
    var step := Steps(s[i]);
    if step > 0 && i + step <= |s| {
      assert s[i..][step..] == s[i + step..];
    }
  }

  lemma NoRunes()
    ensures Runes([]) == Some([])
  {
  }

  predicate InRange(runes: seq<Rune>) { forall i | 0 <= i < |runes| :: runes[i] < 0x11_0000 }

  function Text(runes: seq<Rune>): seq<Byte>
    requires InRange(runes)
  {
    if runes == [] then [] else Encoded(runes[0]) + Text(runes[1..])
  }

  /** Decoding what was encoded gives the runes. */
  lemma {:induction false} RoundTrip(runes: seq<Rune>)
    requires InRange(runes)
    ensures Runes(Text(runes)) == Some(runes)
  {
    hide Encoded, Decoded, Steps, ByteCount;
    if runes != [] {
      var s, n := Text(runes), ByteCount(runes[0]);
      RoundTrip(runes[1..]);
      DecodeEncoded(runes[0], Text(runes[1..]));
      assert s[n..] == Text(runes[1..]);
      assert [runes[0]] + runes[1..] == runes;
    }
  }

  /** Every rune of a string is canonical. */
  ghost predicate AllCanonical(s: seq<Byte>)
    decreases |s|
  {
    s == [] ||
    (var step := Steps(s[0]); 1 <= step <= |s| && Canonical(s, step) && AllCanonical(s[step..]))
  }

  /** Encoding what was decoded gives the string back exactly when all of it is canonical. The
      decoder accepts more: overlong forms, and any bytes in place of continuation bytes. */
  lemma {:induction false} EncodeBack(s: seq<Byte>)
    ensures AllCanonical(s) <==>
              (var r := Runes(s); r.Some? && InRange(r.value) && Text(r.value) == s)
    decreases |s|
  {
    hide Encoded, Decoded, Steps, ByteCount, Canonical;
    if s != [] && 1 <= Steps(s[0]) <= |s| {
      var step := Steps(s[0]);
      EncodeBack(s[step..]);
      EncodeDecoded(s, step);
      var r, rest := Runes(s), Runes(s[step..]);
      if rest.Some? {
        assert r.value[1..] == rest.value;
        BackOne(s, step, r.value);
      }
    }
  }

  lemma BackOne(s: seq<Byte>, step: nat, runes: seq<Rune>)
    requires runes != [] && 1 <= step <= |s| && step == Steps(s[0]) && runes[0] == Decoded(s, step, step)
    ensures InRange(runes) <==> runes[0] < 0x11_0000 && InRange(runes[1..])
    ensures InRange(runes) ==>
              (Text(runes) == s <==> Encoded(runes[0]) == s[..step] && Text(runes[1..]) == s[step..])
  {
    hide Encoded, Decoded, Steps, ByteCount;
    assert runes == [runes[0]] + runes[1..];
    if InRange(runes) {
      var e := Encoded(runes[0]);
      if Text(runes) == s {
        SameStep(s, step, runes[0], Text(runes[1..]));
      }
      assert s == s[..step] + s[step..];
    }
  }

  lemma SameStep(s: seq<Byte>, step: nat, r: Rune, rest: seq<Byte>)
    requires r < 0x11_0000 && s == Encoded(r) + rest && s != [] && step == Steps(s[0])
    ensures step == |Encoded(r)| && s[..step] == Encoded(r) && s[step..] == rest
  {
    hide Encoded, Decoded;
    DecodeEncoded(r, rest);
  }

  /** A zero in two bytes is read, and written in one. */
  lemma OverlongZero()
    ensures Runes([0xC0, 0x80]) == Some([0]) && !AllCanonical([0xC0, 0x80]) && Text([0]) == [0]
  {
    var s: seq<Byte> := [0xC0, 0x80];
    Unfold(s, 2);
    assert Steps(s[0]) == 2 && Decoded(s, 2, 2) == 0;
    assert s[2..] == [] && Runes(s[2..]) == Some([]);
    assert [Decoded(s, 2, 2)] + [] == [0];
    assert Text([0]) == Encoded(0) + Text([]);
    EncodeBack(s);
  }

  /** _toutf32 */
  method ToUtf32(s: seq<Byte>) returns (r: Option<seq<Rune>>)
    ensures r == Runes(s)
  {
    hide Decoded, Steps, Runes;
    NoRunes();
    var i: nat := 0;
    var runes: seq<Rune> := [];
    assert s[0..] == s && (Runes(s).Some? ==> [] + Runes(s).value == Runes(s).value);
    while i < |s|
      invariant i <= |s| && Runes(s) == After(runes, Runes(s[i..]))
      decreases |s| - i
    {
      var step := Steps(s[i]);
      RunesAt(s, i);
      if step == 0 || |s| < i + step { return None; }
      var rune := Decode(s, i, step);
      assert forall t: seq<Rune> :: runes + ([rune] + t) == (runes + [rune]) + t;
      runes := runes + [rune];
      i := i + step;
    }
    assert s[i..] == [] && runes + [] == runes;
    r := Some(runes);
  }

  ghost function After(runes: seq<Rune>, rest: Option<seq<Rune>>): Option<seq<Rune>> {
    match rest
    case None => None
    case Some(t) => Some(runes + t)
  }

  /** _len: it accepts what _toutf32 accepts, with the same count. */
  method Len(s: seq<Byte>) returns (n: Option<nat>)
    ensures n.Some? <==> Runes(s).Some?
    ensures n.Some? ==> n.value == |Runes(s).value|
  {
    hide Decoded, Steps, Runes;
    NoRunes();
    var i: nat, count: nat := 0, 0;
    assert s[0..] == s;
    while i < |s|
      invariant i <= |s|
      invariant Runes(s).Some? <==> Runes(s[i..]).Some?
      invariant Runes(s).Some? ==> |Runes(s).value| == count + |Runes(s[i..]).value|
      decreases |s| - i
    {
      var step := Steps(s[i]);
      RunesAt(s, i);
      i := i + step;
      if step == 0 || |s| < i { return None; }
      count := count + 1;
    }
    assert s[i..] == [];
    n := Some(count);
  }

  /** _encode: the bytes are written from the last to the first. */
  method Encode(r: Rune, n: nat, buf: array<Byte>, pos: nat) returns (end: nat)
    requires r < 0x11_0000 && n == ByteCount(r) && pos + n <= buf.Length
    modifies buf
    ensures end == pos + n && buf[..end] == old(buf[..pos]) + Encoded(r)
  {
    hide Encoded;
    EncodedBytes(r);
    DropGroups(r);
    if n == 1 {
      buf[pos] := r % 0x80;
      assert buf[pos..pos + 1] == [r];
    } else {
      EncodeLong(r, n, buf, pos);
      Bytes4(buf[pos..pos + n], n);
    }
    end := pos + n;
    assert buf[..pos] == old(buf[..pos]);
    assert buf[..end] == buf[..pos] + buf[pos..end];
  }

  /** _encode, for more than one byte. */
  method EncodeLong(r: Rune, n: nat, buf: array<Byte>, pos: nat)
    requires r < 0x11_0000 && n == ByteCount(r) >= 2 && pos + n <= buf.Length
    modifies buf
    ensures forall i | 0 <= i < pos :: buf[i] == old(buf[i])
    ensures buf[pos + n - 1] == 0x80 + r % 0x40
    ensures n == 2 ==> buf[pos] == 0xC0 + r / 0x40
    ensures n == 3 ==> buf[pos] == 0xE0 + r / 0x1000 && buf[pos + 1] == 0x80 + r / 0x40 % 0x40
    ensures n == 4 ==> buf[pos] == 0xF0 + r / 0x4_0000 && buf[pos + 1] == 0x80 + r / 0x1000 % 0x40
                       && buf[pos + 2] == 0x80 + r / 0x40 % 0x40
  {
    hide Encoded;
    EncodedBytes(r);
    DropGroups(r);
    var rune := FillLow(r, buf, pos + n - 1);
    if n > 2 { rune := FillLow(rune, buf, pos + n - 2); }
    if n > 3 { rune := FillLow(rune, buf, pos + 1); }
    buf[pos] := rune + (if n == 2 then 0xC0 else if n == 3 then 0xE0 else 0xF0);
  }

  /** FILL_LOW_BITS */
  method FillLow(rune: nat, buf: array<Byte>, pos: nat) returns (rest: nat)
    requires pos < buf.Length
    modifies buf
    ensures buf[pos] == 0x80 + rune % 0x40 && rest == rune / 0x40
    ensures forall i | 0 <= i < buf.Length && i != pos :: buf[i] == old(buf[i])
  {
    buf[pos] := rune % 0x40 + 0x80;
    rest := rune / 0x40;
  }

  /** A sequence by its bytes. */
  lemma Bytes4(s: seq<Byte>, n: nat)
    requires |s| == n <= 4
    ensures n == 2 ==> s == [s[0], s[1]]
    ensures n == 3 ==> s == [s[0], s[1], s[2]]
    ensures n == 4 ==> s == [s[0], s[1], s[2], s[3]]
  {
  }

  lemma EncodedBytes(r: Rune)
    requires r < 0x11_0000
    ensures ByteCount(r) == 1 ==> r < 0x80 && Encoded(r) == [r]
    ensures ByteCount(r) == 2 ==> r / 0x40 < 0x20 && Encoded(r) == [0xC0 + r / 0x40, 0x80 + r % 0x40]
    ensures ByteCount(r) == 3 ==>
              r / 0x1000 < 0x10 && Encoded(r) == [0xE0 + r / 0x1000, 0x80 + r / 0x40 % 0x40, 0x80 + r % 0x40]
    ensures ByteCount(r) == 4 ==>
              r / 0x4_0000 < 8
              && Encoded(r) == [0xF0 + r / 0x4_0000, 0x80 + r / 0x1000 % 0x40, 0x80 + r / 0x40 % 0x40, 0x80 + r % 0x40]
  {
  }

  /** _toutf8: refused when a rune is out of range. */
  method ToUtf8(runes: seq<Rune>) returns (r: Option<seq<Byte>>)
    ensures r.Some? <==> InRange(runes)
    ensures r.Some? ==> r.value == Text(runes)
  {
    hide Encoded, ByteCount;
    var size, i := 0, 0;
    assert runes[..0] == [];
    while i < |runes|
      invariant i <= |runes| && InRange(runes[..i]) && size == |Text(runes[..i])|
    {
      var n := ByteCount(runes[i]);
      if n == 0 { return None; }
      TextSnoc(runes, i);
      size := size + n;
      i := i + 1;
    }
    assert runes[..i] == runes;
    var buf := new Byte[size](k => 0);
    var pos := 0;
    i := 0;
    while i < |runes|
      invariant i <= |runes| && InRange(runes[..i]) && pos == |Text(runes[..i])| <= size
                && buf[..pos] == Text(runes[..i])
    {
      TextSnoc(runes, i);
      TextGrows(runes, i + 1);
      pos := Encode(runes[i], ByteCount(runes[i]), buf, pos);
      i := i + 1;
    }
    assert runes[..i] == runes;
    r := Some(buf[..]);
  }

  lemma {:induction false} TextSnoc(runes: seq<Rune>, i: nat)
    requires i < |runes| && InRange(runes[..i]) && runes[i] < 0x11_0000
    ensures InRange(runes[..i + 1]) && Text(runes[..i + 1]) == Text(runes[..i]) + Encoded(runes[i])
    decreases i
  {
    hide Encoded;
    var a := runes[..i + 1];
    assert a == runes[..i] + [runes[i]];
    if i > 0 {
      TextSnoc(runes[1..], i - 1);
      assert runes[1..][..i] == a[1..] && runes[1..][..i - 1] == runes[..i][1..];
      assert runes[1..][..i - 1] == runes[1..i];
    }
  }

  lemma {:induction false} TextGrows(runes: seq<Rune>, i: nat)
    requires InRange(runes) && i <= |runes|
    ensures InRange(runes[..i]) && |Text(runes[..i])| <= |Text(runes)|
    decreases |runes| - i
  {
    hide Encoded;
    if i < |runes| {
      TextGrows(runes, i + 1);
      assert InRange(runes[..i]);
      TextSnoc(runes, i);
    } else {
      assert runes[..i] == runes;
    }
  }
}
