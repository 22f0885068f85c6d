/**
  UTF-8 between bytes and UTF-16 text: the strict streaming decoder and the
  encoder that src/domain/text-composition.ts takes from the platform, following
  section 4 of RFC 3629. A JavaScript string is a sequence of 16-bit code units,
  so it can hold surrogates without a partner; the encoder writes U+FFFD for those.
 */
module Utf8 {
  import opened Options
  import opened Binary

  type Unit = u: int | 0 <= u < 0x1_0000
  type Text = seq<Unit>

  predicate IsHigh(u: int) { 0xD800 <= u <= 0xDBFF }
  predicate IsLow(u: int) { 0xDC00 <= u <= 0xDFFF }

  /** A Unicode scalar value. */
  type Scalar = p: int | (0 <= p < 0xD800) || (0xE000 <= p < 0x11_0000)

  function Units(p: Scalar): Text {
    if p < 0x1_0000 then [p] else [0xD800 + (p - 0x1_0000) / 0x400, 0xDC00 + (p - 0x1_0000) % 0x400]
  }

  predicate StartsPair(text: Text) {
    |text| >= 2 && IsHigh(text[0]) && IsLow(text[1])
  }

  function PairScalar(high: int, low: int): Scalar
    requires IsHigh(high) && IsLow(low)
  {
    0x1_0000 + (high - 0xD800) * 0x400 + (low - 0xDC00)
  }

  /** Every surrogate belongs to a pair. */
  predicate WellFormed(text: Text) {
    text == []
    || (StartsPair(text) && WellFormed(text[2..]))
    || (!IsHigh(text[0]) && !IsLow(text[0]) && WellFormed(text[1..]))
  }

  // ----- encoding -----

  function EncodeScalar(p: Scalar): Bytes {
    if p < 0x80 then [p]
    else if p < 0x800 then [0xC0 + p / 0x40, 0x80 + p % 0x40]
    else if p < 0x1_0000 then [0xE0 + p / 0x1000, 0x80 + p / 0x40 % 0x40, 0x80 + p % 0x40]
    else [0xF0 + p / 0x4_0000, 0x80 + p / 0x1000 % 0x40, 0x80 + p / 0x40 % 0x40, 0x80 + p % 0x40]
  }

  /** `TextEncoder.encode`: a lone surrogate becomes U+FFFD. */
  function Encode(text: Text): Bytes {
    if text == [] then []
    else if StartsPair(text) then EncodeScalar(PairScalar(text[0], text[1])) + Encode(text[2..])
    else EncodeScalar(if IsHigh(text[0]) || IsLow(text[0]) then 0xFFFD else text[0]) + Encode(text[1..])
  }

  /** What is read back from an encoding. */
  function Scrubbed(text: Text): Text {
    if text == [] then []
    else if StartsPair(text) then text[..2] + Scrubbed(text[2..])
    else [if IsHigh(text[0]) || IsLow(text[0]) then 0xFFFD else text[0]] + Scrubbed(text[1..])
  }

  // ----- decoding -----

  /** `needed` continuation bytes are missing; the next lies in `lower..upper`. */
  datatype Decoder = Decoder(needed: nat, point: int, lower: int, upper: int)

  const READY := Decoder(0, 0, 0x80, 0xBF)

  /** A code point continued by six more bits. */
  function Continued(point: int, byte: int): int {
    point * 0x40 + (byte - 0x80)
  }

  /** The bits a lead byte carries above its prefix. */
  function LeadBits(byte: int, prefix: int): int {
    byte - prefix
  }

  /** One byte of the strict decoder: the next state and the text completed. */
  function Push(d: Decoder, byte: Byte): Option<(Decoder, Text)> {
    if d.needed == 0 then
      if byte <= 0x7F then Some((READY, [byte]))
      else if 0xC2 <= byte <= 0xDF then Some((Decoder(1, LeadBits(byte, 0xC0), 0x80, 0xBF), []))
      else if 0xE0 <= byte <= 0xEF then
        Some((Decoder(2, LeadBits(byte, 0xE0), if byte == 0xE0 then 0xA0 else 0x80, if byte == 0xED then 0x9F
            else 0xBF), []))
      else if 0xF0 <= byte <= 0xF4 then
        Some((Decoder(3, LeadBits(byte, 0xF0), if byte == 0xF0 then 0x90 else 0x80, if byte == 0xF4 then 0x8F
            else 0xBF), []))
      else None
    else if byte < d.lower || d.upper < byte then None
    else
      var point := Continued(d.point, byte);
      if d.needed > 1 then Some((Decoder(d.needed - 1, point, 0x80, 0xBF), []))
      else if 0 <= point < 0xD800 || 0xE000 <= point < 0x11_0000 then Some((READY, Units(point)))
      else None
  }

  /** Decode `bytes` from a state, as `decode(chunk, { stream: true })` does. */
  function Stream(d: Decoder, bytes: Bytes): Option<(Decoder, Text)>
    decreases bytes
  {
    if bytes == [] then Some((d, []))
    else
      var first := Push(d, bytes[0]);
      if first.None? then None
      else
        var rest := Stream(first.value.0, bytes[1..]);
        if rest.None? then None else Some((rest.value.0, first.value.1 + rest.value.1))
  }

  /** Decode all of `bytes`; a sequence cut at the end is invalid. */
  function Decode(bytes: Bytes): Option<Text> {
    var all := Stream(READY, bytes);
    if all.None? || all.value.0.needed != 0 then None else Some(all.value.1)
  }

  /** A stream may be cut anywhere, inside a sequence too. */
  lemma {:induction false} StreamConcat(d: Decoder, a: Bytes, b: Bytes)
    ensures Stream(d, a + b) ==
      (if Stream(d, a).None? then None
       else
         var (middle, text) := Stream(d, a).value;
         if Stream(middle, b).None? then None
         else Some((Stream(middle, b).value.0, text + Stream(middle, b).value.1)))
    decreases a
  {
    if a == [] {
      assert a + b == b;
      if Stream(d, b).Some? {
        assert [] + Stream(d, b).value.1 == Stream(d, b).value.1;
      }
    } else {
      var first := Push(d, a[0]);
      assert (a + b)[1..] == a[1..] + b;
      if first.Some? {
        var (next, head) := first.value;
        StreamConcat(next, a[1..], b);
        if Stream(next, a[1..]).Some? {
          var (middle, text) := Stream(next, a[1..]).value;
          if Stream(middle, b).Some? {
            assert head + (text + Stream(middle, b).value.1) == (head + text) + Stream(middle, b).value.1;
          }
        }
      }
    }
  }

  // ----- decoding an encoding -----

  lemma StreamOne(d: Decoder, byte: Byte)
    ensures Stream(d, [byte]) == Push(d, byte)
  {
    assert [byte][1..] == [];
    if Push(d, byte).Some? {
      assert Push(d, byte).value.1 + [] == Push(d, byte).value.1;
    }
  }

  lemma StreamCons(d: Decoder, byte: Byte, rest: Bytes)
    requires Push(d, byte).Some? && Push(d, byte).value.1 == []
    ensures Stream(d, [byte] + rest) == Stream(Push(d, byte).value.0, rest)
  {
    var next := Push(d, byte).value.0;
    assert ([byte] + rest)[1..] == rest;
    if Stream(next, rest).Some? {
      assert [] + Stream(next, rest).value.1 == Stream(next, rest).value.1;
    }
  }

  /** The six-bit digits of a scalar and how they recombine. */
  lemma Digits(p: int)
    requires 0 <= p < 0x11_0000
    ensures Continued(p / 0x40, 0x80 + p % 0x40) == p
    ensures Continued(p / 0x1000, 0x80 + p / 0x40 % 0x40) == p / 0x40
    ensures Continued(p / 0x4_0000, 0x80 + p / 0x1000 % 0x40) == p / 0x1000
    ensures 0 <= p % 0x40 < 0x40 && 0 <= p / 0x40 % 0x40 < 0x40 && 0 <= p / 0x1000 % 0x40 < 0x40
  {
    assert p / 0x1000 == p / 0x40 / 0x40 && p / 0x4_0000 == p / 0x1000 / 0x40;
  }

  lemma StreamScalar(p: Scalar)
    ensures Stream(READY, EncodeScalar(p)) == Some((READY, Units(p)))
  {
    var bytes := EncodeScalar(p);
    Digits(p);
    if p < 0x80 {
      StreamOne(READY, bytes[0]);
    } else if p < 0x800 {
      assert bytes == [bytes[0]] + [bytes[1]];
      StreamCons(READY, bytes[0], [bytes[1]]);
      StreamOne(Push(READY, bytes[0]).value.0, bytes[1]);
    } else if p < 0x1_0000 {
      StreamThree(p);
    } else {
      StreamFour(p);
    }
  }

  lemma StreamThree(p: Scalar)
    requires 0x800 <= p < 0x1_0000
    ensures Stream(READY, EncodeScalar(p)) == Some((READY, Units(p)))
  {
    var bytes := EncodeScalar(p);
    Digits(p);
    assert bytes == [bytes[0]] + [bytes[1], bytes[2]] && [bytes[1], bytes[2]] == [bytes[1]] + [bytes[2]];
    var first := Push(READY, bytes[0]).value.0;
    assert first
        == Decoder(2, p / 0x1000, if bytes[0] == 0xE0 then 0xA0 else 0x80, if bytes[0] == 0xED then 0x9F else 0xBF);
    StreamCons(READY, bytes[0], [bytes[1], bytes[2]]);
    assert Push(first, bytes[1]) == Some((Decoder(1, p / 0x40, 0x80, 0xBF), []));
    StreamCons(first, bytes[1], [bytes[2]]);
    StreamOne(Decoder(1, p / 0x40, 0x80, 0xBF), bytes[2]);
  }

  lemma StreamFour(p: Scalar)
    requires 0x1_0000 <= p
    ensures Stream(READY, EncodeScalar(p)) == Some((READY, Units(p)))
  {
    var bytes := EncodeScalar(p);
    Digits(p);
    var three, two := [bytes[1], bytes[2], bytes[3]], [bytes[2], bytes[3]];
    assert bytes == [bytes[0]] + three && three == [bytes[1]] + two && two == [bytes[2]] + [bytes[3]];
    var first := Push(READY, bytes[0]).value.0;
    assert first
        == Decoder(3, p / 0x4_0000, if bytes[0] == 0xF0 then 0x90 else 0x80, if bytes[0] == 0xF4 then 0x8F else 0xBF);
    StreamCons(READY, bytes[0], three);
    var second, third := Decoder(2, p / 0x1000, 0x80, 0xBF), Decoder(1, p / 0x40, 0x80, 0xBF);
    assert Push(first, bytes[1]) == Some((second, []));
    StreamCons(first, bytes[1], two);
    assert Push(second, bytes[2]) == Some((third, []));
    StreamCons(second, bytes[2], [bytes[3]]);
    StreamOne(third, bytes[3]);
  }

  lemma StreamScalarThen(p: Scalar, bytes: Bytes, text: Text)
    requires Stream(READY, bytes) == Some((READY, text))
    ensures Stream(READY, EncodeScalar(p) + bytes) == Some((READY, Units(p) + text))
  {
    StreamScalar(p);
    StreamConcat(READY, EncodeScalar(p), bytes);
  }

  lemma {:induction false} StreamEncoded(text: Text)
    ensures Stream(READY, Encode(text)) == Some((READY, Scrubbed(text)))
  {
    if text != [] {
      if StartsPair(text) {
        StreamEncoded(text[2..]);
        var p := PairScalar(text[0], text[1]);
        StreamScalarThen(p, Encode(text[2..]), Scrubbed(text[2..]));
        assert Units(p) == text[..2];
      } else {
        StreamEncoded(text[1..]);
        var p: Scalar := if IsHigh(text[0]) || IsLow(text[0]) then 0xFFFD else text[0];
        StreamScalarThen(p, Encode(text[1..]), Scrubbed(text[1..]));
      }
    }
  }

  lemma {:induction false} ScrubbedIffWellFormed(text: Text)
    ensures Scrubbed(text) == text <==> WellFormed(text)
    ensures |Scrubbed(text)| == |text|
  {
    if text != [] {
      if StartsPair(text) {
        ScrubbedIffWellFormed(text[2..]);
        assert text == text[..2] + text[2..];
        assert Scrubbed(text)[2..] == Scrubbed(text[2..]);
      } else {
        ScrubbedIffWellFormed(text[1..]);
        assert text == [text[0]] + text[1..];
        assert Scrubbed(text)[1..] == Scrubbed(text[1..]);
      }
    }
  }

  /** Encoding then decoding returns the text exactly when it is well formed. */
  lemma DecodeEncoded(text: Text)
    ensures Decode(Encode(text)).Some?
    ensures Decode(Encode(text)) == Some(text) <==> WellFormed(text)
  {
    StreamEncoded(text);
    ScrubbedIffWellFormed(text);
  }

  // ----- encoding a decoding -----

  /** Section 4 of RFC 3629: no overlong form, no surrogate, nothing above U+10FFFF. */
  predicate SecondByteFits(lead: int, second: int) {
    && 0x80 <= second <= 0xBF
    && (lead == 0xE0 ==> second >= 0xA0) && (lead == 0xED ==> second <= 0x9F)
    && (lead == 0xF0 ==> second >= 0x90) && (lead == 0xF4 ==> second <= 0x8F)
  }

  /** The bytes of the open sequence that led to a decoder state. */
  ghost predicate Opened(d: Decoder, open: Bytes) {
    if |open| == 0 then d == READY
    else if |open| == 1 then
      0xC2 <= open[0] <= 0xF4 && Push(READY, open[0]) == Some((d, []))
    else if |open| == 2 then
      && 0xE0 <= open[0] <= 0xF4 && SecondByteFits(open[0], open[1])
      && d == (if open[0] < 0xF0 then Decoder(1, Continued(LeadBits(open[0], 0xE0), open[1]), 0x80, 0xBF)
               else Decoder(2, Continued(LeadBits(open[0], 0xF0), open[1]), 0x80, 0xBF))
    else
      && |open| == 3 && 0xF0 <= open[0] <= 0xF4 && SecondByteFits(open[0], open[1]) && 0x80 <= open[2] <= 0xBF
      && d == Decoder(1, Continued(Continued(LeadBits(open[0], 0xF0), open[1]), open[2]), 0x80, 0xBF)
  }

  ghost predicate Completes(d: Decoder, open: Bytes, byte: Byte) {
    && Push(d, byte).Some?
    && var (next, text) := Push(d, byte).value;
       (text == [] && Opened(next, open + [byte]))
       || (next == READY && exists p: Scalar :: text == Units(p) && EncodeScalar(p) == open + [byte])
  }

  lemma CompletesAs(d: Decoder, open: Bytes, byte: Byte, p: Scalar)
    requires Push(d, byte) == Some((READY, Units(p))) && EncodeScalar(p) == open + [byte]
    ensures Completes(d, open, byte)
  {
  }

  /** A byte either continues the open sequence or completes the encoding of a scalar. */
  lemma CompletedSequence(d: Decoder, open: Bytes, byte: Byte)
    requires Opened(d, open) && Push(d, byte).Some?
    ensures Completes(d, open, byte)
  {
    if |open| == 0 {
      if byte <= 0x7F {
        CompletesAs(d, open, byte, byte);
      }
    } else if |open| == 1 {
      if open[0] <= 0xDF {
        var p: Scalar := Continued(d.point, byte);
        assert p / 0x40 == d.point && p % 0x40 == byte - 0x80;
        CompletesAs(d, open, byte, p);
      }
    } else if |open| == 2 {
      if open[0] < 0xF0 {
        CompletesThree(d, open, byte);
      }
    } else {
      CompletesFour(d, open, byte);
    }
  }

  lemma CompletesThree(d: Decoder, open: Bytes, byte: Byte)
    requires Opened(d, open) && Push(d, byte).Some? && |open| == 2 && open[0] < 0xF0
    ensures Completes(d, open, byte)
  {
    var p: Scalar := Continued(d.point, byte);
    assert p / 0x40 == d.point && p % 0x40 == byte - 0x80;
    assert d.point / 0x40 == open[0] - 0xE0 && d.point % 0x40 == open[1] - 0x80;
    assert p / 0x1000 == p / 0x40 / 0x40;
    CompletesAs(d, open, byte, p);
  }

  lemma FourDigits(a: int, b: int, c: int, e: int) returns (p: int)
    requires 0 <= a && 0 <= b < 0x40 && 0 <= c < 0x40 && 0 <= e < 0x40
    ensures p == Continued(Continued(Continued(a, 0x80 + b), 0x80 + c), 0x80 + e)
    ensures p / 0x4_0000 == a && p / 0x1000 % 0x40 == b && p / 0x40 % 0x40 == c && p % 0x40 == e
  {
    p := Continued(Continued(Continued(a, 0x80 + b), 0x80 + c), 0x80 + e);
    assert p / 0x40 == Continued(Continued(a, 0x80 + b), 0x80 + c);
    assert p / 0x1000 == p / 0x40 / 0x40 == Continued(a, 0x80 + b);
    assert p / 0x4_0000 == p / 0x1000 / 0x40 == a;
  }

  lemma CompletesFour(d: Decoder, open: Bytes, byte: Byte)
    requires Opened(d, open) && Push(d, byte).Some? && |open| == 3
    ensures Completes(d, open, byte)
  {
    var p := FourDigits(open[0] - 0xF0, open[1] - 0x80, open[2] - 0x80, byte - 0x80);
    assert p == Continued(d.point, byte) && p >= 0x1_0000;
    var bytes := EncodeScalar(p);
    assert bytes[0] == open[0] && bytes[1] == open[1] && bytes[2] == open[2] && bytes[3] == byte;
    assert EncodeScalar(p) == open + [byte];
    CompletesAs(d, open, byte, p);
  }

  lemma EncodeUnits(p: Scalar, text: Text)
    ensures Encode(Units(p) + text) == EncodeScalar(p) + Encode(text)
    ensures WellFormed(text) ==> WellFormed(Units(p) + text)
  {
    var all := Units(p) + text;
    if p < 0x1_0000 {
      assert all[1..] == text;
    } else {
      assert all[2..] == text;
      assert PairScalar(all[0], all[1]) == p;
    }
  }

  ghost predicate Spells(d: Decoder, open: Bytes, bytes: Bytes) {
    && Stream(d, bytes).Some?
    && Encode(Stream(d, bytes).value.1) == open + bytes && WellFormed(Stream(d, bytes).value.1)
  }

  /** One more scalar value, given how it is written as units. */
  lemma SpellsUnits(d: Decoder, open: Bytes, bytes: Bytes, units: Text)
    requires bytes != [] && Push(d, bytes[0]) == Some((READY, units)) && Spells(READY, [], bytes[1..])
    requires var rest := Stream(READY, bytes[1..]).value.1;
             Encode(units + rest) == open + [bytes[0]] + Encode(rest) && WellFormed(units + rest)
    ensures Spells(d, open, bytes)
  {
    StreamOn(d, bytes, READY, units);
    JoinBytes(open, bytes);
  }

  lemma StreamOn(d: Decoder, bytes: Bytes, next: Decoder, text: Text)
    requires bytes != [] && Push(d, bytes[0]) == Some((next, text)) && Stream(next, bytes[1..]).Some?
    ensures Stream(d, bytes).Some? && Stream(d, bytes).value.1 == text + Stream(next, bytes[1..]).value.1
  {
  }

  lemma JoinBytes(open: Bytes, bytes: Bytes)
    requires bytes != []
    ensures open + [bytes[0]] + ([] + bytes[1..]) == open + bytes
  {
  }

  lemma SpellsScalar(d: Decoder, open: Bytes, bytes: Bytes, p: Scalar)
    requires bytes != [] && Push(d, bytes[0]) == Some((READY, Units(p))) && EncodeScalar(p) == open + [bytes[0]]
    requires Spells(READY, [], bytes[1..])
    ensures Spells(d, open, bytes)
  {
    EncodeUnits(p, Stream(READY, bytes[1..]).value.1);
    SpellsUnits(d, open, bytes, Units(p));
  }

  lemma SpellsOn(d: Decoder, open: Bytes, bytes: Bytes, next: Decoder)
    requires bytes != [] && Push(d, bytes[0]) == Some((next, [])) && Spells(next, open + [bytes[0]], bytes[1..])
    ensures Spells(d, open, bytes)
  {
    assert bytes == [bytes[0]] + bytes[1..];
    StreamCons(d, bytes[0], bytes[1..]);
    assert open + bytes == open + [bytes[0]] + bytes[1..];
  }

  lemma {:induction false} StreamSpells(d: Decoder, open: Bytes, bytes: Bytes)
    requires Opened(d, open) && Stream(d, bytes).Some? && Stream(d, bytes).value.0.needed == 0
    ensures Spells(d, open, bytes)
    decreases bytes
  {
    if bytes != [] {
      CompletedSequence(d, open, bytes[0]);
      var (next, text) := Push(d, bytes[0]).value;
      if text == [] && Opened(next, open + [bytes[0]]) {
        StreamSpells(next, open + [bytes[0]], bytes[1..]);
        SpellsOn(d, open, bytes, next);
      } else {
        var p: Scalar :| text == Units(p) && EncodeScalar(p) == open + [bytes[0]];
        StreamSpells(READY, [], bytes[1..]);
        SpellsScalar(d, open, bytes, p);
      }
    }
  }

  /** Whatever decodes is well formed and is exactly the encoding of its text:
      decoding loses nothing, a byte-order mark included. */
  lemma EncodeDecoded(bytes: Bytes)
    requires Decode(bytes).Some?
    ensures Encode(Decode(bytes).value) == bytes && WellFormed(Decode(bytes).value)
  {
    StreamSpells(READY, [], bytes);
  }

  lemma Regroup(first: Bytes, middle: Bytes, last: Bytes)
    ensures first + (middle + last) == first + middle + last
  {
  }

  lemma EncodePairThen(a: Text, b: Text)
    requires StartsPair(a) && Encode(a[2..] + b) == Encode(a[2..]) + Encode(b)
    ensures Encode(a + b) == Encode(a) + Encode(b)
  {
    assert (a + b)[2..] == a[2..] + b;
    Regroup(EncodeScalar(PairScalar(a[0], a[1])), Encode(a[2..]), Encode(b));
  }

  lemma EncodeUnitThen(a: Text, b: Text)
    requires a != [] && !IsHigh(a[0]) && !IsLow(a[0]) && Encode(a[1..] + b) == Encode(a[1..]) + Encode(b)
    ensures Encode(a + b) == Encode(a) + Encode(b)
  {
    assert (a + b)[1..] == a[1..] + b;
    Regroup(EncodeScalar(a[0]), Encode(a[1..]), Encode(b));
  }

  /** After well-formed text the encoding goes on as if at the start. */
  lemma {:induction false} EncodeConcat(a: Text, b: Text)
    requires WellFormed(a)
    ensures Encode(a + b) == Encode(a) + Encode(b)
  {
    if a == [] {
      assert a + b == b;
    } else if StartsPair(a) {
      EncodeConcat(a[2..], b);
      EncodePairThen(a, b);
    } else {
      EncodeConcat(a[1..], b);
      EncodeUnitThen(a, b);
    }
  }
}
