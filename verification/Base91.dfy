/** basE91, `base91/src/lib.rs`: an encoder and a decoder that take bytes in any
    number of writes and append to an output buffer. */
module Base91 {
  import opened Wrappers
  import opened Bits
  import opened Base91Digits

  const INV: nat := 91

  // ----- The two tables, run by run -----

  function EncTab(d: Digit): Byte {
    if d < 26 then 'A' as int + d
    else if d < 52 then 'a' as int + (d - 26)
    else if d < 62 then '0' as int + (d - 52)
    else if d == 62 then '!' as int
    else if d < 67 then '#' as int + (d - 63)
    else if d < 72 then '(' as int + (d - 67)
    else if d < 74 then '.' as int + (d - 72)
    else if d < 81 then ':' as int + (d - 74)
    else if d == 81 then '[' as int
    else if d == 82 then ']' as int
    else if d < 86 then '^' as int + (d - 83)
    else if d < 90 then '{' as int + (d - 86)
    else '\"' as int
  }

  function DecTab(c: Byte): nat {
    if c < 33 then INV
    else if c == 33 then 62
    else if c == 34 then 90
    else if c < 39 then 63 + (c - 35)
    else if c == 39 then INV
    else if c < 45 then 67 + (c - 40)
    else if c == 45 then INV
    else if c < 48 then 72 + (c - 46)
    else if c < 58 then 52 + (c - 48)
    else if c < 65 then 74 + (c - 58)
    else if c < 91 then c - 65
    else if c == 91 then 81
    else if c == 92 then INV
    else if c == 93 then 82
    else if c < 97 then 83 + (c - 94)
    else if c < 123 then 26 + (c - 97)
    else if c < 127 then 86 + (c - 123)
    else INV
  }

  /** Upper case, lower case, figures, other marks, and the double quote by itself. */
  function Kind(c: Byte): nat {
    if 'A' as int <= c <= 'Z' as int then 0
    else if 'a' as int <= c <= 'z' as int then 1
    else if '0' as int <= c <= '9' as int then 2
    else if c != '\"' as int then 3
    else 4
  }

  /** The alphabet: all printable characters but the space, the apostrophe, the hyphen
      and the backslash, kind by kind and in each kind in order. */
  lemma {:induction false} Alphabet(d: Digit, e: Digit, c: Byte)
    ensures d < e ==> Kind(EncTab(d)) < Kind(EncTab(e)) || (Kind(EncTab(d)) == Kind(EncTab(e)) && EncTab(d) < EncTab(e))
    ensures DecTab(c) != INV <==> ' ' as int < c < 127 && c !in {'\'' as int, '-' as int, '\\' as int}
  {
  }

  /** The tables are inverse to each other: every digit has one byte, and the
      other bytes are invalid. */
  lemma {:induction false} TablesInverse(d: Digit, c: Byte)
    ensures DecTab(EncTab(d)) == d
    ensures DecTab(c) <= INV && (DecTab(c) != INV ==> EncTab(DecTab(c)) == c)
  {
  }

  function Chars(ds: seq<Digit>): (r: seq<Byte>)
    ensures |r| == |ds|
  {
    if ds == [] then [] else [EncTab(ds[0])] + Chars(ds[1..])
  }

  /** The digits among some bytes; other bytes are skipped. */
  function DigitsOf(cs: seq<Byte>): seq<Digit> {
    if cs == [] then []
    else (if DecTab(cs[0]) == INV then [] else [DecTab(cs[0])]) + DigitsOf(cs[1..])
  }

  lemma {:induction false} DigitsOfChars(ds: seq<Digit>)
    ensures DigitsOf(Chars(ds)) == ds
  {
    if ds != [] {
      TablesInverse(ds[0], 0);
      DigitsOfChars(ds[1..]);
      assert Chars(ds)[1..] == Chars(ds[1..]);
    }
  }

  lemma {:induction false} CharsConcat(a: seq<Digit>, b: seq<Digit>)
    ensures Chars(a + b) == Chars(a) + Chars(b)
  {
    if a == [] {
      assert a + b == b;
    } else {
      assert (a + b)[1..] == a[1..] + b;
      CharsConcat(a[1..], b);
    }
  }

  lemma {:induction false} DigitsOfConcat(a: seq<Byte>, b: seq<Byte>)
    ensures DigitsOf(a + b) == DigitsOf(a) + DigitsOf(b)
  {
    if a == [] {
      assert a + b == b;
    } else {
      assert (a + b)[1..] == a[1..] + b;
      DigitsOfConcat(a[1..], b);
    }
  }

  function Encoded(bs: seq<Byte>): seq<Byte> { Chars(Base91Digits.Encode(bs)) }

  function Decoded(cs: seq<Byte>): seq<Byte> { Base91Digits.Decode(DigitsOf(cs)) }

  /** `decode(encode(b)) == b` for every byte string. */
  lemma {:induction false} RoundTrip(bs: seq<Byte>)
    ensures Decoded(Encoded(bs)) == bs
  {
    DigitsOfChars(Base91Digits.Encode(bs));
    DecodeEncode(bs);
  }

  /** A byte outside the alphabet changes nothing, wherever it is inserted. */
  lemma {:induction false} ForeignByteIgnored(a: seq<Byte>, c: Byte, b: seq<Byte>)
    requires DecTab(c) == INV
    ensures Decoded(a + [c] + b) == Decoded(a + b)
  {
    DigitsOfConcat(a + [c], b);
    DigitsOfConcat(a, [c]);
    DigitsOfConcat(a, b);
    assert [c][1..] == [];
    assert DigitsOf([c]) == [] + DigitsOf([c][1..]) == [];
    assert DigitsOf(a) + [] == DigitsOf(a);
  }

  /** On any input the decoder holds fewer than eight bits back, and its
      accumulator holds no more than those. */
  lemma {:induction false} FewBitsPending(cs: seq<Byte>)
    ensures var d := DecodeDigits(FRESH, DigitsOf(cs)); d.bits < 8 && d.accumulator < Pow2(d.bits)
  {
    var s := DecodeDigitsBits(FRESH, [], [], DigitsOf(cs));
    FromBitsBound(s);
  }

  lemma {:induction false} SizeOfEncoded(bs: seq<Byte>)
    ensures 8 * |bs| <= 7 * |Encoded(bs)|
    ensures |Encoded(bs)| <= 2 * ((8 * |bs| + 12) / 13)
  {
    EncodedSize(bs);
  }

  // ----- The writers -----

  lemma {:induction false} DrainAppends(out: seq<Digit>, accumulator: nat, bits: nat)
    ensures var e0 := Drain([], accumulator, bits);
            Drain(out, accumulator, bits) == e0.(out := out + e0.out)
  {
    var e0 := Drain([], accumulator, bits);
    GroupFits(accumulator);
    if bits > 13 {
      var pair := TwoDigits(Mask(accumulator, if Mask(accumulator, 13) > 88 then 13 else 14));
      assert e0.out == [] + pair == pair;
    } else {
      assert out + [] == out;
    }
  }

  lemma {:induction false} EncodeOneMore(e: Encoding, bs: seq<Byte>, i: nat)
    requires i < |bs|
    ensures EncodeBytes(e, bs[..i + 1]) == EncodeByte(EncodeBytes(e, bs[..i]), bs[i])
  {
    assert bs[..i + 1] == bs[..i] + [bs[i]];
    EncodeSplit(e, bs[..i], [bs[i]]);
    assert [bs[i]][1..] == [];
    assert EncodeBytes(EncodeByte(EncodeBytes(e, bs[..i]), bs[i]), []) == EncodeByte(EncodeBytes(e, bs[..i]), bs[i]);
  }

  class Base91Encoder {
    var writer: seq<Byte>
    var accumulator: nat
    var bits: nat

    ghost predicate Valid()
      reads this
    {
      accumulator < Pow2(bits) && bits <= 13
    }

    constructor ()
      ensures Valid() && writer == [] && accumulator == 0 && bits == 0
    {
      writer, accumulator, bits := [], 0, 0;
    }

    /** The two characters of a group, once there are bits enough for one. */
    method WriteGroup()
      modifies this
      ensures var d := Drain([], old(accumulator), old(bits));
              writer == old(writer) + Chars(d.out) && accumulator == d.accumulator && bits == d.bits
    {
      GroupFits(accumulator);
      if bits > 13 {
        var value := Mask(accumulator, 13);
        if value > 88 {
          accumulator := Shr(accumulator, 13);
          bits := bits - 13;
        } else {
          value := Mask(accumulator, 14);
          accumulator := Shr(accumulator, 14);
          bits := bits - 14;
        }
        CharsOfPair(TwoDigits(value));
        writer := writer + [EncTab(value % 91), EncTab(value / 91)];
      }
    }

    method Write(buf: seq<Byte>) returns (n: nat)
      requires Valid()
      modifies this
      ensures Valid() && n == |buf|
      ensures var e := EncodeBytes(Encoding([], old(accumulator), old(bits)), buf);
              writer == old(writer) + Chars(e.out) && accumulator == e.accumulator && bits == e.bits
    {
      ghost var start := Encoding([], accumulator, bits);
      ghost var s := ToBits(accumulator, bits);
      FromToBits(accumulator, bits);
      var i := 0;
      while i < |buf|
        invariant i <= |buf|
        invariant writer == old(writer) + Chars(EncodeBytes(start, buf[..i]).out)
        invariant accumulator == EncodeBytes(start, buf[..i]).accumulator
        invariant bits == EncodeBytes(start, buf[..i]).bits
      {
        ghost var before := EncodeBytes(start, buf[..i]);
        EncodeOneMore(start, buf, i);
        accumulator := Or(accumulator, Shl(buf[i], bits, 64));
        bits := bits + 8;
        DrainAppends(before.out, accumulator, bits);
        CharsConcat(before.out, Drain([], accumulator, bits).out);
        WriteGroup();
        i := i + 1;
      }
      assert buf[..i] == buf;
      StaysValid(start, s, buf);
      return |buf|;
    }

    method Flush()
      requires Valid()
      modifies this
      ensures Valid() && accumulator == 0 && bits == 0
      ensures writer == old(writer) + Chars(Tail(Encoding([], old(accumulator), old(bits))))
    {
      ShortTailFits(Encoding([], accumulator, bits));
      if bits > 0 {
        var value := accumulator;
        if bits > 7 || accumulator > 90 {
          CharsOfPair(TwoDigits(value));
          writer := writer + [EncTab(value % 91), EncTab(value / 91)];
        } else {
          CharsOfOne(value % 91);
          writer := writer + [EncTab(value % 91)];
        }
      }
      bits := 0;
      accumulator := 0;
    }
  }

  lemma {:induction false} CharsOfPair(pair: seq<Digit>)
    requires |pair| == 2
    ensures Chars(pair) == [EncTab(pair[0]), EncTab(pair[1])]
  {
    assert pair[1..] == [pair[1]] && pair[1..][1..] == [];
    assert Chars(pair[1..]) == [EncTab(pair[1])] + Chars(pair[1..][1..]);
  }

  lemma {:induction false} CharsOfOne(digit: Digit)
    ensures Chars([digit]) == [EncTab(digit)]
  {
    assert [digit][1..] == [];
  }

  lemma {:induction false} StaysValid(e: Encoding, s: seq<bool>, bs: seq<Byte>)
    requires e.out == [] && Holds(e.accumulator, e.bits, s) && |s| <= 13
    ensures EncodeBytes(e, bs).Valid()
  {
    var s' := EncodeBytesBits(e, s, s, bs);
    FromBitsBound(s');
  }

  method Encode(buf: seq<Byte>) returns (result: seq<Byte>)
    ensures result == Encoded(buf)
  {
    var writer := new Base91Encoder();
    var _ := writer.Write(buf);
    writer.Flush();
    CharsConcat(EncodeBytes(START, buf).out, Tail(EncodeBytes(START, buf)));
    result := writer.writer;
  }

  lemma {:induction false} DecodeOneMore(d: Decoding, cs: seq<Byte>, i: nat)
    requires i < |cs|
    ensures DecodeDigits(d, DigitsOf(cs[..i + 1])) ==
            if DecTab(cs[i]) == INV then DecodeDigits(d, DigitsOf(cs[..i]))
            else DecodeDigit(DecodeDigits(d, DigitsOf(cs[..i])), DecTab(cs[i]))
  {
    var c := cs[i];
    assert cs[..i + 1] == cs[..i] + [c];
    DigitsOfConcat(cs[..i], [c]);
    assert [c][1..] == [];
    assert DigitsOf([c]) == (if DecTab(c) == INV then [] else [DecTab(c)]) + DigitsOf([c][1..]);
    if DecTab(c) == INV {
      assert DigitsOf(cs[..i]) + [] == DigitsOf(cs[..i]);
    } else {
      TablesInverse(0, c);
      var one: seq<Digit> := [DecTab(c)];
      assert DigitsOf([c]) == one;
      DecodeSplit(d, DigitsOf(cs[..i]), one);
      assert one[1..] == [];
      assert DecodeDigits(DecodeDigit(DecodeDigits(d, DigitsOf(cs[..i])), one[0]), one[1..])
          == DecodeDigit(DecodeDigits(d, DigitsOf(cs[..i])), one[0]);
    }
  }

  class Base91Decoder {
    var writer: seq<Byte>
    var accumulator: nat
    var bits: nat
    var value: Option<Digit>

    function View(): Decoding
      reads this
    {
      Decoding(writer, accumulator, bits, value)
    }

    constructor ()
      ensures View() == FRESH
    {
      writer, accumulator, bits, value := [], 0, 0, None;
    }

    method Write(buf: seq<Byte>) returns (n: nat)
      modifies this
      ensures n == |buf| && View() == DecodeDigits(old(View()), DigitsOf(buf))
    {
      var i := 0;
      while i < |buf|
        invariant i <= |buf|
        invariant View() == DecodeDigits(old(View()), DigitsOf(buf[..i]))
      {
        DecodeOneMore(old(View()), buf, i);
        TablesInverse(0, buf[i]);
        var d := DecTab(buf[i]);
        if d != INV {
          if value.Some? {
            var v := value.value + d * 91;
            value := None;
            accumulator := Or(accumulator, Shl(v, bits, 64));
            bits := bits + if Mask(v, 13) > 88 then 13 else 14;
            EmitWholeBytes();
          } else {
            value := Some(d);
          }
        }
        i := i + 1;
      }
      assert buf[..i] == buf;
      return |buf|;
    }

    method EmitWholeBytes()
      requires bits >= 8 && value == None
      modifies this
      ensures View() == Emit(old(writer), old(accumulator), old(bits))
    {
      while true
        invariant bits >= 8 && value == None
        invariant Emit(writer, accumulator, bits) == Emit(old(writer), old(accumulator), old(bits))
        decreases bits
      {
        ByteFits(accumulator);
        writer := writer + [Mask(accumulator, 8)];
        accumulator := Shr(accumulator, 8);
        bits := bits - 8;
        if bits < 8 {
          break;
        }
      }
    }

    method Flush()
      modifies this
      ensures View() == Decoding(old(writer) + LastByte(old(View())), 0, 0, None)
    {
      if value.Some? {
        LastByteFits(accumulator, value.value, bits);
        writer := writer + [Or(Mask(accumulator, 8), Shl(value.value, bits, 8))];
        value := None;
      }
      bits := 0;
      accumulator := 0;
    }
  }

  method Decode(buf: seq<Byte>) returns (result: seq<Byte>)
    ensures result == Decoded(buf)
  {
    var writer := new Base91Decoder();
    var _ := writer.Write(buf);
    writer.Flush();
    result := writer.writer;
  }
}
