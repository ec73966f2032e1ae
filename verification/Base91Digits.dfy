/** The arithmetic core of basE91, `base91/src/lib.rs`: bytes to base-91 digits
    and back, keeping the bits of an unfinished group in an accumulator.

    Encoder and decoder are machines on the bits sent so far; the round trip is
    that both have seen the same bits. */
module Base91Digits {
  import opened Wrappers
  import opened Sequences
  import opened Bits

  /** A digit in base 91. */
  type Digit = x: nat | x < 91

  lemma {:induction false} Powers()
    ensures Pow2(6) == 64 && Pow2(7) == 128 && Pow2(8) == 256 && Pow2(13) == 8192 && Pow2(14) == 16384
  {
    assert Pow2(3) == 8;
    assert Pow2(5) == 4 * Pow2(3);
    assert Pow2(7) == 4 * Pow2(5);
    assert Pow2(9) == 4 * Pow2(7);
    assert Pow2(11) == 4 * Pow2(9);
    assert Pow2(13) == 4 * Pow2(11);
  }

  /** The number of bits two digits carry. */
  function GroupSize(value: nat): nat { if Mask(value, 13) > 88 then 13 else 14 }

  /** Two digits for a value below 91 * 91, the low one first. */
  function TwoDigits(value: nat): (r: seq<Digit>)
    requires value < 91 * 91
    ensures |r| == 2 && r[0] as int + r[1] as int * 91 == value
  {
    [value % 91, value / 91]
  }

  // ----- Encoding -----

  /** Digits written so far, and the state of the accumulator. */
  datatype Encoding = Encoding(out: seq<Digit>, accumulator: nat, bits: nat) {
    predicate Valid() { accumulator < Pow2(bits) && bits <= 13 }
  }

  lemma {:induction false} GroupFits(accumulator: nat)
    ensures Mask(accumulator, 13) < 91 * 91
    ensures Mask(accumulator, 13) <= 88 ==> Mask(accumulator, 14) < 91 * 91
  {
    Powers();
    MaskBound(accumulator, 13);
    MaskStep(accumulator, 13);
  }

  /** A full group of the accumulator is written out. */
  function Drain(out: seq<Digit>, accumulator: nat, bits: nat): Encoding {
    GroupFits(accumulator);
    if bits > 13 then
      if Mask(accumulator, 13) > 88 then
        Encoding(out + TwoDigits(Mask(accumulator, 13)), Shr(accumulator, 13), bits - 13)
      else
        Encoding(out + TwoDigits(Mask(accumulator, 14)), Shr(accumulator, 14), bits - 14)
    else
      Encoding(out, accumulator, bits)
  }

  function EncodeByte(e: Encoding, b: Byte): Encoding {
    Drain(e.out, Or(e.accumulator, Shl(b, e.bits, 64)), e.bits + 8)
  }

  function EncodeBytes(e: Encoding, bs: seq<Byte>): Encoding
    decreases |bs|
  {
    if bs == [] then e else EncodeBytes(EncodeByte(e, bs[0]), bs[1..])
  }

  lemma {:induction false} ShortTailFits(e: Encoding)
    requires e.Valid()
    ensures e.accumulator < 8192
    ensures e.bits <= 7 ==> e.accumulator < 128
  {
    Powers();
    Pow2Monotone(e.bits, 13);
    if e.bits <= 7 {
      Pow2Monotone(e.bits, 7);
    }
  }

  /** What `flush` writes for the bits that are left. */
  function Tail(e: Encoding): seq<Digit>
    requires e.Valid()
  {
    ShortTailFits(e);
    if e.bits == 0 then []
    else if e.bits > 7 || e.accumulator > 90 then TwoDigits(e.accumulator)
    else [e.accumulator % 91]
  }

  const START: Encoding := Encoding([], 0, 0)

  // ----- Decoding -----

  datatype Decoding = Decoding(out: seq<Byte>, accumulator: nat, bits: nat, value: Option<Digit>) {
    predicate Valid() { accumulator < Pow2(bits) && bits < 8 }
  }

  lemma {:induction false} ByteFits(accumulator: nat)
    ensures Mask(accumulator, 8) < 256
  {
    Powers();
    MaskBound(accumulator, 8);
  }

  /** The inner loop: writes whole bytes until fewer than eight bits are left. */
  function Emit(out: seq<Byte>, accumulator: nat, bits: nat): Decoding
    requires bits >= 8
    decreases bits
  {
    ByteFits(accumulator);
    var out' := out + [Mask(accumulator, 8)];
    if bits - 8 < 8 then Decoding(out', Shr(accumulator, 8), bits - 8, None)
    else Emit(out', Shr(accumulator, 8), bits - 8)
  }

  function DecodeDigit(d: Decoding, digit: Digit): Decoding {
    match d.value
    case None => d.(value := Some(digit))
    case Some(low) =>
      var value := low + digit * 91;
      Emit(d.out, Or(d.accumulator, Shl(value, d.bits, 64)), d.bits + GroupSize(value))
  }

  function DecodeDigits(d: Decoding, ds: seq<Digit>): Decoding
    decreases |ds|
  {
    if ds == [] then d else DecodeDigits(DecodeDigit(d, ds[0]), ds[1..])
  }

  lemma {:induction false} OrBound(a: nat, b: nat, k: nat)
    requires a < Pow2(k) && b < Pow2(k)
    ensures Or(a, b) < Pow2(k)
  {
    if a != 0 && b != 0 && k > 0 {
      OrBound(a / 2, b / 2, k - 1);
    }
  }

  lemma {:induction false} LastByteFits(accumulator: nat, low: nat, bits: nat)
    ensures Or(Mask(accumulator, 8), Shl(low, bits, 8)) < 256
  {
    Powers();
    MaskBound(accumulator, 8);
    MaskBound(Double(low, bits), 8);
    OrBound(Mask(accumulator, 8), Shl(low, bits, 8), 8);
  }

  /** What `flush` writes: a lone last digit goes on top of the pending bits. */
  function LastByte(d: Decoding): seq<Byte> {
    match d.value
    case None => []
    case Some(low) => LastByteFits(d.accumulator, low, d.bits); [Or(Mask(d.accumulator, 8), Shl(low, d.bits, 8))]
  }

  const FRESH: Decoding := Decoding([], 0, 0, None)

  // ----- The bit strings that the two sides carry -----

  function BytesBits(bs: seq<Byte>): seq<bool>
    decreases |bs|
  {
    if bs == [] then [] else ToBits(bs[0], 8) + BytesBits(bs[1..])
  }

  /** The bits carried by two digits. */
  function PairBits(low: Digit, high: Digit): seq<bool> {
    ToBits(low + high * 91, GroupSize(low + high * 91))
  }

  /** The bits carried by digits, pair by pair, when `value` waits for its second digit. */
  function Payload(value: Option<Digit>, ds: seq<Digit>): seq<bool>
    decreases |ds|
  {
    if ds == [] then []
    else match value
      case None => Payload(Some(ds[0]), ds[1..])
      case Some(low) => PairBits(low, ds[0]) + Payload(None, ds[1..])
  }

  /** The digit that waits for its second one after `ds`. */
  function Waiting(value: Option<Digit>, ds: seq<Digit>): Option<Digit>
    decreases |ds|
  {
    if ds == [] then value
    else Waiting(if value.None? then Some(ds[0]) else None, ds[1..])
  }

  lemma {:induction false} BytesBitsConcat(a: seq<Byte>, b: seq<Byte>)
    ensures BytesBits(a + b) == BytesBits(a) + BytesBits(b)
    decreases |a|
  {
    if a == [] {
      assert a + b == b;
    } else {
      assert (a + b)[1..] == a[1..] + b;
      BytesBitsConcat(a[1..], b);
    }
  }

  lemma {:induction false} BytesBitsLength(a: seq<Byte>)
    ensures |BytesBits(a)| == 8 * |a|
    decreases |a|
  {
    if a != [] {
      BytesBitsLength(a[1..]);
    }
  }

  lemma {:induction false} BytesBitsInjective(a: seq<Byte>, b: seq<Byte>)
    requires BytesBits(a) == BytesBits(b)
    ensures a == b
    decreases |a|
  {
    BytesBitsLength(a);
    BytesBitsLength(b);
    if a != [] {
      Powers();
      assert ToBits(a[0], 8) == BytesBits(a)[..8] == ToBits(b[0], 8);
      assert BytesBits(a[1..]) == BytesBits(a)[8..] == BytesBits(b[1..]);
      FromToBits(a[0], 8);
      FromToBits(b[0], 8);
      BytesBitsInjective(a[1..], b[1..]);
    }
  }

  lemma {:induction false} PayloadConcat(value: Option<Digit>, a: seq<Digit>, b: seq<Digit>)
    ensures Payload(value, a + b) == Payload(value, a) + Payload(Waiting(value, a), b)
    ensures Waiting(value, a + b) == Waiting(Waiting(value, a), b)
    decreases |a|
  {
    if a == [] {
      assert a + b == b;
    } else {
      assert (a + b)[1..] == a[1..] + b;
      match value
      case None =>
        PayloadConcat(Some(a[0]), a[1..], b);
      case Some(low) =>
        PayloadConcat(None, a[1..], b);
        Assoc(PairBits(low, a[0]), Payload(None, a[1..]), Payload(Waiting(value, a), b));
    }
  }

  lemma {:induction false} PayloadPair(pair: seq<Digit>)
    requires |pair| == 2
    ensures Payload(None, pair) == PairBits(pair[0], pair[1])
    ensures Waiting(None, pair) == None
  {
    var one := pair[1..];
    assert one[1..] == [];
    assert Payload(Some(pair[0]), one) == PairBits(pair[0], one[0]) + Payload(None, one[1..]);
    assert Waiting(Some(pair[0]), one) == Waiting(None, one[1..]);
  }

  // ----- The encoder loses no bit -----

  /** The accumulator holds the bits `s`. */
  ghost predicate Holds(accumulator: nat, bits: nat, s: seq<bool>) {
    accumulator == FromBits(s) && bits == |s|
  }

  /** The group that a full accumulator `s` gives up: all its own bits, nothing else. */
  lemma {:induction false} GroupBits(s: seq<bool>, k: nat) returns (value: nat)
    requires |s| > 13
    requires k == if Mask(FromBits(s), 13) > 88 then 13 else 14
    ensures value == Mask(FromBits(s), k) < 91 * 91
    ensures ToBits(value, GroupSize(value)) == s[..k]
    ensures Shr(FromBits(s), k) == FromBits(s[k..])
  {
    value := Mask(FromBits(s), k);
    GroupFits(FromBits(s));
    TakeDrop(s, k);
    TakeDrop(s, 13);
    TakeDrop(s[..k], 13);
    assert s[..k][..13] == s[..13];
    assert GroupSize(FromBits(s[..k])) == k;
    ToFromBits(s[..k]);
  }

  lemma {:induction false} DrainShape(out: seq<Digit>, accumulator: nat, t: seq<bool>)
    returns (k: nat, pair: seq<Digit>)
    requires |t| > 13 && accumulator == FromBits(t)
    ensures 13 <= k <= 14 && |pair| == 2 && PairBits(pair[0], pair[1]) == t[..k]
    ensures Drain(out, accumulator, |t|) == Encoding(out + pair, FromBits(t[k..]), |t| - k)
  {
    k := if Mask(accumulator, 13) > 88 then 13 else 14;
    var value := GroupBits(t, k);
    pair := TwoDigits(value);
    assert Drain(out, accumulator, |t|) == Encoding(out + pair, Shr(accumulator, k), |t| - k);
  }

  lemma {:induction false} Regroup<T>(a: seq<T>, t: seq<T>, k: nat)
    requires k <= |t|
    ensures (a + t[..k]) + t[k..] == a + t
  {
  }

  lemma {:induction false} GroupWritten(out: seq<Digit>, t: seq<bool>, k: nat, pair: seq<Digit>)
    requires Waiting(None, out) == None && k <= |t| && |pair| == 2 && PairBits(pair[0], pair[1]) == t[..k]
    ensures Payload(None, out + pair) + t[k..] == Payload(None, out) + t
    ensures Waiting(None, out + pair) == None
  {
    PayloadConcat(None, out, pair);
    PayloadPair(pair);
    Regroup(Payload(None, out), t, k);
  }

  /** `e` holds the bits `s` and has written whole pairs carrying the rest of `whole`. */
  ghost predicate Encodes(e: Encoding, s: seq<bool>, whole: seq<bool>) {
    && Holds(e.accumulator, e.bits, s) && |s| <= 13 && Waiting(None, e.out) == None
    && Payload(None, e.out) + s == whole
  }

  lemma {:induction false} DrainBits(out: seq<Digit>, t: seq<bool>) returns (s': seq<bool>)
    requires |t| <= 21 && Waiting(None, out) == None
    ensures Encodes(Drain(out, FromBits(t), |t|), s', Payload(None, out) + t)
  {
    s' := t;
    if |t| > 13 {
      var k, pair := DrainShape(out, FromBits(t), t);
      GroupWritten(out, t, k, pair);
      s' := t[k..];
    }
  }

  /** One byte in: its bits follow the bits written and the bits pending. */
  lemma {:induction false} EncodeByteBits(e: Encoding, s: seq<bool>, whole: seq<bool>, b: Byte) returns (s': seq<bool>)
    requires Encodes(e, s, whole)
    ensures Encodes(EncodeByte(e, b), s', whole + ToBits(b, 8))
  {
    Powers();
    OrShlAppends(s, b, 8, 64);
    s' := DrainBits(e.out, s + ToBits(b, 8));
    Assoc(Payload(None, e.out), s, ToBits(b, 8));
  }

  lemma {:induction false} EncodeBytesBits(e: Encoding, s: seq<bool>, whole: seq<bool>, bs: seq<Byte>)
    returns (s': seq<bool>)
    requires Encodes(e, s, whole)
    ensures Encodes(EncodeBytes(e, bs), s', whole + BytesBits(bs))
    decreases |bs|
  {
    s' := s;
    if bs == [] {
      assert whole + [] == whole;
    } else {
      var s1 := EncodeByteBits(e, s, whole, bs[0]);
      s' := EncodeBytesBits(EncodeByte(e, bs[0]), s1, whole + ToBits(bs[0], 8), bs[1..]);
      Assoc(whole, ToBits(bs[0], 8), BytesBits(bs[1..]));
    }
  }

  // ----- The decoder loses no bit -----

  lemma {:induction false} OneByteBits(b: Byte)
    ensures BytesBits([b]) == ToBits(b, 8)
  {
    assert [b][1..] == [];
  }

  /** `d` has written and holds the bits `whole`, fewer than eight of them pending. */
  ghost predicate Decodes(d: Decoding, s: seq<bool>, whole: seq<bool>) {
    && Holds(d.accumulator, d.bits, s) && |s| < 8
    && BytesBits(d.out) + s == whole
  }

  lemma {:induction false} EmitBits(out: seq<Byte>, s: seq<bool>) returns (s': seq<bool>)
    requires |s| >= 8
    ensures var d := Emit(out, FromBits(s), |s|);
            && Decodes(d, s', BytesBits(out) + s) && d.value == None
            && |d.out| == |out| + |s| / 8
    decreases |s|
  {
    TakeDrop(s, 8);
    ToFromBits(s[..8]);
    ByteFits(FromBits(s));
    var b: Byte := Mask(FromBits(s), 8);
    BytesBitsConcat(out, [b]);
    OneByteBits(b);
    Regroup(BytesBits(out), s, 8);
    if |s| - 8 >= 8 {
      s' := EmitBits(out + [b], s[8..]);
    } else {
      s' := s[8..];
    }
  }

  /** A pair of digits never has a bit beyond its group size. */
  lemma {:induction false} PairFits(value: nat)
    requires value < 91 * 91
    ensures value < Pow2(GroupSize(value))
  {
    Powers();
    MaskSmall(value, 14);
    MaskStep(value, 13);
    MaskBound(value, 13);
    if value < 8192 {
      MaskSmall(value, 13);
    }
  }

  lemma {:induction false} PushPair(accumulator: nat, bits: nat, s: seq<bool>, value: nat)
    requires Holds(accumulator, bits, s) && |s| < 8 && value < 91 * 91
    ensures var t := s + ToBits(value, GroupSize(value));
            Or(accumulator, Shl(value, bits, 64)) == FromBits(t) && bits + GroupSize(value) == |t|
  {
    PairFits(value);
    OrShlAppends(s, value, GroupSize(value), 64);
  }

  /** The second digit of a pair: its group is appended and whole bytes go out. */
  lemma {:induction false} DecodePairBits(d: Decoding, s: seq<bool>, whole: seq<bool>, high: Digit)
    returns (s': seq<bool>)
    requires Decodes(d, s, whole) && d.value.Some?
    ensures var (d', pair) := (DecodeDigit(d, high), PairBits(d.value.value, high));
            && Decodes(d', s', whole + pair) && d'.value == None
            && |d'.out| == |d.out| + (|s| + |pair|) / 8
  {
    var pair := PairBits(d.value.value, high);
    PushPair(d.accumulator, d.bits, s, d.value.value + high * 91);
    s' := EmitBits(d.out, s + pair);
    Assoc(BytesBits(d.out), s, pair);
  }

  lemma {:induction false} DecodeDigitBits(d: Decoding, s: seq<bool>, whole: seq<bool>, digit: Digit)
    returns (s': seq<bool>)
    requires Decodes(d, s, whole)
    ensures Decodes(DecodeDigit(d, digit), s', if d.value.None? then whole else whole + PairBits(d.value.value, digit))
    ensures DecodeDigit(d, digit).value == if d.value.None? then Some(digit) else None
  {
    s' := s;
    if d.value.Some? {
      s' := DecodePairBits(d, s, whole, digit);
    }
  }

  /** On any digits at all: the decoder writes and holds exactly their payload,
      and keeps fewer than eight bits pending. */
  lemma {:induction false} DecodeDigitsBits(d: Decoding, s: seq<bool>, whole: seq<bool>, ds: seq<Digit>)
    returns (s': seq<bool>)
    requires Decodes(d, s, whole)
    ensures Decodes(DecodeDigits(d, ds), s', whole + Payload(d.value, ds))
    ensures DecodeDigits(d, ds).value == Waiting(d.value, ds)
    decreases |ds|
  {
    s' := s;
    if ds == [] {
      assert whole + [] == whole;
    } else {
      var s1 := DecodeDigitBits(d, s, whole, ds[0]);
      match d.value {
        case None =>
          s' := DecodeDigitsBits(DecodeDigit(d, ds[0]), s1, whole, ds[1..]);
        case Some(low) =>
          s' := DecodeDigitsBits(DecodeDigit(d, ds[0]), s1, whole + PairBits(low, ds[0]), ds[1..]);
          Assoc(whole, PairBits(low, ds[0]), Payload(None, ds[1..]));
      }
    }
  }

  // ----- Chunking -----

  /** The encoder does not care how its input is split across writes. */
  lemma {:induction false} EncodeSplit(e: Encoding, a: seq<Byte>, b: seq<Byte>)
    ensures EncodeBytes(e, a + b) == EncodeBytes(EncodeBytes(e, a), b)
    decreases |a|
  {
    if a == [] {
      assert a + b == b;
    } else {
      assert (a + b)[1..] == a[1..] + b;
      EncodeSplit(EncodeByte(e, a[0]), a[1..], b);
    }
  }

  lemma {:induction false} DecodeSplit(d: Decoding, a: seq<Digit>, b: seq<Digit>)
    ensures DecodeDigits(d, a + b) == DecodeDigits(DecodeDigits(d, a), b)
    decreases |a|
  {
    if a == [] {
      assert a + b == b;
    } else {
      assert (a + b)[1..] == a[1..] + b;
      DecodeSplit(DecodeDigit(d, a[0]), a[1..], b);
    }
  }

  // ----- The round trip -----

  lemma {:induction false} EncodeRuns(bs: seq<Byte>) returns (s: seq<bool>)
    ensures var e := EncodeBytes(START, bs);
            e.Valid() && Encodes(e, s, BytesBits(bs))
  {
    s := EncodeBytesBits(START, [], [], bs);
    FromBitsBound(s);
    assert [] + BytesBits(bs) == BytesBits(bs);
  }

  /** The digits of a whole byte string. */
  function Encode(bs: seq<Byte>): seq<Digit> {
    var e := EncodeBytes(START, bs);
    assert e.Valid() by { var s := EncodeRuns(bs); }
    e.out + Tail(e)
  }

  function Decode(ds: seq<Digit>): seq<Byte> {
    DecodeDigits(FRESH, ds).out + LastByte(DecodeDigits(FRESH, ds))
  }

  /** Bytes whose bits begin the bits of `b` begin `b`. */
  lemma {:induction false} BytesPrefix(x: seq<Byte>, y: seq<bool>, b: seq<Byte>)
    requires BytesBits(x) + y == BytesBits(b)
    ensures |x| <= |b| && x == b[..|x|] && y == BytesBits(b[|x|..])
  {
    BytesBitsLength(x);
    BytesBitsLength(b);
    var n := |x|;
    BytesBitsConcat(b[..n], b[n..]);
    assert b == b[..n] + b[n..];
    BytesBitsLength(b[..n]);
    SamePrefix(BytesBits(x), y, BytesBits(b[..n]), BytesBits(b[n..]));
    BytesBitsInjective(x, b[..n]);
  }

  lemma {:induction false} SamePrefix<T>(a: seq<T>, x: seq<T>, b: seq<T>, y: seq<T>)
    requires a + x == b + y && |a| == |b|
    ensures a == b && x == y
  {
    assert (a + x)[..|a|] == a && (b + y)[..|b|] == b;
    assert (a + x)[|a|..] == x && (b + y)[|b|..] == y;
  }

  /** Extra zero bits past the last byte are dropped. */
  lemma {:induction false} BytesOfPadded(x: seq<Byte>, s: seq<bool>, b: seq<Byte>, zeros: seq<bool>)
    requires BytesBits(x) + s == BytesBits(b) + zeros && |x| == |b|
    ensures x == b
  {
    BytesBitsLength(x);
    BytesBitsLength(b);
    SamePrefix(BytesBits(x), s, BytesBits(b), zeros);
    BytesBitsInjective(x, b);
  }

  lemma {:induction false} DecodeTwo(d: Decoding, pair: seq<Digit>)
    requires |pair| == 2 && d.value == None
    ensures DecodeDigits(d, pair) == DecodeDigit(d.(value := Some(pair[0])), pair[1])
  {
    assert pair[1..] == [pair[1]] && pair[1..][1..] == [];
    assert DecodeDigits(d.(value := Some(pair[0])), [pair[1]]) == DecodeDigit(d.(value := Some(pair[0])), pair[1]);
  }

  lemma {:induction false} PaddedTail(out: seq<Byte>, s1: seq<bool>, s: seq<bool>, zeros: seq<bool>, out': seq<Byte>,
                                      s': seq<bool>, b: seq<Byte>)
    requires BytesBits(out) + (s1 + s) == BytesBits(b) && |zeros| < 8
    requires BytesBits(out') + s' == (BytesBits(out) + s1) + (s + zeros)
    requires |out'| == |out| + (|s1| + |s| + |zeros|) / 8
    ensures out' == b
  {
    BytesPrefix(out, s1 + s, b);
    BytesBitsLength(b[|out|..]);
    Assoc(BytesBits(out) + s1, s, zeros);
    Assoc(BytesBits(out), s1, s);
    BytesOfPadded(out', s', b, zeros);
  }

  /** A tail of two digits, `low` waiting for `high`, restores the bytes its bits belong to. */
  lemma {:induction false} TwoDigitTail(d: Decoding, s1: seq<bool>, s: seq<bool>, b: seq<Byte>, low: Digit, high: Digit)
    requires Decodes(d, s1, BytesBits(d.out) + s1) && d.value == Some(low)
    requires 7 <= |s| <= 13 && FromBits(s) == low + high * 91
    requires BytesBits(d.out) + (s1 + s) == BytesBits(b)
    ensures DecodeDigit(d, high).out == b && DecodeDigit(d, high).value == None
  {
    var bits := PairBits(low, high);
    ToBitsPads(s, |bits|);
    var s' := DecodePairBits(d, s1, BytesBits(d.out) + s1, high);
    PaddedTail(d.out, s1, s, Zeros(|bits| - |s|), DecodeDigit(d, high).out, s', b);
  }

  lemma {:induction false} LastByteBits(accumulator: nat, s1: seq<bool>, s: seq<bool>, b: Byte)
    requires accumulator == FromBits(s1) && |s1| < 8 && s1 + s == ToBits(b, 8)
    ensures Or(Mask(accumulator, 8), Shl(FromBits(s), |s1|, 8)) == b
  {
    Powers();
    FromBitsBound(s1);
    FromBitsBound(s);
    ToFromBits(s);
    Pow2Monotone(|s1|, 8);
    MaskSmall(accumulator, 8);
    OrShlAppends(s1, FromBits(s), |s|, 8);
    FromToBits(b, 8);
  }

  /** A tail of one digit completes the pending bits to the last byte. */
  lemma {:induction false} OneDigitTail(d: Decoding, s1: seq<bool>, s: seq<bool>, b: seq<Byte>, low: Digit)
    requires Decodes(d, s1, BytesBits(d.out) + s1) && d.value == None
    requires 1 <= |s| <= 7 && FromBits(s) == low
    requires BytesBits(d.out) + (s1 + s) == BytesBits(b)
    ensures d.out + LastByte(d.(value := Some(low))) == b
  {
    BytesPrefix(d.out, s1 + s, b);
    var rest := b[|d.out|..];
    BytesBitsLength(rest);
    assert |rest| == 1 && rest == [rest[0]];
    OneByteBits(rest[0]);
    LastByteBits(d.accumulator, s1, s, rest[0]);
    assert b == d.out + rest;
  }

  lemma {:induction false} LongTailBits(s: seq<bool>)
    requires |s| > 7 || FromBits(s) > 90
    ensures |s| >= 7
  {
    Powers();
    FromBitsBound(s);
    if |s| < 7 {
      Pow2Monotone(|s|, 6);
    }
  }

  /** Decoding what `flush` wrote after decoding the full groups. */
  lemma {:induction false} TailDecodes(e: Encoding, d: Decoding, s1: seq<bool>, s: seq<bool>, bs: seq<Byte>)
    requires e.Valid() && Holds(e.accumulator, e.bits, s)
    requires Decodes(d, s1, BytesBits(d.out) + s1) && d.value == None
    requires BytesBits(d.out) + (s1 + s) == BytesBits(bs)
    ensures var d' := DecodeDigits(d, Tail(e)); d'.out + LastByte(d') == bs
  {
    ShortTailFits(e);
    if e.bits == 0 {
      BytesPrefix(d.out, s1 + s, bs);
      BytesBitsLength(bs[|d.out|..]);
    } else if e.bits > 7 || e.accumulator > 90 {
      LongTailBits(s);
      var pair := TwoDigits(e.accumulator);
      DecodeTwo(d, pair);
      TwoDigitTail(d.(value := Some(pair[0])), s1, s, bs, pair[0], pair[1]);
    } else {
      var tail := Tail(e);
      assert tail == [e.accumulator] && tail[1..] == [];
      assert DecodeDigits(d, tail) == DecodeDigits(d.(value := Some(tail[0])), tail[1..]);
      OneDigitTail(d, s1, s, bs, tail[0]);
    }
  }

  /** Decoding the digits of a byte string gives its bytes back. */
  lemma {:induction false} DecodeEncode(bs: seq<Byte>)
    ensures Decode(Encode(bs)) == bs
  {
    var e := EncodeBytes(START, bs);
    var s := EncodeRuns(bs);
    var d := DecodeDigits(FRESH, e.out);
    var s1 := DecodeDigitsBits(FRESH, [], [], e.out);
    assert [] + Payload(None, e.out) == Payload(None, e.out);
    DecodeSplit(FRESH, e.out, Tail(e));
    Assoc(BytesBits(d.out), s1, s);
    TailDecodes(e, d, s1, s, bs);
  }

  // ----- Size -----

  lemma {:induction false} PayloadSize(value: Option<Digit>, ds: seq<Digit>)
    requires Waiting(value, ds) == None
    ensures var n := |ds| + if value.Some? then 1 else 0;
            13 * n <= 2 * |Payload(value, ds)| <= 14 * n
    decreases |ds|
  {
    if ds != [] {
      PayloadSize(if value.None? then Some(ds[0]) else None, ds[1..]);
    }
  }

  lemma {:induction false} TailSize(e: Encoding)
    requires e.Valid()
    ensures e.bits <= 7 * |Tail(e)| && |Tail(e)| <= 2
    ensures e.bits == 0 ==> |Tail(e)| == 0
  {
    ShortTailFits(e);
  }

  lemma {:induction false} SizeBounds(n: nat, payload: nat, groups: nat, bits: nat, tail: nat)
    requires payload + bits == 8 * n && 13 * groups <= 2 * payload <= 14 * groups
    requires bits <= 7 * tail && tail <= 2 && groups % 2 == 0 && (bits == 0 ==> tail == 0)
    ensures 8 * n <= 7 * (groups + tail) && groups + tail <= 2 * ((8 * n + 12) / 13)
  {
  }

  lemma {:induction false} WholePairs(value: Option<Digit>, ds: seq<Digit>)
    requires Waiting(value, ds) == None
    ensures |ds| % 2 == if value.None? then 0 else 1
    decreases |ds|
  {
    if ds != [] {
      WholePairs(if value.None? then Some(ds[0]) else None, ds[1..]);
    }
  }

  /** For n bytes, between 8n/7 digits and two digits for every started group of 13 bits. */
  lemma {:induction false} EncodedSize(bs: seq<Byte>)
    ensures 8 * |bs| <= 7 * |Encode(bs)|
    ensures |Encode(bs)| <= 2 * ((8 * |bs| + 12) / 13)
  {
    var e := EncodeBytes(START, bs);
    var s := EncodeRuns(bs);
    BytesBitsLength(bs);
    PayloadSize(None, e.out);
    WholePairs(None, e.out);
    TailSize(e);
    var p := Payload(None, e.out);
    assert |p + s| == |p| + |s|;
    SizeBounds(|bs|, |p|, |e.out|, |s|, |Tail(e)|);
  }
}
