/** What basE91 writes and reads, said of the whole bit string at once. */
module Base91Groups {
  import opened Wrappers
  import opened Sequences
  import opened Bits
  import opened Base91Digits

  // ----- Encoding -----

  /** The size of the group that `s` begins with: 14 bits if the first 13 leave room for one more. */
  function FirstGroup(s: seq<bool>): (k: nat)
    requires |s| > 13
  {
    if FromBits(s[..13]) > 88 then 13 else 14
  }

  lemma {:induction false} FirstGroupFits(s: seq<bool>)
    requires |s| > 13
    ensures FirstGroup(s) == (if Mask(FromBits(s), 13) > 88 then 13 else 14)
    ensures FromBits(s[..FirstGroup(s)]) == Mask(FromBits(s), FirstGroup(s)) < 91 * 91
  {
    GroupFits(FromBits(s));
    TakeDrop(s, 13);
    TakeDrop(s, FirstGroup(s));
  }

  /** The bits cut into groups from the front, two digits each, the low one first, and
      what is left at the end in one digit if that holds it, else in two. */
  function Grouped(s: seq<bool>): seq<Digit>
    decreases |s|
  {
    if |s| > 13 then
      FirstGroupFits(s);
      var k := FirstGroup(s);
      [FromBits(s[..k]) % 91, FromBits(s[..k]) / 91] + Grouped(s[k..])
    else
      RestFits(s);
      if s == [] then []
      else if |s| <= 7 && FromBits(s) <= 90 then [FromBits(s)]
      else [FromBits(s) % 91, FromBits(s) / 91]
  }

  lemma {:induction false} RestFits(s: seq<bool>)
    requires |s| <= 13
    ensures FromBits(s) < 91 * 91
  {
    Powers();
    FromBitsBound(s);
    Pow2Monotone(|s|, 13);
  }

  lemma {:induction false} DrainGroups(out: seq<Digit>, t: seq<bool>, rest: seq<bool>) returns (s': seq<bool>)
    requires |t| <= 21
    ensures var e := Drain(out, FromBits(t), |t|);
            Holds(e.accumulator, e.bits, s') && |s'| <= 13 && e.out + Grouped(s' + rest) == out + Grouped(t + rest)
  {
    s' := t;
    if |t| > 13 {
      FirstGroupFits(t);
      var k := FirstGroup(t);
      TakeDrop(t, k);
      s' := t[k..];
      assert (t + rest)[..13] == t[..13] && (t + rest)[..k] == t[..k] && (t + rest)[k..] == s' + rest;
      Assoc(out, [FromBits(t[..k]) % 91, FromBits(t[..k]) / 91], Grouped(s' + rest));
    }
  }

  lemma {:induction false} EncodeGroups(e: Encoding, s: seq<bool>, bs: seq<Byte>)
    requires Holds(e.accumulator, e.bits, s) && |s| <= 13 && EncodeBytes(e, bs).Valid()
    ensures EncodeBytes(e, bs).out + Tail(EncodeBytes(e, bs)) == e.out + Grouped(s + BytesBits(bs))
    decreases |bs|
  {
    if bs == [] {
      assert s + [] == s;
      ShortTailFits(e);
    } else {
      var t := s + ToBits(bs[0], 8);
      Powers();
      OrShlAppends(s, bs[0], 8, 64);
      var s' := DrainGroups(e.out, t, BytesBits(bs[1..]));
      Assoc(s, ToBits(bs[0], 8), BytesBits(bs[1..]));
      EncodeGroups(EncodeByte(e, bs[0]), s', bs[1..]);
    }
  }

  /** Byte by byte, the encoder writes the groups of the bits of all the bytes. */
  lemma {:induction false} EncodeIsGrouped(bs: seq<Byte>)
    ensures Encode(bs) == Grouped(BytesBits(bs))
  {
    var s := EncodeRuns(bs);
    EncodeGroups(START, [], bs);
    assert [] + BytesBits(bs) == BytesBits(bs) && [] + Grouped(BytesBits(bs)) == Grouped(BytesBits(bs));
  }

  // ----- Decoding -----

  /** The bits of the groups that digits stand for, two by two. */
  function Ungrouped(ds: seq<Digit>): seq<bool>
    decreases |ds|
  {
    if |ds| < 2 then []
    else GroupOf(ds[0], ds[1]) + Ungrouped(ds[2..])
  }

  function GroupOf(low: Digit, high: Digit): seq<bool> {
    ToBits(low + high * 91, PairSize(low + high * 91))
  }

  /** The size of a group whose digits make `value`, which is below 91 * 91. */
  function PairSize(value: nat): nat {
    if (if value < 8192 then value else value - 8192) > 88 then 13 else 14
  }

  lemma {:induction false} PairSizeIs(value: nat, k: nat)
    requires value < 91 * 91 && k == 13
    ensures PairSize(value) == if Mask(value, k) > 88 then 13 else 14
  {
    Powers();
    LowBitsOf(value, k, 8192);
  }

  lemma {:induction false} LowBitsOf(value: nat, k: nat, p: nat)
    requires p == Pow2(k) && value < 2 * p
    ensures Mask(value, k) == if value < p then value else value - p
  {
    MaskBound(value, k);
    if value < p {
      MaskSmall(value, k);
    } else {
      MaskSmall(value, k + 1);
      MaskStep(value, k);
    }
  }

  lemma {:induction false} PayloadIs(ds: seq<Digit>)
    ensures Payload(None, ds) == Ungrouped(ds)
    ensures Waiting(None, ds) == Alone(ds)
    decreases |ds|
  {
    if |ds| >= 2 {
      PayloadOfTwo(ds);
      UngroupedOfTwo(ds);
      AloneAfterTwo(ds);
      PairIs(ds[0], ds[1]);
      PayloadIs(ds[2..]);
    } else if |ds| == 1 {
      assert ds[1..] == [];
    }
  }

  /** The last digit, if it makes no pair. */
  function Alone(ds: seq<Digit>): Option<Digit> { if |ds| % 2 == 1 then Some(ds[|ds| - 1]) else None }

  lemma {:induction false} UngroupedOfTwo(ds: seq<Digit>)
    requires |ds| >= 2
    ensures Ungrouped(ds) == GroupOf(ds[0], ds[1]) + Ungrouped(ds[2..])
  {
  }

  lemma {:induction false} AloneAfterTwo(ds: seq<Digit>)
    requires |ds| >= 2
    ensures Alone(ds) == Alone(ds[2..])
  {
  }

  lemma {:induction false} PairIs(low: Digit, high: Digit)
    ensures PairBits(low, high) == GroupOf(low, high)
  {
    PairSizeIs(low + high * 91, 13);
  }

  lemma {:induction false} PayloadOfTwo(ds: seq<Digit>)
    requires |ds| >= 2
    ensures Payload(None, ds) == PairBits(ds[0], ds[1]) + Payload(None, ds[2..])
    ensures Waiting(None, ds) == Waiting(None, ds[2..])
  {
    PayloadPair(ds[..2]);
    PayloadConcat(None, ds[..2], ds[2..]);
    assert ds == ds[..2] + ds[2..];
  }

  /** Bit by bit, also where one side is zero. */
  lemma {:induction false} OrStep(a: nat, b: nat)
    ensures Or(a, b) == (if a % 2 == 1 || b % 2 == 1 then 1 else 0) + 2 * Or(a / 2, b / 2)
  {
  }

  lemma {:induction false} MaskOr(a: nat, b: nat, k: nat)
    ensures Or(Mask(a, k), Mask(b, k)) == Mask(Or(a, b), k)
    decreases k
  {
    if k > 0 {
      MaskOr(a / 2, b / 2, k - 1);
      OrStep(a, b);
      MaskHalves(a, k);
      MaskHalves(b, k);
      OrStep(Mask(a, k), Mask(b, k));
      OrHalves(a, b);
    }
  }

  lemma {:induction false} MaskHalves(a: nat, k: nat)
    requires k > 0
    ensures Mask(a, k) % 2 == a % 2 && Mask(a, k) / 2 == Mask(a / 2, k - 1)
  {
    Halves(a % 2, Mask(a / 2, k - 1));
  }

  lemma {:induction false} Halves(low: nat, high: nat)
    requires low < 2
    ensures (low + 2 * high) % 2 == low && (low + 2 * high) / 2 == high
  {
  }

  lemma {:induction false} OrHalves(a: nat, b: nat)
    ensures Or(a, b) % 2 == (if a % 2 == 1 || b % 2 == 1 then 1 else 0) && Or(a, b) / 2 == Or(a / 2, b / 2)
  {
    OrStep(a, b);
  }

  /** The digit left alone goes above the bits pending, and eight bits are taken. */
  lemma {:induction false} LastByteIs(s: seq<bool>, low: Digit)
    requires |s| < 8
    ensures Or(Mask(FromBits(s), 8), Shl(low, |s|, 8)) == FromBits((s + ToBits(low, 8))[..8])
  {
    Powers();
    FromToBits(low, 8);
    FromBitsConcat(s, ToBits(low, 8));
    FromBitsBound(s);
    OrIsConcat(FromBits(s), low, |s|);
    MaskOr(FromBits(s), Double(low, |s|), 8);
    TakeDrop(s + ToBits(low, 8), 8);
  }

  /** The decoder writes the whole bytes of the bits of the groups; a digit that is left
      alone fills up one more byte. */
  lemma {:induction false} DecodeIsUngrouped(ds: seq<Digit>)
    ensures var bits := Ungrouped(ds);
            BytesBits(Decode(ds)) == if |ds| % 2 == 0 then bits[..|bits| - |bits| % 8]
                                     else (bits + ToBits(ds[|ds| - 1], 8))[..|bits| - |bits| % 8 + 8]
  {
    var (d, bits) := (DecodeDigits(FRESH, ds), Ungrouped(ds));
    var s := DecodeDigitsBits(FRESH, [], [], ds);
    PayloadIs(ds);
    assert [] + Payload(None, ds) == bits;
    if d.value.Some? {
      LastByteAdds(d, s, d.value.value);
    } else {
      assert d.out + [] == d.out;
    }
    BytesBitsLength(d.out);
    WholeBytes(BytesBits(d.out), |d.out|, s, if d.value.Some? then ToBits(d.value.value, 8) else []);
  }

  lemma {:induction false} WholeBytes(out: seq<bool>, n: nat, s: seq<bool>, more: seq<bool>)
    requires |out| == 8 * n && |s| < 8 && (more == [] || |more| == 8)
    ensures var bits := out + s;
            && bits[..|bits| - |bits| % 8] == out
            && (more != [] ==> (bits + more)[..|bits| - |bits| % 8 + 8] == out + (s + more)[..8])
  {
    assert (out + s) + more == out + (s + more);
  }

  lemma {:induction false} LastByteAdds(d: Decoding, s: seq<bool>, low: Digit)
    requires Holds(d.accumulator, d.bits, s) && |s| < 8 && d.value == Some(low)
    ensures BytesBits(d.out + LastByte(d)) == BytesBits(d.out) + (s + ToBits(low, 8))[..8]
  {
    LastByteFits(d.accumulator, low, d.bits);
    LastByteIs(s, low);
    BytesBitsConcat(d.out, LastByte(d));
    OneByteBits(LastByte(d)[0]);
    ToFromBits((s + ToBits(low, 8))[..8]);
  }
}
