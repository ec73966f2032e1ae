/** The frames of the mux protocol, after `codec/src/lib.rs`: three LEB128
    numbers (length, serial, ident) and the payload. */
module Frames {
  import opened Bits
  import opened Wrappers
  import opened Leb128

  const U64_LIMIT: nat := Pow2(64)
  const COMPRESSED_MASK: nat := Pow2(63)

  datatype Frame = Frame(ident: nat, serial: nat, data: seq<Byte>, compressed: bool)

  datatype Fault = TooLarge | BadSizes | BadSerial

  /** What a decoder makes of its input, and how many bytes it read to decide. */
  datatype Decode =
    | Decoded(frame: Frame, consumed: nat)
    | Corrupt(fault: Fault, consumed: nat)
    | Incomplete

  // ----- Encoding -----

  function BodyLength(f: Frame): nat { |f.data| + EncodedLength(f.ident) + EncodedLength(f.serial) }

  /** The frames there are: 64-bit numbers, and a length that leaves the top bit free. */
  predicate Encodable(f: Frame) {
    f.ident < U64_LIMIT && f.serial < U64_LIMIT && BodyLength(f) < COMPRESSED_MASK
  }

  function MaskedLength(f: Frame): nat {
    if f.compressed then Or(BodyLength(f), COMPRESSED_MASK) else BodyLength(f)
  }

  function Encode(f: Frame): seq<Byte> {
    Write(MaskedLength(f)) + Write(f.serial) + Write(f.ident) + f.data
  }

  // ----- Decoding, one field of the frame after the other -----

  /** `r`, as seen from `n` bytes earlier. */
  function After(n: nat, r: Decode): Decode {
    match r
    case Decoded(f, consumed) => Decoded(f, n + consumed)
    case Corrupt(fault, consumed) => Corrupt(fault, n + consumed)
    case Incomplete => Incomplete
  }

  function DecodeFrame(s: seq<Byte>): Decode {
    match ReadUnsigned(s)
    case EndOfInput => Incomplete
    case Overflow(n) => Corrupt(TooLarge, n)
    case Value(len, n) =>
      ReadConsumes(s, 0, 0, 0);
      After(n, DecodeSerial(s[n..], Mask(len, 63), len >= COMPRESSED_MASK))
  }

  function DecodeSerial(s: seq<Byte>, len: nat, compressed: bool): Decode {
    match ReadUnsigned(s)
    case EndOfInput => Incomplete
    case Overflow(n) => Corrupt(TooLarge, n)
    case Value(serial, n) =>
      ReadConsumes(s, 0, 0, 0);
      After(n, DecodeIdent(s[n..], len, compressed, serial))
  }

  function DecodeIdent(s: seq<Byte>, len: nat, compressed: bool, serial: nat): Decode {
    match ReadUnsigned(s)
    case EndOfInput => Incomplete
    case Overflow(n) => Corrupt(TooLarge, n)
    case Value(ident, n) =>
      ReadConsumes(s, 0, 0, 0);
      After(n, DecodeData(s[n..], len, compressed, serial, ident))
  }

  function DecodeData(s: seq<Byte>, len: nat, compressed: bool, serial: nat, ident: nat): Decode {
    var header := EncodedLength(ident) + EncodedLength(serial);
    if len < header then Corrupt(BadSizes, 0)
    else if |s| < len - header then Incomplete
    else Decoded(Frame(ident, serial, s[..len - header], compressed), len - header)
  }

  // ----- Round trip -----

  /** Setting the bit above a number adds it, and masking takes it off again. */
  lemma {:induction false} TopBit(len: nat, k: nat)
    requires len < Pow2(k)
    ensures Or(len, Pow2(k)) == len + Pow2(k) < Pow2(k + 1)
    ensures Mask(len, k) == len == Mask(len + Pow2(k), k)
  {
    PowIsDouble(k);
    OrIsConcat(len, 1, k);
    MaskSmall(len, k);
    MaskSmall(len + Pow2(k), k + 1);
    MaskStep(len + Pow2(k), k);
    MaskBound(len + Pow2(k), k);
  }

  lemma {:induction false} FlagsLength(f: Frame)
    requires Encodable(f)
    ensures MaskedLength(f) < U64_LIMIT
    ensures Mask(MaskedLength(f), 63) == BodyLength(f)
    ensures MaskedLength(f) >= COMPRESSED_MASK <==> f.compressed
    ensures MaskedLength(f) == BodyLength(f) + if f.compressed then COMPRESSED_MASK else 0
  {
    TopBit(BodyLength(f), 63);
  }

  lemma {:induction false} PowIsDouble(n: nat)
    ensures Double(1, n) == Pow2(n)
  {
    if n > 0 {
      PowIsDouble(n - 1);
    }
  }

  lemma {:induction false} ReadField(value: nat, after: seq<Byte>)
    requires value < U64_LIMIT
    ensures ReadUnsigned(Write(value) + after) == Value(value, |Write(value)|)
    ensures (Write(value) + after)[|Write(value)|..] == after
  {
    ReadWrite(value, after);
  }

  lemma {:induction false} DecodeIdentOf(f: Frame, after: seq<Byte>)
    requires f.ident < U64_LIMIT
    ensures DecodeIdent(Write(f.ident) + (f.data + after), BodyLength(f), f.compressed, f.serial)
            == Decoded(f, |Write(f.ident)| + |f.data|)
  {
    ReadField(f.ident, f.data + after);
    assert (f.data + after)[..|f.data|] == f.data;
  }

  lemma {:induction false} DecodeSerialOf(f: Frame, after: seq<Byte>)
    requires f.ident < U64_LIMIT && f.serial < U64_LIMIT
    ensures DecodeSerial(Write(f.serial) + (Write(f.ident) + (f.data + after)), BodyLength(f), f.compressed)
            == Decoded(f, |Write(f.serial)| + |Write(f.ident)| + |f.data|)
  {
    ReadField(f.serial, Write(f.ident) + (f.data + after));
    DecodeIdentOf(f, after);
  }

  lemma {:induction false} Regroup(a: seq<Byte>, b: seq<Byte>, c: seq<Byte>, d: seq<Byte>, e: seq<Byte>)
    ensures a + b + c + d + e == a + (b + (c + (d + e)))
  {
  }

  /** Decoding undoes encoding, whatever follows, and consumes exactly the frame. */
  lemma {:induction false} DecodeEncode(f: Frame, after: seq<Byte>)
    requires Encodable(f)
    ensures DecodeFrame(Encode(f) + after) == Decoded(f, |Encode(f)|)
  {
    var len := MaskedLength(f);
    FlagsLength(f);
    ReadField(len, Write(f.serial) + (Write(f.ident) + (f.data + after)));
    DecodeSerialOf(f, after);
    Regroup(Write(len), Write(f.serial), Write(f.ident), f.data, after);
  }

  // ----- A decision depends only on the bytes consumed -----

  /** What is left of `r` when the input stops after `m` bytes. */
  function Cut(r: Decode, m: int): Decode {
    if r.Incomplete? || r.consumed > m then Incomplete else r
  }

  lemma {:induction false} CutAfter(n: nat, r: Decode, m: int)
    ensures Cut(After(n, r), m) == After(n, Cut(r, m - n))
  {
  }

  lemma {:induction false} ReadCut(s: seq<Byte>, m: nat)
    requires m <= |s|
    ensures var (whole, part) := (ReadUnsigned(s), ReadUnsigned(s[..m]));
            && (!whole.EndOfInput? ==> 0 < whole.consumed <= |s|)
            && part == (if whole.EndOfInput? || whole.consumed > m then EndOfInput else whole)
            && (!part.EndOfInput? ==> s[..m][part.consumed..] == s[part.consumed..][..m - part.consumed])
  {
    ReadFromPrefix(s, 0, 0, 0, m);
  }

  lemma {:induction false} IdentCut(s: seq<Byte>, len: nat, compressed: bool, serial: nat, m: nat)
    requires m <= |s|
    ensures DecodeIdent(s[..m], len, compressed, serial) == Cut(DecodeIdent(s, len, compressed, serial), m)
    ensures var r := DecodeIdent(s, len, compressed, serial); !r.Incomplete? ==> 0 < r.consumed <= |s|
  {
    ReadCut(s, m);
    match ReadUnsigned(s) {
      case Value(ident, n) =>
        if n <= m {
          DataCut(s[n..], len, compressed, serial, ident, m - n);
          CutAfter(n, DecodeData(s[n..], len, compressed, serial, ident), m);
        }
      case _ =>
    }
  }

  lemma {:induction false} DataCut(s: seq<Byte>, len: nat, compressed: bool, serial: nat, ident: nat, m: nat)
    requires m <= |s|
    ensures DecodeData(s[..m], len, compressed, serial, ident) == Cut(DecodeData(s, len, compressed, serial, ident), m)
  {
    var header := EncodedLength(ident) + EncodedLength(serial);
    if header <= len <= header + m {
      assert s[..m][..len - header] == s[..len - header];
    }
  }

  lemma {:induction false} SerialCut(s: seq<Byte>, len: nat, compressed: bool, m: nat)
    requires m <= |s|
    ensures DecodeSerial(s[..m], len, compressed) == Cut(DecodeSerial(s, len, compressed), m)
    ensures var r := DecodeSerial(s, len, compressed); !r.Incomplete? ==> 0 < r.consumed <= |s|
  {
    ReadCut(s, m);
    match ReadUnsigned(s) {
      case Value(serial, n) =>
        IdentCut(s[n..], len, compressed, serial, if n <= m then m - n else 0);
        CutAfter(n, DecodeIdent(s[n..], len, compressed, serial), m);
      case _ =>
    }
  }

  /** On a truncated input the decoder either says what it says of the whole, or
      asks for more; and it asks for more exactly when bytes it needs are missing. */
  lemma {:induction false} DecodeCut(s: seq<Byte>, m: nat)
    requires m <= |s|
    ensures DecodeFrame(s[..m]) == Cut(DecodeFrame(s), m)
    ensures var r := DecodeFrame(s); !r.Incomplete? ==> 0 < r.consumed <= |s|
  {
    ReadCut(s, m);
    match ReadUnsigned(s) {
      case Value(len, n) =>
        SerialCut(s[n..], Mask(len, 63), len >= COMPRESSED_MASK, if n <= m then m - n else 0);
        CutAfter(n, DecodeSerial(s[n..], Mask(len, 63), len >= COMPRESSED_MASK), m);
      case _ =>
    }
  }

  /** The layout on the wire: length, serial, ident, payload. */
  lemma {:induction false} FrameLayout()
    ensures Encode(Frame(0x81, 0x42, [104, 101, 108, 108, 111], false))
            == [0x08, 0x42, 0x81, 0x01, 104, 101, 108, 108, 111]
  {
    assert Write(0x81) == [0x81] + Write(1);
  }

  /** The same of every frame: first the number of bytes that follow it, its top bit
      for compression, then the serial, the ident and the payload to the end. */
  lemma {:induction false} WireFormat(f: Frame) returns (n: nat, k: nat, m: nat)
    requires Encodable(f)
    ensures var s := Encode(f);
            && n + k + m <= |s| && |s| - n < COMPRESSED_MASK
            && ReadUnsigned(s) == Value(|s| - n + (if f.compressed then COMPRESSED_MASK else 0), n)
            && ReadUnsigned(s[n..]) == Value(f.serial, k) && ReadUnsigned(s[n + k..]) == Value(f.ident, m)
            && s[n + k + m..] == f.data
  {
    FlagsLength(f);
    n, k, m := WireFields(f, MaskedLength(f));
  }

  lemma {:induction false} WireFields(f: Frame, len: nat) returns (n: nat, k: nat, m: nat)
    requires f.ident < U64_LIMIT && f.serial < U64_LIMIT && len == MaskedLength(f) < U64_LIMIT
    ensures var s := Encode(f);
            && n + k + m <= |s| && BodyLength(f) == |s| - n && ReadUnsigned(s) == Value(len, n)
            && ReadUnsigned(s[n..]) == Value(f.serial, k) && ReadUnsigned(s[n + k..]) == Value(f.ident, m)
            && s[n + k + m..] == f.data
  {
    n, k, m := |Write(len)|, |Write(f.serial)|, |Write(f.ident)|;
    ReadThree(len, f.serial, f.ident, f.data);
  }

  lemma {:induction false} ReadThree(a: nat, b: nat, c: nat, data: seq<Byte>)
    requires a < U64_LIMIT && b < U64_LIMIT && c < U64_LIMIT
    ensures var (n, k, m, s) := (|Write(a)|, |Write(b)|, |Write(c)|, Write(a) + Write(b) + Write(c) + data);
            && n + k + m + |data| == |s|
            && ReadUnsigned(s) == Value(a, n) && ReadUnsigned(s[n..]) == Value(b, k)
            && ReadUnsigned(s[n + k..]) == Value(c, m) && s[n + k + m..] == data
  {
    ReadField(a, Write(b) + Write(c) + data);
    ReadField(b, Write(c) + data);
    ReadField(c, data);
    FourParts(Write(a), Write(b), Write(c), data);
  }

  lemma {:induction false} FourParts(a: seq<Byte>, b: seq<Byte>, c: seq<Byte>, d: seq<Byte>)
    ensures var s := a + b + c + d;
            && s == a + (b + c + d) && s[|a|..] == b + (c + d)
            && s[|a| + |b|..] == c + d && s[|a| + |b| + |c|..] == d
  {
  }

  /** A frame cut short anywhere is incomplete, never misread. */
  lemma {:induction false} TruncatedFrame(f: Frame, m: nat)
    requires Encodable(f) && m < |Encode(f)|
    ensures DecodeFrame(Encode(f)[..m]) == Incomplete
  {
    DecodeEncode(f, []);
    assert Encode(f) + [] == Encode(f);
    DecodeCut(Encode(f), m);
  }

  /** More input never changes a decision. */
  lemma {:induction false} DecodeExtends(s: seq<Byte>, more: seq<Byte>)
    requires !DecodeFrame(s).Incomplete?
    ensures DecodeFrame(s + more) == DecodeFrame(s)
  {
    DecodeCut(s + more, |s|);
    assert (s + more)[..|s|] == s;
  }

  // ----- Any bytes at all -----

  /** What is made of the three numbers a frame starts with. */
  lemma {:induction false} DecodeFields(s: seq<Byte>, len: nat, n: nat, serial: nat, k: nat, ident: nat, m: nat)
    requires n + k + m <= |s| && ReadUnsigned(s) == Value(len, n)
    requires ReadUnsigned(s[n..]) == Value(serial, k) && ReadUnsigned(s[n + k..]) == Value(ident, m)
    ensures var rest := Mask(len, 63) - EncodedLength(serial) - EncodedLength(ident);
            DecodeFrame(s) == if rest < 0 then Corrupt(BadSizes, n + k + m)
                              else if |s| < n + k + m + rest then Incomplete
                              else Decoded(Frame(ident, serial, s[n + k + m..n + k + m + rest], len >= COMPRESSED_MASK),
                                           n + k + m + rest)
  {
    assert s[n..][k..] == s[n + k..] && s[n + k..][m..] == s[n + k + m..];
  }

  /** A number that is none: one of more than 64 bits is refused where it ends, and
      one that has no end yet is waited for. */
  function Unread(r: Read, n: nat): Decode {
    if r.Overflow? then Corrupt(TooLarge, n + r.consumed) else Incomplete
  }

  lemma {:induction false} FirstUnread(s: seq<Byte>)
    requires !ReadUnsigned(s).Value?
    ensures DecodeFrame(s) == Unread(ReadUnsigned(s), 0)
  {
  }

  lemma {:induction false} SecondUnread(s: seq<Byte>, len: nat, n: nat)
    requires n <= |s| && ReadUnsigned(s) == Value(len, n) && !ReadUnsigned(s[n..]).Value?
    ensures DecodeFrame(s) == Unread(ReadUnsigned(s[n..]), n)
  {
  }

  lemma {:induction false} ThirdUnread(s: seq<Byte>, len: nat, n: nat, serial: nat, k: nat)
    requires n + k <= |s| && ReadUnsigned(s) == Value(len, n) && ReadUnsigned(s[n..]) == Value(serial, k)
    requires !ReadUnsigned(s[n + k..]).Value?
    ensures DecodeFrame(s) == Unread(ReadUnsigned(s[n + k..]), n + k)
  {
    assert s[n..][k..] == s[n + k..];
  }

  // ----- Frames written in another way -----

  lemma {:induction false} Taken(s: seq<Byte>, c: nat)
    requires c <= |s| && ReadUnsigned(s).Value? && ReadUnsigned(s).consumed <= c
    ensures ReadUnsigned(s[..c]) == ReadUnsigned(s)
  {
    ReadCut(s, c);
  }

  lemma {:induction false} IdentField(s: seq<Byte>, len: nat, compressed: bool, serial: nat) returns (m: nat)
    requires DecodeIdent(s, len, compressed, serial).Decoded?
    ensures var (f, c) := (DecodeIdent(s, len, compressed, serial).frame,
                           DecodeIdent(s, len, compressed, serial).consumed);
            && c <= |s| && m + |f.data| == c && ReadUnsigned(s[..c]) == Value(f.ident, m) && s[m..c] == f.data
            && f.serial == serial && f.compressed == compressed && BodyLength(f) == len
  {
    m := ReadUnsigned(s).consumed;
    ReadCut(s, |s|);
    var c := Payload(s[m..], len, compressed, serial, ReadUnsigned(s).value);
    Taken(s, m + c);
    Within(s, m, m + c, 0);
  }

  lemma {:induction false} Payload(s: seq<Byte>, len: nat, compressed: bool, serial: nat, ident: nat) returns (c: nat)
    requires DecodeData(s, len, compressed, serial, ident).Decoded?
    ensures c <= |s|
    ensures DecodeData(s, len, compressed, serial, ident) == Decoded(Frame(ident, serial, s[..c], compressed), c)
    ensures BodyLength(Frame(ident, serial, s[..c], compressed)) == len
  {
    c := len - EncodedLength(ident) - EncodedLength(serial);
  }

  lemma {:induction false} SerialField(s: seq<Byte>, len: nat, compressed: bool) returns (k: nat, m: nat)
    requires DecodeSerial(s, len, compressed).Decoded?
    ensures var (f, c) := (DecodeSerial(s, len, compressed).frame, DecodeSerial(s, len, compressed).consumed);
            && c <= |s| && k + m + |f.data| == c
            && ReadUnsigned(s[..c]) == Value(f.serial, k) && ReadUnsigned(s[k..c]) == Value(f.ident, m)
            && s[k + m..c] == f.data && f.compressed == compressed && BodyLength(f) == len
  {
    k := ReadUnsigned(s).consumed;
    ReadCut(s, |s|);
    var (r, c) := (s[k..], DecodeSerial(s, len, compressed).consumed);
    m := IdentField(r, len, compressed, ReadUnsigned(s).value);
    Taken(s, c);
    Within(s, k, c, m);
  }

  lemma {:induction false} Within(s: seq<Byte>, k: nat, c: nat, m: nat)
    requires k + m <= c <= |s|
    ensures s[k..][..c - k] == s[k..c] && s[k..][m..c - k] == s[k + m..c]
  {
  }

  /** The three numbers a frame was read from: `len` with its top bit, in `n` bytes,
      the serial in `k` and the ident in `m`. What is left of `len` once the shortest
      forms of the two are taken off is the length of the payload. */
  lemma {:induction false} Fields(s: seq<Byte>) returns (len: nat, n: nat, k: nat, m: nat)
    requires DecodeFrame(s).Decoded?
    ensures var (f, c) := (DecodeFrame(s).frame, DecodeFrame(s).consumed);
            && c <= |s| && n + k + m + |f.data| == c
            && ReadUnsigned(s[..c]) == Value(len, n)
            && ReadUnsigned(s[n..c]) == Value(f.serial, k) && ReadUnsigned(s[n + k..c]) == Value(f.ident, m)
            && s[n + k + m..c] == f.data && (f.compressed <==> len >= COMPRESSED_MASK)
            && BodyLength(f) == Mask(len, 63)
  {
    len, n := ReadUnsigned(s).value, ReadUnsigned(s).consumed;
    ReadCut(s, |s|);
    var c := DecodeFrame(s).consumed;
    k, m := SerialField(s[n..], Mask(len, 63), len >= COMPRESSED_MASK);
    Taken(s, c);
    Within(s, n, c, k);
    Within(s, n, c, k + m);
  }

  /** The length a peer sends counts the bytes that follow it just if the serial and
      the ident come in their shortest forms; it counts fewer otherwise. */
  lemma {:induction false} LengthCounts(s: seq<Byte>) returns (len: nat, n: nat, k: nat, m: nat)
    requires DecodeFrame(s).Decoded?
    ensures var (f, c) := (DecodeFrame(s).frame, DecodeFrame(s).consumed);
            && n + k + m <= c <= |s| && ReadUnsigned(s[..c]) == Value(len, n)
            && ReadUnsigned(s[n..c]) == Value(f.serial, k) && ReadUnsigned(s[n + k..c]) == Value(f.ident, m)
            && Mask(len, 63) <= c - n
            && (Mask(len, 63) == c - n <==> s[n..n + k] == Write(f.serial) && s[n + k..n + k + m] == Write(f.ident))
  {
    len, n, k, m := Fields(s);
    var (f, c) := (DecodeFrame(s).frame, DecodeFrame(s).consumed);
    Shortest(s, n, c, f.serial, k);
    Shortest(s, n + k, c, f.ident, m);
  }

  lemma {:induction false} Shortest(s: seq<Byte>, n: nat, c: nat, value: nat, k: nat)
    requires n <= c <= |s| && ReadUnsigned(s[n..c]) == Value(value, k)
    ensures EncodedLength(value) <= k <= c - n
    ensures EncodedLength(value) == k <==> s[n..n + k] == Write(value)
  {
    WriteIsShortest(s[n..c]);
    Prefix(s, n, k, c);
  }

  lemma {:induction false} Prefix(s: seq<Byte>, n: nat, k: nat, c: nat)
    requires n + k <= c <= |s|
    ensures s[n..c][..k] == s[n..n + k]
  {
  }

  /** Encoding what was decoded gives the same bytes just if all three numbers came
      in their shortest forms, and otherwise fewer bytes. */
  lemma {:induction false} EncodeDecode(s: seq<Byte>)
    requires DecodeFrame(s).Decoded?
    ensures var (f, c) := (DecodeFrame(s).frame, DecodeFrame(s).consumed);
            && c <= |s| && |Encode(f)| <= c && (|Encode(f)| == c <==> Encode(f) == s[..c])
  {
    var (f, c) := (DecodeFrame(s).frame, DecodeFrame(s).consumed);
    var len, n, k, m := Fields(s);
    WriteIsShortest(s[..c]);
    WriteIsShortest(s[n..c]);
    WriteIsShortest(s[n + k..c]);
    LengthMasks(s[..c], len, f);
    if |Encode(f)| == c {
      Reassembled(s[..c], n, k, m);
    }
  }

  lemma {:induction false} Reassembled(s: seq<Byte>, n: nat, k: nat, m: nat)
    requires n + k + m <= |s|
    ensures s[..n] + s[n..][..k] + s[n + k..][..m] + s[n + k + m..] == s
  {
  }

  /** The length is masked as it was. */
  lemma {:induction false} LengthMasks(s: seq<Byte>, len: nat, f: Frame)
    requires ReadUnsigned(s).Value? && ReadUnsigned(s).value == len
    requires (f.compressed <==> len >= COMPRESSED_MASK) && BodyLength(f) == Mask(len, 63)
    ensures MaskedLength(f) == len
  {
    ReadInWord(s, 64);
    Remasked(len, 63);
  }

  lemma {:induction false} Remasked(len: nat, k: nat)
    requires len < Pow2(k + 1)
    ensures len == if len >= Pow2(k) then Or(Mask(len, k), Pow2(k)) else Mask(len, k)
  {
    if len >= Pow2(k) {
      TopBit(len - Pow2(k), k);
    } else {
      MaskSmall(len, k);
    }
  }

  // ----- The asynchronous decoder -----

  /** The serial bound is checked as soon as the serial is read. */
  predicate Implausible(serial: nat, maxSerial: Option<nat>) {
    maxSerial.Some? && serial > maxSerial.value > 0
  }

  /** The serial of the frame `s` starts with, if `s` reaches so far, and where
      in `s` it ends. */
  function SerialOf(s: seq<Byte>): Option<(nat, nat)> {
    match ReadUnsigned(s)
    case Value(_, n) => ReadConsumes(s, 0, 0, 0);
      (match ReadUnsigned(s[n..])
       case Value(serial, k) => Some((serial, n + k))
       case _ => None)
    case _ => None
  }

  /** Reading byte by byte and checking the serial on the way agrees with the
      plain decoder, except that an implausible serial is refused at once. */
  method DecodeAsync(s: seq<Byte>, maxSerial: Option<nat>) returns (r: Decode)
    ensures (SerialOf(s).Some? && Implausible(SerialOf(s).value.0, maxSerial))
            ==> r == Corrupt(BadSerial, SerialOf(s).value.1)
    ensures !(SerialOf(s).Some? && Implausible(SerialOf(s).value.0, maxSerial)) ==> r == DecodeFrame(s)
  {
    var rest := s;
    var read := ReadBytewise(rest);
    if read.EndOfInput? { return Incomplete; }
    if read.Overflow? { return Corrupt(TooLarge, read.consumed); }
    ReadConsumes(rest, 0, 0, 0);
    var len, n := read.value, read.consumed;
    rest := rest[n..];
    read := ReadBytewise(rest);
    if read.EndOfInput? { return Incomplete; }
    if read.Overflow? { return Corrupt(TooLarge, n + read.consumed); }
    ReadConsumes(rest, 0, 0, 0);
    var serial, k := read.value, read.consumed;
    if Implausible(serial, maxSerial) { return Corrupt(BadSerial, n + k); }
    r := DecodeAsyncRest(rest[k..], Mask(len, 63), len >= COMPRESSED_MASK, serial);
    r := After(n, After(k, r));
  }

  method DecodeAsyncRest(s: seq<Byte>, len: nat, compressed: bool, serial: nat) returns (r: Decode)
    ensures r == DecodeIdent(s, len, compressed, serial)
  {
    var read := ReadBytewise(s);
    match read
    case EndOfInput => return Incomplete;
    case Overflow(n) => return Corrupt(TooLarge, n);
    case Value(ident, n) =>
      ReadConsumes(s, 0, 0, 0);
      var header := EncodedLength(ident) + EncodedLength(serial);
      if len < header { return Corrupt(BadSizes, n); }
      if |s[n..]| < len - header { return Incomplete; }
      return Decoded(Frame(ident, serial, s[n..n + len - header], compressed), n + len - header);
  }
}
