/** Incremental decoding of the mux protocol from a non-blocking reader, after
    `codec/src/lib.rs`. Payloads stay undecoded bytes. */
module PduStream {
  import opened Bits
  import opened Wrappers
  import opened Frames

  datatype Pdu =
    | Known(ident: nat, data: seq<Byte>, compressed: bool)
    | Invalid(ident: nat)

  datatype DecodedPdu = DecodedPdu(serial: nat, pdu: Pdu)

  datatype ReadError = CorruptFrame(fault: Fault) | EndOfFile | Io

  /** One result of the underlying `read`; `Ready([])` is the end of the file. */
  datatype ReadOutcome = Ready(bytes: seq<Byte>) | WouldBlock | Failed

  predicate KnownIdent(ident: nat) {
    ident <= 4 || 8 <= ident <= 14 || ident == 20 || 22 <= ident <= 62
  }

  function PduOf(f: Frame): DecodedPdu {
    DecodedPdu(f.serial, if KnownIdent(f.ident) then Known(f.ident, f.data, f.compressed) else Invalid(f.ident))
  }

  // ----- What the reader does -----

  datatype Polled = Polled(result: Result<Option<DecodedPdu>, ReadError>, buffer: seq<Byte>, incoming: seq<ReadOutcome>)

  /** One call with `buffer` left over from the calls before and `incoming` the
      outcomes of the reads to come; no outcome left means nothing more has come yet. */
  function Poll(buffer: seq<Byte>, incoming: seq<ReadOutcome>): Polled
    decreases |incoming|
  {
    match DecodeFrame(buffer)
    case Decoded(f, n) =>
      DecodeCut(buffer, |buffer|);
      Polled(Ok(Some(PduOf(f))), buffer[n..], incoming)
    case Corrupt(fault, _) => Polled(Err(CorruptFrame(fault)), buffer, incoming)
    case Incomplete =>
      if incoming == [] then Polled(Ok(None), buffer, [])
      else match incoming[0]
        case WouldBlock => Polled(Ok(None), buffer, incoming[1..])
        case Failed => Polled(Err(Io), buffer, incoming[1..])
        case Ready(bytes) =>
          if bytes == [] then Polled(Err(EndOfFile), buffer, incoming[1..])
          else Poll(buffer + bytes, incoming[1..])
  }

  lemma {:induction false} ConsumesSome(b: seq<Byte>)
    ensures DecodeFrame(b).Decoded? ==> 0 < DecodeFrame(b).consumed <= |b|
  {
    DecodeCut(b, |b|);
  }

  class PduReader {
    var buffer: seq<Byte>
    var incoming: seq<ReadOutcome>

    /** Takes one frame off the buffer, if it holds one; otherwise leaves it alone. */
    method StreamDecode() returns (r: Result<Option<DecodedPdu>, ReadError>)
      modifies `buffer
      ensures DecodeFrame(old(buffer)).Decoded? ==>
                && 0 < DecodeFrame(old(buffer)).consumed <= |old(buffer)|
                && r == Ok(Some(PduOf(DecodeFrame(old(buffer)).frame)))
                && old(buffer) == old(buffer)[..DecodeFrame(old(buffer)).consumed] + buffer
      ensures DecodeFrame(old(buffer)).Incomplete? ==> r == Ok(None) && buffer == old(buffer)
      ensures DecodeFrame(old(buffer)).Corrupt? ==>
                r == Err(CorruptFrame(DecodeFrame(old(buffer)).fault)) && buffer == old(buffer)
    {
      ConsumesSome(buffer);
      match DecodeFrame(buffer)
      case Decoded(f, n) =>
        buffer := buffer[n..];
        r := Ok(Some(PduOf(f)));
      case Incomplete =>
        r := Ok(None);
      case Corrupt(fault, _) =>
        r := Err(CorruptFrame(fault));
    }

    method TryReadAndDecode() returns (r: Result<Option<DecodedPdu>, ReadError>)
      modifies this
      ensures Poll(old(buffer), old(incoming)) == Polled(r, buffer, incoming)
    {
      while true
        invariant Poll(buffer, incoming) == Poll(old(buffer), old(incoming))
        decreases |incoming|
      {
        ghost var before := buffer;
        r := StreamDecode();
        if r != Ok(None) {
          assert r.Ok? ==> buffer == before[DecodeFrame(before).consumed..];
          return;
        }
        if incoming == [] { return; }
        var outcome := incoming[0];
        incoming := incoming[1..];
        match outcome {
          case WouldBlock =>
            return Ok(None);
          case Failed =>
            return Err(Io);
          case Ready(bytes) =>
            if bytes == [] { return Err(EndOfFile); }
            buffer := buffer + bytes;
        }
      }
    }
  }

  // ----- Whole runs -----

  /** The bytes the reads deliver before the file ends or a read fails. */
  function Arriving(incoming: seq<ReadOutcome>): seq<Byte> {
    if incoming == [] then []
    else match incoming[0]
      case WouldBlock => Arriving(incoming[1..])
      case Failed => []
      case Ready(bytes) => if bytes == [] then [] else bytes + Arriving(incoming[1..])
  }

  /** How the reads end, if they do. */
  function Closing(incoming: seq<ReadOutcome>): Option<ReadError> {
    if incoming == [] then None
    else match incoming[0]
      case WouldBlock => Closing(incoming[1..])
      case Failed => Some(Io)
      case Ready(bytes) => if bytes == [] then Some(EndOfFile) else Closing(incoming[1..])
  }

  /** No end of file and no failure. */
  predicate Open(incoming: seq<ReadOutcome>) {
    forall i :: 0 <= i < |incoming| ==> incoming[i] != Ready([]) && incoming[i] != Failed
  }

  lemma {:induction false} ArrivingOne(bytes: seq<Byte>)
    ensures Arriving([Ready(bytes)]) == bytes && Arriving([WouldBlock]) == []
  {
  }

  /** What arrives is what the reads deliver, one after the other ... */
  lemma {:induction false} ArrivingConcat(a: seq<ReadOutcome>, b: seq<ReadOutcome>)
    requires Open(a)
    ensures Arriving(a + b) == Arriving(a) + Arriving(b) && Closing(a + b) == Closing(b)
  {
    if a == [] {
      assert a + b == b;
    } else {
      assert (a + b)[0] == a[0] && (a + b)[1..] == a[1..] + b;
      ArrivingConcat(a[1..], b);
    }
  }

  /** ... up to the first empty read, which is the end of the file, or the first failure. */
  lemma {:induction false} ClosesAt(a: seq<ReadOutcome>, b: seq<ReadOutcome>)
    requires Open(a)
    ensures Closing(a) == None
    ensures Arriving(a + [Ready([])] + b) == Arriving(a) && Closing(a + [Ready([])] + b) == Some(EndOfFile)
    ensures Arriving(a + [Failed] + b) == Arriving(a) && Closing(a + [Failed] + b) == Some(Io)
  {
    ArrivingConcat(a, [Ready([])] + b);
    ArrivingConcat(a, [Failed] + b);
    ArrivingConcat(a, []);
    assert a + [] == a;
    assert a + [Ready([])] + b == a + ([Ready([])] + b) && a + [Failed] + b == a + ([Failed] + b);
  }

  datatype Session = Session(pdus: seq<DecodedPdu>, error: Option<ReadError>, buffer: seq<Byte>)

  function Cons(pdu: DecodedPdu, s: Session): Session { s.(pdus := [pdu] + s.pdus) }

  /** Calls repeated until one fails or nothing more has come. */
  function Run(buffer: seq<Byte>, incoming: seq<ReadOutcome>): Session
    decreases |buffer + Arriving(incoming)|, |incoming|
  {
    var p := Poll(buffer, incoming);
    PollReads(buffer, incoming);
    match p.result
    case Err(e) => Session([], Some(e), p.buffer)
    case Ok(Some(pdu)) => Cons(pdu, Run(p.buffer, p.incoming))
    case Ok(None) => if incoming == [] then Session([], None, p.buffer) else Run(p.buffer, p.incoming)
  }

  /** The reference: all the bytes at once, decoded frame by frame. */
  function DecodeAll(s: seq<Byte>): Session
    decreases |s|
  {
    match DecodeFrame(s)
    case Decoded(f, n) =>
      DecodeCut(s, |s|);
      Cons(PduOf(f), DecodeAll(s[n..]))
    case Corrupt(fault, _) => Session([], Some(CorruptFrame(fault)), s)
    case Incomplete => Session([], None, s)
  }

  /** `rest` is what is left of `s` after its first frame, which decodes to `pdu`. */
  predicate TakesFrame(s: seq<Byte>, pdu: DecodedPdu, rest: seq<Byte>) {
    match DecodeFrame(s)
    case Decoded(f, n) => 0 < n <= |s| && pdu == PduOf(f) && rest == s[n..]
    case _ => false
  }

  /** What a call does: it returns the first frame of all the bytes and takes it off
      them, or takes none of them and says why. */
  predicate Reads(buffer: seq<Byte>, incoming: seq<ReadOutcome>, p: Polled) {
    var (s, s') := (buffer + Arriving(incoming), p.buffer + Arriving(p.incoming));
    match p.result
    case Ok(Some(pdu)) =>
      TakesFrame(s, pdu, s') && |p.incoming| <= |incoming| && Closing(p.incoming) == Closing(incoming)
    case Ok(None) =>
      && s' == s && Closing(p.incoming) == Closing(incoming) && DecodeFrame(p.buffer).Incomplete?
      && (incoming != [] ==> |p.incoming| < |incoming|)
    case Err(CorruptFrame(fault)) => DecodeFrame(s).Corrupt? && DecodeFrame(s).fault == fault
    case Err(e) => p.buffer == s && DecodeFrame(s).Incomplete? && Closing(incoming) == Some(e)
  }

  /** What one call does to the bytes still to be decoded, those in the buffer and
      those to arrive: it takes exactly the first frame off them, or nothing. */
  lemma {:induction false} PollReads(buffer: seq<Byte>, incoming: seq<ReadOutcome>)
    ensures Reads(buffer, incoming, Poll(buffer, incoming))
    decreases |incoming|
  {
    if !DecodeFrame(buffer).Incomplete? {
      DecidesFromBuffer(buffer, Arriving(incoming));
    } else if incoming != [] && incoming[0].Ready? && incoming[0].bytes != [] {
      PollReads(buffer + incoming[0].bytes, incoming[1..]);
      SplitAt(buffer, incoming[0].bytes, Arriving(incoming[1..]));
    } else if incoming == [] || !incoming[0].WouldBlock? {
      assert buffer + [] == buffer;
    }
  }

  lemma {:induction false} DecidesFromBuffer(buffer: seq<Byte>, more: seq<Byte>)
    requires !DecodeFrame(buffer).Incomplete?
    ensures DecodeFrame(buffer + more) == DecodeFrame(buffer)
    ensures var n := DecodeFrame(buffer).consumed; 0 < n <= |buffer| && (buffer + more)[n..] == buffer[n..] + more
  {
    DecodeExtends(buffer, more);
    DecodeCut(buffer, |buffer|);
  }

  /** However the bytes are cut into reads, and however often a read would block,
      repeated calls decode what decoding all the bytes at once gives; what is
      left undecoded stays in the buffer, and the end of the reads shows as an error. */
  lemma {:induction false} RunIsDecodeAll(buffer: seq<Byte>, incoming: seq<ReadOutcome>)
    ensures var (run, all) := (Run(buffer, incoming), DecodeAll(buffer + Arriving(incoming)));
            && run.pdus == all.pdus
            && run.error == (if all.error.Some? then all.error else Closing(incoming))
            && (all.error.None? ==> run.buffer == all.buffer)
    decreases |buffer + Arriving(incoming)|, |incoming|
  {
    var p := Poll(buffer, incoming);
    PollReads(buffer, incoming);
    match p.result {
      case Err(e) =>
      case Ok(Some(pdu)) =>
        RunIsDecodeAll(p.buffer, p.incoming);
      case Ok(None) =>
        if incoming != [] {
          RunIsDecodeAll(p.buffer, p.incoming);
        } else {
          assert buffer + Arriving(incoming) == buffer;
        }
    }
  }

  // ----- Encoded frames -----

  function Wire(fs: seq<Frame>): seq<Byte> {
    if fs == [] then [] else Encode(fs[0]) + Wire(fs[1..])
  }

  function Pdus(fs: seq<Frame>): seq<DecodedPdu> {
    if fs == [] then [] else [PduOf(fs[0])] + Pdus(fs[1..])
  }

  /** The serial stays with its frame; a known ident gives its payload, an unknown
      one its number and no more. */
  lemma {:induction false} PdusAt(fs: seq<Frame>)
    ensures |Pdus(fs)| == |fs|
    ensures forall i :: 0 <= i < |fs| ==> Carries(Pdus(fs)[i], fs[i])
  {
    if fs != [] {
      PdusAt(fs[1..]);
    }
  }

  predicate Carries(p: DecodedPdu, f: Frame) {
    && p.serial == f.serial && p.pdu.ident == f.ident
    && (p.pdu.Invalid? <==> f.ident in {5, 6, 7, 15, 16, 17, 18, 19, 21} || f.ident > 62)
    && (p.pdu.Known? ==> p.pdu.data == f.data && p.pdu.compressed == f.compressed)
  }

  predicate AllEncodable(fs: seq<Frame>) { forall f | f in fs :: Encodable(f) }

  lemma {:induction false} DecodeAllStep(s: seq<Byte>)
    ensures DecodeFrame(s).Decoded? ==>
              && DecodeFrame(s).consumed <= |s|
              && DecodeAll(s) == Cons(PduOf(DecodeFrame(s).frame), DecodeAll(s[DecodeFrame(s).consumed..]))
  {
    DecodeCut(s, |s|);
  }

  lemma {:induction false} SplitAt(a: seq<Byte>, b: seq<Byte>, c: seq<Byte>)
    ensures (a + b) + c == a + (b + c) && (a + (b + c))[|a|..] == b + c
  {
  }

  lemma {:induction false} DecodeAllWire(fs: seq<Frame>, rest: seq<Byte>)
    requires AllEncodable(fs) && DecodeFrame(rest).Incomplete?
    ensures DecodeAll(Wire(fs) + rest) == Session(Pdus(fs), None, rest)
  {
    if fs == [] {
      assert [] + rest == rest;
    } else {
      var tail := Wire(fs[1..]) + rest;
      DecodeEncode(fs[0], tail);
      SplitAt(Encode(fs[0]), Wire(fs[1..]), rest);
      DecodeAllStep(Encode(fs[0]) + tail);
      DecodeAllWire(fs[1..], rest);
    }
  }

  /** Frames sent back to back and read in any pieces come out as sent, in order,
      unknown idents included; of a frame that has not come in full, exactly the
      bytes that have come stay in the buffer. */
  lemma {:induction false} FramesArriveInOrder(fs: seq<Frame>, rest: seq<Byte>, buffer: seq<Byte>,
                                               incoming: seq<ReadOutcome>)
    requires AllEncodable(fs) && DecodeFrame(rest).Incomplete?
    requires buffer + Arriving(incoming) == Wire(fs) + rest
    ensures var pdus := Run(buffer, incoming).pdus;
            |pdus| == |fs| && forall i :: 0 <= i < |fs| ==> Carries(pdus[i], fs[i])
    ensures Run(buffer, incoming).error == Closing(incoming)
    ensures Run(buffer, incoming).buffer == rest
  {
    RunIsDecodeAll(buffer, incoming);
    DecodeAllWire(fs, rest);
    PdusAt(fs);
  }
}
