/** Unsigned LEB128 (section 7.6 of DWARF Version 4) for 64-bit values, as the
    mux codec of `codec/src/lib.rs` reads and writes it. */
module Leb128 {
  import opened Bits

  /** The encoding of `value`: seven bits a byte, low ones first, the top bit of
      every byte but the last set. */
  function Write(value: nat): (r: seq<Byte>)
    ensures |r| >= 1
  {
    if value < 128 then [value] else [value % 128 + 128] + Write(value / 128)
  }

  function EncodedLength(value: nat): nat { |Write(value)| }

  datatype Read =
    | Value(value: nat, consumed: nat)
    | Overflow(consumed: nat)
    | EndOfInput

  /** Reads on from byte `i`, the `n`th of its value, with `result` so far. */
  function ReadFrom(s: seq<Byte>, i: nat, n: nat, result: nat): Read
    requires i <= |s| && n <= 9
    decreases |s| - i
  {
    if i == |s| then EndOfInput
    else if n == 9 && s[i] > 1 then SkipOverlong(s, i)
    else
      var result' := Or(result, Shl(Mask(s[i], 7), 7 * n, 64));
      if s[i] < 128 then Value(result', i + 1) else ReadFrom(s, i + 1, n + 1, result')
  }

  /** Too many bits: the rest of the value is skipped before the error. */
  function SkipOverlong(s: seq<Byte>, i: nat): Read
    requires i < |s|
    decreases |s| - i
  {
    if s[i] < 128 then Overflow(i + 1)
    else if i + 1 == |s| then EndOfInput
    else SkipOverlong(s, i + 1)
  }

  /** A value read from the start of `s`. */
  function ReadUnsigned(s: seq<Byte>): Read { ReadFrom(s, 0, 0, 0) }

  // ----- What a read makes of its input -----

  /** The first value in `s` ends with byte `c - 1`. */
  predicate Ends(s: seq<Byte>, c: nat) {
    0 < c <= |s| && s[c - 1] < 128 && forall i :: 0 <= i < c - 1 ==> s[i] >= 128
  }

  /** The number whose digits to the base 128, lowest first, are the low seven bits of the bytes. */
  function Septets(s: seq<Byte>): nat {
    if s == [] then 0 else s[0] % 128 + 128 * Septets(s[1..])
  }

  /** At most 64 bits in `c` bytes: the tenth byte has just one to give. */
  predicate Fits(s: seq<Byte>, c: nat) { c < 10 || (c == 10 <= |s| && s[9] <= 1) }

  lemma {:induction false} SeptetMask(b: Byte)
    ensures Pow2(7) == 128 && Mask(b, 7) == b % 128
  {
    assert Pow2(7) == 128 by { assert Pow2(3) == 8; assert Pow2(5) == 4 * Pow2(3); }
    MaskSmall(b, if b < 128 then 7 else 8);
    MaskStep(b, 7);
    MaskBound(b, 7);
  }

  lemma {:induction false} DoubleSplit(value: nat, n: nat)
    ensures Double(value, n) == Double(value % 128, n) + Double(value / 128, n + 7)
    decreases n
  {
    if n == 0 {
      var q := value / 128;
      assert Double(q, 7) == 8 * Double(q, 4) by {
        assert Double(q, 7) == 2 * Double(q, 6);
        assert Double(q, 5) == 2 * Double(q, 4);
      }
      assert Double(q, 4) == 16 * q by { assert Double(q, 2) == 2 * Double(q, 1) && Double(q, 1) == 2 * Double(q, 0); }
    } else {
      DoubleSplit(value, n - 1);
    }
  }

  /** Seven more bits or-ed in above the `n` septets read so far. */
  lemma {:induction false} SeptetAdds(result: nat, n: nat, b: Byte, width: nat)
    requires n <= 9 && result < Pow2(7 * n) && (n == 9 ==> b <= 1) && width == 64
    ensures Or(result, Shl(Mask(b, 7), 7 * n, width)) == result + Double(b % 128, 7 * n) < Pow2(7 * n + 7)
  {
    SeptetMask(b);
    var k := SeptetWidth(b, n);
    FitsInWord(b % 128, 7 * n, k, width);
    OrIsConcat(result, b % 128, 7 * n);
    DoubleSmall(b % 128, 7 * n, 7, result);
  }

  lemma {:induction false} SeptetWidth(b: Byte, n: nat) returns (k: nat)
    requires n <= 9 && (n == 9 ==> b <= 1)
    ensures b % 128 < Pow2(k) && 7 * n + k <= 64
  {
    if n == 9 {
      k := 1;
    } else {
      SeptetMask(b);
      k := 7;
    }
  }

  lemma {:induction false} DoubleSmall(low: nat, n: nat, k: nat, rest: nat)
    requires low < Pow2(k) && rest < Pow2(n)
    ensures rest + Double(low, n) < Pow2(n + k)
    decreases n
  {
    if n > 0 {
      DoubleSmall(low, n - 1, k, rest / 2);
    }
  }

  lemma {:induction false} FirstSeptet(s: seq<Byte>, i: nat, c: nat, n: nat)
    requires i < c <= |s|
    ensures Double(Septets(s[i..c]), n) == Double(s[i] % 128, n) + Double(Septets(s[i + 1..c]), n + 7)
  {
    var rest := Septets(s[i + 1..c]);
    assert s[i..c][1..] == s[i + 1..c];
    assert (s[i] % 128 + 128 * rest) % 128 == s[i] % 128 && (s[i] % 128 + 128 * rest) / 128 == rest;
    DoubleSplit(Septets(s[i..c]), n);
  }

  lemma {:induction false} ReadByte(s: seq<Byte>, i: nat, result: nat) returns (result': nat)
    requires i < |s| && i <= 9 && result < Pow2(7 * i) && (i == 9 ==> s[i] <= 1)
    ensures result' == result + Double(s[i] % 128, 7 * i) < Pow2(7 * i + 7)
    ensures ReadFrom(s, i, i, result)
            == if s[i] < 128 then Value(result', i + 1) else ReadFrom(s, i + 1, i + 1, result')
  {
    SeptetAdds(result, i, s[i], 64);
    result' := result + Double(s[i] % 128, 7 * i);
  }

  /** Reading on from byte `i` when the value ends before byte `c`. */
  lemma {:induction false} ReadOn(s: seq<Byte>, i: nat, result: nat, c: nat)
    requires i < c && Ends(s, c) && i <= 9 && result < Pow2(7 * i)
    ensures ReadFrom(s, i, i, result)
            == if Fits(s, c) then Value(result + Double(Septets(s[i..c]), 7 * i), c) else Overflow(c)
    decreases c - i
  {
    if i == 9 && s[i] > 1 {
      SkipsTo(s, i, c);
    } else {
      var result' := ReadByte(s, i, result);
      FirstSeptet(s, i, c, 7 * i);
      if s[i] >= 128 {
        ReadOn(s, i + 1, result', c);
      } else {
        DoubleZero(7 * i + 7);
        assert s[i + 1..c] == [];
      }
    }
  }

  lemma {:induction false} SkipsTo(s: seq<Byte>, i: nat, c: nat)
    requires i < c && Ends(s, c)
    ensures SkipOverlong(s, i) == Overflow(c)
    decreases c - i
  {
    if s[i] >= 128 {
      SkipsTo(s, i + 1, c);
    }
  }

  /** A value that ends is read as its septets, or is refused if 64 bits cannot hold it. */
  lemma {:induction false} ReadEnds(s: seq<Byte>, c: nat)
    requires Ends(s, c)
    ensures ReadUnsigned(s) == if Fits(s, c) then Value(Septets(s[..c]), c) else Overflow(c)
  {
    ReadOn(s, 0, 0, c);
    assert s[0..c] == s[..c];
  }

  /** ... and only such a value is read or refused. */
  lemma {:induction false} ReadNeedsEnd(s: seq<Byte>, i: nat, n: nat, result: nat)
    requires i <= |s| && n <= 9 && (forall j :: 0 <= j < i ==> s[j] >= 128)
    ensures var r := ReadFrom(s, i, n, result); !r.EndOfInput? ==> Ends(s, r.consumed)
    decreases |s| - i
  {
    if i < |s| {
      if n == 9 && s[i] > 1 {
        SkipNeedsEnd(s, i);
      } else if s[i] >= 128 {
        ReadNeedsEnd(s, i + 1, n + 1, Or(result, Shl(Mask(s[i], 7), 7 * n, 64)));
      }
    }
  }

  lemma {:induction false} SkipNeedsEnd(s: seq<Byte>, i: nat)
    requires i < |s| && (forall j :: 0 <= j < i ==> s[j] >= 128)
    ensures var r := SkipOverlong(s, i); !r.EndOfInput? ==> r.Overflow? && Ends(s, r.consumed)
    decreases |s| - i
  {
    if s[i] >= 128 && i + 1 < |s| {
      SkipNeedsEnd(s, i + 1);
    }
  }

  /** The two together. */
  lemma {:induction false} ReadIs(s: seq<Byte>)
    ensures var r := ReadUnsigned(s);
            && (r.EndOfInput? <==> forall i :: 0 <= i < |s| ==> s[i] >= 128)
            && (r.Value? ==> Ends(s, r.consumed) && Fits(s, r.consumed) && r.value == Septets(s[..r.consumed]))
            && (r.Overflow? ==> Ends(s, r.consumed) && !Fits(s, r.consumed))
  {
    ReadNeedsEnd(s, 0, 0, 0);
    if i :| 0 <= i < |s| && s[i] < 128 {
      var c := FirstEnd(s, i);
      ReadEnds(s, c);
    }
  }

  lemma {:induction false} FirstEnd(s: seq<Byte>, i: nat) returns (c: nat)
    requires i < |s| && s[i] < 128
    ensures Ends(s, c)
  {
    if j :| 0 <= j < i && s[j] < 128 {
      c := FirstEnd(s, j);
    } else {
      c := i + 1;
    }
  }

  // ----- Round trip, and the shortest form -----

  /** What is written has the digits of the value, and no zero on top of them. */
  lemma {:induction false} WriteSeptets(value: nat)
    ensures Ends(Write(value), |Write(value)|) && Septets(Write(value)) == value
    ensures |Write(value)| > 1 ==> Write(value)[|Write(value)| - 1] > 0
  {
    if value >= 128 {
      WriteSeptets(value / 128);
    } else {
      assert Write(value)[1..] == [];
    }
  }

  /** As many bytes as the value needs septets. */
  lemma {:induction false} WriteBounds(value: nat)
    ensures value < Pow2(7 * |Write(value)|)
    ensures |Write(value)| > 1 ==> Pow2(7 * (|Write(value)| - 1)) <= value
    decreases value
  {
    SeptetMask(0);
    if value >= 128 {
      var n := |Write(value / 128)|;
      WriteBounds(value / 128);
      SevenMore(7 * n);
      if n > 1 {
        SevenMore(7 * (n - 1));
      }
    }
  }

  lemma {:induction false} SevenMore(n: nat)
    ensures Pow2(n + 7) == 128 * Pow2(n)
  {
    assert Pow2(n + 7) == 4 * Pow2(n + 5) && Pow2(n + 5) == 4 * Pow2(n + 3) && Pow2(n + 3) == 4 * Pow2(n + 1);
  }

  /** The length of an encoding is the least number of septets that hold the value. */
  lemma {:induction false} LengthIsLeast(value: nat)
    ensures EncodedLength(value) >= 1 && value < Pow2(7 * EncodedLength(value))
    ensures forall n: nat :: n >= 1 && value < Pow2(7 * n) ==> EncodedLength(value) <= n
  {
    WriteBounds(value);
    forall n: nat | n >= 1 && value < Pow2(7 * n)
      ensures EncodedLength(value) <= n
    {
      if n < EncodedLength(value) {
        Pow2Monotone(7 * n, 7 * (EncodedLength(value) - 1));
      }
    }
  }

  /** Reading an encoding gives the value back and stops at its end. */
  lemma {:induction false} ReadWrite(value: nat, after: seq<Byte>)
    requires value < Pow2(64)
    ensures ReadUnsigned(Write(value) + after) == Value(value, EncodedLength(value))
  {
    var (w, s) := (Write(value), Write(value) + after);
    WriteSeptets(value);
    assert s[..|w|] == w && forall i :: 0 <= i < |w| ==> s[i] == w[i];
    WriteFits(value, 64);
    ReadEnds(s, |w|);
  }

  lemma {:induction false} WriteFits(value: nat, width: nat)
    requires width == 64 && value < Pow2(width)
    ensures Fits(Write(value), |Write(value)|)
  {
    var w := Write(value);
    WriteBounds(value);
    if |w| > 10 {
      Pow2Monotone(width, 7 * (|w| - 1));
    } else if |w| == 10 {
      WriteSeptets(value);
      if w[9] >= 2 {
        TopSeptet(w);
      }
    }
  }

  lemma {:induction false} TopSeptet(s: seq<Byte>)
    requires s != [] && 2 <= s[|s| - 1] < 128
    ensures Septets(s) >= 2 * Pow2(7 * (|s| - 1))
  {
    if |s| > 1 {
      TopSeptet(s[1..]);
      SevenMore(7 * (|s| - 2));
    }
  }

  lemma {:induction false} SeptetsBound(s: seq<Byte>)
    ensures Septets(s) < Pow2(7 * |s|)
  {
    if s != [] {
      SeptetsBound(s[1..]);
      SevenMore(7 * (|s| - 1));
    }
  }

  /** What is read is a 64-bit number. */
  lemma {:induction false} ReadInWord(s: seq<Byte>, width: nat)
    requires width == 64 && ReadUnsigned(s).Value?
    ensures ReadUnsigned(s).value < Pow2(width)
  {
    var c := ReadUnsigned(s).consumed;
    ReadIs(s);
    if c < 10 {
      SeptetsBound(s[..c]);
      Pow2Monotone(7 * c, width);
    } else {
      assert s[..c] == s[..9] + [s[9]];
      SeptetsBound(s[..9]);
      TopBitAdds(s[..9], s[9]);
    }
  }

  lemma {:induction false} TopBitAdds(s: seq<Byte>, b: Byte)
    requires b <= 1
    ensures Septets(s + [b]) <= Septets(s) + Pow2(7 * |s|)
  {
    if s == [] {
      assert Septets([b]) == b % 128 + 128 * Septets([b][1..]);
    } else {
      assert (s + [b])[1..] == s[1..] + [b];
      TopBitAdds(s[1..], b);
      SevenMore(7 * (|s| - 1));
    }
  }

  /** No bytes that are read as the value are fewer than those written for it, and
      only those are as few. */
  lemma {:induction false} WriteIsShortest(s: seq<Byte>)
    requires ReadUnsigned(s).Value?
    ensures var (value, c) := (ReadUnsigned(s).value, ReadUnsigned(s).consumed);
            && c <= |s| && EncodedLength(value) <= c
            && (EncodedLength(value) == c <==> s[..c] == Write(value))
  {
    var (value, c) := (ReadUnsigned(s).value, ReadUnsigned(s).consumed);
    ReadIs(s);
    SeptetsBound(s[..c]);
    LengthIsLeast(value);
    if EncodedLength(value) == c {
      WriteSeptets(value);
      SameSeptets(s[..c], Write(value));
    }
  }

  lemma {:induction false} SameSeptets(s: seq<Byte>, t: seq<Byte>)
    requires |s| == |t| && Ends(s, |s|) && Ends(t, |t|) && Septets(s) == Septets(t)
    ensures s == t
  {
    SameDigit(s[0], t[0], Septets(s[1..]), Septets(t[1..]));
    if |s| > 1 {
      SameSeptets(s[1..], t[1..]);
    }
    assert s == [s[0]] + s[1..] && t == [t[0]] + t[1..];
  }

  lemma {:induction false} SameDigit(a: Byte, b: Byte, m: nat, n: nat)
    requires a % 128 + 128 * m == b % 128 + 128 * n
    ensures m == n && a % 128 == b % 128
    ensures (a < 128 <==> b < 128) ==> a == b
  {
  }

  // ----- Truncation -----

  /** What a read decides, it decides from the bytes it consumes. */
  lemma {:induction false} ReadFromPrefix(s: seq<Byte>, i: nat, n: nat, result: nat, m: nat)
    requires i <= m <= |s| && n <= 9
    ensures var (whole, part) := (ReadFrom(s, i, n, result), ReadFrom(s[..m], i, n, result));
            part == if whole.EndOfInput? || whole.consumed > m then EndOfInput else whole
    ensures var whole := ReadFrom(s, i, n, result);
            !whole.EndOfInput? ==> i < whole.consumed <= |s|
    decreases |s| - i
  {
    if i == m {
      ReadConsumes(s, i, n, result);
    } else if n == 9 && s[i] > 1 {
      SkipPrefix(s, i, m);
    } else {
      var result' := Or(result, Shl(Mask(s[i], 7), 7 * n, 64));
      if s[i] >= 128 {
        ReadFromPrefix(s, i + 1, n + 1, result', m);
      }
    }
  }

  lemma {:induction false} ReadConsumes(s: seq<Byte>, i: nat, n: nat, result: nat)
    requires i <= |s| && n <= 9
    ensures var r := ReadFrom(s, i, n, result);
            !r.EndOfInput? ==> i < r.consumed <= |s|
    decreases |s| - i
  {
    if i < |s| {
      if n == 9 && s[i] > 1 {
        SkipPrefix(s, i, |s|);
      } else if s[i] >= 128 {
        ReadConsumes(s, i + 1, n + 1, Or(result, Shl(Mask(s[i], 7), 7 * n, 64)));
      }
    }
  }

  lemma {:induction false} SkipPrefix(s: seq<Byte>, i: nat, m: nat)
    requires i < m <= |s|
    ensures var (whole, part) := (SkipOverlong(s, i), SkipOverlong(s[..m], i));
            && !whole.Value?
            && (!whole.EndOfInput? ==> i < whole.consumed <= |s|)
            && part == if whole.EndOfInput? || whole.consumed > m then EndOfInput else whole
    decreases |s| - i
  {
    if s[i] >= 128 {
      if i + 1 < m {
        SkipPrefix(s, i + 1, m);
      } else if i + 1 < |s| {
        SkipPrefix(s, i + 1, |s|);
      }
    }
  }

  /** `read_u64_async`: one byte more at a time, read again from the start each
      time, decides the same and consumes the same bytes. */
  method ReadBytewise(s: seq<Byte>) returns (r: Read)
    ensures r == ReadUnsigned(s)
  {
    var n := 0;
    while n < |s|
      invariant n <= |s|
      invariant ReadUnsigned(s[..n]) == EndOfInput
    {
      n := n + 1;
      ReadFromPrefix(s, 0, 0, 0, n);
      ReadFromPrefix(s, 0, 0, 0, n - 1);
      match ReadUnsigned(s[..n]) {
        case Value(value, _) => return Value(value, n);
        case Overflow(_) => return Overflow(n);
        case EndOfInput =>
      }
    }
    assert s[..n] == s;
    return EndOfInput;
  }
}
