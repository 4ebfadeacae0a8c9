/**
  HyperLogLogUtils: the binary format of a serialized sketch.

    | "HLL" | header byte | estimated count (varint) | register length (varint, SPARSE) | packed register (DENSE) |

  The header byte holds `p` in bits 7-4, a flag for hash widths above 32 in bit 3
  and the encoding selector in bits 2-0: 0 for SPARSE, otherwise the bit width of
  every counter of the packed DENSE register. Output streams are the byte
  sequences written; an input stream is the sequence of its bytes, and
  `in.read()` past their end is -1.

  The writer never emits a register length for SPARSE, although the reader
  expects one, and it writes selector 7 for a DENSE register holding a counter of
  64 or more, which the reader rejects. `DecodeHeaderAsWritten` is the reader's
  header check as the code has it; `Deserialize` also accepts selector 7.
 */
module Codec {
  import opened JavaInts
  import opened Results
  import opened Streams
  import opened BitPacking
  import opened HyperLogLog
  import Registers
  import Varints

  // ---------------------------------------------------------------------------
  // Register summaries

  /** `getMax(register)`: the largest counter, or 0 when none is positive. */
  method GetMax(register: seq<Int8>) returns (max: int)
    ensures max == Registers.MaxValue(register)
  {
    max := 0;
    var i := 0;
    while i < |register|
      invariant 0 <= i <= |register|
      invariant max == Registers.MaxValue(register[..i])
    {
      assert register[..i + 1][..i] == register[..i];
      if register[i] > max {
        max := register[i];
      }
      i := i + 1;
    }
    assert register[..i] == register;
  }

  /** No counter of a byte array exceeds 127. */
  lemma MaxValueBelow128(register: seq<Int8>)
    ensures Registers.MaxValue(register) <= 127
  {
    Registers.MaxValueIsMax(register);
  }

  /** The number of significant bits of `v`: the least `w` with `v < 2^w`. */
  function BitWidth(v: nat): (w: nat)
    ensures v < Pow2(w)
    ensures w > 0 ==> Pow2(w - 1) <= v
  {
    if v == 0 then 0 else 1 + BitWidth(v / 2)
  }

  /** No smaller width holds `v`. */
  lemma {:induction false} BitWidthIsLeast(v: nat, k: nat)
    requires v < Pow2(k)
    ensures BitWidth(v) <= k
  {
    if v > 0 {
      assert k > 0;
      BitWidthIsLeast(v / 2, k - 1);
    }
  }

  /**
    `getBitWidth(lzr)`. Java shifts and narrows to a byte, `(byte) (lzr >>> 1)`,
    which for `0 <= lzr <= 127` is `lzr / 2`. Outside that range the loop never
    ends (a negative byte stays negative), and `serializeHLL` only passes
    `getMax` of a register.
   */
  method GetBitWidth(lzr: int) returns (count: nat)
    requires 0 <= lzr <= 127
    ensures count == BitWidth(lzr)
  {
    count := 0;
    var v := lzr;
    while v != 0
      invariant 0 <= v <= 127
      invariant count + BitWidth(v) == BitWidth(lzr)
      decreases v
    {
      count := count + 1;
      v := v / 2;
    }
  }

  /** A register's bit width is at most 7. */
  lemma WidthAtMost7(register: seq<Int8>)
    ensures BitWidth(Registers.MaxValue(register)) <= 7
  {
    MaxValueBelow128(register);
    assert Pow2(7) == 128;
    BitWidthIsLeast(Registers.MaxValue(register), 7);
  }

  /** Every counter of a register without negative counters fits in its bit width. */
  lemma CountersFitWidth(register: seq<Int8>)
    requires Registers.NonNegative(register)
    ensures forall i :: 0 <= i < |register| ==> 0 <= register[i] < Pow2(BitWidth(Registers.MaxValue(register)))
  {
    Registers.MaxValueIsMax(register);
  }

  // ---------------------------------------------------------------------------
  // Header

  /** The magic string "HLL". */
  const MAGIC: seq<Byte> := [72, 76, 76]

  /**
    `checkMagicString(in)`: the first three reads must spell "HLL". A read past the
    end gives -1, which no letter of the magic string matches. The result is the
    number of bytes read.
   */
  function CheckMagic(s: seq<Byte>): (res: Result<nat>)
    ensures res.Ok? <==> |s| >= 3 && s[..3] == MAGIC
    ensures res.Ok? ==> res.value == 3
    ensures res.Err? ==> res.error == IllegalArgument
  {
    if OctetAt(s, 0) == 72 && OctetAt(s, 1) == 76 && OctetAt(s, 2) == 76 then Ok(3) else Err(IllegalArgument)
  }

  /** The fields `deserializeHLL` takes from the header byte. */
  datatype Header = Header(p: nat, hashBits: nat, encoding: EncodingType, bitSize: nat)

  /** The encoding selector `serializeHLL` writes: 0 for SPARSE, else `bitWidth & 7`. */
  function Selector(encoding: EncodingType, bitWidth: nat): (sel: nat)
    ensures sel < 8
    ensures encoding == Sparse ==> sel == 0
    ensures encoding == Dense && bitWidth < 8 ==> sel == bitWidth
  {
    if encoding == Sparse then 0 else bitWidth % 8
  }

  /** The hash-width flag of the header: set when more than 32 hash bits are used. */
  function HashFlag(hashBits: int): (f: nat)
    ensures f == 0 || f == 8
    ensures f == 8 <==> hashBits > 32
  {
    if hashBits > 32 then 8 else 0
  }

  /**
    The fourth byte `serializeHLL` writes: `(p & 0xff) << 4`, then the flag and the
    selector below it; `out.write` keeps the low eight bits, so a `p` of 16 or
    more loses its high bits.
   */
  function HeaderByte(p: int, hashBits: int, sel: nat): (b: Byte)
    requires sel < 8
    ensures b / 16 == p % 16
    ensures (b / 8) % 2 == HashFlag(hashBits) / 8
    ensures b % 8 == sel
  {
    var f := HashFlag(hashBits);
    var b := ((p % 256) * 16 + f + sel) % 256;
    HeaderValue(p, f + sel);
    HeaderFields(p % 16, f, sel, b);
    b
  }

  /** The byte written is `p`'s low nibble above the four low bits. */
  lemma HeaderValue(p: int, r: int)
    requires 0 <= r < 16
    ensures ((p % 256) * 16 + r) % 256 == (p % 16) * 16 + r
  {
    var a := p % 256;
    DivModUnique(p, 16, 16 * (p / 256) + a / 16, a % 16);
    DivModUnique(a * 16 + r, 256, a / 16, (a % 16) * 16 + r);
  }

  /** The three fields of `q * 16 + f + sel`. */
  lemma HeaderFields(q: int, f: int, sel: int, b: int)
    requires 0 <= q < 16 && (f == 0 || f == 8) && 0 <= sel < 8 && b == q * 16 + f + sel
    ensures b / 16 == q && (b / 8) % 2 == f / 8 && b % 8 == sel
  {
    DivModUnique(b, 16, q, f + sel);
    DivModUnique(b, 8, 2 * q + f / 8, sel);
    DivModUnique(2 * q + f / 8, 2, q, f / 8);
  }

  /** The fields `deserializeHLL` reads: `p` from the high nibble, 32 or 128 hash bits, the selector. */
  function HeaderOf(b: Byte): (h: Header)
    ensures WellFormed(h)
    ensures b == 16 * h.p + (if h.hashBits == 128 then 8 else 0) + h.bitSize
  {
    var sel := b % 8;
    Header(b / 16, if (b / 8) % 2 == 0 then 32 else 128, if sel == 0 then Sparse else Dense, if sel == 0 then 0 else sel)
  }

  /** The header check of `deserializeHLL` as written: selectors 1 to 6 are DENSE, 7 is rejected. */
  function DecodeHeaderAsWritten(b: Byte): (res: Result<Header>)
    ensures res.Err? <==> b % 8 == 7
    ensures res.Err? ==> res.error == IllegalArgument
    ensures res.Ok? ==> res.value == HeaderOf(b)
  {
    if b % 8 == 7 then Err(IllegalArgument) else Ok(HeaderOf(b))
  }

  /** A decoded header's fields: a nibble `p`, 32 or 128 hash bits, and a DENSE bit size of 1 to 7. */
  ghost predicate WellFormed(h: Header) {
    && h.p < 16
    && (h.hashBits == 32 || h.hashBits == 128)
    && (h.encoding == Sparse <==> h.bitSize == 0)
    && h.bitSize <= 7
  }

  lemma HeaderOfWellFormed(b: Byte)
    ensures WellFormed(HeaderOf(b))
  {
  }

  /**
    Decoding the header byte gives back `p` modulo 16, the hash width class and the
    selector; the reader as written rejects selector 7.
   */
  lemma HeaderRoundTrip(p: int, hashBits: int, sel: nat)
    requires sel < 8
    ensures HeaderOf(HeaderByte(p, hashBits, sel))
         == Header(p % 16, if hashBits > 32 then 128 else 32, if sel == 0 then Sparse else Dense, sel)
    ensures DecodeHeaderAsWritten(HeaderByte(p, hashBits, sel)).Ok? <==> sel < 7
  {
  }

  // ---------------------------------------------------------------------------
  // Serialization

  /** The width `serializeHLL` packs a register with: 0 for SPARSE, else `getBitWidth(getMax(register))`. */
  function WidthFor(encoding: EncodingType, register: seq<Int8>): (w: nat)
    ensures w <= 7
    ensures encoding == Sparse ==> w == 0
    ensures encoding == Dense ==> w == BitWidth(Registers.MaxValue(register))
  {
    WidthAtMost7(register);
    if encoding == Sparse then 0 else BitWidth(Registers.MaxValue(register))
  }

  /**
    The bytes `serializeHLL` writes for a sketch with `p` index bits, `hashBits`
    hash bits, the given encoding and dense register, whose `count()` is
    `estCount`.
   */
  function Serialized(p: int, hashBits: int, encoding: EncodingType, register: seq<Int8>, estCount: Int64): (bs: seq<Byte>)
    ensures |bs| >= 5
    ensures bs[..3] == MAGIC
    ensures bs[3] == HeaderByte(p, hashBits, Selector(encoding, WidthFor(encoding, register)))
  {
    var w := WidthFor(encoding, register);
    var header := MAGIC + [HeaderByte(p, hashBits, Selector(encoding, w))];
    var body := Varints.Encode(Unsigned64(estCount)) + (if encoding == Dense then Pack(register, w) else []);
    assert (header + body)[..4] == header;
    header + body
  }

  /**
    `serializeHLL(out, hll)`; the sketch's fields, its register and its `count()`
    are parameters. Counters are never negative in a register that `set`, `add`
    and `merge` built.
   */
  method SerializeHLL(p: int, hashBits: int, encoding: EncodingType, register: seq<Int8>, estCount: Int64)
    returns (out: seq<Byte>)
    requires encoding == Dense ==> Registers.NonNegative(register)
    ensures out == Serialized(p, hashBits, encoding, register, estCount)
  {
    out := MAGIC;
    var bitWidth := 0;
    if encoding == Dense {
      var lzr := GetMax(register);
      MaxValueBelow128(register);
      bitWidth := GetBitWidth(lzr);
    }
    var fourthByte := HeaderByte(p, hashBits, Selector(encoding, bitWidth));
    out := out + [fourthByte];
    var count := Varints.WriteVulong(estCount);
    out := out + count;
    if encoding == Dense {
      CountersFitWidth(register);
      WidthAtMost7(register);
      var packed := Bitpack(register, bitWidth);
      out := out + packed;
    } else {
      assert out + [] == out;
    }
    SerializedParts(p, hashBits, encoding, register, estCount, bitWidth, fourthByte, count);
  }

  lemma SerializedParts(p: int, hashBits: int, encoding: EncodingType, register: seq<Int8>, estCount: Int64,
                        w: nat, fourthByte: Byte, count: seq<Byte>)
    requires w == WidthFor(encoding, register) && fourthByte == HeaderByte(p, hashBits, Selector(encoding, w))
    requires count == Varints.Encode(Unsigned64(estCount))
    ensures Serialized(p, hashBits, encoding, register, estCount)
         == MAGIC + [fourthByte] + count + (if encoding == Dense then Pack(register, w) else [])
  {
  }

  // ---------------------------------------------------------------------------
  // Deserialization

  /**
    The fields `deserializeHLL` decodes before it builds a sketch: the header, the
    estimated count and, for DENSE, the unpacked register (`null` for SPARSE), with
    the number of bytes read.
   */
  datatype Decoded = Decoded(header: Header, estimatedCount: Int64, register: Option<seq<Int8>>, consumed: nat)

  /**
    What `deserializeHLL` reads after a header `h`: the estimated count, then for
    SPARSE a register length it discards, for DENSE `1 << p` counters of
    `bitSize` bits.
   */
  function DecodeBody(s: seq<Byte>, h: Header): (res: Result<Decoded>)
    requires WellFormed(h)
    ensures res.Ok? ==> res.value.header == h
    ensures res.Ok? ==> (res.value.register.Some? <==> h.encoding == Dense)
    ensures res.Ok? && h.encoding == Dense ==> |res.value.register.value| == Pow2(h.p)
  {
    var rest := Drop(s, 4);
    var est := Varints.DecodeVulong(rest);
    if est.Err? then Err(est.error) else DecodeRegister(rest, h, est.value.0, est.value.1)
  }

  /**
    The register part of the body, after the `k` bytes of the estimated count in
    `rest`, the bytes after the header.
   */
  function DecodeRegister(rest: seq<Byte>, h: Header, estCount: Int64, k: nat): (res: Result<Decoded>)
    requires WellFormed(h)
    ensures res.Ok? ==> res.value.header == h && res.value.estimatedCount == estCount
    ensures res.Ok? ==> (res.value.register.Some? <==> h.encoding == Dense)
    ensures res.Ok? && h.encoding == Dense ==> |res.value.register.value| == Pow2(h.p)
  {
    var tail := Drop(rest, k);
    if h.encoding == Sparse then
      var entries := Varints.DecodeVulong(tail);
      if entries.Err? then Err(entries.error) else Ok(Decoded(h, estCount, None, 4 + k + entries.value.1))
    else
      var m := Pow2(h.p);
      Ok(Decoded(h, estCount, Some(Unpacked(tail, m, h.bitSize)), 4 + k + ReadCount(m, h.bitSize)))
  }

  /** `deserializeHLL(in)` up to its decoded fields, with the header check as written. */
  function DeserializeAsWritten(s: seq<Byte>): (res: Result<Decoded>)
    ensures res.Err? && res.error == IllegalArgument <==> CheckMagic(s).Err? || OctetAt(s, 3) % 8 == 7
  {
    var _ :- CheckMagic(s);
    var h :- DecodeHeaderAsWritten(OctetAt(s, 3));
    HeaderOfWellFormed(OctetAt(s, 3));
    DecodeBody(s, h)
  }

  /** `deserializeHLL(in)` up to its decoded fields, accepting selector 7. */
  function Deserialize(s: seq<Byte>): (res: Result<Decoded>)
    ensures res.Err? && res.error == IllegalArgument <==> CheckMagic(s).Err?
  {
    var _ :- CheckMagic(s);
    var h := HeaderOf(OctetAt(s, 3));
    HeaderOfWellFormed(OctetAt(s, 3));
    DecodeBody(s, h)
  }

  /** `deserializeHLL(in)` as the sequence of Java reads, up to its decoded fields. */
  method DeserializeHLL(s: seq<Byte>) returns (res: Result<Decoded>)
    ensures res == DeserializeAsWritten(s)
  {
    if OctetAt(s, 0) != 72 || OctetAt(s, 1) != 76 || OctetAt(s, 2) != 76 {
      return Err(IllegalArgument);
    }
    var fourthByte := OctetAt(s, 3);
    var enc := fourthByte % 8;
    if !(enc == 0 || (enc > 0 && enc < 7)) {
      return Err(IllegalArgument);
    }
    res := ReadBody(s, HeaderOf(fourthByte));
  }

  /** The same reads with selector 7 accepted as 7-bit packing. */
  method DeserializeHLLCorrected(s: seq<Byte>) returns (res: Result<Decoded>)
    ensures res == Deserialize(s)
  {
    if OctetAt(s, 0) != 72 || OctetAt(s, 1) != 76 || OctetAt(s, 2) != 76 {
      return Err(IllegalArgument);
    }
    var fourthByte := OctetAt(s, 3);
    var h := HeaderOf(fourthByte);
    HeaderOfWellFormed(fourthByte);
    res := ReadBody(s, h);
  }

  /** The reads of `deserializeHLL` after the header byte. */
  method ReadBody(s: seq<Byte>, h: Header) returns (res: Result<Decoded>)
    requires WellFormed(h)
    ensures res == DecodeBody(s, h)
  {
    var rest := Drop(s, 4);
    var est := Varints.ReadVulong(rest);
    if est.Err? {
      return Err(est.error);
    }
    res := ReadRegister(rest, h, est.value.0, est.value.1);
  }

  /** The reads of `deserializeHLL` after the estimated count. */
  method ReadRegister(rest: seq<Byte>, h: Header, estCount: Int64, k: nat) returns (res: Result<Decoded>)
    requires WellFormed(h)
    ensures res == DecodeRegister(rest, h, estCount, k)
  {
    if h.encoding == Sparse {
      res := SkipEntryCount(rest, h, estCount, k);
    } else {
      res := ReadDenseRegister(rest, h, estCount, k);
    }
  }

  /** SPARSE: the entry count is read and nothing after it. */
  method SkipEntryCount(rest: seq<Byte>, h: Header, estCount: Int64, k: nat) returns (res: Result<Decoded>)
    requires WellFormed(h) && h.encoding == Sparse
    ensures res == DecodeRegister(rest, h, estCount, k)
  {
    var entries := Varints.ReadVulong(Drop(rest, k));
    if entries.Err? {
      return Err(entries.error);
    }
    return Ok(Decoded(h, estCount, None, 4 + k + entries.value.1));
  }

  /** DENSE: `2^p` counters of `bitSize` bits are unpacked. */
  method ReadDenseRegister(rest: seq<Byte>, h: Header, estCount: Int64, k: nat) returns (res: Result<Decoded>)
    requires WellFormed(h) && h.encoding == Dense
    ensures res == DecodeRegister(rest, h, estCount, k)
  {
    var register, n := Unpack(Drop(rest, k), Pow2(h.p), h.bitSize);
    DenseDecoded(rest, h, estCount, k, register, n);
    return Ok(Decoded(h, estCount, Some(register), 4 + k + n));
  }

  lemma DenseDecoded(rest: seq<Byte>, h: Header, estCount: Int64, k: nat, register: seq<Int8>, n: nat)
    requires WellFormed(h) && h.encoding == Dense
    requires register == Unpacked(Drop(rest, k), Pow2(h.p), h.bitSize) && n == ReadCount(Pow2(h.p), h.bitSize)
    ensures DecodeRegister(rest, h, estCount, k) == Ok(Decoded(h, estCount, Some(register), 4 + k + n))
  {
  }

  /**
    `getEstimatedCountFromSerializedHLL(in)`: after the magic string one byte is
    skipped (even past the end) and the varint is read.
   */
  function EstimatedCount(s: seq<Byte>): (res: Result<Int64>)
    ensures res.Err? ==> res.error == IllegalArgument || res.error == EndOfFile
  {
    var _ :- CheckMagic(s);
    var (estCount, _) :- Varints.DecodeVulong(Drop(s, 4));
    Ok(estCount)
  }

  // ---------------------------------------------------------------------------
  // What the reader makes of the writer's bytes

  /** The varint after the header of any serialized sketch is its estimated count. */
  lemma EstimatedCountOfSerialized(p: int, hashBits: int, encoding: EncodingType, register: seq<Int8>, estCount: Int64)
    ensures EstimatedCount(Serialized(p, hashBits, encoding, register, estCount)) == Ok(estCount)
  {
    var bs := Serialized(p, hashBits, encoding, register, estCount);
    var body := BodyOf(p, hashBits, encoding, register, estCount);
    Varints.VulongRoundTrip(estCount, body.1);
  }

  /** The bytes after the header: the varint count and the packed register. */
  lemma BodyOf(p: int, hashBits: int, encoding: EncodingType, register: seq<Int8>, estCount: Int64)
    returns (parts: (seq<Byte>, seq<Byte>))
    ensures parts.0 == Varints.Encode(Unsigned64(estCount))
    ensures parts.1 == (if encoding == Dense then Pack(register, WidthFor(encoding, register)) else [])
    ensures Drop(Serialized(p, hashBits, encoding, register, estCount), 4) == parts.0 + parts.1
    ensures |Serialized(p, hashBits, encoding, register, estCount)| == 4 + |parts.0| + |parts.1|
  {
    var w := WidthFor(encoding, register);
    var header := MAGIC + [HeaderByte(p, hashBits, Selector(encoding, w))];
    parts := (Varints.Encode(Unsigned64(estCount)), if encoding == Dense then Pack(register, w) else []);
    DropAppend(header, parts.0 + parts.1);
  }

  /**
    A DENSE sketch with `4 <= p <= 15`, `2^p` counters and some counter positive
    reads back with its header fields, its estimated count and its register, every
    byte written consumed.
   */
  lemma DenseRoundTrip(p: nat, hashBits: int, register: seq<Int8>, estCount: Int64)
    requires 4 <= p <= 15 && |register| == Pow2(p)
    requires Registers.NonNegative(register) && Registers.MaxValue(register) > 0
    ensures Deserialize(Serialized(p, hashBits, Dense, register, estCount))
         == Ok(Decoded(Header(p, if hashBits > 32 then 128 else 32, Dense, BitWidth(Registers.MaxValue(register))),
                       estCount, Some(register), |Serialized(p, hashBits, Dense, register, estCount)|))
  {
    var w := WidthFor(Dense, register);
    var bs := Serialized(p, hashBits, Dense, register, estCount);
    var h := Header(p, if hashBits > 32 then 128 else 32, Dense, w);
    WidthPositive(Registers.MaxValue(register));
    DenseHeader(bs, p, hashBits, w, h);
    var parts := BodyOf(p, hashBits, Dense, register, estCount);
    CountersFitWidth(register);
    PackedRegister(p, register, w, parts.1);
    DenseBody(bs, parts.0, parts.1, register, estCount, h);
  }

  /** A positive number needs at least one bit. */
  lemma WidthPositive(v: nat)
    requires v > 0
    ensures BitWidth(v) >= 1
  {
  }

  /** The reader gets past the magic string and the header of a DENSE sketch. */
  lemma DenseHeader(bs: seq<Byte>, p: nat, hashBits: int, w: nat, h: Header)
    requires p < 16 && 1 <= w <= 7 && h == Header(p, if hashBits > 32 then 128 else 32, Dense, w)
    requires |bs| >= 4 && bs[..3] == MAGIC && bs[3] == HeaderByte(p, hashBits, w)
    ensures WellFormed(h) && Deserialize(bs) == DecodeBody(bs, h)
  {
    assert CheckMagic(bs) == Ok(3);
    assert HeaderOf(OctetAt(bs, 3)) == h by {
      HeaderRoundTrip(p, hashBits, w);
    }
  }

  /** The reader gets the estimated count and the register back from the body of a DENSE sketch. */
  lemma DenseBody(bs: seq<Byte>, count: seq<Byte>, packed: seq<Byte>, register: seq<Int8>, estCount: Int64, h: Header)
    requires WellFormed(h) && h.encoding == Dense
    requires Unpacked(packed, Pow2(h.p), h.bitSize) == register && ReadCount(Pow2(h.p), h.bitSize) == |packed|
    requires count == Varints.Encode(Unsigned64(estCount))
    requires |bs| >= 4 && Drop(bs, 4) == count + packed && |bs| == 4 + |count| + |packed|
    ensures DecodeBody(bs, h) == Ok(Decoded(h, estCount, Some(register), |bs|))
  {
    var result := Ok(Decoded(h, estCount, Some(register), |bs|));
    assert DecodeRegister(count + packed, h, estCount, |count|) == result by {
      DropAppend(count, packed);
      DenseRegisterOf(count + packed, h, estCount, |count|, packed, register);
    }
    DenseBodyOf(bs, h, count, packed, estCount, result);
  }

  /** The packed register of a DENSE sketch fills whole bytes and unpacks to the register. */
  lemma PackedRegister(p: nat, register: seq<Int8>, w: nat, packed: seq<Byte>)
    requires 4 <= p && |register| == Pow2(p)
    requires forall i :: 0 <= i < |register| ==> 0 <= register[i] < Pow2(w)
    requires 1 <= w <= 7 && packed == Pack(register, w)
    ensures Unpacked(packed, Pow2(p), w) == register
    ensures ReadCount(Pow2(p), w) == |packed|
  {
    FieldsFillBytes(p, w);
    PackedCount(|register|, w);
    UnpackOfPack(register, w, []);
    assert packed + [] == packed;
  }

  /** Reading a body: the count's varint, then what follows it. */
  lemma DenseBodyOf(bs: seq<Byte>, h: Header, count: seq<Byte>, packed: seq<Byte>, estCount: Int64, result: Result<Decoded>)
    requires WellFormed(h)
    requires |bs| >= 4 && Drop(bs, 4) == count + packed && count == Varints.Encode(Unsigned64(estCount))
    requires DecodeRegister(count + packed, h, estCount, |count|) == result
    ensures DecodeBody(bs, h) == result
  {
    Varints.VulongRoundTrip(estCount, packed);
  }

  lemma DenseRegisterOf(rest: seq<Byte>, h: Header, estCount: Int64, k: nat, packed: seq<Byte>, register: seq<Int8>)
    requires WellFormed(h) && h.encoding == Dense && Drop(rest, k) == packed
    requires Unpacked(packed, Pow2(h.p), h.bitSize) == register && ReadCount(Pow2(h.p), h.bitSize) == |packed|
    ensures DecodeRegister(rest, h, estCount, k) == Ok(Decoded(h, estCount, Some(register), 4 + k + |packed|))
  {
  }

  /** `2^p` fields of `w` bits fill whole bytes once `p >= 3`. */
  lemma FieldsFillBytes(p: nat, w: nat)
    requires p >= 3
    ensures Pow2(p) * w % 8 == 0
  {
    Pow2Add(3, p - 3);
    assert Pow2(3) == 8;
    DivModUnique(Pow2(p) * w, 8, Pow2(p - 3) * w, 0);
  }

  /**
    The reader as written rejects every DENSE sketch holding a counter of 64 or
    more: the writer gives such a register selector 7.
   */
  lemma SelectorSevenRejected(p: int, hashBits: int, register: seq<Int8>, estCount: Int64)
    requires Registers.MaxValue(register) >= 64
    ensures DeserializeAsWritten(Serialized(p, hashBits, Dense, register, estCount)) == Err(IllegalArgument)
  {
    var v := Registers.MaxValue(register);
    MaxValueBelow128(register);
    assert Pow2(6) == 64 && Pow2(7) == 128;
    BitWidthIsLeast(v, 7);
    if BitWidth(v) < 7 {
      Pow2Monotone(BitWidth(v), 6);
      assert false;
    }
  }

  /**
    A DENSE register of zeros gets selector 0, so the reader takes it for SPARSE and
    looks for a register length that was never written.
   */
  lemma ZeroDenseUnreadable(p: int, hashBits: int, register: seq<Int8>, estCount: Int64)
    requires Registers.MaxValue(register) == 0
    ensures Deserialize(Serialized(p, hashBits, Dense, register, estCount)) == Err(EndOfFile)
    ensures DeserializeAsWritten(Serialized(p, hashBits, Dense, register, estCount)) == Err(EndOfFile)
  {
    var bs := Serialized(p, hashBits, Dense, register, estCount);
    HeaderRoundTrip(p, hashBits, 0);
    assert Pack(register, 0) == [];
    NothingAfterCount(p, hashBits, Dense, register, estCount);
  }

  /** A SPARSE sketch is written without the register length the reader expects. */
  lemma SparseUnreadable(p: int, hashBits: int, register: seq<Int8>, estCount: Int64)
    ensures Deserialize(Serialized(p, hashBits, Sparse, register, estCount)) == Err(EndOfFile)
    ensures DeserializeAsWritten(Serialized(p, hashBits, Sparse, register, estCount)) == Err(EndOfFile)
  {
    HeaderRoundTrip(p, hashBits, 0);
    NothingAfterCount(p, hashBits, Sparse, register, estCount);
  }

  /** When nothing follows the estimated count, reading the register length fails. */
  lemma NothingAfterCount(p: int, hashBits: int, encoding: EncodingType, register: seq<Int8>, estCount: Int64)
    requires WidthFor(encoding, register) == 0
    ensures var bs := Serialized(p, hashBits, encoding, register, estCount);
            DecodeBody(bs, Header(p % 16, if hashBits > 32 then 128 else 32, Sparse, 0)) == Err(EndOfFile)
  {
    var parts := BodyOf(p, hashBits, encoding, register, estCount);
    var count := parts.0;
    if encoding == Dense {
      assert Pack(register, 0) == [];
    }
    assert count + [] == count;
    Varints.VulongRoundTrip(estCount, []);
    DropAppend(count, []);
  }

  // ---------------------------------------------------------------------------
  // Corrected writers

  /**
    The width a DENSE register is packed with when no width may be 0: the bit
    width of the largest counter, and 1 for a register of zeros, so that the
    selector never reads as SPARSE.
   */
  function DenseWidth(register: seq<Int8>): (w: nat)
    ensures 1 <= w <= 7
    ensures Registers.MaxValue(register) > 0 ==> w == BitWidth(Registers.MaxValue(register))
    ensures Registers.MaxValue(register) == 0 ==> w == 1
  {
    WidthAtMost7(register);
    var v := Registers.MaxValue(register);
    if v == 0 then 1 else WidthPositive(v); BitWidth(v)
  }

  /** Every counter of a non-negative register fits the corrected width. */
  lemma FitsDenseWidth(register: seq<Int8>)
    requires Registers.NonNegative(register)
    ensures forall i :: 0 <= i < |register| ==> 0 <= register[i] < Pow2(DenseWidth(register))
  {
    CountersFitWidth(register);
    Pow2Monotone(BitWidth(Registers.MaxValue(register)), DenseWidth(register));
  }

  /** `serializeHLL` for a DENSE sketch, packing with `DenseWidth`. */
  function SerializedDense(p: int, hashBits: int, register: seq<Int8>, estCount: Int64): (bs: seq<Byte>)
    ensures |bs| >= 5
    ensures bs[..3] == MAGIC && bs[3] == HeaderByte(p, hashBits, DenseWidth(register))
  {
    var w := DenseWidth(register);
    var header := MAGIC + [HeaderByte(p, hashBits, w)];
    var body := Varints.Encode(Unsigned64(estCount)) + Pack(register, w);
    assert (header + body)[..4] == header;
    header + body
  }

  /** The corrected writer differs from `serializeHLL` only on a register of zeros. */
  lemma SerializedDenseAgrees(p: int, hashBits: int, register: seq<Int8>, estCount: Int64)
    requires Registers.MaxValue(register) > 0
    ensures SerializedDense(p, hashBits, register, estCount) == Serialized(p, hashBits, Dense, register, estCount)
  {
  }

  /**
    With the corrected writer and reader, every DENSE sketch with `4 <= p <= 15` and
    `2^p` non-negative counters reads back exactly, a register of zeros included.
   */
  lemma DenseWidthRoundTrip(p: nat, hashBits: int, register: seq<Int8>, estCount: Int64)
    requires 4 <= p <= 15 && |register| == Pow2(p) && Registers.NonNegative(register)
    ensures Deserialize(SerializedDense(p, hashBits, register, estCount))
         == Ok(Decoded(Header(p, if hashBits > 32 then 128 else 32, Dense, DenseWidth(register)),
                       estCount, Some(register), |SerializedDense(p, hashBits, register, estCount)|))
  {
    var w := DenseWidth(register);
    var bs := SerializedDense(p, hashBits, register, estCount);
    var h := Header(p, if hashBits > 32 then 128 else 32, Dense, w);
    DenseHeader(bs, p, hashBits, w, h);
    var header := MAGIC + [HeaderByte(p, hashBits, w)];
    var count, packed := Varints.Encode(Unsigned64(estCount)), Pack(register, w);
    DropAppend(header, count + packed);
    FitsDenseWidth(register);
    PackedRegister(p, register, w, packed);
    DenseBody(bs, count, packed, register, estCount, h);
  }

  /**
    `serializeHLL` for a SPARSE sketch, followed by the register length that the
    format's Javadoc and the reader expect.
   */
  function SerializedSparse(p: int, hashBits: int, entries: Int64, estCount: Int64): (bs: seq<Byte>)
    ensures |bs| >= 6
    ensures bs[..3] == MAGIC && bs[3] == HeaderByte(p, hashBits, 0)
  {
    var header := MAGIC + [HeaderByte(p, hashBits, 0)];
    var body := Varints.Encode(Unsigned64(estCount)) + Varints.Encode(Unsigned64(entries));
    assert (header + body)[..4] == header;
    header + body
  }

  /** The corrected SPARSE writer appends the register length to what `serializeHLL` writes. */
  lemma SerializedSparseExtends(p: int, hashBits: int, register: seq<Int8>, entries: Int64, estCount: Int64)
    ensures SerializedSparse(p, hashBits, entries, estCount)
         == Serialized(p, hashBits, Sparse, register, estCount) + Varints.Encode(Unsigned64(entries))
  {
    SerializedParts(p, hashBits, Sparse, register, estCount, 0, HeaderByte(p, hashBits, 0),
                    Varints.Encode(Unsigned64(estCount)));
  }

  /**
    Both readers, as written and corrected, read a SPARSE sketch from the corrected
    writer: its header fields and its estimated count, every byte consumed.
   */
  lemma SparseRoundTrip(p: int, hashBits: int, entries: Int64, estCount: Int64)
    ensures var bs := SerializedSparse(p, hashBits, entries, estCount);
            var h := Header(p % 16, if hashBits > 32 then 128 else 32, Sparse, 0);
            && Deserialize(bs) == Ok(Decoded(h, estCount, None, |bs|))
            && DeserializeAsWritten(bs) == Ok(Decoded(h, estCount, None, |bs|))
  {
    var bs := SerializedSparse(p, hashBits, entries, estCount);
    var h := Header(p % 16, if hashBits > 32 then 128 else 32, Sparse, 0);
    HeaderRoundTrip(p, hashBits, 0);
    assert CheckMagic(bs) == Ok(3);
    var header := MAGIC + [HeaderByte(p, hashBits, 0)];
    var c1, c2 := Varints.Encode(Unsigned64(estCount)), Varints.Encode(Unsigned64(entries));
    DropAppend(header, c1 + c2);
    SparseBody(bs, h, c1, c2, estCount, entries);
  }

  /** Reading a SPARSE body: the estimated count, then the register length. */
  lemma SparseBody(bs: seq<Byte>, h: Header, c1: seq<Byte>, c2: seq<Byte>, estCount: Int64, entries: Int64)
    requires WellFormed(h) && h.encoding == Sparse
    requires c1 == Varints.Encode(Unsigned64(estCount)) && c2 == Varints.Encode(Unsigned64(entries))
    requires |bs| >= 4 && Drop(bs, 4) == c1 + c2 && |bs| == 4 + |c1| + |c2|
    ensures DecodeBody(bs, h) == Ok(Decoded(h, estCount, None, |bs|))
  {
    Varints.VulongRoundTrip(estCount, c2);
    DropAppend(c1, c2);
    Varints.VulongRoundTrip(entries, []);
    assert c2 + [] == c2;
  }

  // ---------------------------------------------------------------------------
  // Reconstruction

  /**
    The end of `deserializeHLL`: `new HyperLogLog(p, hb)`, which builds a SPARSE
    sketch, then `setEncoding`, `setRegister` and `setCount`. That sketch has no
    dense register, so `setRegister` throws on the `null` array of a SPARSE stream
    and on the first counter of a DENSE one.
   */
  method Reconstruct(d: Decoded, env: Collaborators) returns (r: Result<Sketch>)
    requires WellFormed(d.header)
    ensures r.Ok? <==> MIN_P_VALUE <= d.header.p && d.register == Some([])
    ensures r.Err? ==> (r.error == IllegalArgument <==> d.header.p < MIN_P_VALUE)
    ensures r.Err? ==> r.error == IllegalArgument || r.error == NullPointer
  {
    var built := New(d.header.p, d.header.hashBits, Sparse, env);
    if built.Err? {
      return Err(built.error);
    }
    var s := SetEncoding(built.value, d.header.encoding);
    if d.register.None? {
      return Err(NullPointer);
    }
    var t := SetRegister(s, d.register.value);
    if t.Err? {
      return Err(t.error);
    }
    r := Ok(SetCount(t.value, d.estimatedCount));
  }

  /** A decoded stream always carries a register that `Reconstruct` cannot set. */
  lemma DecodedRegisterNotEmpty(s: seq<Byte>)
    ensures DeserializeAsWritten(s).Ok? ==>
      WellFormed(DeserializeAsWritten(s).value.header) && DeserializeAsWritten(s).value.register != Some([])
  {
  }

  /**
    `deserializeHLL(in)` in full, as written: it never returns a sketch. A stream
    the reader rejects fails as the reader does; a decoded one fails in
    `new HyperLogLog` for `p` below 4 and with `NullPointerException` otherwise.
   */
  method DeserializeHLLFully(s: seq<Byte>, env: Collaborators) returns (r: Result<Sketch>)
    ensures r.Err?
    ensures DeserializeAsWritten(s).Err? ==> r == Err(DeserializeAsWritten(s).error)
    ensures DeserializeAsWritten(s).Ok? ==>
      (r == Err(IllegalArgument) <==> DeserializeAsWritten(s).value.header.p < MIN_P_VALUE)
    ensures DeserializeAsWritten(s).Ok? && DeserializeAsWritten(s).value.header.p >= MIN_P_VALUE ==>
      r == Err(NullPointer)
  {
    var d := DeserializeHLL(s);
    if d.Err? {
      return Err(d.error);
    }
    DecodedRegisterNotEmpty(s);
    r := Reconstruct(d.value, env);
  }

  /** The counters the corrected reader unpacks are never negative. */
  lemma DecodedCountersNonNegative(s: seq<Byte>)
    ensures Deserialize(s).Ok? && Deserialize(s).value.header.encoding == Dense ==>
      Registers.NonNegative(Deserialize(s).value.register.value)
  {
  }

  /**
    The reconstruction evidently intended: build the sketch with the decoded
    encoding, so that a DENSE sketch has a dense register, and set the counters
    of a DENSE stream only. A DENSE sketch then holds exactly the decoded counters.
   */
  method ReconstructCorrected(d: Decoded, env: Collaborators) returns (r: Result<Sketch>)
    requires WellFormed(d.header)
    ensures r.Err? <==> d.header.p < MIN_P_VALUE
    ensures r.Err? ==> r.error == IllegalArgument
    ensures r.Ok? ==> r.value.p == d.header.p && r.value.encoding == d.header.encoding && HasRegister(r.value)
    ensures r.Ok? ==> r.value.cachedCount == d.estimatedCount && r.value.invalidateCount
    ensures r.Ok? && d.header.encoding == Dense && d.register.Some?
                  && |d.register.value| == Pow2(d.header.p) && Registers.NonNegative(d.register.value) ==>
      r.value.dense.Some? && r.value.dense.value.counters.register == d.register.value
  {
    var built := New(d.header.p, d.header.hashBits, d.header.encoding, env);
    if built.Err? {
      return Err(built.error);
    }
    var s := built.value;
    if d.header.encoding == Dense && d.register.Some? {
      var t := SetRegister(s, d.register.value);
      var reg := d.register.value;
      if |reg| == Pow2(d.header.p) && Registers.NonNegative(reg) {
        RaisedFromZero(s.dense.value, reg, t.value.dense.value);
      }
      s := t.value;
    }
    r := Ok(SetCount(s, d.estimatedCount));
  }

  /** Raising a register of zeros to equally many non-negative values gives those values. */
  lemma RaisedFromZero(d: DenseRegister, reg: seq<Int8>, e: DenseRegister)
    requires |reg| == |d.counters.register| && Registers.NonNegative(reg)
    requires forall i :: 0 <= i < |d.counters.register| ==> d.counters.register[i] == 0
    requires Raised(d, reg, e)
    ensures e.counters.register == reg
  {
    forall j | 0 <= j < |reg|
      ensures e.counters.register[j] == reg[j]
    {
      assert d.counters.register[j] == 0 && reg[j] >= 0;
    }
  }

  /**
    `deserializeHLL(in)` in full with the corrected reader and reconstruction: every
    decoded stream with `p >= 4` gives a sketch with the decoded fields.
   */
  method DeserializeHLLFullyCorrected(s: seq<Byte>, env: Collaborators) returns (r: Result<Sketch>)
    ensures Deserialize(s).Err? ==> r == Err(Deserialize(s).error)
    ensures Deserialize(s).Ok? ==> (r.Ok? <==> Deserialize(s).value.header.p >= MIN_P_VALUE)
    ensures r.Ok? ==>
      && Deserialize(s).Ok?
      && r.value.p == Deserialize(s).value.header.p
      && r.value.encoding == Deserialize(s).value.header.encoding
      && r.value.cachedCount == Deserialize(s).value.estimatedCount
    ensures r.Ok? && Deserialize(s).value.header.encoding == Dense ==>
      r.value.dense.Some? && r.value.dense.value.counters.register == Deserialize(s).value.register.value
  {
    var d := DeserializeHLLCorrected(s);
    if d.Err? {
      return Err(d.error);
    }
    HeaderOfWellFormed(OctetAt(s, 3));
    DecodedCountersNonNegative(s);
    r := ReconstructCorrected(d.value, env);
  }

  /**
    A DENSE sketch written by the corrected writer and read back in full: its `p`,
    its estimated count and exactly its counters, a register of zeros included.
   */
  method DenseSketchRoundTrip(p: nat, hashBits: int, register: seq<Int8>, estCount: Int64, env: Collaborators)
    returns (r: Result<Sketch>)
    requires 4 <= p <= 15 && |register| == Pow2(p) && Registers.NonNegative(register)
    ensures r.Ok? && r.value.p == p && r.value.encoding == Dense && r.value.cachedCount == estCount
    ensures r.value.dense.Some? && r.value.dense.value.counters.register == register
  {
    DenseWidthRoundTrip(p, hashBits, register, estCount);
    r := DeserializeHLLFullyCorrected(SerializedDense(p, hashBits, register, estCount), env);
  }

  /** A SPARSE sketch written by the corrected writer and read back in full: its `p` and estimated count. */
  method SparseSketchRoundTrip(p: nat, hashBits: int, entries: Int64, estCount: Int64, env: Collaborators)
    returns (r: Result<Sketch>)
    requires 4 <= p <= 15
    ensures r.Ok? && r.value.p == p && r.value.encoding == Sparse && r.value.cachedCount == estCount
  {
    var bs := SerializedSparse(p, hashBits, entries, estCount);
    SparseFields(p, hashBits, entries, estCount, bs);
    r := DeserializeHLLFullyCorrected(bs, env);
  }

  /** The fields the corrected reader decodes from a corrected SPARSE stream. */
  lemma SparseFields(p: nat, hashBits: int, entries: Int64, estCount: Int64, bs: seq<Byte>)
    requires p < 16 && bs == SerializedSparse(p, hashBits, entries, estCount)
    ensures Deserialize(bs).Ok?
    ensures Deserialize(bs).value.header.p == p && Deserialize(bs).value.header.encoding == Sparse
    ensures Deserialize(bs).value.estimatedCount == estCount
  {
    SparseRoundTrip(p, hashBits, entries, estCount);
    SmallMod(p, 16);
  }
}
