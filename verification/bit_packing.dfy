/**
  The register packing of HyperLogLogUtils: `bitpackHLLRegister` writes each
  counter's low `w` bits one after the other, most significant bit first, cut into
  bytes; `unpackHLLRegister` reads `w`-bit fields back. Both are specified through
  bit strings (module BitStrings): `Pack` and `Unpacked` are the reference
  definitions, `Bitpack` and `Unpack` the Java loops.
 */
module BitPacking {
  import opened JavaInts
  import opened Streams
  import opened BitStrings

  // ---------------------------------------------------------------------------
  // Bit packing

  /**
    The bytes `bitpackHLLRegister(register, w)` writes: the counters' `w`-bit
    fields, most significant bit first, cut into bytes. A trailing partial byte is
    never written.
   */
  function Pack(register: seq<int>, w: nat): (bs: seq<Byte>)
    ensures |bs| == |register| * w / 8
  {
    var bits := Concat(register, w);
    var n := |register| * w / 8;
    PiecesBound(bits, 8, n);
    assert Pow2(8) == 256;
    Pieces(bits, 8, n)
  }

  /**
    The packer's state: the bytes written so far, then the `8 - bitsLeft` bits `hi`
    already placed at the top of `current`, then the bits still to write, spell the
    whole packed register.
   */
  ghost predicate Packing(out: seq<Byte>, hi: nat, current: int, bitsLeft: int, todo: seq<bool>, whole: seq<bool>) {
    && 1 <= bitsLeft <= 8
    && hi < Pow2(8 - bitsLeft) && current == ShiftLeft(hi, bitsLeft)
    && Concat(out, 8) + Bits(hi, 8 - bitsLeft) + todo == whole
  }

  /**
    `bitpackHLLRegister(out, register, bitWidth)`. The byte being filled is
    `current`, with `bitsLeft` free low bits; since the bits a counter adds never
    overlap those already there, Java's `current |= …` is an addition here.
   */
  method Bitpack(register: seq<Int8>, w: nat) returns (out: seq<Byte>)
    requires w <= 8
    requires forall i :: 0 <= i < |register| ==> 0 <= register[i] < Pow2(w)
    ensures out == Pack(register, w)
  {
    ghost var whole := Concat(register, w);
    var bitsLeft := 8;
    var current: Byte := 0;
    ghost var hi: nat := 0;
    out := [];
    var i := 0;
    assert register[0..] == register;
    while i < |register|
      invariant 0 <= i <= |register|
      invariant Packing(out, hi, current, bitsLeft, Concat(register[i..], w), whole)
    {
      var value: nat := register[i];
      var bitsToWrite := w;
      ghost var later := Concat(register[i + 1..], w);
      NextCounter(register, i, w);
      Associate(Concat(out, 8) + Bits(hi, 8 - bitsLeft), Bits(value, bitsToWrite), later);
      while bitsToWrite > bitsLeft
        invariant bitsToWrite <= 8 && value < Pow2(bitsToWrite)
        invariant Packing(out, hi, current, bitsLeft, Bits(value, bitsToWrite) + later, whole)
        decreases bitsToWrite
      {
        out, hi, current, bitsLeft, value, bitsToWrite :=
          FlushByte(out, hi, current, bitsLeft, value, bitsToWrite, later, whole);
      }
      out, hi, current, bitsLeft := PlaceBits(out, hi, current, bitsLeft, value, bitsToWrite, later, whole);
      i := i + 1;
    }
    assert register[|register|..] == [];
    PackOfBits(register, w, out, Bits(hi, 8 - bitsLeft));
  }

  /**
    One pass of the inner loop: the top `bitsLeft` of the `t` bits still to write
    complete `current` (`current |= value >>> (t - bitsLeft)`), which is written
    out; the others stay behind (`value &= (1 << (t - bitsLeft)) - 1`).
   */
  method FlushByte(out: seq<Byte>, ghost hi: nat, current: Byte, bitsLeft: int, value: nat, t: nat,
                   ghost later: seq<bool>, ghost whole: seq<bool>)
    returns (out': seq<Byte>, ghost hi': nat, current': Byte, bitsLeft': int, value': nat, t': nat)
    requires bitsLeft < t <= 8 && value < Pow2(t)
    requires Packing(out, hi, current, bitsLeft, Bits(value, t) + later, whole)
    ensures t' < t && value' < Pow2(t')
    ensures Packing(out', hi', current', bitsLeft', Bits(value', t') + later, whole)
  {
    var b := current + ShiftRight(value, t - bitsLeft);
    t' := t - bitsLeft;
    LowBitsBelow(value, t');
    value' := LowBits(value, t');
    SplitByte(hi, current, bitsLeft, value, t, b);
    SplitBits(hi, current, bitsLeft, value, t, b, t', value');
    AppendLater(Bits(b, 8), Bits(value', t'), Bits(hi, 8 - bitsLeft), Bits(value, t), later);
    out' := out + [b];
    hi', current', bitsLeft' := 0, 0, 8;
    Flushed(out, hi, bitsLeft, Bits(value, t) + later, b, Bits(value', t') + later, out', hi', current', bitsLeft', whole);
  }

  /**
    The end of a counter: its last `t` bits go into `current`
    (`bitsLeft -= t; current |= value << bitsLeft`), and a full byte is written out.
   */
  method PlaceBits(out: seq<Byte>, ghost hi: nat, current: Byte, bitsLeft: int, value: nat, t: nat,
                   ghost later: seq<bool>, ghost whole: seq<bool>)
    returns (out': seq<Byte>, ghost hi': nat, current': Byte, bitsLeft': int)
    requires t <= bitsLeft && value < Pow2(t)
    requires Packing(out, hi, current, bitsLeft, Bits(value, t) + later, whole)
    ensures Packing(out', hi', current', bitsLeft', later, whole)
  {
    var left := bitsLeft - t;
    var c := current + ShiftLeft(value, left);
    ghost var h := ShiftLeft(hi, t) + value;
    FitBound(hi, bitsLeft, value, t, left, h);
    FitShift(hi, current, bitsLeft, value, t, left, c, h);
    FitByte(h, left, c);
    FitBits(hi, bitsLeft, value, t, left, h);
    if left == 0 {
      out' := out + [c];
      hi', current', bitsLeft' := 0, 0, 8;
      FlushedLast(h, c, Bits(hi, 8 - bitsLeft), Bits(value, t), later);
      Flushed(out, hi, bitsLeft, Bits(value, t) + later, c, later, out', hi', current', bitsLeft', whole);
    } else {
      out', hi', current', bitsLeft' := out, h, c, left;
      Associate(Concat(out, 8), Bits(hi, 8 - bitsLeft), Bits(value, t));
      Associate(Concat(out, 8) + Bits(hi, 8 - bitsLeft), Bits(value, t), later);
    }
  }

  /** Counter `i` is next in the concatenation of `register[i..]`. */
  lemma NextCounter(register: seq<int>, i: nat, w: nat)
    requires i < |register|
    ensures Concat(register[i..], w) == Bits(register[i], w) + Concat(register[i + 1..], w)
  {
    assert register[i..][1..] == register[i + 1..];
  }

  /** Writing the byte `b`, whose bits followed by `rest` are the placed bits `hi` followed by `todo`. */
  lemma Flushed(out: seq<Byte>, hi: nat, bitsLeft: int, todo: seq<bool>, b: Byte, rest: seq<bool>,
                out': seq<Byte>, hi': nat, current': int, bitsLeft': int, whole: seq<bool>)
    requires 1 <= bitsLeft <= 8
    requires Concat(out, 8) + Bits(hi, 8 - bitsLeft) + todo == whole
    requires Bits(b, 8) + rest == Bits(hi, 8 - bitsLeft) + todo
    requires out' == out + [b] && hi' == 0 && current' == 0 && bitsLeft' == 8
    ensures Packing(out', hi', current', bitsLeft', rest, whole)
  {
    ConcatSnoc(out, b, 8);
    calc {
      Concat(out', 8) + Bits(hi', 8 - bitsLeft') + rest;
      Concat(out, 8) + Bits(b, 8) + [] + rest;
      { Associate(Concat(out, 8), Bits(b, 8), rest); }
      Concat(out, 8) + (Bits(hi, 8 - bitsLeft) + todo);
      { Associate(Concat(out, 8), Bits(hi, 8 - bitsLeft), todo); }
      whole;
    }
    assert Pow2(0) == 1;
  }

  /** The byte that completes a counter exactly. */
  lemma FlushedLast(h: int, c: int, x: seq<bool>, y: seq<bool>, later: seq<bool>)
    requires c == ShiftLeft(h, 0) && Bits(h, 8 - 0) == x + y
    ensures Bits(c, 8) + later == x + (y + later)
  {
    Associate(x, y, later);
  }

  /** Two pieces with the same bits stay so with `later` after them. */
  lemma AppendLater(u: seq<bool>, v: seq<bool>, x: seq<bool>, y: seq<bool>, later: seq<bool>)
    requires u + v == x + y
    ensures u + (v + later) == x + (y + later)
  {
    Associate(u, v, later);
    Associate(x, y, later);
  }

  /** The bytes whose bits, followed by fewer than 8 more, spell the packed register. */
  lemma PackOfBits(register: seq<int>, w: nat, out: seq<Byte>, partial: seq<bool>)
    requires |partial| < 8
    requires Concat(out, 8) + partial == Concat(register, w)
    ensures out == Pack(register, w)
  {
    assert Pow2(8) == 256;
    PiecesOfConcat(out, 8, partial);
  }

  /** The byte `FlushByte` writes is a byte. */
  lemma SplitByte(hi: nat, current: int, bl: int, value: nat, t: nat, b: int)
    requires 1 <= bl < t <= 8 && hi < Pow2(8 - bl) && value < Pow2(t) && current == ShiftLeft(hi, bl)
    requires b == current + ShiftRight(value, t - bl)
    ensures 0 <= b < 256
  {
    ShiftRightBelow(value, bl, t - bl, t);
    ShiftLeftRoom(hi, ShiftRight(value, t - bl), 8 - bl, bl, 8);
    assert Pow2(8) == 256;
  }

  /** Its bits, followed by the bits kept back, are the placed bits followed by the counter's. */
  lemma SplitBits(hi: nat, current: int, bl: int, value: nat, t: nat, b: int, t': nat, value': int)
    requires 1 <= bl < t <= 8 && value < Pow2(t) && current == ShiftLeft(hi, bl)
    requires b == current + ShiftRight(value, t - bl) && t' == t - bl && value' == LowBits(value, t')
    ensures Bits(b, 8) + Bits(value', t') == Bits(hi, 8 - bl) + Bits(value, t)
  {
    var lo := ShiftRight(value, t');
    ShiftRightBelow(value, bl, t', t);
    BitsJoin(hi, lo, 8 - bl, bl, 8, b);
    BitsSplit(value, bl, t', t, lo, value');
    Associate(Bits(hi, 8 - bl), Bits(lo, bl), Bits(value', t'));
  }

  /** After `PlaceBits` the placed bits are `h`, `8 - left` of them. */
  lemma FitBound(hi: nat, bl: int, value: nat, t: nat, left: int, h: int)
    requires t <= bl <= 8 && hi < Pow2(8 - bl) && value < Pow2(t)
    requires left == bl - t && h == ShiftLeft(hi, t) + value
    ensures 0 <= h < Pow2(8 - left)
  {
    ShiftLeftRoom(hi, value, 8 - bl, t, 8 - left);
  }

  lemma FitShift(hi: nat, current: int, bl: int, value: nat, t: nat, left: int, c: int, h: int)
    requires t <= bl && current == ShiftLeft(hi, bl)
    requires left == bl - t && c == current + ShiftLeft(value, left) && h == ShiftLeft(hi, t) + value
    ensures c == ShiftLeft(h, left)
  {
    ShiftLeftSum(ShiftLeft(hi, t), value, left);
    ShiftLeftAdd(hi, t, left, bl);
  }

  lemma FitByte(h: int, left: int, c: int)
    requires 0 <= left <= 8 && 0 <= h < Pow2(8 - left) && c == ShiftLeft(h, left)
    ensures 0 <= c < 256
  {
    ShiftLeftBelow(h, 8 - left, left, 8);
    assert Pow2(8) == 256;
  }

  lemma FitBits(hi: nat, bl: int, value: nat, t: nat, left: int, h: int)
    requires t <= bl <= 8 && value < Pow2(t)
    requires left == bl - t && h == ShiftLeft(hi, t) + value
    ensures Bits(h, 8 - left) == Bits(hi, 8 - bl) + Bits(value, t)
  {
    BitsJoin(hi, value, 8 - bl, t, 8 - left, h);
  }

  lemma Associate(x: seq<bool>, y: seq<bool>, z: seq<bool>)
    ensures (x + y) + z == x + (y + z)
  {
  }

  // ---------------------------------------------------------------------------
  // Bit unpacking

  /**
    How many bytes `unpackHLLRegister` reads: one before the first counter, then
    one more whenever a counter needs bits beyond those already read.
   */
  function ReadCount(length: nat, w: nat): (n: nat)
    ensures n >= 1 && length * w <= 8 * n
    ensures length * w > 0 ==> 8 * (n - 1) < length * w
  {
    if length * w == 0 then 1 else (length * w + 7) / 8
  }

  /** The bytes a reader of `s` sees: past the end of the stream every read gives 0xFF. */
  function Octets(s: seq<Byte>, n: nat): (bs: seq<Byte>)
    ensures |bs| == n
  {
    seq(n, k requires 0 <= k => OctetAt(s, k))
  }

  /**
    The counters `unpackHLLRegister(in, length, bitSize)` returns: the first
    `length` fields of `w` bits of the bytes it reads.
   */
  function Unpacked(s: seq<Byte>, length: nat, w: nat): (r: seq<Int8>)
    requires 1 <= w <= 7
    ensures |r| == length
    ensures forall i :: 0 <= i < length ==> 0 <= r[i] < Pow2(w)
  {
    var bits := Concat(Octets(s, ReadCount(length, w)), 8);
    PiecesBound(bits, w, length);
    FieldBelow128(w);
    Pieces(bits, w, length)
  }

  lemma FieldBelow128(w: nat)
    requires w <= 7
    ensures Pow2(w) <= 128
  {
    Pow2Monotone(w, 7);
    assert Pow2(7) == 128;
  }

  /**
    The reader's position in the stream: `taken` bytes read, the last of them in
    `current` with its low `bitsLeft` bits unused, so `pos` bits of `bits`, the
    bytes' bits one after the other, are consumed.
   */
  ghost predicate Cursor(bits: seq<bool>, taken: int, current: int, bitsLeft: int, pos: int) {
    && 1 <= taken && 8 * taken <= |bits| && 0 <= bitsLeft <= 8
    && bits[8 * taken - 8 .. 8 * taken] == Bits(current, 8)
    && pos == 8 * taken - bitsLeft
  }

  /** A counter read up to `pos`, `t` of its `w` bits still to come: `result` holds the ones read. */
  ghost predicate Partial(bits: seq<bool>, start: int, pos: int, result: int, t: int, w: int) {
    && 0 <= start <= pos && 0 <= t <= w && pos - start == w - t && start + w <= |bits|
    && result == Value(bits[start..pos])
  }

  /**
    `unpackHLLRegister(in, length, bitSize)` on the stream `s`; it also reports how
    many bytes it read. Every read past the end of the stream gives 0xFF.
   */
  method Unpack(s: seq<Byte>, length: nat, w: nat) returns (output: seq<Int8>, consumed: nat)
    requires 1 <= w <= 7
    ensures output == Unpacked(s, length, w)
    ensures consumed == ReadCount(length, w)
  {
    ghost var n := ReadCount(length, w);
    ghost var bits := Concat(Octets(s, n), 8);
    var bitsLeft := 8;
    var current := OctetAt(s, 0);
    var taken := 1;
    ghost var pos := 0;
    output := [];
    var i := 0;
    assert bits[0..] == bits;
    CurrentBits(Octets(s, n), bits, 1, current);
    while i < length
      invariant Unpacking(bits, w, length, i, taken, current, bitsLeft, pos, output)
    {
      taken, current, bitsLeft, pos, output, i :=
        NextField(s, n, bits, w, length, i, taken, current, bitsLeft, pos, output);
    }
    assert output == output + Pieces(bits[pos..], w, 0);
    consumed := taken;
    FinalCount(length, w, taken, bitsLeft, pos);
  }

  /**
    The unpacker's state after `i` counters: the reader stands at bit `i * w` and
    the counters read so far followed by the fields still to read are all the
    fields of the stream.
   */
  ghost predicate Unpacking(bits: seq<bool>, w: nat, length: nat, i: int, taken: int, current: int, bitsLeft: int,
                            pos: int, output: seq<Int8>) {
    && 0 <= i <= length
    && Cursor(bits, taken, current, bitsLeft, pos)
    && pos == i * w && pos + (length - i) * w <= |bits|
    && (i == 0 ==> taken == 1)
    && (i > 0 ==> bitsLeft < 8)
    && output + Pieces(bits[pos..], w, length - i) == Pieces(bits, w, length)
  }

  /** One pass of the loop over counters in `unpackHLLRegister`. */
  method NextField(s: seq<Byte>, ghost n: nat, ghost bits: seq<bool>, w: nat, ghost length: nat, i: nat,
                   taken: nat, current: Byte, bitsLeft: int, ghost pos: int, output: seq<Int8>)
    returns (taken': nat, current': Byte, bitsLeft': int, ghost pos': int, output': seq<Int8>, i': nat)
    requires bits == Concat(Octets(s, n), 8) && 1 <= w <= 7 && i < length
    requires Unpacking(bits, w, length, i, taken, current, bitsLeft, pos, output)
    ensures Unpacking(bits, w, length, i', taken', current', bitsLeft', pos', output') && i' == i + 1
  {
    StartField(bits, pos, w, length - i);
    var result;
    taken', current', bitsLeft', result, pos' := ReadCounter(s, n, bits, taken, current, bitsLeft, pos, w);
    output', i' := Emit(output, i, result, bits, pos, pos', length, w);
  }

  /** One counter of `unpackHLLRegister`: its `w` bits from the stream, read from `pos` on. */
  method ReadCounter(s: seq<Byte>, ghost n: nat, ghost bits: seq<bool>, taken: nat, current: Byte, bitsLeft: int,
                     ghost pos: int, w: nat)
    returns (taken': nat, current': Byte, bitsLeft': int, result: int, ghost pos': int)
    requires bits == Concat(Octets(s, n), 8) && 1 <= w
    requires Cursor(bits, taken, current, bitsLeft, pos) && Partial(bits, pos, pos, 0, w, w)
    ensures Cursor(bits, taken', current', bitsLeft', pos') && Partial(bits, pos, pos', result, 0, w)
    ensures bitsLeft' < 8
  {
    taken', current', bitsLeft', pos' := taken, current, bitsLeft, pos;
    result := 0;
    var bitsLeftToRead := w;
    while bitsLeftToRead > bitsLeft'
      invariant bitsLeftToRead >= 1
      invariant Cursor(bits, taken', current', bitsLeft', pos')
      invariant Partial(bits, pos, pos', result, bitsLeftToRead, w)
      decreases bitsLeftToRead, 8 - bitsLeft'
    {
      taken', current', bitsLeft', result, bitsLeftToRead, pos' :=
        ReadMore(s, n, bits, taken', current', bitsLeft', result, bitsLeftToRead, pos, pos', w);
    }
    bitsLeft', result, bitsLeftToRead, pos' :=
      ReadLast(bits, taken', current', bitsLeft', result, bitsLeftToRead, pos, pos', w);
  }

  /**
    The inner loop of `unpackHLLRegister`: the `bitsLeft` unused bits of `current`
    join the counter (`result <<= bitsLeft; result |= current & ((1 << bitsLeft) - 1)`)
    and the next byte is read. The counter stays below `2^w <= 128`, so Java's
    byte-typed `result` never wraps.
   */
  method ReadMore(s: seq<Byte>, ghost n: nat, ghost bits: seq<bool>, taken: nat, current: Byte, bitsLeft: int,
                  result: int, t: int, ghost start: int, ghost pos: int, ghost w: int)
    returns (taken': nat, current': Byte, bitsLeft': int, result': int, t': int, ghost pos': int)
    requires bits == Concat(Octets(s, n), 8)
    requires Cursor(bits, taken, current, bitsLeft, pos) && Partial(bits, start, pos, result, t, w)
    requires t > bitsLeft
    ensures Cursor(bits, taken', current', bitsLeft', pos') && Partial(bits, start, pos', result', t', w)
    ensures t' >= 1 && (t' < t || (t' == t && bitsLeft' > bitsLeft))
  {
    result' := ShiftLeft(result, bitsLeft) + LowBits(current, bitsLeft);
    t' := t - bitsLeft;
    pos' := pos + bitsLeft;
    current' := OctetAt(s, taken);
    taken' := taken + 1;
    bitsLeft' := 8;
    ReadMoreCursor(s, n, bits, taken, current, bitsLeft, t, start, pos, w, taken', current', bitsLeft', pos');
    UnusedBits(bits, taken, current, bitsLeft, pos, bitsLeft);
    ReadMoreValue(bits, current, bitsLeft, result, t, start, pos, w, result', t', pos');
  }

  /**
    The end of a counter: its last `t` bits come from `current`
    (`result <<= t; bitsLeft -= t; result |= (current >>> bitsLeft) & ((1 << t) - 1)`).
    Java's `current` is a signed byte, but its sign extension lies above the bits
    the mask keeps.
   */
  method ReadLast(ghost bits: seq<bool>, taken: nat, current: Byte, bitsLeft: int,
                  result: int, t: int, ghost start: int, ghost pos: int, ghost w: int)
    returns (bitsLeft': int, result': int, t': int, ghost pos': int)
    requires Cursor(bits, taken, current, bitsLeft, pos) && Partial(bits, start, pos, result, t, w)
    requires 0 < t <= bitsLeft
    ensures Cursor(bits, taken, current, bitsLeft', pos') && Partial(bits, start, pos', result', t', w)
    ensures t' == 0 && bitsLeft' < 8
  {
    bitsLeft' := bitsLeft - t;
    result' := ShiftLeft(result, t) + LowBits(ShiftRight(current, bitsLeft'), t);
    pos' := pos + t;
    t' := 0;
    UnusedBits(bits, taken, current, bitsLeft, pos, t);
    ReadLastValue(bits, current, bitsLeft, result, t, start, pos, w, bitsLeft', result', pos');
  }

  /** `output[i] = (byte) (result & mask)`: a counter read completely is the next field. */
  method Emit(output: seq<Int8>, i: nat, result: int, ghost bits: seq<bool>, ghost start: int, ghost pos: int,
              ghost length: nat, w: nat)
    returns (output': seq<Int8>, i': nat)
    requires 1 <= w <= 7 && i < length
    requires Partial(bits, start, pos, result, 0, w)
    requires start == i * w && start + (length - i) * w <= |bits|
    requires output + Pieces(bits[start..], w, length - i) == Pieces(bits, w, length)
    ensures i' == i + 1
    ensures pos == i' * w && pos + (length - i') * w <= |bits|
    ensures output' + Pieces(bits[pos..], w, length - i') == Pieces(bits, w, length)
  {
    var field := LowBits(result, w);
    FieldOfCounter(bits, start, pos, result, w, field);
    output' := output + [field];
    i' := i + 1;
    EmitStep(output, i, bits, start, pos, result, length, w, field, output', i');
  }

  /** A new counter starts with nothing read. */
  lemma StartField(bits: seq<bool>, pos: int, w: nat, k: nat)
    requires k >= 1 && 0 <= pos && pos + k * w <= |bits|
    ensures Partial(bits, pos, pos, 0, w, w)
  {
    MulAtLeast2(w, k);
    assert bits[pos..pos] == [];
  }

  lemma MulAtLeast2(w: nat, k: nat)
    requires k >= 1
    ensures w <= k * w
  {
    MulPred(k, w);
  }

  /** The last byte read spells bits `8 * taken - 8` to `8 * taken` of the stream's bits. */
  lemma CurrentBits(bytes: seq<Byte>, bits: seq<bool>, taken: int, current: int)
    requires bits == Concat(bytes, 8) && 1 <= taken <= |bytes| && current == bytes[taken - 1]
    ensures 8 * taken <= |bits|
    ensures bits[8 * taken - 8 .. 8 * taken] == Bits(current, 8)
  {
    var k := taken - 1;
    ConcatAt(bytes, 8, k);
    assert k * 8 == 8 * taken - 8 && k * 8 + 8 == 8 * taken && |bytes| * 8 == |bits|;
  }

  /** The next `k` unused bits of `current` are the stream's bits from `pos` on. */
  lemma UnusedBits(bits: seq<bool>, taken: int, current: int, bitsLeft: int, pos: int, k: int)
    requires Cursor(bits, taken, current, bitsLeft, pos) && 0 <= k <= bitsLeft
    ensures pos + k <= |bits|
    ensures bits[pos..pos + k] == Bits(current, 8)[8 - bitsLeft .. 8 - bitsLeft + k]
  {
    SliceOfSlice(bits, 8 * taken - 8, 8 * taken, 8 - bitsLeft, 8 - bitsLeft + k);
  }

  lemma SliceOfSlice(bs: seq<bool>, a: int, b: int, i: int, j: int)
    requires 0 <= a <= b <= |bs| && 0 <= i <= j <= b - a
    ensures bs[a..b][i..j] == bs[a + i .. a + j]
  {
    var u, v := bs[a..b][i..j], bs[a + i .. a + j];
    assert |u| == |v|;
    forall k | 0 <= k < |u|
      ensures u[k] == v[k]
    {
    }
  }

  /** `ReadMore` reads a byte the stream window still has, and its position is right. */
  lemma ReadMoreCursor(s: seq<Byte>, n: nat, bits: seq<bool>, taken: int, current: int, bitsLeft: int, t: int,
                       start: int, pos: int, w: int, taken': int, current': int, bitsLeft': int, pos': int)
    requires bits == Concat(Octets(s, n), 8)
    requires Cursor(bits, taken, current, bitsLeft, pos) && pos - start == w - t && start + w <= |bits|
    requires t > bitsLeft
    requires pos' == pos + bitsLeft && current' == OctetAt(s, taken) && taken' == taken + 1 && bitsLeft' == 8
    ensures Cursor(bits, taken', current', bitsLeft', pos')
  {
    var bytes := Octets(s, n);
    assert bytes[taken' - 1] == current';
    CurrentBits(bytes, bits, taken', current');
  }

  /** The bits `ReadMore` adds to the counter are the stream's next ones. */
  lemma ReadMoreValue(bits: seq<bool>, current: int, bitsLeft: int,
                      result: int, t: int, start: int, pos: int, w: int, result': int, t': int, pos': int)
    requires Partial(bits, start, pos, result, t, w) && 0 <= bitsLeft <= 8 && bitsLeft < t
    requires pos + bitsLeft <= |bits| && bits[pos..pos + bitsLeft] == Bits(current, 8)[8 - bitsLeft .. 8 - bitsLeft + bitsLeft]
    requires result' == ShiftLeft(result, bitsLeft) + LowBits(current, bitsLeft)
    requires t' == t - bitsLeft && pos' == pos + bitsLeft
    ensures Partial(bits, start, pos', result', t', w)
  {
    var added := bits[pos..pos'];
    TailValue(current, bitsLeft, LowBits(current, bitsLeft));
    Extend(bits, start, pos, pos', result, result', added, LowBits(current, bitsLeft));
  }

  /** The bits `ReadLast` adds to the counter are the stream's next ones. */
  lemma ReadLastValue(bits: seq<bool>, current: int, bitsLeft: int,
                      result: int, t: int, start: int, pos: int, w: int, bitsLeft': int, result': int, pos': int)
    requires Partial(bits, start, pos, result, t, w) && 0 < t <= bitsLeft <= 8
    requires pos + t <= |bits| && bits[pos..pos + t] == Bits(current, 8)[8 - bitsLeft .. 8 - bitsLeft + t]
    requires bitsLeft' == bitsLeft - t && result' == ShiftLeft(result, t) + LowBits(ShiftRight(current, bitsLeft'), t)
    requires pos' == pos + t
    ensures Partial(bits, start, pos', result', 0, w)
  {
    var added := bits[pos..pos'];
    var piece := LowBits(ShiftRight(current, bitsLeft'), t);
    MidValue(current, bitsLeft, t, bitsLeft', piece);
    Extend(bits, start, pos, pos', result, result', added, piece);
  }

  /** The low `bl` bits of a byte: `current & ((1 << bl) - 1)`. */
  lemma TailValue(current: int, bl: nat, lo: int)
    requires bl <= 8 && lo == LowBits(current, bl)
    ensures Value(Bits(current, 8)[8 - bl .. 8 - bl + bl]) == lo
  {
    var bs := Bits(current, 8);
    var m := current % Pow2(bl);
    assert bs[8 - bl .. 8 - bl + bl] == bs[8 - bl..];
    BitsSuffix(current, 8, 8 - bl);
    ValueOfBits(m, bl);
    LowBitsIsMod(current, bl);
    SmallMod(m, Pow2(bl));
  }

  /** The `t` bits of a byte below its top `8 - bl`: `(current >>> (bl - t)) & ((1 << t) - 1)`. */
  lemma MidValue(current: int, bl: nat, t: nat, below: nat, piece: int)
    requires 0 < t <= bl <= 8 && below == bl - t && piece == LowBits(ShiftRight(current, below), t)
    ensures Value(Bits(current, 8)[8 - bl .. 8 - bl + t]) == piece
  {
    var q := current / Pow2(below);
    assert Bits(current, 8)[8 - bl .. 8 - bl + t] == Bits(q, t) by {
      BitsSlice(current, 8, 8 - bl, 8 - bl + t);
      assert 8 - (8 - bl + t) == below;
    }
    ValueOfBits(q, t);
    ShiftRightIsDiv(current, below);
    LowBitsIsMod(q, t);
  }

  /** Appending `k` more bits to a counter: `result << k | piece`. */
  lemma Extend(bits: seq<bool>, start: int, pos: int, pos': int, result: int, result': int, added: seq<bool>, piece: int)
    requires 0 <= start <= pos <= pos' <= |bits|
    requires result == Value(bits[start..pos]) && added == bits[pos..pos'] && piece == Value(added)
    requires result' == ShiftLeft(result, pos' - pos) + piece
    ensures result' == Value(bits[start..pos'])
  {
    var front := bits[start..pos];
    SliceJoin(bits, start, pos, pos');
    AppendShifted(front, added, result, piece);
  }

  lemma SliceJoin(bs: seq<bool>, a: int, b: int, c: int)
    requires 0 <= a <= b <= c <= |bs|
    ensures bs[a..c] == bs[a..b] + bs[b..c]
  {
  }

  /** `Value(a + b)` is `Value(a)` shifted left past `b`, plus `Value(b)`. */
  lemma AppendShifted(a: seq<bool>, b: seq<bool>, va: int, vb: int)
    requires va == Value(a) && vb == Value(b)
    ensures Value(a + b) == ShiftLeft(va, |b|) + vb
  {
    ValueAppend(a, b);
    ShiftLeftIsMul(va, |b|);
  }

  /** A complete counter is below `2^w`, so `result & mask` is the counter itself. */
  lemma FieldOfCounter(bits: seq<bool>, start: int, pos: int, result: int, w: nat, field: int)
    requires w <= 7 && Partial(bits, start, pos, result, 0, w) && field == LowBits(result, w)
    ensures field == result && 0 <= field < 128
  {
    FieldBelow128(w);
    LowBitsIsMod(result, w);
    SmallMod(result, Pow2(w));
  }

  /** Emitting a counter moves the reader to the next field. */
  lemma EmitStep(output: seq<Int8>, i: nat, bits: seq<bool>, start: int, pos: int, result: int, length: nat, w: nat,
                 field: int, output': seq<Int8>, i': nat)
    requires 1 <= w && i < length
    requires Partial(bits, start, pos, result, 0, w) && field == result
    requires start == i * w && start + (length - i) * w <= |bits|
    requires output + Pieces(bits[start..], w, length - i) == Pieces(bits, w, length)
    requires output' == output + [field] && i' == i + 1
    ensures pos == i' * w && pos + (length - i') * w <= |bits|
    ensures output' + Pieces(bits[pos..], w, length - i') == Pieces(bits, w, length)
  {
    var k := length - i;
    MulPred(k, w);
    MulPred(i', w);
    var tail := bits[start..];
    assert tail[..w] == bits[start..pos] && tail[w..] == bits[pos..];
    assert Pieces(tail, w, k) == [result] + Pieces(bits[pos..], w, k - 1);
  }

  /** The reader stops right after the last byte holding a bit of the last counter. */
  lemma FinalCount(length: nat, w: nat, taken: int, bitsLeft: int, pos: int)
    requires w >= 1 && pos == length * w && pos == 8 * taken - bitsLeft && 0 <= bitsLeft <= 8
    requires length == 0 ==> taken == 1
    requires length > 0 ==> bitsLeft < 8
    ensures taken == ReadCount(length, w)
  {
    if length > 0 {
      MulPositive(length, w);
      DivModUnique(length * w + 7, 8, taken, 7 - bitsLeft);
    }
  }

  /**
    Unpacking a packed register gives it back, whatever follows it in the stream,
    when every counter fits in `w` bits and the fields fill whole bytes.
   */
  lemma UnpackOfPack(register: seq<int>, w: nat, rest: seq<Byte>)
    requires 1 <= w <= 7
    requires forall i :: 0 <= i < |register| ==> 0 <= register[i] < Pow2(w)
    requires |register| * w % 8 == 0
    ensures Unpacked(Pack(register, w) + rest, |register|, w) == register
  {
    var length := |register|;
    if length > 0 {
      var packed := Pack(register, w);
      var bits := Concat(register, w);
      PackedCount(length, w);
      OctetsOfPrefix(packed, rest, ReadCount(length, w));
      ConcatOfPack(register, w);
      assert Pieces(bits, w, length) == register by {
        PiecesOfConcat(register, w, []);
        assert bits + [] == bits;
      }
    }
  }

  /** A packed register whose fields fill whole bytes is exactly the bytes the reader takes. */
  lemma PackedCount(length: nat, w: nat)
    requires 1 <= w && length > 0 && length * w % 8 == 0
    ensures ReadCount(length, w) == length * w / 8
  {
    MulPositive(length, w);
    DivModUnique(length * w + 7, 8, length * w / 8, 7);
  }

  /** Reading `|a|` bytes of `a + rest` gives `a`. */
  lemma OctetsOfPrefix(a: seq<Byte>, rest: seq<Byte>, n: nat)
    requires n == |a|
    ensures Octets(a + rest, n) == a
  {
  }

  /** Writing the packed bytes out as bits gives the register's fields back. */
  lemma ConcatOfPack(register: seq<int>, w: nat)
    requires |register| * w % 8 == 0
    ensures Concat(Pack(register, w), 8) == Concat(register, w)
  {
    var bits := Concat(register, w);
    var n := |register| * w / 8;
    ConcatOfOctets(bits, n);
    assert bits[..8 * n] == bits;
  }
}
