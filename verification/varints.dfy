/**
  The variable-length integers of the serialized sketch: `writeVulong`/`readVulong`
  store a 64-bit pattern as unsigned LEB128 (seven payload bits per byte, low
  group first, bit 7 set on every byte but the last; section 7.6 of the DWARF
  Debugging Information Format, version 4), and `writeVslong`/`readVslong` first
  map signed values to unsigned ones by ZigZag, as Protocol Buffers does.
 */
module Varints {
  import opened JavaInts
  import opened Results
  import opened Streams

  /** The bytes `writeVulong` emits for the bit pattern `u`. */
  function Encode(u: nat): (bs: seq<Byte>)
    ensures |bs| >= 1
    decreases u
  {
    if u < 128 then [u] else [128 + u % 128] + Encode(u / 128)
  }

  /**
    Every byte but the last carries the continuation bit 0x80, and the low seven
    bits of the bytes, low group first, spell `u`.
   */
  lemma {:induction false} EncodeShape(u: nat)
    ensures var bs := Encode(u);
      && bs[|bs| - 1] < 128
      && (forall i :: 0 <= i < |bs| - 1 ==> bs[i] >= 128)
      && bs[0] % 128 == u % 128
      && (|bs| == 1 <==> u < 128)
    decreases u
  {
    if u >= 128 {
      EncodeShape(u / 128);
      var bs := Encode(u);
      forall i | 0 <= i < |bs| - 1 ensures bs[i] >= 128 {
        if i > 0 { assert bs[i] == Encode(u / 128)[i - 1]; }
      }
    }
  }

  /** A value below `2^(7k)` takes at most `k` bytes; every `long` takes 1 to 10. */
  lemma {:induction false} EncodeLength(u: nat, k: nat)
    requires k >= 1 && u < Pow2(7 * k)
    ensures |Encode(u)| <= k
    decreases u
  {
    if u >= 128 {
      assert Pow2(7) == 128;
      assert Pow2(7 * k) == Pow2(7) * Pow2(7 * (k - 1)) by { Pow2Add(7, 7 * (k - 1)); }
      DivBelow(u, 128, Pow2(7 * (k - 1)));
      assert k >= 2 by {
        if k == 1 { assert false; }
      }
      EncodeLength(u / 128, k - 1);
      assert |Encode(u)| == 1 + |Encode(u / 128)|;
    }
  }

  /**
    `writeVulong(value)`, one byte per iteration of the Java loop. The loop works
    on the bit pattern of `value`: `(value & ~0x7f) == 0` holds exactly when the
    pattern is below 128, and `value >>>= 7` divides the pattern by 128.
   */
  method WriteVulong(value: Int64) returns (out: seq<Byte>)
    ensures out == Encode(Unsigned64(value))
    ensures 1 <= |out| <= 10
  {
    var u: UInt64 := Unsigned64(value);
    out := [];
    while u >= 128
      invariant out + Encode(u) == Encode(Unsigned64(value))
      decreases u
    {
      assert Encode(u) == [128 + u % 128] + Encode(u / 128);
      out := out + [128 + u % 128];   // (byte) (0x80 | (value & 0x7f))
      u := u / 128;                   // value >>>= 7
    }
    out := out + [u];                 // (byte) value
    EncodeAtMost10(Unsigned64(value));
  }

  lemma EncodeAtMost10(u: UInt64)
    ensures |Encode(u)| <= 10
  {
    var k := 10;
    assert u < Pow2(7 * k) by {
      Pow2Of64();
      Pow2Monotone(64, 7 * k);
    }
    EncodeLength(u, k);
  }

  /**
    `readVulong` continued with `acc` already read and the next group going to
    bit `offset`: the pattern read and the number of bytes consumed. Java shifts a
    `long` by `offset & 63`; `offset` is an `int`, and its wrap-around leaves those
    six bits unchanged because 2^32 is a multiple of 64.
   */
  function DecodeFrom(s: seq<Byte>, acc: UInt64, offset: nat): (res: Result<(UInt64, nat)>)
    ensures res.Ok? ==> 1 <= res.value.1 <= |s|
    decreases |s|
  {
    if |s| == 0 then Err(EndOfFile)
    else
      var acc' := OrShifted(acc, s[0] % 128, offset);
      if s[0] < 128 then Ok((acc', 1))
      else
        var r :- DecodeFrom(s[1..], acc', offset + 7);
        Ok((r.0, r.1 + 1))
  }

  /** `acc | ((g & 0x7f) << offset)` on `long` bit patterns. */
  function OrShifted(acc: UInt64, g: nat, offset: nat): (r: UInt64)
  {
    var shifted := (g * Pow2(offset % 64)) % TWO_64;
    Pow2Of64();
    BitOrBound(acc, shifted, 64);
    BitOr(acc, shifted)
  }

  /** `readVulong(in)` on the unread bytes `s`: the `long` read and the bytes consumed. */
  function DecodeVulong(s: seq<Byte>): (res: Result<(Int64, nat)>)
    ensures res.Err? <==> forall i :: 0 <= i < |s| ==> s[i] >= 128
    ensures res.Err? ==> res.error == EndOfFile
    ensures res.Ok? ==> 1 <= res.value.1 <= |s| && s[res.value.1 - 1] < 128
    ensures res.Ok? ==> forall i :: 0 <= i < res.value.1 - 1 ==> s[i] >= 128
  {
    DecodeFromStops(s, 0, 0);
    var r :- DecodeFrom(s, 0, 0);
    Ok((Signed64(r.0), r.1))
  }

  /**
    `readVulong` fails exactly when no byte below 0x80 arrives, and then with
    EOFException; otherwise it stops at the first such byte.
   */
  lemma {:induction false} DecodeFromStops(s: seq<Byte>, acc: UInt64, offset: nat)
    ensures var res := DecodeFrom(s, acc, offset);
      && (res.Err? <==> forall i :: 0 <= i < |s| ==> s[i] >= 128)
      && (res.Err? ==> res.error == EndOfFile)
      && (res.Ok? ==> s[res.value.1 - 1] < 128)
      && (res.Ok? ==> forall i :: 0 <= i < res.value.1 - 1 ==> s[i] >= 128)
    decreases |s|
  {
    if |s| > 0 && s[0] >= 128 {
      var acc' := OrShifted(acc, s[0] % 128, offset);
      DecodeFromStops(s[1..], acc', offset + 7);
      var r := DecodeFrom(s[1..], acc', offset + 7);
      if r.Err? {
        assert forall i :: 0 <= i < |s| ==> s[i] >= 128 by {
          forall i | 0 <= i < |s| ensures s[i] >= 128 {
            if i > 0 { assert s[i] == s[1..][i - 1]; }
          }
        }
      } else {
        forall i | 0 <= i < r.value.1 ensures s[i] >= 128 {
          if i > 0 { assert s[i] == s[1..][i - 1]; }
        }
      }
    }
  }

  /** `readVulong(in)`, as the Java do-while loop. */
  method ReadVulong(s: seq<Byte>) returns (res: Result<(Int64, nat)>)
    ensures res == DecodeVulong(s)
  {
    var result: UInt64 := 0;
    var offset := 0;
    var pos := 0;
    while true
      invariant pos <= |s|
      invariant DecodeFrom(s, 0, 0) == Consumed(DecodeFrom(s[pos..], result, offset), pos)
      decreases |s| - pos
    {
      var b := ReadAt(s, pos);
      if b == -1 {
        assert s[pos..] == [];
        return Err(EndOfFile);
      }
      ghost var tail := s[pos + 1..];
      assert s[pos..] == [b] + tail;
      DecodeFromCons(b, tail, result, offset);
      result := OrShifted(result, b % 128, offset);
      offset := offset + 7;
      pos := pos + 1;
      if b < 128 {
        return Ok((Signed64(result), pos));
      }
    }
  }

  /** A reader's result after `k` bytes that a caller already consumed. */
  function Consumed(r: Result<(UInt64, nat)>, k: nat): (r': Result<(UInt64, nat)>)
    ensures r.Err? ==> r' == r
    ensures r.Ok? ==> r' == Ok((r.value.0, r.value.1 + k))
  {
    match r
    case Err(e) => Err(e)
    case Ok((v, n)) => Ok((v, n + k))
  }

  // ---------------------------------------------------------------------------
  // Round trip

  /**
    Decoding the encoding of `u` on top of `acc`, which fills the bits below
    `offset`, adds `u` shifted to `offset` and consumes exactly the encoding.
   */
  lemma {:induction false} DecodeEncodeFrom(u: nat, acc: UInt64, offset: nat, rest: seq<Byte>)
    requires acc < Pow2(offset)
    requires u * Pow2(offset) < TWO_64
    ensures acc + u * Pow2(offset) < TWO_64
    ensures DecodeFrom(Encode(u) + rest, acc, offset) == Ok((acc + u * Pow2(offset), |Encode(u)|))
    decreases u
  {
    var p, g := Pow2(offset), u % 128;
    assert acc + u * p < TWO_64 && OrShifted(acc, g, offset) == acc + g * p by {
      FirstGroup(u, acc, offset);
    }
    if u < 128 {
      assert Encode(u) + rest == [u] + rest;
      DecodeFromCons(u, rest, acc, offset);
    } else {
      var q, p7 := u / 128, Pow2(offset + 7);
      var acc' := acc + g * p;
      assert acc' < p7 && q * p7 < TWO_64 && acc' + q * p7 == acc + u * p by {
        NextGroup(u, acc, offset);
      }
      DecodeEncodeFrom(q, acc', offset + 7, rest);
      EncodeStep(u, acc, offset, rest);
    }
  }

  /** A group with its continuation bit set: `readVulong` goes on with the groups of `u / 128`. */
  lemma EncodeStep(u: nat, acc: UInt64, offset: nat, rest: seq<Byte>)
    requires u >= 128 && acc < Pow2(offset) && u * Pow2(offset) < TWO_64
    ensures |Encode(u)| == 1 + |Encode(u / 128)|
    ensures DecodeFrom(Encode(u) + rest, acc, offset)
         == Consumed(DecodeFrom(Encode(u / 128) + rest, acc + (u % 128) * Pow2(offset), offset + 7), 1)
  {
    var g, tail := u % 128, Encode(u / 128) + rest;
    assert Encode(u) + rest == [128 + g] + tail;
    assert (128 + g) % 128 == g;
    FirstGroup(u, acc, offset);
    DecodeFromCons(128 + g, tail, acc, offset);
  }

  /** One step of `readVulong`. */
  lemma DecodeFromCons(b: Byte, tail: seq<Byte>, acc: UInt64, offset: nat)
    ensures b < 128 ==> DecodeFrom([b] + tail, acc, offset) == Ok((OrShifted(acc, b % 128, offset), 1))
    ensures b >= 128 ==>
      DecodeFrom([b] + tail, acc, offset) == Consumed(DecodeFrom(tail, OrShifted(acc, b % 128, offset), offset + 7), 1)
  {
    assert ([b] + tail)[1..] == tail;
  }

  /** The first byte of an encoding adds its group to `acc` without carries. */
  lemma FirstGroup(u: nat, acc: UInt64, offset: nat)
    requires acc < Pow2(offset) && u * Pow2(offset) < TWO_64
    ensures acc + u * Pow2(offset) < TWO_64
    ensures OrShifted(acc, u % 128, offset) == acc + (u % 128) * Pow2(offset)
  {
    if u == 0 {
      assert u * Pow2(offset) == 0;
      ZeroGroup(acc, offset);
    } else {
      PositiveGroup(u, acc, offset);
    }
  }

  lemma ZeroGroup(acc: UInt64, offset: nat)
    ensures OrShifted(acc, 0, offset) == acc
  {
    assert OrShifted(acc, 0, offset) == BitOr(acc, 0) by {
      assert 0 * Pow2(offset % 64) == 0;
    }
  }

  lemma PositiveGroup(u: nat, acc: UInt64, offset: nat)
    requires u > 0 && acc < Pow2(offset) && u * Pow2(offset) < TWO_64
    ensures acc + u * Pow2(offset) < TWO_64
    ensures OrShifted(acc, u % 128, offset) == acc + (u % 128) * Pow2(offset)
  {
    var p, g := Pow2(offset), u % 128;
    assert offset < 64 by {
      OffsetBelow64(u, offset);
    }
    assert acc + u * p < TWO_64 by {
      RoomBelow64(acc, u, offset);
    }
    assert g * p <= u * p by {
      MulLe(g, u, p);
    }
    OrShiftedDisjoint(acc, g, offset);
  }

  /** `acc | (g << offset)` is `acc + g * 2^offset` when the shifted group clears `acc`. */
  lemma OrShiftedDisjoint(acc: UInt64, g: nat, offset: nat)
    requires offset < 64 && acc < Pow2(offset) && g * Pow2(offset) < TWO_64
    ensures OrShifted(acc, g, offset) == acc + g * Pow2(offset)
  {
    var shifted := g * Pow2(offset);
    assert (g * Pow2(offset % 64)) % TWO_64 == shifted by {
      assert offset % 64 == offset;
      SmallMod(shifted, TWO_64);
    }
    BitOrDisjoint(acc, g, offset);
  }

  lemma RoomBelow64(acc: nat, u: nat, offset: nat)
    requires offset < 64 && acc < Pow2(offset) && u * Pow2(offset) < TWO_64
    ensures acc + u * Pow2(offset) < TWO_64
  {
    var p, k := Pow2(offset), Pow2(64 - offset);
    assert p * k == TWO_64 by { Pow2Add(offset, 64 - offset); Pow2Of64(); }
    RoomBelow(acc, u, p, k);
  }

  lemma OffsetBelow64(u: nat, offset: nat)
    requires u > 0 && u * Pow2(offset) < TWO_64
    ensures offset < 64
  {
    if offset >= 64 {
      Pow2Of64();
      Pow2Monotone(64, offset);
      MulLe(1, u, Pow2(offset));
      assert false;
    }
  }

  /** After one byte, the rest of `u` sits at `offset + 7` above what was read. */
  lemma NextGroup(u: nat, acc: UInt64, offset: nat)
    requires u >= 128 && acc < Pow2(offset) && u * Pow2(offset) < TWO_64
    ensures acc + (u % 128) * Pow2(offset) < Pow2(offset + 7)
    ensures (u / 128) * Pow2(offset + 7) < TWO_64
    ensures acc + (u % 128) * Pow2(offset) + (u / 128) * Pow2(offset + 7) == acc + u * Pow2(offset)
  {
    var p := Pow2(offset);
    assert Pow2(offset + 7) == p * 128 by {
      Pow2Add(offset, 7);
      assert Pow2(7) == 128;
    }
    SplitGroup(u, p);
    RoomBelow(acc, u % 128, p, 128);
  }

  /** Every `long` survives `writeVulong` followed by `readVulong`. */
  lemma VulongRoundTrip(v: Int64, rest: seq<Byte>)
    ensures DecodeVulong(Encode(Unsigned64(v)) + rest) == Ok((v, |Encode(Unsigned64(v))|))
  {
    DecodeEncodeFrom(Unsigned64(v), 0, 0, rest);
  }

  // ---------------------------------------------------------------------------
  // ZigZag

  /**
    `(v << 1) ^ (v >> 63)`: `v >> 63` is 0 for a non-negative `v`, so the `^`
    changes nothing, and all ones for a negative `v`, so it flips every bit.
   */
  function ZigZag(v: Int64): (u: UInt64)
    ensures v >= 0 ==> u == 2 * v
    ensures v < 0 ==> u == -2 * v - 1
  {
    var shifted := (2 * v) % TWO_64;
    if v >= 0 then shifted else TWO_64 - 1 - shifted
  }

  /**
    `(r >>> 1) ^ -(r & 1)`: `-(r & 1)` is 0 for an even pattern and all ones for
    an odd one.
   */
  function UnZigZag(u: UInt64): (v: Int64)
    ensures u % 2 == 0 ==> v == u / 2
    ensures u % 2 == 1 ==> v == -(u / 2) - 1
  {
    var half := u / 2;
    if u % 2 == 0 then half else Signed64(TWO_64 - 1 - half)
  }

  /** ZigZag is a bijection between `long` values and bit patterns. */
  lemma ZigZagRoundTrip(v: Int64, u: UInt64)
    ensures UnZigZag(ZigZag(v)) == v
    ensures ZigZag(UnZigZag(u)) == u
  {
  }

  /**
    The bytes `writeVslong(value)` emits: the unsigned encoding of the zig-zag
    value, from which `readVslong` reads `value` back.
   */
  function EncodeSigned(v: Int64): (bs: seq<Byte>)
    ensures 1 <= |bs| <= 10
    ensures DecodeVslong(bs) == Ok((v, |bs|))
  {
    var bs := Encode(ZigZag(v));
    ZigZagDecoded(v, []);
    EncodeAtMost10(ZigZag(v));
    assert bs + [] == bs;
    bs
  }

  /** `readVslong(in)` on the unread bytes `s`. */
  function DecodeVslong(s: seq<Byte>): (res: Result<(Int64, nat)>)
    ensures res.Err? <==> DecodeVulong(s).Err?
    ensures res.Ok? ==> res.value.1 == DecodeVulong(s).value.1
    ensures res.Ok? ==> res.value.0 == UnZigZag(Unsigned64(DecodeVulong(s).value.0))
  {
    var (r, n) :- DecodeVulong(s);
    Ok((UnZigZag(Unsigned64(r)), n))
  }

  /** Every `long` survives `writeVslong` followed by `readVslong`. */
  lemma VslongRoundTrip(v: Int64, rest: seq<Byte>)
    ensures DecodeVslong(EncodeSigned(v) + rest) == Ok((v, |EncodeSigned(v)|))
  {
    ZigZagDecoded(v, rest);
  }

  /** Decoding the zig-zag encoding of `v`, whatever follows it, gives `v`. */
  lemma ZigZagDecoded(v: Int64, rest: seq<Byte>)
    ensures DecodeVslong(Encode(ZigZag(v)) + rest) == Ok((v, |Encode(ZigZag(v))|))
  {
    var u := ZigZag(v);
    VulongRoundTrip(Signed64(u), rest);
    ZigZagRoundTrip(v, u);
  }

  // ---------------------------------------------------------------------------
  // Arithmetic helpers

  /** `u * p` splits into the group below bit 7 and the rest. */
  lemma SplitGroup(u: nat, p: nat)
    ensures u * p == (u / 128) * (p * 128) + (u % 128) * p
  {
    assert u == 128 * (u / 128) + u % 128;
    assert u * p == (128 * (u / 128)) * p + (u % 128) * p;
  }
}
