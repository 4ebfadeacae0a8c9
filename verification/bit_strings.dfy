/**
  Bit strings, most significant bit first, and the numbers they denote. The codec's
  bit packing is specified through them: a register of `w`-bit counters is the
  concatenation of each counter's low `w` bits, a byte stream is the concatenation
  of each byte's 8 bits, and unpacking cuts a bit string back into `w`-bit pieces.
 */
module BitStrings {
  import opened JavaInts

  /** The low `n` bits of `x` in two's complement, most significant first. */
  function Bits(x: int, n: nat): (bs: seq<bool>)
    ensures |bs| == n
    decreases n
  {
    if n == 0 then [] else Bits(x / 2, n - 1) + [x % 2 == 1]
  }

  /** The number a bit string denotes. */
  function Value(bs: seq<bool>): (v: nat)
    ensures v < Pow2(|bs|)
  {
    if |bs| == 0 then 0 else 2 * Value(bs[..|bs| - 1]) + (if bs[|bs| - 1] then 1 else 0)
  }

  /** Each value's low `w` bits, one after the other. */
  function Concat(vs: seq<int>, w: nat): (bs: seq<bool>)
    ensures |bs| == |vs| * w
  {
    if |vs| == 0 then [] else Bits(vs[0], w) + Concat(vs[1..], w)
  }

  /** The first `n` pieces of `w` bits each, read back as numbers. */
  function Pieces(bs: seq<bool>, w: nat, n: nat): (vs: seq<int>)
    requires n * w <= |bs|
    ensures |vs| == n
  {
    if n == 0 then []
    else
      assert n * w == w + (n - 1) * w;
      [Value(bs[..w])] + Pieces(bs[w..], w, n - 1)
  }

  // ---------------------------------------------------------------------------
  // Bits and Value are inverse to each other

  lemma {:induction false} ValueOfBits(x: int, n: nat)
    ensures Value(Bits(x, n)) == x % Pow2(n)
    decreases n
  {
    if n > 0 {
      var bs := Bits(x, n);
      assert bs[..n - 1] == Bits(x / 2, n - 1);
      ValueOfBits(x / 2, n - 1);
      DivModMul(x, 2, Pow2(n - 1));
    }
  }

  lemma {:induction false} BitsOfValue(bs: seq<bool>)
    ensures Bits(Value(bs), |bs|) == bs
  {
    if |bs| > 0 {
      var n := |bs| - 1;
      BitsOfValue(bs[..n]);
      assert bs == bs[..n] + [bs[n]];
    }
  }

  lemma {:induction false} ValueAppend(a: seq<bool>, b: seq<bool>)
    ensures Value(a + b) == Value(a) * Pow2(|b|) + Value(b)
    decreases |b|
  {
    if |b| > 0 {
      var n := |b| - 1;
      var bit := if b[n] then 1 else 0;
      var va, vb, p := Value(a), Value(b[..n]), Pow2(n);
      var vab := Value(a + b[..n]);
      assert (a + b)[..|a| + n] == a + b[..n];
      assert Value(a + b) == 2 * vab + bit;
      assert Value(b) == 2 * vb + bit;
      ValueAppend(a, b[..n]);
      assert Pow2(|b|) == 2 * p;
      ShiftStep(va, vb, p, bit);
    } else {
      assert a + b == a;
    }
  }

  lemma ShiftStep(va: int, vb: int, p: int, bit: int)
    ensures 2 * (va * p + vb) + bit == va * (2 * p) + (2 * vb + bit)
  {
  }

  // ---------------------------------------------------------------------------
  // Windows of a bit string

  /** The first `j` of `x`'s low `n` bits are the low `j` bits of `x >> (n - j)`. */
  lemma {:induction false} BitsPrefix(x: int, n: nat, j: nat)
    requires j <= n
    ensures Bits(x, n)[..j] == Bits(x / Pow2(n - j), j)
    decreases n
  {
    if j < n {
      var y, p := x / 2, Pow2(n - 1 - j);
      assert Bits(x, n)[..j] == Bits(y, n - 1)[..j];
      BitsPrefix(y, n - 1, j);
      assert y / p == x / Pow2(n - j) by {
        DivDiv(x, 2, p);
        assert Pow2(n - j) == 2 * p;
      }
    }
  }

  /** The bits of `x`'s low `n` from position `i` on are the low `n - i` bits of `x`. */
  lemma {:induction false} BitsSuffix(x: int, n: nat, i: nat)
    requires i <= n
    ensures Bits(x, n)[i..] == Bits(x % Pow2(n - i), n - i)
    decreases n
  {
    if i < n {
      var p := Pow2(n - 1 - i);
      var y := x % Pow2(n - i);
      assert Bits(x, n)[i..] == Bits(x / 2, n - 1)[i..] + [x % 2 == 1];
      BitsSuffix(x / 2, n - 1, i);
      DivModMul(x, 2, p);
      DivModUnique(y, 2, (x / 2) % p, x % 2);
    }
  }

  /** The bits at positions `i..j` of `x`'s low `n`: `(x >>> (n - j)) & (2^(j - i) - 1)`. */
  lemma BitsSlice(x: int, n: nat, i: nat, j: nat)
    requires i <= j <= n
    ensures Bits(x, n)[i..j] == Bits(x / Pow2(n - j), j - i)
  {
    var y := x / Pow2(n - j);
    BitsPrefix(x, n, j);
    assert Bits(x, n)[i..j] == Bits(y, j)[i..];
    BitsSuffix(y, j, i);
    BitsMod(y, j - i);
  }

  /** `Bits(x, n)` sees only `x mod 2^n`. */
  lemma BitsMod(x: int, n: nat)
    ensures Bits(x % Pow2(n), n) == Bits(x, n)
  {
    BitsSuffix(x, n, 0);
  }

  /** The top `a` bits and the bottom `b` bits of an `n = a + b`-bit window: `x >> b` and `x & (2^b - 1)`. */
  lemma BitsSplit(x: int, a: nat, b: nat, n: nat, hi: int, lo: int)
    requires n == a + b && hi == ShiftRight(x, b) && lo == LowBits(x, b)
    ensures Bits(x, n) == Bits(hi, a) + Bits(lo, b)
  {
    var bs := Bits(x, n);
    assert bs[..a] == Bits(hi, a) by {
      BitsPrefix(x, n, a);
      ShiftRightIsDiv(x, n - a);
    }
    assert bs[a..] == Bits(lo, b) by {
      BitsSuffix(x, n, a);
      LowBitsIsMod(x, n - a);
    }
    assert bs == bs[..a] + bs[a..];
  }

  /** `Bits(x, n)` for `x = (hi << b) + lo`, a `b`-bit `lo` and `n = a + b`. */
  lemma BitsJoin(hi: int, lo: int, a: nat, b: nat, n: nat, x: int)
    requires 0 <= lo < Pow2(b) && n == a + b && x == ShiftLeft(hi, b) + lo
    ensures Bits(x, n) == Bits(hi, a) + Bits(lo, b)
  {
    assert ShiftRight(x, b) == hi && LowBits(x, b) == lo by {
      ShiftLeftIsMul(hi, b);
      DivModUnique(x, Pow2(b), hi, lo);
      ShiftRightIsDiv(x, b);
      LowBitsIsMod(x, b);
    }
    BitsSplit(x, a, b, n, hi, lo);
  }

  // ---------------------------------------------------------------------------
  // Concat and Pieces

  lemma {:induction false} ConcatAppend(a: seq<int>, b: seq<int>, w: nat)
    ensures Concat(a + b, w) == Concat(a, w) + Concat(b, w)
  {
    if |a| > 0 {
      assert (a + b)[0] == a[0];
      assert (a + b)[1..] == a[1..] + b;
      assert Concat(a + b, w) == Bits(a[0], w) + Concat(a[1..] + b, w);
      ConcatAppend(a[1..], b, w);
      assert Concat(a, w) == Bits(a[0], w) + Concat(a[1..], w);
    } else {
      assert a + b == b;
    }
  }

  /** Appending one value appends its bits. */
  lemma ConcatSnoc(a: seq<int>, v: int, w: nat)
    ensures Concat(a + [v], w) == Concat(a, w) + Bits(v, w)
  {
    ConcatAppend(a, [v], w);
    assert Concat([v], w) == Bits(v, w) + Concat([], w);
  }

  /** Value `k` occupies bits `k * w` to `k * w + w` of the concatenation. */
  lemma ConcatAt(vs: seq<int>, w: nat, k: nat)
    requires k < |vs|
    ensures k * w + w <= |vs| * w
    ensures Concat(vs, w)[k * w .. k * w + w] == Bits(vs[k], w)
  {
    var front, back := vs[..k], vs[k + 1..];
    assert vs == front + [vs[k]] + back;
    ConcatSnoc(front, vs[k], w);
    ConcatAppend(front + [vs[k]], back, w);
    assert |Concat(front, w)| == k * w;
  }

  /** Every piece is a `w`-bit number. */
  lemma {:induction false} PiecesBound(bs: seq<bool>, w: nat, n: nat)
    requires n * w <= |bs|
    ensures forall i :: 0 <= i < n ==> 0 <= Pieces(bs, w, n)[i] < Pow2(w)
  {
    if n > 0 {
      assert n * w == w + (n - 1) * w;
      PiecesBound(bs[w..], w, n - 1);
      assert forall i :: 1 <= i < n ==> Pieces(bs, w, n)[i] == Pieces(bs[w..], w, n - 1)[i - 1];
    }
  }

  /** Cutting a concatenation into pieces gives back every value that fits in `w` bits. */
  lemma {:induction false} PiecesOfConcat(vs: seq<int>, w: nat, tail: seq<bool>)
    requires forall i :: 0 <= i < |vs| ==> 0 <= vs[i] < Pow2(w)
    ensures Pieces(Concat(vs, w) + tail, w, |vs|) == vs
  {
    if |vs| > 0 {
      var v, rest := vs[0], vs[1..];
      var restBits := Concat(rest, w) + tail;
      var bs := Concat(vs, w) + tail;
      assert bs == Bits(v, w) + restBits;
      assert Value(bs[..w]) == v by {
        assert bs[..w] == Bits(v, w);
        ValueOfBits(v, w);
        SmallMod(v, Pow2(w));
      }
      assert Pieces(restBits, w, |rest|) == rest by {
        PiecesOfConcat(rest, w, tail);
      }
      assert bs[w..] == restBits;
      assert vs == [v] + rest;
    }
  }

  /** Writing a bit string out again as bytes gives back its first `8 * n` bits. */
  lemma {:induction false} ConcatOfOctets(bs: seq<bool>, n: nat)
    requires 8 * n <= |bs|
    ensures Concat(Pieces(bs, 8, n), 8) == bs[..8 * n]
  {
    if n > 0 {
      var head, rest := bs[..8], bs[8..];
      OctetsStep(bs, n);
      ConcatOfOctets(rest, n - 1);
      BitsOfValue(head);
      PrefixSplit(bs, 8, 8 * n);
    }
  }

  lemma PrefixSplit(bs: seq<bool>, k: nat, m: nat)
    requires k <= m <= |bs|
    ensures bs[..m] == bs[..k] + bs[k..][..m - k]
  {
  }

  lemma OctetsStep(bs: seq<bool>, n: nat)
    requires 1 <= n && 8 * n <= |bs|
    ensures Concat(Pieces(bs, 8, n), 8) == Bits(Value(bs[..8]), 8) + Concat(Pieces(bs[8..], 8, n - 1), 8)
  {
    var v, ps := Value(bs[..8]), Pieces(bs[8..], 8, n - 1);
    assert Pieces(bs, 8, n) == [v] + ps;
    assert ([v] + ps)[1..] == ps;
  }
}
