/**
  HyperLogLogOriginal: the first, dense-only version of the sketch. It keeps
  `m = 2^p` byte registers; adding a hash stores, in the register its low `p`
  bits address, the length of the run of low zero bits (plus one) of the bits
  above them, unless the register already holds more.
 */
module HyperLogLogOriginal {
  import opened JavaInts
  import opened Results
  import DenseRegisters

  datatype Sketch = Sketch(p: Int32, m: nat, register: seq<Int8>, numElems: Int64)

  /**
    `(int) Math.pow(2, p)`: `2^p` for `0 <= p <= 30`; for a negative `p` the power
    lies strictly between 0 and 1 and the cast truncates it to 0.
   */
  function RegisterCount(p: Int32): (m: nat)
    requires p <= 30
    ensures 0 <= p ==> m == Pow2(p) && 0 < m < TWO_31
    ensures p < 0 ==> m == 0
  {
    if p < 0 then 0 else Pow2Monotone(p, 30); Pow2Of32(); Pow2(p)
  }

  /** The sketch's registers are the `m` it was built with. */
  ghost predicate Valid(s: Sketch) {
    && s.p <= 30
    && s.m == RegisterCount(s.p)
    && |s.register| == s.m
  }

  /**
    `new HyperLogLogOriginal(p, numBitsHash)`: `m` empty registers and no elements.
    Guava's `goodFastHash(numBitsHash)` refuses a non-positive width.
   */
  function New(p: Int32, numBitsHash: Int32): (r: Result<Sketch>)
    requires p <= 30
    ensures r.Err? <==> numBitsHash <= 0
    ensures r.Err? ==> r.error == IllegalArgument
    ensures r.Ok? ==> r.value.p == p && r.value.numElems == 0
    ensures r.Ok? ==> |r.value.register| == r.value.m
    ensures r.Ok? && p >= 0 ==> r.value.m == Pow2(p)
    ensures r.Ok? && p < 0 ==> r.value.m == 0
    ensures r.Ok? ==> forall i :: 0 <= i < |r.value.register| ==> r.value.register[i] == 0
    ensures r.Ok? ==> Valid(r.value)
  {
    var m := RegisterCount(p);
    if numBitsHash <= 0 then Err(IllegalArgument)
    else Ok(Sketch(p, m, seq(m, _ => 0), 0))
  }

  /** `hashcode >>> p`: Java takes a `long` shift distance modulo 64. */
  function HighBits(s: Sketch, hash: Int64): (w: UInt64)
    ensures w <= Unsigned64(hash)
  {
    var u := Unsigned64(hash);
    ShiftRightBound(u, s.p % 64);
    u / Pow2(s.p % 64)
  }

  /**
    `(int) (hashcode & (m - 1))`. With `m = 2^p` the mask keeps the low `p` bits;
    with `m = 0` the mask is all ones and the cast keeps the low 32 bits.
   */
  function SlotIndex(s: Sketch, hash: Int64): (idx: Int32)
    requires Valid(s)
    ensures s.m > 0 ==> 0 <= idx < s.m && idx == hash % s.m
    ensures s.m == 0 ==> (idx - hash) % TWO_32 == 0
  {
    if s.m == 0 then Wrap32(hash) else hash % s.m
  }

  /** `numElems++` on a Java `long`: the largest value wraps around to the smallest. */
  function Increment(n: Int64): (r: Int64)
    ensures n < TWO_63 - 1 ==> r == n + 1
    ensures n == TWO_63 - 1 ==> r == -TWO_63
    ensures (r - n - 1) % TWO_64 == 0
  {
    if n == TWO_63 - 1 then -TWO_63 else n + 1
  }

  /**
    `findLongestRun(v)`: shifts `v` right until its lowest bit is set, counting
    from 1. The loop only stops when `v` has a set bit, so `v != 0` is required.
   */
  method FindLongestRun(v: Int64) returns (i: int)
    requires v != 0
    ensures 1 <= i <= 64
    ensures IsTrailingZeroCount(Unsigned64(v), i - 1)
    ensures i == TrailingZeros64(Unsigned64(v)) + 1
  {
    var u := Unsigned64(v);
    i := 1;
    while u % 2 == 0
      invariant u != 0 && i >= 1
      invariant TrailingZeros(Unsigned64(v)) == TrailingZeros(u) + (i - 1)
      decreases u
    {
      HalveEven(u);
      u := u / 2;
      i := i + 1;
    }
    TrailingZerosBelow64(Unsigned64(v));
  }

  /** Shifting out a low zero bit shortens the run by one. */
  lemma HalveEven(u: nat)
    requires u != 0 && u % 2 == 0
    ensures u / 2 != 0 && TrailingZeros(u) == TrailingZeros(u / 2) + 1
  {
  }

  /** The value `findLongestRun` returns for the bit pattern `w`. */
  function LongestRun(w: UInt64): (lr: Int8)
    requires w != 0
    ensures 1 <= lr <= 64
    ensures IsTrailingZeroCount(w, lr - 1)
  {
    TrailingZeros64(w) + 1
  }

  /**
    `add()` for a hash: counts the element, then raises the addressed register to
    the run length. An empty register array makes the access fail. The run is
    only found when the high bits are not all zero (the loop would not stop).
   */
  function Add(s: Sketch, hash: Int64): (r: Result<Sketch>)
    requires Valid(s)
    requires HighBits(s, hash) != 0
    ensures r.Err? <==> s.m == 0
    ensures r.Err? ==> r.error == IndexOutOfBounds
    ensures r.Ok? ==> r.value.p == s.p && r.value.m == s.m && Valid(r.value)
    ensures r.Ok? ==> r.value.numElems == Increment(s.numElems)
    ensures r.Ok? ==> |r.value.register| == |s.register|
    ensures r.Ok? ==> forall j :: 0 <= j < |s.register| ==>
      r.value.register[j] ==
        if j == hash % s.m then Max(s.register[j], LongestRun(HighBits(s, hash))) else s.register[j]
  {
    var idx := SlotIndex(s, hash);
    var lr := LongestRun(HighBits(s, hash));
    if idx < 0 || idx >= |s.register| then Err(IndexOutOfBounds)
    else Ok(s.(numElems := Increment(s.numElems), register := s.register[idx := Max(s.register[idx], lr)]))
  }

  // ---------------------------------------------------------------------------
  // Properties of add

  /** Adding two hashes in either order leaves the same registers. */
  lemma AddCommutes(s: Sketch, h1: Int64, h2: Int64)
    requires Valid(s) && s.m > 0
    requires HighBits(s, h1) != 0 && HighBits(s, h2) != 0
    ensures Add(s, h1).Ok? && Add(s, h2).Ok?
    ensures Add(Add(s, h1).value, h2).value.register == Add(Add(s, h2).value, h1).value.register
  {
    var a, b := Add(s, h1).value, Add(s, h2).value;
    assert HighBits(a, h2) == HighBits(s, h2) && HighBits(b, h1) == HighBits(s, h1);
    var ab, ba := Add(a, h2).value, Add(b, h1).value;
    forall j | 0 <= j < |s.register|
      ensures ab.register[j] == ba.register[j]
    {
    }
  }

  /**
    The original sketch and the dense register of the current sketch store the
    same counters: for the same `p` and the same counters, adding a hash gives the
    same counters in both, since the run `findLongestRun` finds is
    `Long.numberOfTrailingZeros(hash >>> p) + 1`.
   */
  lemma AgreesWithDense(s: Sketch, d: DenseRegisters.DenseRegister, hash: Int64)
    requires Valid(s) && 0 <= s.p
    requires d.p == s.p && d.m == s.m && d.counters.register == s.register
    requires HighBits(s, hash) != 0
    ensures Add(s, hash).Ok?
    ensures Add(s, hash).value.register == DenseRegisters.Add(d, hash).1.counters.register
  {
    assert s.p % 64 == s.p;
    assert HighBits(s, hash) == DenseRegisters.HighBits(d, hash);
    var idx := DenseRegisters.SlotIndex(d, hash);
    var after := Add(s, hash).value.register;
    var res := DenseRegisters.Add(d, hash);
    if res.0 {
      assert after == s.register[idx := DenseRegisters.RunLength(d, hash)];
    } else {
      assert after == s.register;
    }
  }
}
