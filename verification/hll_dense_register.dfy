/**
  HLLDenseRegister: `m = 2^p` byte counters addressed by the low `p` bits of a
  64-bit hash. The counter array and its summaries behave exactly as in
  HLLRegister, so they are a `Registers.Register`; this module adds `p`, `m` and
  the hash-splitting `add`.
 */
module DenseRegisters {
  import opened JavaInts
  import opened Results
  import Registers

  datatype DenseRegister = DenseRegister(p: nat, m: nat, counters: Registers.Register)

  /** The counters are consistent with their summaries and there are `m = 2^p` of them. */
  ghost predicate Valid(d: DenseRegister) {
    && d.m == Pow2(d.p)
    && |d.counters.register| == d.m
    && Registers.Valid(d.counters)
  }

  /**
    `new HLLDenseRegister(p)`. Java computes `m = 1 << p` in 32 bits, so only
    `p <= 30` gives a positive array size.
   */
  function New(p: nat): (d: DenseRegister)
    requires p <= 30
    ensures d.p == p && d.m == Pow2(p)
    ensures |d.counters.register| == d.m
    ensures forall i :: 0 <= i < d.m ==> d.counters.register[i] == 0
    ensures d.counters.numZeroes == d.m && d.counters.maxRegisterValue == 0
    ensures Valid(d)
  {
    DenseRegister(p, Pow2(p), Registers.New(Pow2(p)).value)
  }

  /** `getNumZeroes()`: on a valid register, the number of counters still at zero. */
  function NumZeroes(d: DenseRegister): (n: int)
    ensures Valid(d) ==> n == Registers.ZeroCount(d.counters.register)
  {
    d.counters.numZeroes
  }

  /** `getMaxRegisterValue()`: on a valid register, the largest counter. */
  function MaxRegisterValue(d: DenseRegister): (v: int)
    ensures Valid(d) ==> forall i :: 0 <= i < |d.counters.register| ==> d.counters.register[i] <= v
    ensures Valid(d) ==> v == 0 || exists i :: 0 <= i < |d.counters.register| && d.counters.register[i] == v
  {
    Registers.MaxValueIsMax(d.counters.register);
    d.counters.maxRegisterValue
  }

  /** The register `set` would produce, with `p` and `m` carried along. */
  function Set(d: DenseRegister, idx: int, value: Int8): (res: Result<(bool, DenseRegister)>)
    ensures res.Err? <==> idx < 0
    ensures res.Ok? ==> (res.value.0 <==> idx < |d.counters.register| && value > d.counters.register[idx])
    ensures res.Ok? && res.value.0 ==>
      res.value.1.counters.register == d.counters.register[idx := value]
    ensures res.Ok? && !res.value.0 ==> res.value.1 == d
    ensures res.Ok? ==> res.value.1.p == d.p && res.value.1.m == d.m
    ensures res.Ok? && Valid(d) ==> Valid(res.value.1)
  {
    var u :- Registers.Set(d.counters, idx, value);
    Ok((u.updated, d.(counters := u.after)))
  }

  /** The slot `add` addresses: `hash & (m - 1)`, the low `p` bits of the hash. */
  function SlotIndex(d: DenseRegister, hash: Int64): (idx: nat)
    requires d.m == Pow2(d.p)
    ensures idx < d.m
  {
    hash % d.m
  }

  /** The bits of the hash above the index: `hash >>> p`. */
  function HighBits(d: DenseRegister, hash: Int64): (w: UInt64)
    requires d.p <= 30
    ensures w < Pow2(64 - d.p)
  {
    var u := Unsigned64(hash);
    ShiftRightBound(u, d.p);
    u / Pow2(d.p)
  }

  /**
    The value `add` offers: `Long.numberOfTrailingZeros(hash >>> p) + 1`. It lies in
    1..65 and is 65 exactly when the high bits are all zero; otherwise the run is
    at most `64 - p` long.
   */
  function RunLength(d: DenseRegister, hash: Int64): (lr: Int8)
    requires d.p <= 30
    ensures 1 <= lr <= 65
    ensures lr == 65 <==> HighBits(d, hash) == 0
    ensures lr < 65 ==> lr <= 64 - d.p && IsTrailingZeroCount(HighBits(d, hash), lr - 1)
  {
    var w := HighBits(d, hash);
    if w == 0 then 65
    else
      TrailingZerosBound(w, 64 - d.p);
      TrailingZeros64(w) + 1
  }

  /** `add(hash)`: `set(hash & (m - 1), ntz(hash >>> p) + 1)`. */
  function Add(d: DenseRegister, hash: Int64): (res: (bool, DenseRegister))
    requires d.p <= 30 && d.m == Pow2(d.p)
    ensures var idx, lr := SlotIndex(d, hash), RunLength(d, hash);
      && (res.0 <==> idx < |d.counters.register| && lr > d.counters.register[idx])
      && (res.0 ==> res.1.counters.register == d.counters.register[idx := lr])
      && (!res.0 ==> res.1 == d)
    ensures Valid(d) ==> Valid(res.1)
  {
    match Set(d, SlotIndex(d, hash), RunLength(d, hash))
    case Ok(r) => r
  }

  /** `merge(other)`: slot-wise maximum, refused when the array lengths differ. */
  function Merge(d: DenseRegister, other: DenseRegister): (res: Result<DenseRegister>)
    ensures res.Err? <==> |d.counters.register| != |other.counters.register|
    ensures res.Err? ==> res.error == IllegalArgument
    ensures res.Ok? ==> res.value.p == d.p && res.value.m == d.m
    ensures res.Ok? ==>
      res.value.counters.register == Registers.PointwiseMax(d.counters.register, other.counters.register)
    ensures res.Ok? ==>
      res.value.counters.numZeroes ==
      d.counters.numZeroes - Registers.NewlyFilled(d.counters.register, other.counters.register)
    ensures res.Ok? ==>
      res.value.counters.maxRegisterValue == Max(d.counters.maxRegisterValue, other.counters.maxRegisterValue)
    ensures res.Ok? && Valid(d) && Valid(other) ==> Valid(res.value)
  {
    var c :- Registers.Merge(d.counters, other.counters);
    Ok(d.(counters := c))
  }

  /** `setRegister(arr)`: replaces the array without recomputing the summaries. */
  function SetRegister(d: DenseRegister, arr: seq<Int8>): (res: DenseRegister)
    ensures res.p == d.p && res.m == d.m && res.counters.register == arr
    ensures res.counters.numZeroes == d.counters.numZeroes
    ensures res.counters.maxRegisterValue == d.counters.maxRegisterValue
  {
    d.(counters := Registers.SetRegister(d.counters, arr))
  }

  /** Adding the same hash twice: the second `add` reports no update and changes nothing. */
  lemma AddIdempotent(d: DenseRegister, hash: Int64)
    requires d.p <= 30 && d.m == Pow2(d.p)
    ensures var once := Add(d, hash).1;
      Add(once, hash) == (false, once)
  {
  }

  /** `add` never lowers a counter and leaves every other slot alone. */
  lemma AddMonotone(d: DenseRegister, hash: Int64, j: int)
    requires d.p <= 30 && d.m == Pow2(d.p)
    requires 0 <= j < |d.counters.register|
    ensures var after := Add(d, hash).1.counters.register;
      && |after| == |d.counters.register|
      && after[j] >= d.counters.register[j]
      && (j != SlotIndex(d, hash) ==> after[j] == d.counters.register[j])
  {
  }
}
