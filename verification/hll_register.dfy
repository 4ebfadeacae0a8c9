/**
  HLLRegister: an array of byte counters with two cached summaries, the largest
  counter (`maxRegisterValue`) and the number of counters still at zero
  (`numZeroes`). HLLDenseRegister repeats exactly this logic, so its model reuses
  this module.

  Registers are values: where Java updates the array in place, `Set` and `Merge`
  return the updated register.
 */
module Registers {
  import opened JavaInts
  import opened Results

  datatype Register = Register(register: seq<Int8>, maxRegisterValue: int, numZeroes: int)

  /** The outcome of `set`: whether a counter changed, and the register afterwards. */
  datatype SetResult = SetResult(updated: bool, after: Register)

  /** The number of zero counters. */
  function ZeroCount(s: seq<Int8>): (n: nat)
    ensures n <= |s|
  {
    if |s| == 0 then 0 else ZeroCount(s[..|s| - 1]) + (if s[|s| - 1] == 0 then 1 else 0)
  }

  /** The largest counter, or 0 for an empty array (the value `getMax` starts from). */
  function MaxValue(s: seq<Int8>): (v: int)
    ensures v >= 0
  {
    if |s| == 0 then 0 else Max(MaxValue(s[..|s| - 1]), s[|s| - 1])
  }

  /** `MaxValue` bounds every counter and, unless it is 0, is one of them. */
  lemma {:induction false} MaxValueIsMax(s: seq<Int8>)
    ensures forall i :: 0 <= i < |s| ==> s[i] <= MaxValue(s)
    ensures MaxValue(s) == 0 || exists i :: 0 <= i < |s| && s[i] == MaxValue(s)
  {
    if |s| > 0 {
      var n := |s| - 1;
      MaxValueIsMax(s[..n]);
      assert forall i :: 0 <= i < n ==> s[i] == s[..n][i];
      if MaxValue(s) != 0 && MaxValue(s) != s[n] {
        var i :| 0 <= i < n && s[..n][i] == MaxValue(s[..n]);
        assert s[i] == MaxValue(s);
      }
    }
  }

  /** The counters `set`, `add` and `merge` can produce are never negative. */
  ghost predicate NonNegative(s: seq<Int8>) {
    forall i :: 0 <= i < |s| ==> s[i] >= 0
  }

  /** The cached summaries agree with the array. */
  ghost predicate Valid(r: Register) {
    && NonNegative(r.register)
    && r.numZeroes == ZeroCount(r.register)
    && r.maxRegisterValue == MaxValue(r.register)
  }

  /** `new HLLRegister(size)`: `size` zero counters. */
  function New(size: int): (r: Result<Register>)
    ensures r.Ok? <==> size >= 0
    ensures r.Ok? ==> |r.value.register| == size
    ensures r.Ok? ==> forall i :: 0 <= i < size ==> r.value.register[i] == 0
    ensures r.Ok? ==> r.value.numZeroes == size && r.value.maxRegisterValue == 0
    ensures r.Ok? ==> Valid(r.value)
  {
    if size < 0 then Err(NegativeArraySize)
    else
      var zeros := seq(size, _ => 0 as Int8);
      AllZeroCount(zeros);
      Ok(Register(zeros, 0, size))
  }

  /**
    `set(idx, value)`: raises counter `idx` to `value` when that is larger. An index
    at or past the end is ignored; a negative one throws.
   */
  function Set(r: Register, idx: int, value: Int8): (res: Result<SetResult>)
    ensures res.Err? <==> idx < 0
    ensures res.Ok? ==> (res.value.updated <==> idx < |r.register| && value > r.register[idx])
    ensures res.Ok? && res.value.updated ==>
      && res.value.after.register == r.register[idx := value]
      && res.value.after.maxRegisterValue == Max(r.maxRegisterValue, value)
      && res.value.after.numZeroes == r.numZeroes - (if r.register[idx] == 0 then 1 else 0)
    ensures res.Ok? && !res.value.updated ==> res.value.after == r
    ensures res.Ok? && Valid(r) ==> Valid(res.value.after)
  {
    if idx >= |r.register| then Ok(SetResult(false, r))
    else if idx < 0 then Err(IndexOutOfBounds)
    else if value > r.register[idx] then
      var max := if value > r.maxRegisterValue then value as int else r.maxRegisterValue;
      var zeros := if r.register[idx] == 0 && value > 0 then r.numZeroes - 1 else r.numZeroes;
      var after := Register(r.register[idx := value], max, zeros);
      UpdateZeroCount(r.register, idx, value);
      UpdateMaxValue(r.register, idx, value);
      Ok(SetResult(true, after))
    else Ok(SetResult(false, r))
  }

  /** Slot-wise maximum of two equally long arrays. */
  function PointwiseMax(a: seq<Int8>, b: seq<Int8>): (c: seq<Int8>)
    requires |a| == |b|
    ensures |c| == |a|
    ensures forall i :: 0 <= i < |a| ==> c[i] == Max(a[i], b[i])
  {
    seq(|a|, i requires 0 <= i < |a| => if a[i] >= b[i] then a[i] else b[i])
  }

  /** The number of slots where `a` is zero and `b` is positive: those `merge` fills. */
  function NewlyFilled(a: seq<Int8>, b: seq<Int8>): (n: nat)
    requires |a| == |b|
    ensures n <= |a|
  {
    if |a| == 0 then 0
    else NewlyFilled(a[..|a| - 1], b[..|b| - 1])
         + (if a[|a| - 1] == 0 && b[|b| - 1] > 0 then 1 else 0)
  }

  /** The body of `merge`'s loop from slot `i` on: counters and the running zero count. */
  function MergeFrom(reg: seq<Int8>, zeros: int, inReg: seq<Int8>, i: nat): (res: (seq<Int8>, int))
    requires |reg| == |inReg| && i <= |reg|
    ensures |res.0| == |reg|
    ensures forall j :: 0 <= j < i ==> res.0[j] == reg[j]
    ensures forall j :: i <= j < |reg| ==> res.0[j] == Max(reg[j], inReg[j])
    ensures res.1 == zeros - NewlyFilled(reg[i..], inReg[i..])
    decreases |reg| - i
  {
    if i == |reg| then (reg, zeros)
    else
      var zeros' := if inReg[i] > reg[i] && reg[i] == 0 then zeros - 1 else zeros;
      var reg' := if inReg[i] > reg[i] then reg[i := inReg[i]] else reg;
      NewlyFilledFirst(reg[i..], inReg[i..]);
      assert reg'[i + 1..] == reg[i + 1..];
      assert reg[i..][1..] == reg[i + 1..] && inReg[i..][1..] == inReg[i + 1..];
      MergeFrom(reg', zeros', inReg, i + 1)
  }

  /**
    `merge(other)`: fails on a length mismatch before touching anything; otherwise
    every slot becomes the larger of the two counters.
   */
  function Merge(r: Register, other: Register): (res: Result<Register>)
    ensures res.Err? <==> |r.register| != |other.register|
    ensures res.Err? ==> res.error == IllegalArgument
    ensures res.Ok? ==> res.value.register == PointwiseMax(r.register, other.register)
    ensures res.Ok? ==>
      res.value.numZeroes == r.numZeroes - NewlyFilled(r.register, other.register)
    ensures res.Ok? ==>
      res.value.maxRegisterValue == Max(r.maxRegisterValue, other.maxRegisterValue)
    ensures res.Ok? && Valid(r) && other.maxRegisterValue == MaxValue(other.register) ==>
      Valid(res.value)
  {
    if |r.register| != |other.register| then Err(IllegalArgument)
    else
      var (reg, zeros) := MergeFrom(r.register, r.numZeroes, other.register, 0);
      assert reg == PointwiseMax(r.register, other.register);
      assert r.register[0..] == r.register && other.register[0..] == other.register;
      var max := if other.maxRegisterValue > r.maxRegisterValue then other.maxRegisterValue
                 else r.maxRegisterValue;
      assert NonNegative(r.register) ==> ZeroCount(reg) == ZeroCount(r.register) - NewlyFilled(r.register, other.register) by {
        if NonNegative(r.register) {
          MergedZeroCount(r.register, other.register);
        }
      }
      MergedMaxValue(r.register, other.register);
      Ok(Register(reg, max, zeros))
  }

  /** `setRegister(arr)`: swaps in a new array and leaves both summaries as they were. */
  function SetRegister(r: Register, arr: seq<Int8>): (res: Register)
    ensures res.register == arr
    ensures res.numZeroes == r.numZeroes && res.maxRegisterValue == r.maxRegisterValue
  {
    Register(arr, r.maxRegisterValue, r.numZeroes)
  }

  /** After `setRegister` the summaries are right exactly when the new array happens to match them. */
  lemma SetRegisterValidIff(r: Register, arr: seq<Int8>)
    ensures Valid(SetRegister(r, arr)) <==>
      NonNegative(arr) && ZeroCount(arr) == r.numZeroes && MaxValue(arr) == r.maxRegisterValue
  {
  }

  /** `setRegister` can leave a valid register with stale summaries. */
  lemma SetRegisterBreaksValid()
    ensures var r := New(1).value;
      Valid(r) && !Valid(SetRegister(r, [5]))
  {
    var r := New(1).value;
    assert MaxValue([5]) == Max(MaxValue([]), 5);
  }

  // ---------------------------------------------------------------------------
  // Properties relating several calls

  /** Repeating a `set` changes nothing and reports no update. */
  lemma SetIdempotent(r: Register, idx: int, value: Int8)
    requires Set(r, idx, value).Ok?
    ensures var once := Set(r, idx, value).value.after;
      Set(once, idx, value) == Ok(SetResult(false, once))
  {
  }

  /** `set` never lowers a counter and touches no slot but `idx`. */
  lemma SetMonotone(r: Register, idx: int, value: Int8, j: int)
    requires Set(r, idx, value).Ok?
    requires 0 <= j < |r.register|
    ensures var after := Set(r, idx, value).value.after.register;
      |after| == |r.register| && after[j] >= r.register[j] && (j != idx ==> after[j] == r.register[j])
  {
  }

  /** Merging the same operand a second time changes nothing. */
  lemma MergeIdempotent(r: Register, other: Register)
    requires Merge(r, other).Ok?
    ensures Merge(Merge(r, other).value, other) == Merge(r, other)
  {
    var once := Merge(r, other).value;
    var twice := Merge(once, other).value;
    assert twice.register == once.register;
    NoneNewlyFilled(once.register, other.register);
  }

  /** On valid registers `merge` is commutative. */
  lemma MergeCommutative(a: Register, b: Register)
    requires Valid(a) && Valid(b) && |a.register| == |b.register|
    ensures Merge(a, b) == Merge(b, a)
  {
    assert PointwiseMax(a.register, b.register) == PointwiseMax(b.register, a.register);
  }

  /** On valid registers `merge` is associative. */
  lemma MergeAssociative(a: Register, b: Register, c: Register)
    requires Valid(a) && Valid(b) && Valid(c)
    requires |a.register| == |b.register| == |c.register|
    ensures Merge(a, b).Ok? && Merge(b, c).Ok?
    ensures Merge(Merge(a, b).value, c) == Merge(a, Merge(b, c).value)
  {
    var ab := Merge(a, b).value;
    var bc := Merge(b, c).value;
    assert Valid(ab) && Valid(bc);
    var left := Merge(ab, c).value;
    var right := Merge(a, bc).value;
    PointwiseMaxAssociative(a.register, b.register, c.register);
    assert Valid(left) && Valid(right);
  }

  lemma PointwiseMaxAssociative(a: seq<Int8>, b: seq<Int8>, c: seq<Int8>)
    requires |a| == |b| == |c|
    ensures PointwiseMax(PointwiseMax(a, b), c) == PointwiseMax(a, PointwiseMax(b, c))
  {
  }

  // ---------------------------------------------------------------------------
  // Counting lemmas

  lemma AllZeroCount(s: seq<Int8>)
    requires forall i :: 0 <= i < |s| ==> s[i] == 0
    ensures ZeroCount(s) == |s| && MaxValue(s) == 0
  {
    if |s| > 0 {
      AllZeroCount(s[..|s| - 1]);
    }
  }

  /** How one raised counter changes the number of zeros. */
  lemma {:induction false} UpdateZeroCount(s: seq<Int8>, idx: nat, value: Int8)
    requires idx < |s|
    ensures ZeroCount(s[idx := value]) ==
      ZeroCount(s) - (if s[idx] == 0 then 1 else 0) + (if value == 0 then 1 else 0)
    decreases |s|
  {
    var t := s[idx := value];
    var n := |s| - 1;
    if idx < n {
      assert t[..n] == s[..n][idx := value];
      UpdateZeroCount(s[..n], idx, value);
    } else {
      assert t[..n] == s[..n];
    }
  }

  /** Raising one counter raises the maximum to at least that counter, and no further. */
  lemma {:induction false} UpdateMaxValue(s: seq<Int8>, idx: nat, value: Int8)
    requires idx < |s| && value > s[idx]
    ensures MaxValue(s[idx := value]) == Max(MaxValue(s), value)
    decreases |s|
  {
    var t := s[idx := value];
    var n := |s| - 1;
    if idx < n {
      assert t[..n] == s[..n][idx := value];
      UpdateMaxValue(s[..n], idx, value);
    } else {
      assert t[..n] == s[..n];
      MaxValueIsMax(s[..n]);
    }
  }

  lemma NewlyFilledFirst(a: seq<Int8>, b: seq<Int8>)
    requires |a| == |b| && |a| > 0
    ensures NewlyFilled(a, b) == (if a[0] == 0 && b[0] > 0 then 1 else 0) + NewlyFilled(a[1..], b[1..])
    decreases |a|
  {
    var n := |a| - 1;
    if n > 0 {
      NewlyFilledFirst(a[..n], b[..n]);
      assert a[..n][1..] == a[1..][..n - 1];
      assert b[..n][1..] == b[1..][..n - 1];
    }
  }

  lemma NoneNewlyFilled(a: seq<Int8>, b: seq<Int8>)
    requires |a| == |b|
    requires forall i :: 0 <= i < |a| ==> a[i] >= b[i]
    ensures NewlyFilled(a, b) == 0
  {
    if |a| > 0 {
      NoneNewlyFilled(a[..|a| - 1], b[..|b| - 1]);
    }
  }

  /** The zeros left by a slot-wise maximum, for a non-negative left operand. */
  lemma {:induction false} MergedZeroCount(a: seq<Int8>, b: seq<Int8>)
    requires |a| == |b| && NonNegative(a)
    ensures ZeroCount(PointwiseMax(a, b)) == ZeroCount(a) - NewlyFilled(a, b)
    decreases |a|
  {
    if |a| > 0 {
      var n := |a| - 1;
      MergedZeroCount(a[..n], b[..n]);
      assert PointwiseMax(a, b)[..n] == PointwiseMax(a[..n], b[..n]);
    }
  }

  /** The maximum of a slot-wise maximum. */
  lemma {:induction false} MergedMaxValue(a: seq<Int8>, b: seq<Int8>)
    requires |a| == |b|
    ensures MaxValue(PointwiseMax(a, b)) == Max(MaxValue(a), MaxValue(b))
    decreases |a|
  {
    if |a| > 0 {
      var n := |a| - 1;
      MergedMaxValue(a[..n], b[..n]);
      assert PointwiseMax(a, b)[..n] == PointwiseMax(a[..n], b[..n]);
    }
  }
}
