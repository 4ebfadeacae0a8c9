/**
  HyperLogLog: the sketch's control logic. A sketch starts SPARSE or DENSE, feeds
  hashes to the register of its current encoding, moves from SPARSE to DENSE once
  the sparse register outgrows three quarters of `m`, and caches its estimate
  behind a dirty flag.

  The hash function, the estimator (floating point) and the calls the sketch
  makes that the repository does not define are parameters, a `Collaborators`
  value: a sparse `boolean add(long)` (this version's `HLLSparseRegister.add`
  takes an `int` and returns an `int`) and `HyperLogLogUtils.sparseToDenseRegister`.
  The sparse `getSize()` is a parameter as well; `NeverPromoted` fixes it to this
  version's.
 */
module HyperLogLog {
  import opened JavaInts
  import opened Results
  import Registers
  import DenseRegisters
  import SparseRegisters

  datatype EncodingType = Sparse | Dense

  const MIN_P_VALUE: int := 4
  const MAX_P_VALUE: int := 16

  type DenseRegister = DenseRegisters.DenseRegister
  type SparseRegister = SparseRegisters.SparseRegister

  datatype Sketch = Sketch(
    p: Int32,
    m: Int32,
    chosenHashBits: Int32,
    encoding: EncodingType,
    dense: Option<DenseRegister>,     // null while the sketch has never been DENSE
    sparse: Option<SparseRegister>,   // null for a sketch built DENSE
    cachedCount: Int64,
    invalidateCount: bool)

  /** The code the sketch calls without showing it. */
  datatype Collaborators = Collaborators(
    hashBits: Int32 -> Int32,                                      // Hashing.goodFastHash(n).bits()
    sparseAdd: (SparseRegister, Int64) -> (SparseRegister, bool),  // sparseRegister.add(hashcode)
    sparseSize: SparseRegister -> Int32,                           // sparseRegister.getSize()
    sparseToDense: SparseRegister -> DenseRegister,                // HyperLogLogUtils.sparseToDenseRegister
    estimate: Sketch -> Int64)                                     // the floating-point estimate in count()

  /** A dense register as `new HLLDenseRegister(p)` makes them: `m = 2^p` with `p <= 30`. */
  ghost predicate Shaped(d: DenseRegister) {
    d.p <= 30 && d.m == Pow2(d.p)
  }

  /** The conversion hands back a well-shaped dense register. */
  ghost predicate Lawful(env: Collaborators) {
    forall r :: Shaped(env.sparseToDense(r))
  }

  ghost predicate Valid(s: Sketch) {
    && MIN_P_VALUE <= s.p <= MAX_P_VALUE
    && s.m == Pow2(s.p)
    && (s.dense.Some? ==> Shaped(s.dense.value))
  }

  /** The register of the current encoding is there, so `add` does not dereference null. */
  ghost predicate HasRegister(s: Sketch) {
    && (s.encoding == Sparse ==> s.sparse.Some?)
    && (s.encoding == Dense ==> s.dense.Some?)
  }

  /** `numBitsHash` capped at 128 before a hash function is chosen. */
  function ClampHashBits(numBitsHash: Int32): (n: Int32)
    ensures n <= 128
    ensures n == numBitsHash || (numBitsHash > 128 && n == 128)
  {
    if numBitsHash > 128 then 128 else numBitsHash
  }

  /**
    `new HyperLogLog(p, numBitsHash, enc)`: `p` outside 4..16 is refused, and so is a
    hash width that is not positive (`Hashing.goodFastHash` requires at least one
    bit); otherwise `m = 1 << p`, no count is cached, and only the register of
    `enc` is allocated.
   */
  function New(p: Int32, numBitsHash: Int32, enc: EncodingType, env: Collaborators): (r: Result<Sketch>)
    ensures r.Err? <==> p < MIN_P_VALUE || p > MAX_P_VALUE || numBitsHash <= 0
    ensures r.Err? ==> r.error == IllegalArgument
    ensures r.Ok? ==> r.value.p == p && r.value.m == Pow2(p) && r.value.encoding == enc
    ensures r.Ok? && numBitsHash <= 128 ==> r.value.chosenHashBits == env.hashBits(numBitsHash)
    ensures r.Ok? && numBitsHash > 128 ==> r.value.chosenHashBits == env.hashBits(128)
    ensures r.Ok? ==> r.value.cachedCount == -1 && !r.value.invalidateCount
    ensures r.Ok? ==> (r.value.sparse.Some? <==> enc == Sparse) && (r.value.dense.Some? <==> enc == Dense)
    ensures r.Ok? && enc == Dense ==> r.value.dense.value == DenseRegisters.New(p)
    ensures r.Ok? && enc == Sparse ==> SparseRegisters.New(p, 25, 6) == Ok(r.value.sparse.value)
    ensures r.Ok? ==> Valid(r.value) && HasRegister(r.value)
  {
    if p < MIN_P_VALUE || p > MAX_P_VALUE then Err(IllegalArgument)
    else if ClampHashBits(numBitsHash) <= 0 then Err(IllegalArgument)
    else Ok(Fresh(p, env.hashBits(ClampHashBits(numBitsHash)), enc))
  }

  /** The sketch a valid `p` builds: `m = 2^p` and the register of `enc` only. */
  function Fresh(p: Int32, chosen: Int32, enc: EncodingType): (s: Sketch)
    requires MIN_P_VALUE <= p <= MAX_P_VALUE
    ensures s.p == p && s.m == Pow2(p) && s.encoding == enc && s.chosenHashBits == chosen
    ensures s.cachedCount == -1 && !s.invalidateCount
    ensures (s.sparse.Some? <==> enc == Sparse) && (s.dense.Some? <==> enc == Dense)
    ensures enc == Dense ==> s.dense.value == DenseRegisters.New(p)
    ensures enc == Sparse ==> SparseRegisters.New(p, 25, 6) == Ok(s.sparse.value)
    ensures Valid(s) && HasRegister(s)
  {
    Pow2Of16(p);
    if enc == Sparse then
      SparseRegisters.NewSizes(p, 25, 6);
      Sketch(p, Pow2(p), chosen, enc, None, Some(SparseRegisters.New(p, 25, 6).value), -1, false)
    else
      assert enc == Dense;
      Sketch(p, Pow2(p), chosen, enc, Some(DenseRegisters.New(p)), None, -1, false)
  }

  lemma Pow2Of16(p: nat)
    requires p <= 16
    ensures Pow2(p) <= 0x1_0000
  {
    Pow2Monotone(p, 16);
    assert Pow2(8) == 256;
    Pow2Add(8, 8);
  }

  /** `(m * 6) / 8` is three quarters of `m`, exactly, since `m` is a multiple of 4. */
  function PromotionThreshold(s: Sketch): (t: int)
    requires Valid(s)
    ensures 4 * t == 3 * s.m
  {
    Pow2Add(2, s.p - 2);
    assert Pow2(2) == 4;
    QuarterOf(s.m, Pow2(s.p - 2));
    (s.m * 6) / 8
  }

  lemma QuarterOf(m: int, k: int)
    requires m == 4 * k
    ensures 4 * ((m * 6) / 8) == 3 * m
  {
    assert m * 6 == 8 * (3 * k);
  }

  /**
    `add(hashcode)`. SPARSE: the sparse add may report an update; a sparse register
    larger than three quarters of `m` is converted, and the sketch becomes DENSE
    for good. DENSE: the dense add, whose report alone decides invalidation. The
    register of the current encoding being null makes the call fail.
   */
  function Add(s: Sketch, hash: Int64, env: Collaborators): (r: Result<Sketch>)
    requires Valid(s) && Lawful(env)
    ensures r.Err? <==> !HasRegister(s)
    ensures r.Err? ==> r.error == NullPointer
    ensures r.Ok? ==> Valid(r.value) && HasRegister(r.value)
    ensures r.Ok? ==> r.value.p == s.p && r.value.m == s.m && r.value.chosenHashBits == s.chosenHashBits
    ensures r.Ok? ==> r.value.cachedCount == s.cachedCount
    ensures r.Ok? && s.encoding == Dense ==>
      var (updated, d) := DenseRegisters.Add(s.dense.value, hash);
      && r.value.encoding == Dense
      && r.value.dense == Some(d) && r.value.sparse == s.sparse
      && (r.value.invalidateCount <==> s.invalidateCount || updated)
    ensures r.Ok? && s.encoding == Sparse ==>
      var (sr, updated) := env.sparseAdd(s.sparse.value, hash);
      var promoted := 4 * env.sparseSize(sr) > 3 * s.m;
      && r.value.sparse == Some(sr)
      && (r.value.encoding == Dense <==> promoted)
      && r.value.dense == (if promoted then Some(env.sparseToDense(sr)) else s.dense)
      && (r.value.invalidateCount <==> s.invalidateCount || updated || promoted)
  {
    if s.encoding == Sparse then
      if s.sparse.None? then Err(NullPointer)
      else
        var (sr, updated) := env.sparseAdd(s.sparse.value, hash);
        var t := s.(sparse := Some(sr), invalidateCount := s.invalidateCount || updated);
        if env.sparseSize(sr) > PromotionThreshold(s) then
          Ok(t.(encoding := Dense, dense := Some(env.sparseToDense(sr)), invalidateCount := true))
        else Ok(t)
    else
      if s.dense.None? then Err(NullPointer)
      else
        var (updated, d) := DenseRegisters.Add(s.dense.value, hash);
        Ok(s.(dense := Some(d), invalidateCount := s.invalidateCount || updated))
  }

  /** A run of `add`s, stopping at the first failure. */
  function AddAll(s: Sketch, hashes: seq<Int64>, env: Collaborators): (r: Result<Sketch>)
    requires Valid(s) && Lawful(env)
    ensures r.Ok? ==> Valid(r.value) && r.value.p == s.p && r.value.chosenHashBits == s.chosenHashBits
    decreases |hashes|
  {
    if |hashes| == 0 then Ok(s)
    else
      var t :- Add(s, hashes[0], env);
      AddAll(t, hashes[1..], env)
  }

  /**
    `count()`: the estimate is recomputed only when the flag is set or no count is
    cached yet (`cachedCount < 0`); recomputing reads the register of the current
    encoding, which throws when that register is null, and otherwise stores the
    estimate and clears the flag.
   */
  function Count(s: Sketch, env: Collaborators): (r: Result<(Sketch, Int64)>)
    ensures r.Err? <==> (s.invalidateCount || s.cachedCount < 0) && !HasRegister(s)
    ensures r.Err? ==> r.error == NullPointer
    ensures r.Ok? && !s.invalidateCount && s.cachedCount >= 0 ==> r.value == (s, s.cachedCount)
    ensures r.Ok? && (s.invalidateCount || s.cachedCount < 0) ==> r.value.1 == env.estimate(s)
    ensures r.Ok? ==> !r.value.0.invalidateCount && r.value.0.cachedCount == r.value.1
    ensures r.Ok? ==> r.value.0 == s.(cachedCount := r.value.1, invalidateCount := false)
  {
    if s.invalidateCount || s.cachedCount < 0 then
      if s.encoding == Sparse && s.sparse.None? then Err(NullPointer)
      else if s.encoding == Dense && s.dense.None? then Err(NullPointer)
      else
        var c := env.estimate(s);
        Ok((s.(cachedCount := c, invalidateCount := false), c))
    else Ok((s, s.cachedCount))
  }

  /** `setCount(count)`: stores the count but marks it stale. */
  function SetCount(s: Sketch, count: Int64): (r: Sketch)
    ensures r.cachedCount == count && r.invalidateCount
    ensures r.(cachedCount := s.cachedCount, invalidateCount := s.invalidateCount) == s
  {
    s.(cachedCount := count, invalidateCount := true)
  }

  /** `setEncoding(encoding)`: switches the encoding without converting any register. */
  function SetEncoding(s: Sketch, encoding: EncodingType): (r: Sketch)
    ensures r.encoding == encoding
    ensures r.dense == s.dense && r.sparse == s.sparse
    ensures r.(encoding := s.encoding) == s
  {
    s.(encoding := encoding)
  }

  /** Sketches with the same `p` and hash width: the only ones `merge` accepts. */
  predicate Compatible(s: Sketch, other: Sketch) {
    s.p == other.p && s.chosenHashBits == other.chosenHashBits
  }

  predicate SameLength(d: DenseRegister, e: DenseRegister) {
    |d.counters.register| == |e.counters.register|
  }

  /**
    `merge(hll)`: sketches with a different `p` or hash width are refused. The
    refusal's message calls `toString()` on both sketches, and `toString()` calls
    `count()`, which throws first when a sketch must recompute without its
    register. A present dense register takes the slot-wise maximum with the
    other's (a missing one is dereferenced, a different length is refused); the
    sparse register is not merged. Every accepted merge marks the count stale.
   */
  function Merge(s: Sketch, other: Sketch, env: Collaborators): (r: Result<Sketch>)
    requires Valid(s)
    ensures !Compatible(s, other) ==> r.Err?
    ensures !Compatible(s, other) ==>
      (r.error == NullPointer <==> Count(s, env).Err? || Count(other, env).Err?)
    ensures Compatible(s, other) && s.dense.Some? && other.dense.None? ==> r == Err(NullPointer)
    ensures Compatible(s, other) && s.dense.None? ==> r == Ok(s.(invalidateCount := true))
    ensures s.dense.Some? && other.dense.Some? ==>
      (r.Ok? <==> Compatible(s, other) && SameLength(s.dense.value, other.dense.value))
    ensures r.Err? ==> r.error in {IllegalArgument, NullPointer}
    ensures r.Ok? ==> Valid(r.value) && r.value.invalidateCount
    ensures r.Ok? ==> r.value.(dense := s.dense, invalidateCount := s.invalidateCount) == s
    ensures r.Ok? && s.dense.Some? ==>
      && r.value.dense.Some?
      && r.value.dense.value.counters.register
         == Registers.PointwiseMax(s.dense.value.counters.register, other.dense.value.counters.register)
  {
    if !Compatible(s, other) then
      if Count(s, env).Err? || Count(other, env).Err? then Err(NullPointer)
      else Err(IllegalArgument)
    else if s.dense.Some? then
      if other.dense.None? then Err(NullPointer)
      else
        var d :- DenseRegisters.Merge(s.dense.value, other.dense.value);
        Ok(s.(dense := Some(d), invalidateCount := true))
    else Ok(s.(invalidateCount := true))
  }

  /**
    `e` is `d` after `set(i, reg[i])` for every `i` of `reg`: each slot covered by
    `reg` holds the larger of the two values, the rest are as they were.
   */
  ghost predicate Raised(d: DenseRegister, reg: seq<Int8>, e: DenseRegister) {
    && e.p == d.p && e.m == d.m
    && |e.counters.register| == |d.counters.register|
    && forall j :: 0 <= j < |d.counters.register| ==>
         e.counters.register[j] == if j < |reg| then Max(d.counters.register[j], reg[j]) else d.counters.register[j]
  }

  /**
    `setRegister(reg)`: `denseRegister.set(i, reg[i])` for each `i` in turn. Values
    past the register's end are ignored by `set`; a missing dense register fails
    on the first value. The cached count is left as it was.
   */
  method SetRegister(s: Sketch, reg: seq<Int8>) returns (r: Result<Sketch>)
    requires Valid(s)
    ensures r.Err? <==> s.dense.None? && |reg| > 0
    ensures r.Err? ==> r.error == NullPointer
    ensures r.Ok? ==> Valid(r.value) && r.value.(dense := s.dense) == s
    ensures r.Ok? && s.dense.Some? ==> r.value.dense.Some? && Raised(s.dense.value, reg, r.value.dense.value)
    ensures r.Ok? && s.dense.Some? && DenseRegisters.Valid(s.dense.value) ==> DenseRegisters.Valid(r.value.dense.value)
    ensures r.Ok? && s.dense.None? ==> r.value == s
  {
    if s.dense.None? {
      if |reg| > 0 {
        return Err(NullPointer);
      }
      return Ok(s);
    }
    var d0 := s.dense.value;
    var d := d0;
    var i := 0;
    while i < |reg|
      invariant 0 <= i <= |reg|
      invariant Raised(d0, reg[..i], d)
      invariant DenseRegisters.Valid(d0) ==> DenseRegisters.Valid(d)
    {
      var step := DenseRegisters.Set(d, i, reg[i]);
      RaisedStep(d0, reg, i, d, step.value.1);
      d := step.value.1;
      i := i + 1;
    }
    assert reg[..|reg|] == reg;
    r := Ok(s.(dense := Some(d)));
  }

  /** One more `set` extends the raised prefix by one value. */
  lemma RaisedStep(d0: DenseRegister, reg: seq<Int8>, i: nat, d: DenseRegister, e: DenseRegister)
    requires i < |reg| && Raised(d0, reg[..i], d)
    requires DenseRegisters.Set(d, i, reg[i]) == Ok((DenseRegisters.Set(d, i, reg[i]).value.0, e))
    ensures Raised(d0, reg[..i + 1], e)
  {
    var a, b, c := d0.counters.register, d.counters.register, e.counters.register;
    forall j | 0 <= j < |a|
      ensures c[j] == if j < i + 1 then Max(a[j], reg[j]) else a[j]
    {
      assert b[j] == if j < i then Max(a[j], reg[j]) else a[j];
      if j == i {
        assert c[j] == Max(b[j], reg[i]);
      } else {
        assert c[j] == b[j];
      }
    }
  }

  // ---------------------------------------------------------------------------
  // Properties relating several calls

  /** Once DENSE, `add` never returns to SPARSE: only `setEncoding` does. */
  lemma {:induction false} DenseStaysDense(s: Sketch, hashes: seq<Int64>, env: Collaborators)
    requires Valid(s) && Lawful(env) && s.encoding == Dense
    ensures AddAll(s, hashes, env).Ok? ==> AddAll(s, hashes, env).value.encoding == Dense
    decreases |hashes|
  {
    if |hashes| > 0 {
      var t := Add(s, hashes[0], env);
      if t.Ok? {
        DenseStaysDense(t.value, hashes[1..], env);
      }
    }
  }

  /** A sketch whose current register is present never fails an `add`, however many. */
  lemma {:induction false} AddAllSucceeds(s: Sketch, hashes: seq<Int64>, env: Collaborators)
    requires Valid(s) && Lawful(env) && HasRegister(s)
    ensures AddAll(s, hashes, env).Ok?
    decreases |hashes|
  {
    if |hashes| > 0 {
      var t := Add(s, hashes[0], env);
      AddAllSucceeds(t.value, hashes[1..], env);
    }
  }

  /** Hence a freshly built sketch accepts every hash. */
  lemma FreshSketchAccepts(p: Int32, numBitsHash: Int32, enc: EncodingType, env: Collaborators, hashes: seq<Int64>)
    requires New(p, numBitsHash, enc, env).Ok? && Lawful(env)
    ensures AddAll(New(p, numBitsHash, enc, env).value, hashes, env).Ok?
  {
    AddAllSucceeds(New(p, numBitsHash, enc, env).value, hashes, env);
  }

  /**
    With this version's `getSize()` (four bytes per sparse-list entry) and a sparse
    add that, like this version's `add`, never advances `sparseListIdx`, the size stays 0 and
    a SPARSE sketch is never promoted.
   */
  lemma {:induction false} NeverPromoted(s: Sketch, hashes: seq<Int64>, env: Collaborators)
    requires Valid(s) && Lawful(env)
    requires forall r :: env.sparseSize(r) == SparseRegisters.GetSize(r)
    requires forall r, h :: env.sparseAdd(r, h).0.sparseListIdx == r.sparseListIdx
    requires s.encoding == Sparse && s.sparse.Some? && s.sparse.value.sparseListIdx == 0
    ensures AddAll(s, hashes, env).Ok? && AddAll(s, hashes, env).value.encoding == Sparse
    decreases |hashes|
  {
    if |hashes| > 0 {
      var sr := env.sparseAdd(s.sparse.value, hashes[0]).0;
      assert env.sparseSize(sr) == 0 by {
        assert sr.sparseListIdx == 0;
        assert SparseRegisters.GetSize(sr) == Wrap32(0);
      }
      var t := Add(s, hashes[0], env);
      NeverPromoted(t.value, hashes[1..], env);
    }
  }

  /** A count that was just computed is served from the cache next time. */
  lemma CountIsCached(s: Sketch, env: Collaborators)
    requires Count(s, env).Ok? && Count(s, env).value.1 >= 0
    ensures Count(Count(s, env).value.0, env) == Count(s, env)
  {
  }

  /**
    A negative estimate looks like the `-1` "never computed" sentinel, so it is
    recomputed on every call.
   */
  lemma NegativeCountRecomputed(s: Sketch, env: Collaborators)
    requires Count(s, env).Ok? && Count(s, env).value.1 < 0
    ensures var t := Count(s, env).value.0; Count(t, env).Ok? && Count(t, env).value.1 == env.estimate(t)
  {
  }

  /**
    After `setCount(c)` the next `count()` recomputes rather than returning `c`;
    it fails exactly when the current encoding's register is missing.
   */
  lemma SetCountRecomputes(s: Sketch, c: Int64, env: Collaborators)
    ensures Count(SetCount(s, c), env).Err? <==> !HasRegister(s)
    ensures Count(SetCount(s, c), env).Ok? ==> Count(SetCount(s, c), env).value.1 == env.estimate(SetCount(s, c))
  {
  }

  /** An `add` that changes a dense counter makes the next `count()` recompute. */
  lemma UpdateRecomputes(s: Sketch, hash: Int64, env: Collaborators)
    requires Valid(s) && Lawful(env) && s.encoding == Dense && s.dense.Some?
    requires DenseRegisters.Add(s.dense.value, hash).0
    ensures Add(s, hash, env).Ok?
    ensures var t := Add(s, hash, env).value; Count(t, env).Ok? && Count(t, env).value.1 == env.estimate(t)
  {
  }

  /**
    `setEncoding(DENSE)` on a sketch built SPARSE leaves it without a dense
    register, so its first `count()` throws.
   */
  lemma SwitchedEncodingCannotCount(p: Int32, numBitsHash: Int32, env: Collaborators)
    requires New(p, numBitsHash, Sparse, env).Ok?
    ensures Count(SetEncoding(New(p, numBitsHash, Sparse, env).value, Dense), env) == Err(NullPointer)
  {
  }

  /**
    Refusing to merge sketches of different `p` can throw `NullPointerException`
    instead of `IllegalArgumentException`: here the argument was switched to DENSE
    without a dense register, so its `toString()` fails in `count()`.
   */
  lemma RefusedMergeCanThrowNullPointer(env: Collaborators)
    ensures New(10, 64, Sparse, env).Ok? && New(11, 64, Sparse, env).Ok?
    ensures Merge(New(10, 64, Sparse, env).value, SetEncoding(New(11, 64, Sparse, env).value, Dense), env)
         == Err(NullPointer)
  {
    var s := New(10, 64, Sparse, env).value;
    var other := SetEncoding(New(11, 64, Sparse, env).value, Dense);
    assert !Compatible(s, other);
    assert Count(other, env).Err?;
  }

  /** Merging the same sketch a second time leaves the dense counters as they are. */
  lemma MergeTwice(s: Sketch, other: Sketch, env: Collaborators)
    requires Valid(s) && Merge(s, other, env).Ok?
    ensures Merge(Merge(s, other, env).value, other, env).Ok?
    ensures Merge(Merge(s, other, env).value, other, env).value.dense == Merge(s, other, env).value.dense
  {
    if s.dense.Some? {
      var d, o := s.dense.value, other.dense.value;
      Registers.MergeIdempotent(d.counters, o.counters);
    }
  }

  /** On equally long arrays, `setRegister` leaves the same counters as a merge. */
  lemma SetRegisterIsMerge(d: DenseRegister, reg: seq<Int8>, e: DenseRegister)
    requires Raised(d, reg, e) && |reg| == |d.counters.register|
    ensures e.counters.register == Registers.PointwiseMax(d.counters.register, reg)
  {
  }
}
