/**
  HLLSparseRegister: a write buffer (`tempList`) in front of a sparse list, and
  the one-bit `encodeHash` tag a hash gets on its way into the buffer.

  The class is an unfinished snapshot and is modelled as written: when the buffer
  is full, `add` sorts it, hands it to a `merge` whose body is empty, empties the
  buffer and drops the hash it was given. Nothing ever advances `sparseListIdx`,
  so `getSize()` stays 0 and `add` never refuses a hash.
 */
module SparseRegisters {
  import opened JavaInts
  import opened Results
  import Sorting

  datatype SparseRegister = SparseRegister(
    sparseList: seq<Int32>,
    tempList: seq<Int32>,
    sparseListIdx: Int32,
    tempListIdx: Int32,
    pPrime: Int32,
    qPrime: Int32,
    mask: Int32)

  /** The indices lie within their lists, the buffer is no longer than the list, the mask is a mask. */
  ghost predicate Valid(r: SparseRegister) {
    && 0 <= r.sparseListIdx <= |r.sparseList| < 0x2000_0000
    && 0 <= r.tempListIdx <= |r.tempList| <= |r.sparseList|
    && r.mask >= 0
  }

  /**
    `6 * (1 << p)` in 32-bit arithmetic: `6 * 2^p` up to `p = 28` (the shift count
    taken mod 32), negative for 29 and 30, and 0 for 31, where `1 << 31` is the
    most negative `int`.
   */
  function RegisterSize(p: Int32): (size: Int32)
    ensures p % 32 <= 28 ==> size == 6 * Pow2(p % 32)
    ensures 29 <= p % 32 <= 30 ==> size <= -0x4000_0000
    ensures p % 32 == 31 ==> size == 0
  {
    SizeCases(p);
    Wrap32(6 * IntShiftLeft(1, p))
  }

  lemma SizeCases(p: Int32)
    ensures p % 32 <= 28 ==> Wrap32(6 * IntShiftLeft(1, p)) == 6 * Pow2(p % 32)
    ensures 29 <= p % 32 <= 30 ==> Wrap32(6 * IntShiftLeft(1, p)) <= -0x4000_0000
    ensures p % 32 == 31 ==> Wrap32(6 * IntShiftLeft(1, p)) == 0
  {
    var k := p % 32;
    OneShiftedLeft(p);
    Pow2Of32();
    if k <= 28 {
      SmallSize(k);
    } else if k <= 30 {
      assert Pow2(31) == 4 * Pow2(29) && Pow2(30) == 2 * Pow2(29);
    }
  }

  lemma SmallSize(k: nat)
    requires k <= 28
    ensures 6 * Pow2(k) < TWO_31
  {
    Pow2Of32();
    Pow2Monotone(k, 28);
    assert Pow2(31) == 8 * Pow2(28);
  }

  /** `(1 << n) - 1` in 32-bit arithmetic: `n mod 32` low ones. */
  function LowMask(n: int): (mask: Int32)
    ensures mask == Pow2(n % 32) - 1
  {
    MaskCases(n);
    Wrap32(IntShiftLeft(1, n) - 1)
  }

  lemma MaskCases(n: int)
    ensures Wrap32(IntShiftLeft(1, n) - 1) == Pow2(n % 32) - 1
  {
    OneShiftedLeft(n);
    Pow2Of32();
    if n % 32 <= 30 {
      Pow2Monotone(n % 32, 30);
      assert Pow2(31) == 2 * Pow2(30);
    }
  }

  /**
    `new HLLSparseRegister(p, pp, qp)`: a list of `size / 4` entries and a buffer of
    `size / 32`, where `size = 6 * (1 << p)`, both indices 0, and the mask
    `(1 << (pp - p)) - 1`. A negative `size` makes the first allocation throw.
   */
  function New(p: Int32, pp: Int32, qp: Int32): (r: Result<SparseRegister>)
    ensures r.Ok? <==> RegisterSize(p) >= 0
    ensures r.Err? ==> r.error == NegativeArraySize
    ensures r.Ok? ==> |r.value.sparseList| == RegisterSize(p) / 4 && |r.value.tempList| == RegisterSize(p) / 32
    ensures r.Ok? ==> forall i :: 0 <= i < |r.value.sparseList| ==> r.value.sparseList[i] == 0
    ensures r.Ok? ==> forall i :: 0 <= i < |r.value.tempList| ==> r.value.tempList[i] == 0
    ensures r.Ok? ==> r.value.sparseListIdx == 0 && r.value.tempListIdx == 0
    ensures r.Ok? ==> r.value.pPrime == pp && r.value.qPrime == qp
    ensures r.Ok? ==> r.value.mask == Pow2((pp - p) % 32) - 1
    ensures r.Ok? ==> Valid(r.value)
  {
    var size := RegisterSize(p);
    var sparseLength := IntDiv(size, 4);
    if sparseLength < 0 then Err(NegativeArraySize)
    else
      var tempLength := IntDiv(size, 32);
      if tempLength < 0 then Err(NegativeArraySize)
      else
        Wrap32Mod32(pp - p);
        Ok(Allocated(size, pp, qp, LowMask(Wrap32(pp - p))))
  }

  /** The fields the constructor sets for a non-negative `size`. */
  function Allocated(size: Int32, pp: Int32, qp: Int32, mask: Int32): (r: SparseRegister)
    requires size >= 0 && mask >= 0
    ensures |r.sparseList| == size / 4 && |r.tempList| == size / 32
    ensures forall i :: 0 <= i < |r.sparseList| ==> r.sparseList[i] == 0
    ensures forall i :: 0 <= i < |r.tempList| ==> r.tempList[i] == 0
    ensures r.sparseListIdx == 0 && r.tempListIdx == 0
    ensures r.pPrime == pp && r.qPrime == qp && r.mask == mask
    ensures Valid(r)
  {
    SparseRegister(seq(size / 4, _ => 0), seq(size / 32, _ => 0), 0, 0, pp, qp, mask)
  }

  /** For `0 <= p <= 28` the register has `6 * 2^p / 4` list entries and `6 * 2^p / 32` buffer entries. */
  lemma NewSizes(p: Int32, pp: Int32, qp: Int32)
    requires 0 <= p <= 28
    ensures New(p, pp, qp).Ok?
    ensures |New(p, pp, qp).value.sparseList| == 6 * Pow2(p) / 4
    ensures |New(p, pp, qp).value.tempList| == 6 * Pow2(p) / 32
  {
    assert p % 32 == p;
    var size := RegisterSize(p);
    assert size == 6 * Pow2(p);
  }

  /** For `p = 29` and `p = 30`, `6 * (1 << p)` overflows to a negative size and the constructor throws. */
  lemma NewTooLarge(p: Int32, pp: Int32, qp: Int32)
    requires 29 <= p <= 30
    ensures New(p, pp, qp) == Err(NegativeArraySize)
  {
    assert p % 32 == p;
    var size := RegisterSize(p);
    assert size <= -0x4000_0000;
    assert IntDiv(size, 4) < 0;
  }

  /** `(hashcode >> (qPrime + 1)) & mask`: the bits `encodeHash` tests. */
  function Window(r: SparseRegister, hashcode: Int32): (x: Int32)
    requires r.mask >= 0
    ensures 0 <= x <= r.mask
  {
    IntAnd(IntShiftRight(hashcode, Wrap32(r.qPrime + 1)), r.mask)
  }

  /** `hashcode | 1`. */
  function SetLowBit(h: Int32): (e: Int32)
    ensures e / 2 == h / 2 && e % 2 == 1
  {
    if h % 2 == 1 then h else h + 1
  }

  /** `hashcode & 0xFFFFFFFE`. */
  function ClearLowBit(h: Int32): (e: Int32)
    ensures e / 2 == h / 2 && e % 2 == 0
  {
    h - h % 2
  }

  /**
    `encodeHash(hashcode)`: the hash with bit 0 set when the tested bits are all
    zero and cleared otherwise. Every other bit is kept.
   */
  function EncodeHash(r: SparseRegister, hashcode: Int32): (e: Int32)
    requires r.mask >= 0
    ensures e / 2 == hashcode / 2
    ensures e % 2 == 1 <==> Window(r, hashcode) == 0
  {
    if Window(r, hashcode) == 0 then SetLowBit(hashcode) else ClearLowBit(hashcode)
  }

  /**
    With a mask of `j` low ones, `encodeHash` tests the `j` bits of the hash from
    position `qPrime + 1` up, reading the sign bit into any that lie above bit 31.
   */
  lemma WindowBits(r: SparseRegister, hashcode: Int32, j: nat)
    requires j <= 31 && r.mask == Pow2(j) - 1
    ensures Window(r, hashcode) == (hashcode / Pow2((r.qPrime + 1) % 32)) % Pow2(j)
  {
    Wrap32Mod32(r.qPrime + 1);
    IntAndLowMask(IntShiftRight(hashcode, Wrap32(r.qPrime + 1)), j);
  }

  /**
    When the tested bits start above bit 0, the tag does not change them, so
    encoding an encoded hash changes nothing.
   */
  lemma EncodeHashIdempotent(r: SparseRegister, hashcode: Int32)
    requires r.mask >= 0 && (r.qPrime + 1) % 32 != 0
    ensures EncodeHash(r, EncodeHash(r, hashcode)) == EncodeHash(r, hashcode)
  {
    var e := EncodeHash(r, hashcode);
    var n := Wrap32(r.qPrime + 1);
    Wrap32Mod32(r.qPrime + 1);
    HighBitsAgree(e, hashcode, n % 32);
    assert Window(r, e) == Window(r, hashcode);
  }

  /** Two numbers that differ only in bit 0 agree once shifted right by at least one. */
  lemma HighBitsAgree(a: int, b: int, k: nat)
    requires a / 2 == b / 2 && k >= 1
    ensures a / Pow2(k) == b / Pow2(k)
  {
    assert Pow2(k) == 2 * Pow2(k - 1);
    DivDiv(a, 2, Pow2(k - 1));
    DivDiv(b, 2, Pow2(k - 1));
  }

  /** `Arrays.sort(tempList)`: the ascending rearrangement of the buffer. */
  function SortBuffer(s: seq<Int32>): (t: seq<Int32>)
    ensures Sorting.Sorted(t) && multiset(t) == multiset(s)
  {
    var t := Sorting.Sort(s);
    assert forall i :: 0 <= i < |t| ==> t[i] in multiset(s);
    t
  }

  /**
    `add(hashcode)`: -1 and no change when the two indices together pass the end
    of the list. Otherwise 0, after either buffering the encoded hash or, with the
    buffer full, sorting the buffer, merging it (a no-op) and emptying it, which
    drops the hash. The list and its index are never touched.
   */
  function Add(r: SparseRegister, hashcode: Int32): (res: (SparseRegister, Int32))
    requires Valid(r)
    ensures res.1 == -1 <==> r.sparseListIdx + r.tempListIdx > |r.sparseList|
    ensures res.1 == -1 || res.1 == 0
    ensures res.1 == -1 ==> res.0 == r
    ensures res.1 == 0 && r.tempListIdx < |r.tempList| ==>
      && res.0.tempListIdx == r.tempListIdx + 1
      && res.0.tempList == r.tempList[r.tempListIdx := EncodeHash(r, hashcode)]
    ensures res.1 == 0 && r.tempListIdx == |r.tempList| ==>
      && res.0.tempListIdx == 0
      && Sorting.Sorted(res.0.tempList)
      && multiset(res.0.tempList) == multiset(r.tempList)
    ensures res.0.sparseList == r.sparseList && res.0.sparseListIdx == r.sparseListIdx
    ensures res.0.pPrime == r.pPrime && res.0.qPrime == r.qPrime && res.0.mask == r.mask
    ensures Valid(res.0)
  {
    if r.sparseListIdx + r.tempListIdx > |r.sparseList| then (r, -1)
    else if r.tempListIdx < |r.tempList| then
      var buffered := r.tempList[r.tempListIdx := EncodeHash(r, hashcode)];
      (r.(tempList := buffered, tempListIdx := r.tempListIdx + 1), 0)
    else
      (r.(tempList := SortBuffer(r.tempList), tempListIdx := 0), 0)
  }

  /** `getSize()`: four bytes per entry of the sparse list. */
  function GetSize(r: SparseRegister): (size: Int32)
    ensures Valid(r) ==> size == 4 * r.sparseListIdx
  {
    Wrap32(4 * r.sparseListIdx)
  }

  /** A run of `add`s: the register afterwards and each call's return value. */
  function AddAll(r: SparseRegister, hashes: seq<Int32>): (res: (SparseRegister, seq<Int32>))
    decreases |hashes|
    requires Valid(r)
    ensures |res.1| == |hashes|
    ensures Valid(res.0) && res.0.sparseListIdx == r.sparseListIdx
  {
    if |hashes| == 0 then (r, [])
    else
      var (next, code) := Add(r, hashes[0]);
      var (last, codes) := AddAll(next, hashes[1..]);
      (last, [code] + codes)
  }

  /** With an empty list, `add` always finds room: it returns 0 and the list stays empty. */
  lemma {:induction false} AddAllAccepted(r: SparseRegister, hashes: seq<Int32>)
    decreases |hashes|
    requires Valid(r) && r.sparseListIdx == 0
    ensures forall i :: 0 <= i < |hashes| ==> AddAll(r, hashes).1[i] == 0
    ensures GetSize(AddAll(r, hashes).0) == 0
  {
    if |hashes| > 0 {
      var (next, code) := Add(r, hashes[0]);
      AddAllAccepted(next, hashes[1..]);
    }
  }

  /** From construction on, every `add` returns 0 and `getSize()` stays 0. */
  lemma FreshRegisterAccepts(p: Int32, pp: Int32, qp: Int32, hashes: seq<Int32>)
    requires New(p, pp, qp).Ok?
    ensures forall i :: 0 <= i < |hashes| ==> AddAll(New(p, pp, qp).value, hashes).1[i] == 0
    ensures GetSize(AddAll(New(p, pp, qp).value, hashes).0) == 0
  {
    AddAllAccepted(New(p, pp, qp).value, hashes);
  }
}
