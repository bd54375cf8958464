/** The packed bitmap: bits in an array of 64-bit elements, seen from outside as
    a sequence of booleans. */
module Bitmaps {
  import opened Words

  const ELEM_BITS: nat := 64
  const BITMAP_ERROR: nat := 0xFFFF_FFFF

  type Shift = k: nat | k < ELEM_BITS

  function ElemCnt(bitCnt: nat): nat {
    (bitCnt + ELEM_BITS - 1) / ELEM_BITS
  }

  /** Bytes a bitmap of bitCnt bits takes in a file. */
  function FileSize(bitCnt: nat): nat {
    8 * ElemCnt(bitCnt)
  }

  // ----- One element -----

  /** bits & (1 << i) != 0 */
  predicate TestAt(w: bv64, i: bv6) {
    w & ((1 as bv64) << i) != 0
  }

  function MarkAt(w: bv64, i: bv6): bv64 {
    w | ((1 as bv64) << i)
  }

  function ResetAt(w: bv64, i: bv6): bv64 {
    w & !((1 as bv64) << i)
  }

  function FlipAt(w: bv64, i: bv6): bv64 {
    w ^ ((1 as bv64) << i)
  }

  lemma MarkTouchesOneBit(w: bv64, i: bv6, j: bv6)
    ensures TestAt(MarkAt(w, i), j) <==> i == j || TestAt(w, j)
  {
    if i != j {
      assert ((1 as bv64) << i) & ((1 as bv64) << j) == 0;
      assert MarkAt(w, i) & ((1 as bv64) << j) == w & ((1 as bv64) << j);
    }
  }

  lemma ResetTouchesOneBit(w: bv64, i: bv6, j: bv6)
    ensures TestAt(ResetAt(w, i), j) <==> i != j && TestAt(w, j)
  {
    if i != j {
      assert ((1 as bv64) << i) & ((1 as bv64) << j) == 0;
      assert ResetAt(w, i) & ((1 as bv64) << j) == w & ((1 as bv64) << j);
    }
  }

  lemma FlipTouchesOneBit(w: bv64, i: bv6, j: bv6)
    ensures TestAt(FlipAt(w, i), j) <==> ((i == j) != TestAt(w, j))
  {
    if i != j {
      assert ((1 as bv64) << i) & ((1 as bv64) << j) == 0;
      assert FlipAt(w, i) & ((1 as bv64) << j) == w & ((1 as bv64) << j);
    }
  }

  lemma ShiftIsExact(i: Shift)
    ensures (i as bv6) as int == i
  {
  }

  predicate TestBit(w: bv64, k: Shift) {
    TestAt(w, k as bv6)
  }

  /** Marking, resetting and flipping touch only the named bit. */
  lemma BitOps(w: bv64, i: Shift, j: Shift)
    ensures TestBit(MarkAt(w, i as bv6), j) <==> i == j || TestBit(w, j)
    ensures TestBit(ResetAt(w, i as bv6), j) <==> i != j && TestBit(w, j)
    ensures TestBit(FlipAt(w, i as bv6), j) <==> ((i == j) != TestBit(w, j))
  {
    hide TestAt, MarkAt, ResetAt, FlipAt;
    ShiftIsExact(i);
    ShiftIsExact(j);
    MarkTouchesOneBit(w, i as bv6, j as bv6);
    ResetTouchesOneBit(w, i as bv6, j as bv6);
    FlipTouchesOneBit(w, i as bv6, j as bv6);
  }

  // ----- The whole bitmap as a sequence of booleans -----

  /** The elements spell exactly the bits, and every bit past the end is zero. */
  ghost predicate Spells(elems: seq<bv64>, bits: seq<bool>) {
    && |elems| == ElemCnt(|bits|)
    && forall i :: 0 <= i < ELEM_BITS * |elems| ==>
         (TestBit(elems[i / ELEM_BITS], i % ELEM_BITS) <==> i < |bits| && bits[i])
  }

  /** Replacing one element by one that differs in one bit changes one bit. */
  lemma SpellsAfter(elems: seq<bv64>, bits: seq<bool>, i: nat, w: bv64, value: bool)
    requires Spells(elems, bits) && i < |bits|
    requires forall k: Shift ::
               TestBit(w, k) <==> if k == i % ELEM_BITS then value else TestBit(elems[i / ELEM_BITS], k)
    ensures Spells(elems[i / ELEM_BITS := w], bits[i := value])
  {
    hide TestBit;
    var elems', bits' := elems[i / ELEM_BITS := w], bits[i := value];
    forall j | 0 <= j < ELEM_BITS * |elems'|
      ensures TestBit(elems'[j / ELEM_BITS], j % ELEM_BITS) <==> j < |bits'| && bits'[j]
    {
      assert j == i <==> j / ELEM_BITS == i / ELEM_BITS && j % ELEM_BITS == i % ELEM_BITS;
    }
  }

  /** Bits [start, start + cnt) set to value, the others kept. */
  function SetRange(bits: seq<bool>, start: nat, cnt: nat, value: bool): (r: seq<bool>)
    requires start + cnt <= |bits|
    ensures |r| == |bits|
    ensures forall i :: 0 <= i < |bits| ==> r[i] == if start <= i < start + cnt then value else bits[i]
  {
    seq(|bits|, i requires 0 <= i < |bits| => if start <= i < start + cnt then value else bits[i])
  }

  /** All of bits [start, start + cnt) have the given value. */
  ghost predicate RunOf(bits: seq<bool>, start: nat, cnt: nat, value: bool) {
    start + cnt <= |bits| && forall i :: start <= i < start + cnt ==> bits[i] == value
  }

  function CountFrom(bits: seq<bool>, start: nat, cnt: nat, value: bool): (n: nat)
    requires start + cnt <= |bits|
    ensures n <= cnt
  {
    if cnt == 0 then 0
    else CountFrom(bits, start, cnt - 1, value) + if bits[start + cnt - 1] == value then 1 else 0
  }

  /** A count is the number of positions in the range that have the value. */
  lemma {:induction false} CountIsCardinality(bits: seq<bool>, start: nat, cnt: nat, value: bool)
    requires start + cnt <= |bits|
    ensures CountFrom(bits, start, cnt, value) == |Positions(bits, start, cnt, value)|
  {
    if cnt == 0 {
      assert Positions(bits, start, cnt, value) == {};
    } else {
      CountIsCardinality(bits, start, cnt - 1, value);
      var last, rest := start + cnt - 1, Positions(bits, start, cnt - 1, value);
      assert Positions(bits, start, cnt, value) == if bits[last] == value then rest + {last} else rest;
    }
  }

  ghost function Positions(bits: seq<bool>, start: nat, cnt: nat, value: bool): set<nat>
    requires start + cnt <= |bits|
  {
    set i: nat | start <= i < start + cnt && bits[i] == value
  }

  /** Flipping a run changes the number of bits with its value by its length: of
      the first n bits, those of the run that lie below n are gone. */
  lemma {:induction false} FlippedCount(bits: seq<bool>, start: nat, cnt: nat, value: bool, n: nat)
    requires RunOf(bits, start, cnt, value) && n <= |bits|
    ensures CountFrom(SetRange(bits, start, cnt, !value), 0, n, value) + RunBelow(start, cnt, n)
         == CountFrom(bits, 0, n, value)
  {
    if n > 0 {
      FlippedCount(bits, start, cnt, value, n - 1);
    }
  }

  function RunBelow(start: nat, cnt: nat, n: nat): nat {
    if n <= start then 0 else if n < start + cnt then n - start else cnt
  }

  /** The free sectors at or above `from`, in increasing order. */
  function FreeFrom(bits: seq<bool>, from: nat): (free: seq<nat>)
    requires from <= |bits|
    ensures |free| <= |bits| - from
    decreases |bits| - from
  {
    if from == |bits| then []
    else (if bits[from] then [] else [from]) + FreeFrom(bits, from + 1)
  }

  /** The free list: what a first-fit allocator hands out, one sector at a time. */
  function FreeList(bits: seq<bool>): seq<nat> {
    FreeFrom(bits, 0)
  }

  // ----- The bitmap as file bytes -----

  function ElemByte8(w: bv64, k: nat): bv8
    requires k < 8
  {
    if k == 0 then (w & 0xFF) as bv8
    else if k == 1 then ((w >> 8) & 0xFF) as bv8
    else if k == 2 then ((w >> 16) & 0xFF) as bv8
    else if k == 3 then ((w >> 24) & 0xFF) as bv8
    else if k == 4 then ((w >> 32) & 0xFF) as bv8
    else if k == 5 then ((w >> 40) & 0xFF) as bv8
    else if k == 6 then ((w >> 48) & 0xFF) as bv8
    else ((w >> 56) & 0xFF) as bv8
  }

  function Join8(a: bv8, b: bv8, c: bv8, d: bv8, e: bv8, f: bv8, g: bv8, h: bv8): bv64 {
    (a as bv64) | ((b as bv64) << 8) | ((c as bv64) << 16) | ((d as bv64) << 24)
    | ((e as bv64) << 32) | ((f as bv64) << 40) | ((g as bv64) << 48) | ((h as bv64) << 56)
  }

  lemma JoinElemBytes(w: bv64)
    ensures Join8(ElemByte8(w, 0), ElemByte8(w, 1), ElemByte8(w, 2), ElemByte8(w, 3),
                  ElemByte8(w, 4), ElemByte8(w, 5), ElemByte8(w, 6), ElemByte8(w, 7)) == w
  {
  }

  function ElemByte(w: bv64, k: nat): byte
    requires k < 8
  {
    ElemByte8(w, k) as int
  }

  function Byte8(b: byte): bv8 {
    b as bv8
  }

  /** The element stored in eight bytes, least significant first. */
  function ElemAt(s: seq<byte>, at: nat): bv64
    requires at + 8 <= |s|
  {
    Join8(Byte8(s[at]), Byte8(s[at + 1]), Byte8(s[at + 2]), Byte8(s[at + 3]),
          Byte8(s[at + 4]), Byte8(s[at + 5]), Byte8(s[at + 6]), Byte8(s[at + 7]))
  }

  /** What a bitmap looks like in a file. */
  function Image(elems: seq<bv64>): (s: seq<byte>)
    ensures |s| == 8 * |elems|
  {
    seq(8 * |elems|, i requires 0 <= i < 8 * |elems| => ElemByte(elems[i / 8], i % 8))
  }

  lemma ByteIsExact(x: bv8)
    ensures (x as int) as bv8 == x
  {
  }

  lemma ElemByteIsExact(w: bv64, k: nat)
    requires k < 8
    ensures Byte8(ElemByte(w, k)) == ElemByte8(w, k)
  {
    hide ElemByte8;
    ByteIsExact(ElemByte8(w, k));
  }

  lemma ImageByte(elems: seq<bv64>, i: nat, k: nat)
    requires i < |elems| && k < 8
    ensures Byte8(Image(elems)[8 * i + k]) == ElemByte8(elems[i], k)
  {
    hide ElemByte8, ElemByte, Byte8;
    ElemByteIsExact(elems[i], k);
    assert (8 * i + k) / 8 == i && (8 * i + k) % 8 == k;
  }

  /** Elements are stored with the least significant byte first. */
  lemma ImageIsLittleEndian(elems: seq<bv64>, i: nat)
    requires i < |elems|
    ensures var s, w := Image(elems), elems[i];
            && Byte8(s[8 * i]) == (w & 0xFF) as bv8 && Byte8(s[8 * i + 1]) == ((w >> 8) & 0xFF) as bv8
            && Byte8(s[8 * i + 2]) == ((w >> 16) & 0xFF) as bv8 && Byte8(s[8 * i + 3]) == ((w >> 24) & 0xFF) as bv8
            && Byte8(s[8 * i + 4]) == ((w >> 32) & 0xFF) as bv8 && Byte8(s[8 * i + 5]) == ((w >> 40) & 0xFF) as bv8
            && Byte8(s[8 * i + 6]) == ((w >> 48) & 0xFF) as bv8 && Byte8(s[8 * i + 7]) == ((w >> 56) & 0xFF) as bv8
  {
    hide Image, Byte8;
    ImageByte(elems, i, 0);
    ImageByte(elems, i, 1);
    ImageByte(elems, i, 2);
    ImageByte(elems, i, 3);
    ImageByte(elems, i, 4);
    ImageByte(elems, i, 5);
    ImageByte(elems, i, 6);
    ImageByte(elems, i, 7);
  }

  /** Writing elements to bytes and reading them back is the identity. */
  lemma ElemAtImage(elems: seq<bv64>, i: nat)
    requires i < |elems|
    ensures ElemAt(Image(elems), 8 * i) == elems[i]
  {
    hide ElemByte8, Join8, Image, Byte8;
    ImageByte(elems, i, 0);
    ImageByte(elems, i, 1);
    ImageByte(elems, i, 2);
    ImageByte(elems, i, 3);
    ImageByte(elems, i, 4);
    ImageByte(elems, i, 5);
    ImageByte(elems, i, 6);
    ImageByte(elems, i, 7);
    JoinElemBytes(elems[i]);
  }

  function AndLow(w: bv64, n: bv6): bv64 {
    w & (((1 as bv64) << n) - 1)
  }

  /** The last element with only the bits in use: the mask is all ones when the
      bitmap fills the element. */
  function MaskLast(w: bv64, bitCnt: nat): bv64 {
    if bitCnt % ELEM_BITS == 0 then w else AndLow(w, (bitCnt % ELEM_BITS) as bv6)
  }

  lemma AndLowKeepsLow(w: bv64, n: bv6, k: bv6)
    requires k < n
    ensures TestAt(AndLow(w, n), k) <==> TestAt(w, k)
  {
    assert (((1 as bv64) << n) - 1) & ((1 as bv64) << k) == (1 as bv64) << k;
    assert (w & (((1 as bv64) << n) - 1)) & ((1 as bv64) << k) == w & ((1 as bv64) << k);
  }

  lemma AndLowClearsHigh(w: bv64, n: bv6, k: bv6)
    requires k >= n
    ensures !TestAt(AndLow(w, n), k)
  {
    assert (((1 as bv64) << n) - 1) & ((1 as bv64) << k) == 0;
    assert (w & (((1 as bv64) << n) - 1)) & ((1 as bv64) << k) == 0;
  }

  lemma ShiftOrder(i: Shift, j: Shift)
    ensures (i as bv6) < (j as bv6) <==> i < j
  {
    ShiftIsExact(i);
    ShiftIsExact(j);
  }

  /** Masking the last element clears exactly the bits past the end. */
  lemma MaskLastBits(w: bv64, bitCnt: nat, k: Shift)
    ensures TestBit(MaskLast(w, bitCnt), k) <==> TestBit(w, k) && (bitCnt % ELEM_BITS == 0 || k < bitCnt % ELEM_BITS)
  {
    hide TestAt, AndLow;
    var n := bitCnt % ELEM_BITS;
    ShiftOrder(k, n);
    if 0 < n <= k {
      AndLowClearsHigh(w, n as bv6, k as bv6);
    } else if 0 < n {
      AndLowKeepsLow(w, n as bv6, k as bv6);
    }
  }

  /** The bits that a file's bytes spell. */
  function BitsOf(s: seq<byte>, bitCnt: nat): (bits: seq<bool>)
    requires |s| == FileSize(bitCnt)
    ensures |bits| == bitCnt
  {
    seq(bitCnt, i requires 0 <= i < bitCnt => TestBit(ElemAt(s, 8 * (i / ELEM_BITS)), i % ELEM_BITS))
  }

  /** Writing a bitmap to a file and reading the file back yields the same bits. */
  lemma BitsOfImage(elems: seq<bv64>, bits: seq<bool>)
    requires Spells(elems, bits)
    ensures |Image(elems)| == FileSize(|bits|) && BitsOf(Image(elems), |bits|) == bits
  {
    hide TestBit, Image, ElemAt;
    forall i | 0 <= i < |bits|
      ensures BitsOf(Image(elems), |bits|)[i] == bits[i]
    {
      ElemAtImage(elems, i / ELEM_BITS);
    }
  }

  // ----- First fit -----

  /** Taking the first free sector leaves the rest of the free list. */
  lemma {:induction false} FreeFromTakesHead(bits: seq<bool>, from: nat, x: nat)
    requires from <= x < |bits| && !bits[x]
    requires forall i :: from <= i < x ==> bits[i]
    ensures FreeFrom(bits, from) == [x] + FreeFrom(bits[x := true], from)
    decreases x - from
  {
    if from < x {
      FreeFromTakesHead(bits, from + 1, x);
    } else {
      FreeFromAgree(bits, bits[x := true], from + 1);
    }
  }

  lemma {:induction false} FreeFromAgree(bits: seq<bool>, other: seq<bool>, from: nat)
    requires from <= |bits| == |other|
    requires forall i :: from <= i < |bits| ==> bits[i] == other[i]
    ensures FreeFrom(bits, from) == FreeFrom(other, from)
    decreases |bits| - from
  {
    if from < |bits| {
      FreeFromAgree(bits, other, from + 1);
    }
  }

  lemma {:induction false} FreeFromEmpty(bits: seq<bool>, from: nat)
    requires from <= |bits| && forall i :: from <= i < |bits| ==> bits[i]
    ensures FreeFrom(bits, from) == []
    decreases |bits| - from
  {
    if from < |bits| {
      FreeFromEmpty(bits, from + 1);
    }
  }

  /** x is the least clear bit. */
  ghost predicate FirstFree(bits: seq<bool>, x: nat) {
    x < |bits| && !bits[x] && forall i :: 0 <= i < x ==> bits[i]
  }

  lemma {:induction false} FreeFromHead(bits: seq<bool>, from: nat)
    requires from <= |bits| && FreeFrom(bits, from) != []
    ensures var x := FreeFrom(bits, from)[0]; from <= x < |bits| && !bits[x] && forall i :: from <= i < x ==> bits[i]
    decreases |bits| - from
  {
    if bits[from] {
      FreeFromHead(bits, from + 1);
    }
  }

  lemma FreeListHead(bits: seq<bool>)
    requires FreeList(bits) != []
    ensures FirstFree(bits, FreeList(bits)[0])
  {
    FreeFromHead(bits, 0);
  }

  /** Scanning for a run of one clear bit finds the least clear bit, if there is one. */
  lemma FirstRunIsFirstFree(bits: seq<bool>, idx: nat)
    requires |bits| < BITMAP_ERROR
    requires idx != BITMAP_ERROR ==> RunOf(bits, idx, 1, false)
    requires forall i :: 0 <= i < idx ==> !RunOf(bits, i, 1, false)
    ensures idx != BITMAP_ERROR <==> FreeList(bits) != []
    ensures idx != BITMAP_ERROR ==> FirstFree(bits, idx) && SetRange(bits, idx, 1, true) == bits[idx := true]
  {
    hide FreeFrom;
    assert forall i :: 0 <= i < |bits| && !bits[i] ==> RunOf(bits, i, 1, false);
    if FreeList(bits) != [] {
      FreeListHead(bits);
      assert RunOf(bits, FreeList(bits)[0], 1, false);
    } else if idx != BITMAP_ERROR {
      FreeFromTakesHead(bits, 0, idx);
    }
  }

  /** The number of clear bits is the length of the free list. */
  lemma {:induction false} CountIsFreeList(bits: seq<bool>, from: nat)
    requires from <= |bits|
    ensures CountFrom(bits, 0, from, false) + |FreeFrom(bits, from)| == |FreeList(bits)|
  {
    if from > 0 {
      CountIsFreeList(bits, from - 1);
    }
  }

  class Bitmap {
    const bitCnt: nat
    const elems: array<bv64>
    ghost var bits: seq<bool>

    ghost predicate Valid()
      reads this, elems
    {
      bitCnt == |bits| < BITMAP_ERROR && Spells(elems[..], bits)
    }

    constructor (bitCnt: nat)
      requires bitCnt < BITMAP_ERROR
      ensures Valid() && fresh(elems)
      ensures this.bitCnt == bitCnt && bits == seq(bitCnt, _ => false)
    {
      this.bitCnt := bitCnt;
      elems := new bv64[ElemCnt(bitCnt)](_ => 0);
      bits := seq(bitCnt, _ => false);
      new;
      assert forall k: Shift :: !TestBit(0, k);
    }

    method Put(i: nat, w: bv64, ghost value: bool)
      requires Valid() && i < bitCnt
      requires forall k: Shift ::
                 TestBit(w, k) <==> if k == i % ELEM_BITS then value else TestBit(elems[i / ELEM_BITS], k)
      modifies `bits, elems
      ensures Valid() && bits == old(bits)[i := value]
    {
      hide TestBit;
      ghost var was := elems[..];
      SpellsAfter(was, bits, i, w, value);
      elems[i / ELEM_BITS] := w;
      bits := bits[i := value];
      assert elems[..] == was[i / ELEM_BITS := w];
    }

    method Mark(i: nat)
      requires Valid() && i < bitCnt
      modifies `bits, elems
      ensures Valid() && bits == old(bits)[i := true]
    {
      hide TestBit, MarkAt;
      var w := elems[i / ELEM_BITS];
      forall k: Shift {
        BitOps(w, i % ELEM_BITS, k);
      }
      Put(i, MarkAt(w, (i % ELEM_BITS) as bv6), true);
    }

    method Reset(i: nat)
      requires Valid() && i < bitCnt
      modifies `bits, elems
      ensures Valid() && bits == old(bits)[i := false]
    {
      hide TestBit, ResetAt;
      var w := elems[i / ELEM_BITS];
      forall k: Shift {
        BitOps(w, i % ELEM_BITS, k);
      }
      Put(i, ResetAt(w, (i % ELEM_BITS) as bv6), false);
    }

    method Flip(i: nat)
      requires Valid() && i < bitCnt
      modifies `bits, elems
      ensures Valid() && bits == old(bits)[i := !old(bits)[i]]
    {
      hide TestBit, FlipAt;
      var w := elems[i / ELEM_BITS];
      ghost var value := !bits[i];
      assert TestBit(elems[..][i / ELEM_BITS], i % ELEM_BITS) == bits[i];
      forall k: Shift
        ensures TestBit(FlipAt(w, (i % ELEM_BITS) as bv6), k) <==> if k == i % ELEM_BITS then value else TestBit(w, k)
      {
        BitOps(w, i % ELEM_BITS, k);
      }
      Put(i, FlipAt(w, (i % ELEM_BITS) as bv6), value);
    }

    method Set(i: nat, value: bool)
      requires Valid() && i < bitCnt
      modifies `bits, elems
      ensures Valid() && bits == old(bits)[i := value]
    {
      if value {
        Mark(i);
      } else {
        Reset(i);
      }
    }

    method Test(i: nat) returns (value: bool)
      requires Valid() && i < bitCnt
      ensures value == bits[i]
    {
      hide TestBit, TestAt;
      assert elems[..][i / ELEM_BITS] == elems[i / ELEM_BITS];
      value := TestBit(elems[i / ELEM_BITS], i % ELEM_BITS);
    }

    method SetMultiple(start: nat, cnt: nat, value: bool)
      requires Valid() && start + cnt <= bitCnt
      modifies `bits, elems
      ensures Valid() && bits == SetRange(old(bits), start, cnt, value)
    {
      hide Spells;
      for i := 0 to cnt
        invariant Valid() && bits == SetRange(old(bits), start, i, value)
      {
        Set(start + i, value);
      }
    }

    method Count(start: nat, cnt: nat, value: bool) returns (n: nat)
      requires Valid() && start + cnt <= bitCnt
      ensures n == CountFrom(bits, start, cnt, value) == |Positions(bits, start, cnt, value)|
    {
      hide Spells;
      CountIsCardinality(bits, start, cnt, value);
      n := 0;
      for i := 0 to cnt
        invariant n == CountFrom(bits, start, i, value)
      {
        var b := Test(start + i);
        if b == value {
          n := n + 1;
        }
      }
    }

    method Contains(start: nat, cnt: nat, value: bool) returns (found: bool)
      requires Valid() && start + cnt <= bitCnt
      ensures found <==> !RunOf(bits, start, cnt, !value)
    {
      hide Spells;
      for i := 0 to cnt
        invariant RunOf(bits, start, i, !value)
      {
        var b := Test(start + i);
        if b == value {
          return true;
        }
      }
      return false;
    }

    /** The least start of a run of cnt bits with the given value, at or after
        `start`; BITMAP_ERROR exactly when there is none. */
    method Scan(start: nat, cnt: nat, value: bool) returns (idx: nat)
      requires Valid() && start <= bitCnt
      ensures idx != BITMAP_ERROR ==> start <= idx && RunOf(bits, idx, cnt, value)
      ensures cnt == 0 ==> idx == start
      ensures forall i :: start <= i < idx ==> !RunOf(bits, i, cnt, value)
    {
      hide Spells;
      if cnt <= bitCnt {
        var last := bitCnt - cnt;
        var i := start;
        while i <= last
          invariant start <= i && (cnt == 0 ==> i == start)
          invariant forall j :: start <= j < i ==> !RunOf(bits, j, cnt, value)
        {
          var other := Contains(i, cnt, !value);
          if !other {
            return i;
          }
          i := i + 1;
        }
      }
      return BITMAP_ERROR;
    }

    /** First fit: finds the least such run and flips exactly that run. */
    method ScanAndFlip(start: nat, cnt: nat, value: bool) returns (idx: nat)
      requires Valid() && start <= bitCnt
      modifies `bits, elems
      ensures Valid()
      ensures idx == BITMAP_ERROR ==> bits == old(bits)
      ensures cnt == 0 ==> idx == start && bits == old(bits)
      ensures idx != BITMAP_ERROR ==> start <= idx && RunOf(old(bits), idx, cnt, value)
      ensures idx != BITMAP_ERROR ==> bits == SetRange(old(bits), idx, cnt, !value)
      ensures idx != BITMAP_ERROR ==> CountFrom(bits, 0, bitCnt, value) == CountFrom(old(bits), 0, bitCnt, value) - cnt
      ensures forall i :: start <= i < idx ==> !RunOf(old(bits), i, cnt, value)
    {
      hide Spells;
      idx := Scan(start, cnt, value);
      if idx != BITMAP_ERROR {
        FlippedCount(bits, idx, cnt, value, bitCnt);
        SetMultiple(idx, cnt, !value);
      }
    }

    /** The bytes that bitmap_write hands to the file layer. */
    method Dump() returns (s: seq<byte>)
      requires Valid()
      ensures s == Image(elems[..]) && |s| == FileSize(bitCnt)
      ensures BitsOf(s, bitCnt) == bits
    {
      hide Image, BitsOf;
      BitsOfImage(elems[..], bits);
      s := Image(elems[..]);
    }

    /** Takes the bitmap over from file bytes, as bitmap_read does. */
    method Load(s: seq<byte>)
      requires Valid() && |s| == FileSize(bitCnt)
      modifies `bits, elems
      ensures Valid() && bits == BitsOf(s, bitCnt)
    {
      hide ElemAt, TestBit, MaskLast;
      for i := 0 to elems.Length
        invariant forall j :: 0 <= j < i ==> elems[j] == ElemAt(s, 8 * j)
      {
        elems[i] := ElemAt(s, 8 * i);
      }
      if bitCnt > 0 {
        var last := elems.Length - 1;
        var w := elems[last];
        forall k: Shift {
          MaskLastBits(w, bitCnt, k);
        }
        elems[last] := MaskLast(w, bitCnt);
      }
      bits := BitsOf(s, bitCnt);
    }
  }
}
