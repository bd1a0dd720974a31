/** The word-packed bitmap (lib/kernel/bitmap.c): an array of 32-bit elements
    that simulates a sequence of bits.  Every operation is stated on that
    sequence, and the searches on the runs of BitRuns. */
module Bitmaps {
  import opened BitOps
  import opened BitRuns
  import opened Options

  type ElemType = w: bv32 | true

  const ELEM_BITS := 32

  function ElemIdx(bitIdx: nat): nat { bitIdx / ELEM_BITS }

  function Shift(k: nat): (x: bv32)
    requires k < ELEM_BITS
    ensures x as int == k && x < 32
  {
    k as bv32
  }

  function Mask(k: nat): bv32
    requires k < ELEM_BITS
  {
    (1 as bv32) << Shift(k)
  }

  function ElemCnt(bitCnt: nat): nat { (bitCnt + ELEM_BITS - 1) / ELEM_BITS }

  predicate HasBit(w: bv32, k: nat)
    requires k < ELEM_BITS
  {
    Meets(w, Mask(k))
  }

  /** What the instructions or, and-not and xor leave in an element. */
  datatype Op = Or | AndNot | Xor

  function Apply(op: Op, w: bv32, mask: bv32): bv32 {
    match op
    case Or => BitOr(w, mask)
    case AndNot => BitAnd(w, BitNot(mask))
    case Xor => BitXor(w, mask)
  }

  function Outcome(op: Op, bit: bool): bool {
    match op
    case Or => true
    case AndNot => false
    case Xor => !bit
  }

  /** The bit numbered K, as the words hold it. */
  predicate Bit(words: seq<bv32>, k: nat)
    requires ElemIdx(k) < |words|
  {
    HasBit(words[ElemIdx(k)], k % ELEM_BITS)
  }

  /** The words, from the outside. */
  ghost function View(words: seq<bv32>, cnt: nat): (v: seq<bool>)
    requires |words| == ElemCnt(cnt)
    ensures |v| == cnt
    ensures forall k :: 0 <= k < cnt ==> v[k] == Bit(words, k)
  {
    seq(cnt, k requires 0 <= k < cnt => Bit(words, k))
  }

  /** A mask has one bit, and no two masks share it. */
  lemma OneBit(i: nat, j: nat)
    requires i < ELEM_BITS && j < ELEM_BITS
    ensures i != j ==> !Meets(Mask(i), Mask(j))
  {
    hide Shift;
  }

  lemma OtherBits(op: Op, w: bv32, i: nat, j: nat)
    requires i < ELEM_BITS && j < ELEM_BITS && i != j
    ensures HasBit(Apply(op, w, Mask(i)), j) == HasBit(w, j)
  {
    hide Mask, BitAnd, BitOr, BitXor, BitNot;
    OneBit(i, j);
    match op
    case Or => OrMasked(w, Mask(i), Mask(j));
    case AndNot => AndNotMasked(w, Mask(i), Mask(j));
    case Xor => XorMasked(w, Mask(i), Mask(j));
  }

  lemma OwnOps(w: bv32, x: bv32)
    requires x < 32
    ensures var m := (1 as bv32) << x;
            && BitAnd(BitOr(w, m), m) == m && BitAnd(BitAnd(w, BitNot(m)), m) == 0 && m != 0
  {
  }

  lemma OwnXor(w: bv32, x: bv32)
    requires x < 32
    ensures var m := (1 as bv32) << x; (BitAnd(BitXor(w, m), m) != 0 <==> BitAnd(w, m) == 0)
  {
  }

  lemma OwnBit(op: Op, w: bv32, i: nat)
    requires i < ELEM_BITS
    ensures HasBit(Apply(op, w, Mask(i)), i) == Outcome(op, HasBit(w, i))
  {
    hide Shift, BitAnd, BitOr, BitXor, BitNot;
    OwnOps(w, Shift(i));
    OwnXor(w, Shift(i));
  }

  /** An instruction on the word of bit I changes that bit of the view alone. */
  lemma ViewUpdate(op: Op, words: seq<bv32>, cnt: nat, i: nat)
    requires |words| == ElemCnt(cnt) && i < cnt
    ensures View(words[ElemIdx(i) := Apply(op, words[ElemIdx(i)], Mask(i % ELEM_BITS))], cnt)
            == View(words, cnt)[i := Outcome(op, Bit(words, i))]
  {
    hide Apply, Outcome, HasBit;
    var words' := words[ElemIdx(i) := Apply(op, words[ElemIdx(i)], Mask(i % ELEM_BITS))];
    forall k | 0 <= k < cnt ensures Bit(words', k) == if k == i then Outcome(op, Bit(words, i)) else Bit(words, k) {
      if k == i {
        OwnBit(op, words[ElemIdx(i)], i % ELEM_BITS);
      } else if ElemIdx(k) == ElemIdx(i) {
        OtherBits(op, words[ElemIdx(i)], i % ELEM_BITS, k % ELEM_BITS);
      }
    }
  }

  class Bitmap {
    const bitCnt: nat
    const words: array<ElemType>

    ghost predicate Valid() { words.Length == ElemCnt(bitCnt) }

    ghost function Bits(): (b: seq<bool>)
      requires Valid()
      reads words
      ensures |b| == bitCnt
    {
      View(words[..], bitCnt)
    }

    /** bitmap_create and bitmap_create_in_buf: whatever the storage held. */
    constructor (bitCnt: nat)
      ensures Valid() && fresh(words) && this.bitCnt == bitCnt
      ensures Bits() == seq(bitCnt, _ => false)
    {
      this.bitCnt := bitCnt;
      words := new ElemType[ElemCnt(bitCnt)];
      new;
      SetMultiple(0, bitCnt, false);
    }

    method Mark(bitIdx: nat)
      requires Valid() && bitIdx < bitCnt
      modifies words
      ensures Bits() == old(Bits())[bitIdx := true]
    {
      Instruction(Or, bitIdx);
    }

    method Reset(bitIdx: nat)
      requires Valid() && bitIdx < bitCnt
      modifies words
      ensures Bits() == old(Bits())[bitIdx := false]
    {
      Instruction(AndNot, bitIdx);
    }

    method Flip(bitIdx: nat)
      requires Valid() && bitIdx < bitCnt
      modifies words
      ensures Bits() == old(Bits())[bitIdx := !old(Bits())[bitIdx]]
    {
      Instruction(Xor, bitIdx);
    }

    /** The one instruction that mark, reset and flip consist of. */
    method Instruction(op: Op, bitIdx: nat)
      requires Valid() && bitIdx < bitCnt
      modifies words
      ensures Bits() == old(Bits())[bitIdx := Outcome(op, old(Bits())[bitIdx])]
    {
      hide View, Apply, Outcome, HasBit;
      ViewUpdate(op, words[..], bitCnt, bitIdx);
      var idx := ElemIdx(bitIdx);
      words[idx] := Apply(op, words[idx], Mask(bitIdx % ELEM_BITS));
      assert words[..] == old(words[..])[idx := words[idx]];
    }

    method Set(idx: nat, value: bool)
      requires Valid() && idx < bitCnt
      modifies words
      ensures Bits() == old(Bits())[idx := value]
    {
      if value { Mark(idx); } else { Reset(idx); }
    }

    method Test(idx: nat) returns (value: bool)
      requires Valid() && idx < bitCnt
      ensures value == Bits()[idx]
    {
      hide Mask;
      value := words[ElemIdx(idx)] & Mask(idx % ELEM_BITS) != 0;
    }

    method SetMultiple(start: nat, cnt: nat, value: bool)
      requires Valid() && start + cnt <= bitCnt
      modifies words
      ensures Bits() == SetRun(old(Bits()), start, cnt, value)
    {
      hide View;
      var i := 0;
      while i < cnt
        invariant i <= cnt
        invariant Bits() == SetRun(old(Bits()), start, i, value)
      {
        Set(start + i, value);
        i := i + 1;
      }
    }

    method Contains(start: nat, cnt: nat, value: bool) returns (found: bool)
      requires Valid() && start + cnt <= bitCnt
      ensures found == !RunAt(Bits(), start, cnt, !value)
    {
      var i := 0;
      while i < cnt
        invariant i <= cnt
        invariant RunAt(Bits(), start, i, !value)
      {
        var bit := Test(start + i);
        if bit == value {
          assert Bits()[start + i] == value;
          return true;
        }
        i := i + 1;
      }
      found := false;
    }

    /** bitmap_scan: the least run of CNT bits at or after START. */
    method FindRun(start: nat, cnt: nat, value: bool) returns (r: Option<nat>)
      requires Valid() && start <= bitCnt
      ensures r == Scan(Bits(), start, cnt, value)
    {
      if cnt <= bitCnt {
        var last := bitCnt - cnt;
        var i := start;
        while i <= last
          invariant start <= i
          invariant i <= last + 1 || i == start
          invariant Scan(Bits(), start, cnt, value) == Scan(Bits(), i, cnt, value)
          decreases last + 1 - i
        {
          var found := Contains(i, cnt, !value);
          if !found { return Some(i); }
          i := i + 1;
        }
      }
      r := None;
    }

    method ScanAndFlip(start: nat, cnt: nat, value: bool) returns (r: Option<nat>)
      requires Valid() && start <= bitCnt
      modifies words
      ensures r == Scan(old(Bits()), start, cnt, value)
      ensures Bits() == if r.Some? then SetRun(old(Bits()), r.value, cnt, !value) else old(Bits())
    {
      r := FindRun(start, cnt, value);
      if r.Some? { SetMultiple(r.value, cnt, !value); }
    }
  }
}
