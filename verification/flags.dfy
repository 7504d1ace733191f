/** The analysed-transaction bitset: one bit per storage cell, addressed by
    the offset of a transaction pointer from the first cell. A byte array
    is modelled as a sequence of `bv8`; an index outside it is the array
    access that would throw. */
module AnalyzedFlags {
  import opened Common

  /** Length of the flag arrays, in bytes (2^27). */
  const FLAG_BYTES: nat := 134217728
  /** Width of one storage cell: pointers of neighbouring cells differ by
      2^11, so a cell's bit is `(offset >> 11)`. */
  const CELL_SHIFT_SPAN: nat := 2048

  /** Where the bit of one pointer lives: a byte index and a bit within it. */
  datatype Slot = Slot(index: int, bit: int)

  /** `(int)(p >> 14)` and `(p >> 11) & 7` for `p = pointer - base`. Both
      shifts are arithmetic, i.e. floor division, which is Dafny's `/` for a
      positive divisor; `& 7` is the non-negative remainder. */
  function SlotOf(base: int, pointer: int): (s: Slot)
    ensures 0 <= s.bit < 8
  {
    var p := pointer - base;
    Slot(ToInt32(p / (8 * CELL_SHIFT_SPAN)), (p / CELL_SHIFT_SPAN) % 8)
  }

  function Mask(bit: int): bv8
    requires 0 <= bit < 8
  {
    (1 as bv8) << bit
  }

  predicate InRange(flags: seq<bv8>, s: Slot) {
    0 <= s.index < |flags|
  }

  /** The test used both by the flag setter and by the filter that drops
      tails already covered by the first backward walk. */
  predicate Marked(flags: seq<bv8>, base: int, pointer: int) {
    var s := SlotOf(base, pointer);
    InRange(flags, s) && flags[s.index] & Mask(s.bit) != 0
  }

  datatype FlagOutcome =
    | OutOfRange                                 // the array access throws
    | Flagged(first: bool, flags: seq<bv8>)

  /** Test-and-set of one slot's bit; `first` says it was clear. */
  function TestAndSet(flags: seq<bv8>, s: Slot): FlagOutcome
    requires 0 <= s.bit < 8
  {
    if !InRange(flags, s) then OutOfRange
    else
      var value := flags[s.index];
      if value & Mask(s.bit) == 0 then
        Flagged(true, flags[s.index := value | Mask(s.bit)])
      else
        Flagged(false, flags)
  }

  /** `setAnalyzedTransactionFlag`: test-and-set of the pointer's bit. */
  function SetFlag(flags: seq<bv8>, base: int, pointer: int): (r: FlagOutcome)
    ensures r.Flagged? <==> InRange(flags, SlotOf(base, pointer))
    ensures r.Flagged? ==> (r.first <==> !Marked(flags, base, pointer))
    ensures r.Flagged? ==> Marked(r.flags, base, pointer)
    ensures r.Flagged? ==> |r.flags| == |flags|
    ensures r.Flagged? ==> forall i :: 0 <= i < |flags| && i != SlotOf(base, pointer).index ==> r.flags[i] == flags[i]
  {
    TestAndSet(flags, SlotOf(base, pointer))
  }

  /** Within the pointer's byte, every other bit keeps its value. */
  lemma SetFlagKeepsOtherBits(flags: seq<bv8>, base: int, pointer: int, k: int)
    requires SetFlag(flags, base, pointer).Flagged?
    requires 0 <= k < 8 && k != SlotOf(base, pointer).bit
    ensures var s := SlotOf(base, pointer);
      SetFlag(flags, base, pointer).flags[s.index] & Mask(k) == flags[s.index] & Mask(k)
  {
    TestAndSetKeepsOtherBits(flags, SlotOf(base, pointer), k);
  }

  lemma TestAndSetKeepsOtherBits(flags: seq<bv8>, s: Slot, k: int)
    requires 0 <= s.bit < 8 && TestAndSet(flags, s).Flagged?
    requires 0 <= k < 8 && k != s.bit
    ensures TestAndSet(flags, s).flags[s.index] & Mask(k) == flags[s.index] & Mask(k)
  {
    OrOtherBit(flags[s.index], s.bit, k);
  }

  lemma OrOtherBit(v: bv8, b: int, k: int)
    requires 0 <= b < 8 && 0 <= k < 8 && b != k
    ensures (v | Mask(b)) & Mask(k) == v & Mask(k)
  {
  }

  /** Setting the same pointer twice: the second call reports a revisit and
      changes nothing. */
  lemma SecondVisitReportsFalse(flags: seq<bv8>, base: int, pointer: int)
    requires SetFlag(flags, base, pointer).Flagged?
    ensures var once := SetFlag(flags, base, pointer).flags;
            SetFlag(once, base, pointer) == Flagged(false, once)
  {
  }

  /** After a set, exactly the pointers sharing the set pointer's slot have
      become marked: the bitset behaves as insertion into a set of slots. */
  lemma SetFlagInsertsSlot(flags: seq<bv8>, base: int, pointer: int, other: int)
    requires SetFlag(flags, base, pointer).Flagged?
    ensures Marked(SetFlag(flags, base, pointer).flags, base, other)
            <==> Marked(flags, base, other) || SlotOf(base, other) == SlotOf(base, pointer)
  {
    var s := SlotOf(base, pointer);
    var t := SlotOf(base, other);
    if t.index == s.index && t.bit != s.bit {
      TestAndSetKeepsOtherBits(flags, s, t.bit);
    }
  }

  /** Pointers of distinct cells inside the array's reach get distinct
      slots, so on cell pointers the bitset is exactly a set of pointers. */
  lemma CellSlotsAreDistinct(base: int, p: int, q: int)
    requires (p - base) % CELL_SHIFT_SPAN == 0 && (q - base) % CELL_SHIFT_SPAN == 0
    requires 0 <= p - base < FLAG_BYTES * 8 * CELL_SHIFT_SPAN
    requires 0 <= q - base < FLAG_BYTES * 8 * CELL_SHIFT_SPAN
    requires SlotOf(base, p) == SlotOf(base, q)
    ensures p == q
  {
    var kp := (p - base) / CELL_SHIFT_SPAN;
    var kq := (q - base) / CELL_SHIFT_SPAN;
    assert p - base == kp * CELL_SHIFT_SPAN;
    assert q - base == kq * CELL_SHIFT_SPAN;
    assert (p - base) / (8 * CELL_SHIFT_SPAN) == kp / 8 by {
      ShiftSplit(p - base);
    }
    assert (q - base) / (8 * CELL_SHIFT_SPAN) == kq / 8 by {
      ShiftSplit(q - base);
    }
    assert kp / 8 == kq / 8;
    assert kp % 8 == kq % 8;
    assert kp == 8 * (kp / 8) + kp % 8;
    assert kq == 8 * (kq / 8) + kq % 8;
  }

  /** An arithmetic shift by 14 is a shift by 11 followed by one by 3. */
  lemma ShiftSplit(x: int)
    requires x >= 0
    ensures x / (8 * CELL_SHIFT_SPAN) == (x / CELL_SHIFT_SPAN) / 8
  {
    var k := x / 2048;
    var m := k / 8;
    assert x == 2048 * k + x % 2048;
    assert k == 8 * m + k % 8;
    assert x == 16384 * m + (2048 * (k % 8) + x % 2048);
    assert 0 <= 2048 * (k % 8) + x % 2048 < 16384;
  }

  /** The all-zero array the walks start from marks nothing. */
  lemma ClearedMarksNothing(base: int, pointer: int)
    ensures !Marked(seq(FLAG_BYTES, _ => 0 as bv8), base, pointer)
  {
  }
}
