/** The working memory of the compressor: table sizing, the word hash and its range. */
module Hashing {
  import opened Bytes
  import opened Bits

  const MAX_HASH_TABLE_SIZE := 0x4000
  const SMALL_TABLE_SIZE := 0x400
  const HASH_MULTIPLIER := 0x1e35_a7bd

  /** (bytes * kMul) >> shift in 32-bit arithmetic. */
  function HashBytes(bytes: uint32, shift: nat): nat {
    ShiftRight(Multiply32(bytes, HASH_MULTIPLIER), shift)
  }

  function Multiply32(x: nat, y: nat): uint32 {
    x * y % 0x1_0000_0000
  }

  function ShiftRight(v: nat, k: nat): nat
    decreases k
  {
    if k == 0 then v else ShiftRight(v / 2, k - 1)
  }

  lemma {:induction false} ShiftRightBound(v: nat, k: nat, log: nat)
    requires v < Pow2(log + k)
    ensures ShiftRight(v, k) < Pow2(log)
    decreases k
  {
    if k > 0 {
      ShiftRightBound(v / 2, k - 1, log);
    }
  }

  lemma {:induction false} ShiftRightDivides(v: nat, k: nat)
    ensures ShiftRight(v, k) == v / Pow2(k)
    decreases k
  {
    if k > 0 {
      ShiftRightDivides(v / 2, k - 1);
      HalvedFirst(v, Pow2(k - 1));
    }
  }

  lemma Pow2Of32()
    ensures Pow2(32) == 0x1_0000_0000
  {
    assert Pow2(8) == 0x100;
    assert Pow2(16) == 0x1_0000;
    assert Pow2(24) == 0x100_0000;
  }

  /** Shifting right by 32 - log2(size) leaves a table index. */
  lemma HashInTable(bytes: uint32, log: nat)
    requires log <= 32
    ensures HashBytes(bytes, 32 - log) < Pow2(log)
  {
    hide Multiply32;
    Pow2Of32();
    ShiftRightBound(Multiply32(bytes, HASH_MULTIPLIER), 32 - log, log);
  }

  /** Index of the highest set bit. */
  function FloorLog(n: nat): nat
    requires n > 0
  {
    if n == 1 then 0 else 1 + FloorLog(n / 2)
  }

  lemma {:induction false} FloorLogBounds(n: nat)
    requires n > 0
    ensures Pow2(FloorLog(n)) <= n < 2 * Pow2(FloorLog(n))
    decreases n
  {
    if n > 1 {
      FloorLogBounds(n / 2);
    }
  }

  /** The logarithm of a power of two is exact. */
  lemma {:induction false} FloorLogOfPow2(k: nat)
    ensures FloorLog(Pow2(k)) == k
  {
    if k > 0 {
      FloorLogOfPow2(k - 1);
    }
  }

  /** What a shift leaves tells the logarithm apart from the shift; if nothing is left the value was small. */
  lemma {:induction false} FloorLogShift(v: nat, k: nat)
    requires v > 0
    ensures ShiftRight(v, k) > 0 ==> FloorLog(v) == k + FloorLog(ShiftRight(v, k))
    ensures ShiftRight(v, k) == 0 ==> v < Pow2(k)
    decreases k
  {
    if k > 0 {
      if v == 1 {
        ShiftRightZero(k - 1);
      } else {
        FloorLogShift(v / 2, k - 1);
      }
    }
  }

  lemma {:induction false} ShiftRightZero(k: nat)
    ensures ShiftRight(0, k) == 0
    decreases k
  {
    if k > 0 {
      ShiftRightZero(k - 1);
    }
  }

  /** floor(log2(n)) by binary search over the bit groups, or -1 for zero. */
  method Log2Floor(n: uint32) returns (log: int)
    ensures n == 0 ==> log == -1
    ensures n > 0 ==> log == FloorLog(n) < 32
  {
    if n == 0 {
      return -1;
    }
    var value: nat, shift: nat, i: int := n, 16, 4;
    log := 0;
    Pow2Of32();
    while i >= 0
      invariant Scanning(n, value, log, i, shift)
    {
      var x := ShiftRight(value, shift);
      ScanStep(n, value, log, i, shift);
      if x != 0 {
        value := x;
        log := log + shift;
      }
      shift := shift / 2;
      i := i - 1;
    }
    ScanDone(n, value, log, i, shift);
  }

  ghost predicate Scanning(n: nat, value: nat, log: int, i: int, shift: nat) {
    && Step(i, shift) && log >= 0 && n > 0
    && 0 < value < Pow2(if i < 0 then 1 else 2 * shift)
    && FloorLog(n) == log + FloorLog(value)
  }

  lemma ScanStep(n: nat, value: nat, log: int, i: int, shift: nat)
    requires Scanning(n, value, log, i, shift) && i >= 0
    ensures ShiftRight(value, shift) > 0 ==> Scanning(n, ShiftRight(value, shift), log + shift, i - 1, shift / 2)
    ensures ShiftRight(value, shift) == 0 ==> Scanning(n, value, log, i - 1, shift / 2)
  {
    hide ShiftRight, FloorLog, Pow2;
    FloorLogShift(value, shift);
    ShiftRightBound(value, shift, shift);
  }

  lemma ScanDone(n: uint32, value: nat, log: int, i: int, shift: nat)
    requires Scanning(n, value, log, i, shift) && i == -1
    ensures log == FloorLog(n) < 32
  {
    assert Pow2(1) == 2;
    FloorLogBounds(n);
    Pow2Of32();
    if FloorLog(n) >= 32 {
      Pow2Monotone(32, FloorLog(n));
    }
  }

  lemma {:induction false} Pow2Monotone(a: nat, b: nat)
    requires a <= b
    ensures Pow2(a) <= Pow2(b)
    decreases b
  {
    if a < b {
      Pow2Monotone(a, b - 1);
    }
  }

  /** The least power of two from 256 up that covers the input, capped at 16384. */
  ghost predicate IsTableSize(inputSize: nat, tableSize: nat, log: nat) {
    && 8 <= log <= 14 && tableSize == Pow2(log) && 0x100 <= tableSize <= MAX_HASH_TABLE_SIZE
    && (inputSize <= tableSize || tableSize == MAX_HASH_TABLE_SIZE)
    && (tableSize == 0x100 || tableSize < 2 * inputSize)
  }

  /** The logarithm of the table size: the smallest from log on that covers the input, or 14. */
  function TableLog(inputSize: nat, log: nat): (r: nat)
    requires log <= 14
    ensures log <= r <= 14
    decreases 14 - log
  {
    if log < 14 && Pow2(log) < inputSize then TableLog(inputSize, log + 1) else log
  }

  method TableSize(inputSize: nat) returns (htsize: nat, ghost log: nat)
    ensures IsTableSize(inputSize, htsize, log) && log == TableLog(inputSize, 8)
    ensures htsize == Pow2(TableLog(inputSize, 8))
  {
    htsize, log := 0x100, 8;
    assert Pow2(8) == 0x100;
    Pow2Of14();
    while htsize < MAX_HASH_TABLE_SIZE && htsize < inputSize
      invariant 8 <= log <= 14 && htsize == Pow2(log) && (htsize == 0x100 || htsize < 2 * inputSize)
      invariant 0x100 <= htsize <= MAX_HASH_TABLE_SIZE
      invariant TableLog(inputSize, log) == TableLog(inputSize, 8)
      decreases 14 - log
    {
      Pow2Monotone(log + 1, 14);
      htsize := htsize * 2;
      log := log + 1;
      Pow2Monotone(log, 14);
    }
  }

  lemma Pow2Of14()
    ensures Pow2(14) == MAX_HASH_TABLE_SIZE
  {
  }

  /** Two tables that live as long as one call of Compress; the large one is allocated on first use. */
  class WorkingMemory {
    const small: array<uint16>
    var large: array?<uint16>

    ghost predicate Valid()
      reads this
    {
      small.Length == SMALL_TABLE_SIZE && (large != null ==> large.Length == MAX_HASH_TABLE_SIZE && large != small)
    }

    ghost function Footprint(): set<object>
      reads this
    {
      {this, small} + (if large == null then {} else {large})
    }

    constructor ()
      ensures Valid() && fresh(Footprint())
    {
      small := new uint16[SMALL_TABLE_SIZE];
      large := null;
    }

    /** A zeroed table of the given size, taken from the small table when it fits. */
    method GetHashTable(inputSize: nat) returns (table: array<uint16>, tableSize: nat, ghost log: nat)
      requires Valid()
      modifies Footprint()
      ensures Valid() && table in Footprint() && fresh(Footprint() - old(Footprint()))
      ensures IsTableSize(inputSize, tableSize, log) && log == TableLog(inputSize, 8) && tableSize <= table.Length
      ensures tableSize <= 0x400 ==> table == small && large == old(large)
      ensures forall h :: 0 <= h < tableSize ==> table[h] == 0
    {
      tableSize, log := TableSize(inputSize);
      if tableSize <= SMALL_TABLE_SIZE {
        table := small;
      } else {
        if large == null {
          large := new uint16[MAX_HASH_TABLE_SIZE];
        }
        table := large;
      }
      forall h | 0 <= h < tableSize {
        table[h] := 0;
      }
    }
  }
}
