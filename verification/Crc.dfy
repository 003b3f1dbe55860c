// The table-driven CRC of Lab1-Hazards/misc.c and the register checksum of machine.c. The generator is
// the one of section 3.2.9 of IEEE 802.3, high bit first, without reflection, preset or complement.
module Crc {

  // Exclusive or and one-place shift get names so that proofs can reason with their laws alone.

  function Xor(a: bv32, b: bv32): bv32 { a ^ b }

  function Shift(r: bv32): bv32 { r << 1 }

  predicate Top(r: bv32) { r & 0x8000_0000 != 0 }

  /** The generator, subtracted when a one falls out of the register. */
  function Generator(out: bool): bv32 { if out then 0x04c1_1db7 else 0 }

  /** One step of the shift register. */
  function Step(r: bv32): bv32
  {
    Xor(Shift(r), Generator(Top(r)))
  }

  function Steps(r: bv32, n: nat): bv32
  {
    if n == 0 then r else Step(Steps(r, n - 1))
  }

  /** A byte in the top eight bits of the register. */
  function HighByte(b: bv32): bv32 { b << 24 }

  /** A word shifted down by 8 * j bits. */
  function Down(data: bv32, j: nat): bv32
    requires j < 4
  {
    if j == 0 then data else if j == 1 then data >> 8 else if j == 2 then data >> 16 else data >> 24
  }

  /** Byte j of a word, counting from the low end. */
  function ByteOf(data: bv32, j: nat): (b: bv32)
    requires j < 4
    ensures b <= 0xff
  {
    Down(data, j) & 0xff
  }

  /** Feed one byte, high bit first, into the register. */
  function FeedByte(r: bv32, byte: bv32): bv32
  {
    Steps(Xor(r, HighByte(byte)), 8)
  }

  /** The reference: the first n bytes of a word, low to high, fed into the bit-serial register. */
  function BitSerial(r: bv32, data: bv32, n: nat): bv32
    requires n <= 4
  {
    if n == 0 then r else FeedByte(BitSerial(r, data, n - 1), ByteOf(data, n - 1))
  }

  /** The entry of the remainder table for a byte. */
  function TableEntry(i: bv32): bv32
  {
    Steps(HighByte(i), 8)
  }

  // ---- The register is linear and reversible ---------------------------------------------------

  lemma XorAssociates(a: bv32, b: bv32, c: bv32)
    ensures Xor(Xor(a, b), c) == Xor(a, Xor(b, c))
  {
  }

  lemma XorCommutes(a: bv32, b: bv32)
    ensures Xor(a, b) == Xor(b, a)
  {
  }

  lemma XorExchanges(a: bv32, b: bv32, c: bv32, d: bv32)
    ensures Xor(Xor(a, c), Xor(b, d)) == Xor(Xor(a, b), Xor(c, d))
  {
    XorAssociates(a, c, Xor(b, d));
    XorAssociates(c, b, d);
    XorCommutes(c, b);
    XorAssociates(b, c, d);
    XorAssociates(a, b, Xor(c, d));
    hide Xor;
  }

  lemma ShiftIsLinear(a: bv32, b: bv32)
    ensures Shift(Xor(a, b)) == Xor(Shift(a), Shift(b))
  {
  }

  lemma TopIsLinear(a: bv32, b: bv32)
    ensures Top(Xor(a, b)) == (Top(a) != Top(b))
  {
  }

  lemma GeneratorIsLinear(s: bool, t: bool)
    ensures Generator(s != t) == Xor(Generator(s), Generator(t))
  {
  }

  lemma StepIsLinear(a: bv32, b: bv32)
    ensures Step(Xor(a, b)) == Xor(Step(a), Step(b))
  {
    hide Xor, Shift, Generator, Top;
    ShiftIsLinear(a, b);
    TopIsLinear(a, b);
    GeneratorIsLinear(Top(a), Top(b));
    XorExchanges(Shift(a), Shift(b), Generator(Top(a)), Generator(Top(b)));
  }

  lemma {:induction false} StepsAreLinear(a: bv32, b: bv32, n: nat)
    ensures Steps(Xor(a, b), n) == Xor(Steps(a, n), Steps(b, n))
  {
    hide Xor, Step;
    if n > 0 {
      StepsAreLinear(a, b, n - 1);
      StepIsLinear(Steps(a, n - 1), Steps(b, n - 1));
    }
  }

  /** The step backwards: the generator has its low bit set, so the bit that fell out can be told. */
  function Unstep(r: bv32): bv32
  {
    if r & 1 != 0 then ((r ^ 0x04c1_1db7) >> 1) | 0x8000_0000 else r >> 1
  }

  lemma UnstepOdd(r: bv32)
    requires Top(r)
    ensures Unstep((r << 1) ^ 0x04c1_1db7) == r
  {
    assert ((r << 1) ^ 0x04c1_1db7) & 1 != 0;
    assert ((((r << 1) ^ 0x04c1_1db7) ^ 0x04c1_1db7) >> 1) | 0x8000_0000 == r;
  }

  lemma UnstepEven(r: bv32)
    requires !Top(r)
    ensures Unstep((r << 1) ^ 0) == r
  {
    assert ((r << 1) ^ 0) & 1 == 0;
    assert ((r << 1) ^ 0) >> 1 == r;
  }

  lemma UnstepInverts(r: bv32)
    ensures Unstep(Step(r)) == r
  {
    hide Unstep;
    if Top(r) {
      UnstepOdd(r);
    } else {
      UnstepEven(r);
    }
  }

  /** No two register contents lead to the same one. */
  lemma {:induction false} StepsAreInjective(a: bv32, b: bv32, n: nat)
    requires Steps(a, n) == Steps(b, n)
    ensures a == b
  {
    hide Step, Unstep;
    if n > 0 {
      UnstepInverts(Steps(a, n - 1));
      UnstepInverts(Steps(b, n - 1));
      StepsAreInjective(a, b, n - 1);
    }
  }

  lemma {:induction false} StepsAdd(r: bv32, m: nat, n: nat)
    ensures Steps(Steps(r, m), n) == Steps(r, m + n)
  {
    hide Step;
    if n > 0 {
      StepsAdd(r, m, n - 1);
    }
  }

  // ---- One byte through the table ---------------------------------------------------------------

  /** A step of a register whose top bit is clear only shifts it. */
  lemma QuietStep(r: bv32)
    requires !Top(r)
    ensures Step(r) == Shift(r)
  {
    assert (r << 1) ^ 0 == r << 1;
  }

  function Shifts(r: bv32, n: nat): bv32
  {
    if n == 0 then r else Shift(Shifts(r, n - 1))
  }

  /** The largest register contents whose ones are all more than 7 - n places from the top. */
  function Low(n: nat): bv32
    requires n <= 7
  {
    match n
    case 0 => 0x00ff_ffff
    case 1 => 0x01ff_ffff
    case 2 => 0x03ff_ffff
    case 3 => 0x07ff_ffff
    case 4 => 0x0fff_ffff
    case 5 => 0x1fff_ffff
    case 6 => 0x3fff_ffff
    case 7 => 0x7fff_ffff
  }

  predicate IsLow(r: bv32, n: nat)
    requires n <= 7
  {
    r <= Low(n)
  }

  lemma LowStaysQuiet(r: bv32, n: nat)
    requires n <= 7 && IsLow(r, n)
    ensures !Top(r)
    ensures n < 7 ==> IsLow(Shift(r), n + 1)
  {
  }

  /** Up to eight steps of a register whose top byte is clear only shift it. */
  lemma {:induction false} LowBytesShift(r: bv32, n: nat)
    requires n <= 8 && IsLow(r, 0)
    ensures Steps(r, n) == Shifts(r, n)
    ensures n < 8 ==> IsLow(Shifts(r, n), n)
  {
    hide Step, Shift, Top, IsLow;
    if n > 0 {
      LowBytesShift(r, n - 1);
      LowStaysQuiet(Shifts(r, n - 1), n - 1);
      QuietStep(Shifts(r, n - 1));
    }
  }

  lemma EightShifts(r: bv32)
    ensures Shifts(r, 8) == r << 8
  {
    hide Shift;
    NestedShifts(r);
    assert Shifts(r, 1) == Shift(r);
    assert Shifts(r, 2) == Shift(Shifts(r, 1));
    assert Shifts(r, 3) == Shift(Shifts(r, 2));
    assert Shifts(r, 4) == Shift(Shifts(r, 3));
    assert Shifts(r, 5) == Shift(Shifts(r, 4));
    assert Shifts(r, 6) == Shift(Shifts(r, 5));
    assert Shifts(r, 7) == Shift(Shifts(r, 6));
  }

  lemma NestedShifts(r: bv32)
    ensures Shift(Shift(Shift(Shift(Shift(Shift(Shift(Shift(r)))))))) == r << 8
  {
  }

  /** The upper end of the register combined with a byte. */
  function TableIndex(r: bv32, byte: bv32): (i: bv32)
    ensures i <= 0xff
  {
    ((r >> 24) ^ byte) & 0xff
  }

  function LowBits(r: bv32): (l: bv32)
    ensures IsLow(l, 0)
  {
    r & 0x00ff_ffff
  }

  lemma RegisterParts(r: bv32)
    ensures r == Xor(LowBits(r), HighByte(r >> 24))
  {
  }

  lemma IndexParts(r: bv32, byte: bv32)
    requires byte <= 0xff
    ensures HighByte(TableIndex(r, byte)) == Xor(HighByte(r >> 24), HighByte(byte))
  {
  }

  lemma SplitRegister(r: bv32, byte: bv32)
    requires byte <= 0xff
    ensures Xor(r, HighByte(byte)) == Xor(LowBits(r), HighByte(TableIndex(r, byte)))
  {
    RegisterParts(r);
    IndexParts(r, byte);
    XorAssociates(LowBits(r), HighByte(r >> 24), HighByte(byte));
    hide Xor, HighByte, TableIndex, LowBits;
  }

  lemma LowBitsMove(r: bv32)
    ensures LowBits(r) << 8 == r << 8
  {
  }

  /** What the loop of crc does with one byte is what eight steps of the register do. */
  lemma TableByte(r: bv32, byte: bv32)
    requires byte <= 0xff
    ensures Xor(r << 8, TableEntry(TableIndex(r, byte))) == FeedByte(r, byte)
  {
    SplitRegister(r, byte);
    LowBitsMove(r);
    hide Xor, HighByte, TableIndex, Steps, LowBits;
    LowBytesShift(LowBits(r), 8);
    EightShifts(LowBits(r));
    hide Shifts;
    StepsAreLinear(LowBits(r), HighByte(TableIndex(r, byte)), 8);
  }

  // ---- The program ------------------------------------------------------------------------------

  lemma ByteIndex(b: bv8)
    ensures (b as int) as bv8 == b
  {
  }

  lemma MaskedIndex(r: bv32, x: bv32)
    ensures ((r >> 24) ^ x) & 0xff == TableIndex(r, x & 0xff)
  {
  }

  lemma StepTop(r: bv32)
    requires Top(r)
    ensures Step(r) == (r << 1) ^ 0x04c1_1db7
  {
  }

  lemma StepAsCoded(r: bv32)
    ensures Step(r) == if r & 0x8000_0000 != 0 then (r << 1) ^ 0x04c1_1db7 else r << 1
  {
    if Top(r) {
      StepTop(r);
    } else {
      QuietStep(r);
    }
    hide Step;
  }

  /** The table index as the program computes it. */
  function CodeIndex(r: bv32, data: bv32, j: nat): bv8
    requires j < 4
  {
    (((r >> 24) ^ Down(data, j)) & 0xff) as bv8
  }

  lemma CodeIndexIs(r: bv32, data: bv32, j: nat)
    requires j < 4
    ensures (CodeIndex(r, data, j) as int) as bv8 as bv32 == TableIndex(r, ByteOf(data, j))
  {
    ByteIndex(CodeIndex(r, data, j));
    MaskedIndex(r, Down(data, j));
    ByteWidth(((r >> 24) ^ Down(data, j)) & 0xff);
    hide TableIndex, Down;
  }

  lemma ByteWidth(x: bv32)
    requires x <= 0xff
    ensures x as bv8 as bv32 == x
  {
  }

  class Checksum {
    const crcTable: array<bv32>
    var crcInit: bool

    ghost predicate TableReady()
      reads crcTable
    {
      crcTable.Length == 256 && forall i :: 0 <= i < 256 ==> crcTable[i] == TableEntry(i as bv8 as bv32)
    }

    ghost predicate Valid()
      reads this, crcTable
    {
      crcTable.Length == 256 && (crcInit ==> TableReady())
    }

    constructor ()
      ensures Valid() && fresh(crcTable)
    {
      crcTable := new bv32[256](_ => 0);
      crcInit := false;
    }

    /** Fill the table of remainders for all bytes. */
    method GenTab()
      requires crcTable.Length == 256
      modifies crcTable
      ensures TableReady()
    {
      hide HighByte, Xor, Shift, Top;
      var i := 0;
      while i < 256
        invariant 0 <= i <= 256
        invariant forall k :: 0 <= k < i ==> crcTable[k] == TableEntry(k as bv8 as bv32)
      {
        var crcAccum := Remainder(i as bv8 as bv32);
        crcTable[i] := crcAccum;
        i := i + 1;
      }
    }

    method Remainder(byte: bv32) returns (crcAccum: bv32)
      ensures crcAccum == TableEntry(byte)
    {
      crcAccum := byte << 24;
      hide Step;
      var j := 0;
      while j < 8
        invariant 0 <= j <= 8
        invariant crcAccum == Steps(HighByte(byte), j)
      {
        StepAsCoded(crcAccum);
        if crcAccum & 0x8000_0000 != 0 {
          crcAccum := (crcAccum << 1) ^ 0x04c1_1db7;
        } else {
          crcAccum := crcAccum << 1;
        }
        j := j + 1;
      }
    }

    /** Update the accumulator with a word, one byte at a time, low byte first. */
    method Crc(crcAccum: bv32, data: bv32) returns (r: bv32)
      requires Valid()
      modifies this, crcTable
      ensures Valid() && r == BitSerial(crcAccum, data, 4)
    {
      if !crcInit {
        GenTab();
        crcInit := true;
      }
      r := crcAccum;
      var j := 0;
      hide TableEntry, FeedByte, TableIndex, ByteOf, Xor, Checksum.TableReady;
      while j < 4
        invariant 0 <= j <= 4 && crcInit && Valid()
        invariant r == BitSerial(crcAccum, data, j)
      {
        r := FeedThroughTable(r, data, j);
        j := j + 1;
      }
    }

    method FeedThroughTable(crcAccum: bv32, data: bv32, j: nat) returns (r: bv32)
      requires TableReady() && j < 4
      ensures r == FeedByte(crcAccum, ByteOf(data, j))
    {
      CodeIndexIs(crcAccum, data, j);
      TableByte(crcAccum, ByteOf(data, j));
      var i := CodeIndex(crcAccum, data, j);
      hide TableEntry, FeedByte, TableIndex, ByteOf, CodeIndex;
      r := Xor(crcAccum << 8, crcTable[i as int]);
    }

    /** The checksum of a register file: every register in order. */
    method CrcRegs(regs: seq<bv32>) returns (r: bv32)
      requires Valid()
      modifies this, crcTable
      ensures Valid() && r == RegsCrc(regs)
    {
      r := 0;
      var i := 0;
      hide BitSerial;
      while i < |regs|
        invariant 0 <= i <= |regs| && Valid() && r == RegsCrc(regs[..i])
      {
        r := Crc(r, regs[i]);
        assert regs[..i + 1][..i] == regs[..i];
        i := i + 1;
      }
      assert regs[..i] == regs;
    }
  }

  // ---- Injectivity -----------------------------------------------------------------------------

  /** A byte placed so that 8 * j shifts bring it to the top. */
  function Placed(byte: bv32, j: nat): bv32
    requires j < 4
  {
    if j == 0 then byte << 24 else if j == 1 then byte << 16 else if j == 2 then byte << 8 else byte
  }

  /** The bytes of a word in the other order: the first byte fed is the highest. */
  function Swapped(data: bv32, n: nat): bv32
    requires n <= 4
  {
    if n == 0 then 0 else Xor(Swapped(data, n - 1), Placed(ByteOf(data, n - 1), n - 1))
  }

  lemma EightStepsUp(r: bv32)
    requires IsLow(r, 0)
    ensures Steps(r, 8) == r << 8
  {
    LowBytesShift(r, 8);
    EightShifts(r);
    hide Steps, Shifts;
  }

  lemma PlacedMoves(byte: bv32, j: nat)
    requires byte <= 0xff && 0 < j < 4
    ensures IsLow(Placed(byte, j), 0) && Placed(byte, j) << 8 == Placed(byte, j - 1)
  {
  }

  /** A placed byte arrives at the top of the register without disturbing anything. */
  lemma {:induction false} PlacedArrives(byte: bv32, j: nat)
    requires byte <= 0xff && j < 4
    ensures Steps(Placed(byte, j), 8 * j) == HighByte(byte)
  {
    hide Steps, IsLow;
    var r := Placed(byte, j);
    if j == 0 {
      NoSteps(r);
    } else {
      hide Placed, HighByte;
      PlacedMoves(byte, j);
      EightStepsUp(r);
      StepsAdd(r, 8, 8 * (j - 1));
      PlacedArrives(byte, j - 1);
    }
  }

  lemma NoSteps(r: bv32)
    ensures Steps(r, 0) == r
  {
  }

  /** Feeding bytes one by one is one long shift of the register combined with all of them. */
  lemma {:induction false} ClosedForm(r: bv32, data: bv32, n: nat)
    requires n <= 4
    ensures BitSerial(r, data, n) == Steps(Xor(r, Swapped(data, n)), 8 * n)
  {
    if n == 0 {
      XorZero(r);
    } else {
      var byte := ByteOf(data, n - 1);
      var x := Xor(r, Swapped(data, n - 1));
      ClosedForm(r, data, n - 1);
      PlacedArrives(byte, n - 1);
      StepsAreLinear(x, Placed(byte, n - 1), 8 * (n - 1));
      XorAssociates(r, Swapped(data, n - 1), Placed(byte, n - 1));
      StepsAdd(Xor(x, Placed(byte, n - 1)), 8 * (n - 1), 8);
      hide Steps, Xor, HighByte, Placed, ByteOf;
    }
  }

  lemma XorZero(r: bv32)
    ensures Xor(r, 0) == r
  {
  }

  lemma XorCancels(a: bv32, b: bv32)
    ensures Xor(a, Xor(a, b)) == b
  {
  }

  lemma XorInjective(a: bv32, b: bv32, c: bv32)
    requires Xor(a, b) == Xor(a, c)
    ensures b == c
  {
    XorCancels(a, b);
    XorCancels(a, c);
    hide Xor;
  }

  /** Swapping is undone by swapping. */
  function Unswapped(s: bv32): bv32
  {
    (s >> 24) | ((s >> 8) & 0xff00) | ((s & 0xff00) << 8) | (s << 24)
  }

  /** The four bytes of a word, high one first. */
  function Reversed(data: bv32): bv32
  {
    (((data & 0xff) << 24) ^ (((data >> 8) & 0xff) << 16)) ^ ((((data >> 16) & 0xff) << 8) ^ ((data >> 24) & 0xff))
  }

  lemma ReversedParts(data: bv32)
    ensures Reversed(data) == Xor(Xor(Placed(ByteOf(data, 0), 0), Placed(ByteOf(data, 1), 1)),
                                  Xor(Placed(ByteOf(data, 2), 2), Placed(ByteOf(data, 3), 3)))
  {
  }

  lemma SwappedWord(data: bv32)
    ensures Swapped(data, 4) == Reversed(data)
  {
    var b0, b1, b2, b3 := Placed(ByteOf(data, 0), 0), Placed(ByteOf(data, 1), 1),
                          Placed(ByteOf(data, 2), 2), Placed(ByteOf(data, 3), 3);
    ReversedParts(data);
    hide Xor, Placed, ByteOf, Reversed;
    assert Swapped(data, 1) == Xor(0, b0);
    assert Swapped(data, 2) == Xor(Swapped(data, 1), b1);
    assert Swapped(data, 3) == Xor(Swapped(data, 2), b2);
    XorCommutes(0, b0);
    XorZero(b0);
    XorAssociates(Xor(b0, b1), b2, b3);
  }

  lemma UnswapInverts(data: bv32)
    ensures Unswapped(Swapped(data, 4)) == data
  {
    SwappedWord(data);
    hide Swapped;
  }

  /** The checksum never merges two accumulators, whatever the word. */
  lemma InjectiveInAccumulator(a: bv32, b: bv32, data: bv32)
    requires BitSerial(a, data, 4) == BitSerial(b, data, 4)
    ensures a == b
  {
    ClosedForm(a, data, 4);
    ClosedForm(b, data, 4);
    hide BitSerial, Swapped, Xor;
    StepsAreInjective(Xor(a, Swapped(data, 4)), Xor(b, Swapped(data, 4)), 32);
    XorCommutes(a, Swapped(data, 4));
    XorCommutes(b, Swapped(data, 4));
    XorInjective(Swapped(data, 4), a, b);
  }

  /** Nor two words, whatever the accumulator. */
  lemma InjectiveInWord(a: bv32, d: bv32, e: bv32)
    requires BitSerial(a, d, 4) == BitSerial(a, e, 4)
    ensures d == e
  {
    ClosedForm(a, d, 4);
    ClosedForm(a, e, 4);
    hide BitSerial, Swapped, Xor, Unswapped;
    StepsAreInjective(Xor(a, Swapped(d, 4)), Xor(a, Swapped(e, 4)), 32);
    XorInjective(a, Swapped(d, 4), Swapped(e, 4));
    UnswapInverts(d);
    UnswapInverts(e);
  }

  /** The checksum of a register file. */
  function RegsCrc(regs: seq<bv32>): bv32
  {
    if regs == [] then 0
    else BitSerial(RegsCrc(regs[..|regs| - 1]), regs[|regs| - 1], 4)
  }

  /** Changing exactly one register always changes the checksum. */
  lemma {:induction false} OneRegisterShows(x: seq<bv32>, y: seq<bv32>, k: nat)
    requires |x| == |y| && k < |x|
    requires x[k] != y[k] && forall i :: 0 <= i < |x| && i != k ==> x[i] == y[i]
    ensures RegsCrc(x) != RegsCrc(y)
  {
    hide BitSerial;
    var n := |x| - 1;
    if k < n {
      OneRegisterShows(x[..n], y[..n], k);
      if RegsCrc(x) == RegsCrc(y) {
        InjectiveInAccumulator(RegsCrc(x[..n]), RegsCrc(y[..n]), x[n]);
      }
    } else {
      assert x[..n] == y[..n];
      if RegsCrc(x) == RegsCrc(y) {
        InjectiveInWord(RegsCrc(x[..n]), x[n], y[n]);
      }
    }
  }

  // ---- Written out ---------------------------------------------------------------------------------

  /** A word with its bytes in the other order. */
  function FirstByteHigh(data: bv32): bv32
  {
    (data << 24) ^ ((data & 0xff00) << 8) ^ ((data >> 8) & 0xff00) ^ (data >> 24)
  }

  lemma SwappedInFull(data: bv32)
    ensures Swapped(data, 4) == FirstByteHigh(data)
  {
    hide Xor, Placed, ByteOf, FirstByteHigh;
    var p0, p1 := Placed(ByteOf(data, 0), 0), Placed(ByteOf(data, 1), 1);
    var p2, p3 := Placed(ByteOf(data, 2), 2), Placed(ByteOf(data, 3), 3);
    assert Swapped(data, 0) == 0;
    assert Swapped(data, 1) == Xor(0, p0);
    assert Swapped(data, 2) == Xor(Xor(0, p0), p1);
    assert Swapped(data, 3) == Xor(Xor(Xor(0, p0), p1), p2);
    XorFour(p0, p1, p2, p3);
    PlacedBytes(data);
    BytesAssembled(data);
  }

  lemma XorFour(a: bv32, b: bv32, c: bv32, d: bv32)
    ensures Xor(Xor(Xor(Xor(0, a), b), c), d) == a ^ b ^ c ^ d
  {
  }

  lemma PlacedBytes(data: bv32)
    ensures Placed(ByteOf(data, 0), 0) == (data & 0xff) << 24
    ensures Placed(ByteOf(data, 1), 1) == ((data >> 8) & 0xff) << 16
    ensures Placed(ByteOf(data, 2), 2) == ((data >> 16) & 0xff) << 8
    ensures Placed(ByteOf(data, 3), 3) == (data >> 24) & 0xff
  {
  }

  lemma BytesAssembled(data: bv32)
    ensures ((data & 0xff) << 24) ^ (((data >> 8) & 0xff) << 16) ^ (((data >> 16) & 0xff) << 8) ^ ((data >> 24) & 0xff)
         == FirstByteHigh(data)
  {
  }

  /** What each register adds to the sum: its bytes reversed, stepped 32 times for itself and for every register
      after it. */
  function Contributions(regs: seq<bv32>): bv32
  {
    if regs == [] then 0 else Xor(Steps(FirstByteHigh(regs[0]), 32 * |regs|), Contributions(regs[1..]))
  }

  lemma {:induction false} ContributionsLast(regs: seq<bv32>, w: bv32)
    ensures Contributions(regs + [w]) == Xor(Steps(Contributions(regs), 32), Steps(FirstByteHigh(w), 32))
  {
    hide Steps, FirstByteHigh, Xor;
    var all := regs + [w];
    if regs == [] {
      assert all[1..] == [];
      ZeroSteps(32);
      XorZero(Steps(FirstByteHigh(w), 32));
      XorCommutes(Steps(FirstByteHigh(w), 32), 0);
    } else {
      assert all[1..] == regs[1..] + [w];
      ContributionsLast(regs[1..], w);
      var x, y, z := Steps(FirstByteHigh(regs[0]), 32 * |regs|), Contributions(regs[1..]), Steps(FirstByteHigh(w), 32);
      StepsAdd(FirstByteHigh(regs[0]), 32 * |regs|, 32);
      StepsAreLinear(x, y, 32);
      XorAssociates(Steps(x, 32), Steps(y, 32), z);
    }
  }

  lemma {:induction false} ZeroSteps(n: nat)
    ensures Steps(0, n) == 0
  {
    if n > 0 {
      ZeroSteps(n - 1);
    }
  }

  /** The checksum of the registers, each one's part of it added up. */
  lemma {:induction false} RegsClosedForm(regs: seq<bv32>)
    ensures RegsCrc(regs) == Contributions(regs)
  {
    if regs != [] {
      var before, w := regs[..|regs| - 1], regs[|regs| - 1];
      RegsClosedForm(before);
      assert before + [w] == regs;
      ContributionsLast(before, w);
      ClosedForm(RegsCrc(before), w, 4);
      SwappedInFull(w);
      StepsAreLinear(RegsCrc(before), FirstByteHigh(w), 32);
      hide Steps, Xor, FirstByteHigh, Swapped;
    }
  }

  /** A single one moves up until it is at the top. */
  lemma OneMovesUp(r: bv32)
    requires 0 < r < 0x8000_0000
    ensures Step(r) == r << 1
  {
    StepAsCoded(r);
    assert r & 0x8000_0000 == 0;
    hide Step;
  }

  /** The generator is the polynomial 04c11db7: what a byte 1 on its own adds. */
  lemma GeneratorEntry()
    ensures TableEntry(1) == 0x04c1_1db7 && TableEntry(0) == 0
  {
    ZeroSteps(8);
    StepTop(0x8000_0000);
    OneMovesUp(0x0100_0000);
    OneMovesUp(0x0200_0000);
    OneMovesUp(0x0400_0000);
    OneMovesUp(0x0800_0000);
    OneMovesUp(0x1000_0000);
    OneMovesUp(0x2000_0000);
    OneMovesUp(0x4000_0000);
    hide Step;
    assert HighByte(1) == 0x0100_0000 && HighByte(0) == 0;
    assert Steps(0x0100_0000, 2) == 0x0400_0000;
    assert Steps(0x0100_0000, 4) == 0x1000_0000;
    assert Steps(0x0100_0000, 6) == 0x4000_0000;
    assert Steps(0x0100_0000, 8) == 0x04c1_1db7;
  }
}
