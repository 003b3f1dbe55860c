// External I/O traces (Lab1-Hazards/eio.c) on values: what a recorded system call is, what replaying
// it does, and why a replayed run is the recorded run. EioMachine holds the program's form of it.
module Eio {
  import opened FlatMemory

  // ---- Machine state ---------------------------------------------------------------------

  const FIRST_REG: nat := 2
  const LAST_REG: nat := 7

  /** A register holds a signed 32-bit word. */
  type Word = w: int | -0x8000_0000 <= w < 0x8000_0000

  /** A 64-bit counter. */
  type Counter = c: int | -0x8000_0000_0000_0000 <= c < 0x8000_0000_0000_0000

  /** The architected state that system calls leave alone: instruction count, next PC, multiply registers,
      condition flag, floating-point registers in integer form, and the bounds of stack and segments. */
  datatype OtherState = OtherState(
    icnt: Counter, npc: Addr, hi: Addr, lo: Addr, fcc: Word, fregs: seq<Word>,
    stackMin: Addr, segments: seq<Addr>)

  type Others = o: OtherState | |o.fregs| == 32 && |o.segments| == 6
    witness OtherState(0, 0, 0, 0, 0, seq(32, _ => 0), 0, seq(6, _ => 0))

  datatype MachineState = MachineState(regs: seq<Word>, pc: Addr, brk: Addr, mem: Pages, other: Others)

  type Machine = s: MachineState | |s.regs| == 32 && WellFormed(s.mem)
    witness MachineState(seq(32, _ => 0), 0, 0, map[], OtherState(0, 0, 0, 0, 0, seq(32, _ => 0), 0, seq(6, _ => 0)))

  /** A trace stores a register as an unsigned 64-bit integer, sign-extended from 32 bits. */
  function ToExo(w: Word): (v: int)
    ensures 0 <= v < 0x1_0000_0000_0000_0000
  {
    w % 0x1_0000_0000_0000_0000
  }

  /** Reading it back truncates to 32 bits and takes them as signed. */
  function FromExo(v: int): Word
  {
    var low := v % 0x1_0000_0000;
    if low < 0x8000_0000 then low else low - 0x1_0000_0000
  }

  lemma ExoRoundTrip(w: Word)
    ensures FromExo(ToExo(w)) == w
  {
  }

  function RegsToExo(regs: seq<Word>): (r: seq<int>)
    requires |regs| == 32
    ensures |r| == 6
  {
    seq(6, i requires 0 <= i < 6 => ToExo(regs[FIRST_REG + i]))
  }

  /** Register i once r2 to r7 have been taken from a trace. */
  function NewReg(regs: seq<Word>, vals: seq<int>, i: nat): Word
    requires |regs| == 32 && |vals| == 6 && i < 32
  {
    if FIRST_REG <= i <= LAST_REG then FromExo(vals[i - FIRST_REG]) else regs[i]
  }

  function WithRegs(regs: seq<Word>, vals: seq<int>): (r: seq<Word>)
    requires |regs| == 32 && |vals| == 6
    ensures |r| == 32
  {
    seq(32, i requires 0 <= i < 32 => NewReg(regs, vals, i))
  }

  // ---- Recording -------------------------------------------------------------------------

  const BLOB_TAIL_SIZE: nat := 256

  datatype Blob = Blob(addr: Addr, data: seq<Byte>)

  /** One memory access of a system call: n bytes read, or some bytes written. */
  datatype Transfer = Fetch(addr: Addr, n: nat) | Deposit(addr: Addr, bytes: seq<Byte>)

  /** The bytes of an access, each with its address. */
  function AccessBytes(a: Addr, bytes: seq<Byte>): (r: seq<(Addr, Byte)>)
    ensures |r| == |bytes|
  {
    seq(|bytes|, i requires 0 <= i < |bytes| => (Plus(a, i), bytes[i]))
  }

  function Flatten(blobs: seq<Blob>): seq<(Addr, Byte)>
  {
    if blobs == [] then []
    else
      var last := blobs[|blobs| - 1];
      Flatten(blobs[..|blobs| - 1]) + AccessBytes(last.addr, last.data)
  }

  /** The recorder's list of blobs and the size of the last one's buffer. */
  datatype Recording = Recording(blobs: seq<Blob>, maxsize: nat)

  /** An access that continues the last blob and fits its buffer is appended to it. */
  predicate Continues(r: Recording, addr: Addr, n: nat)
  {
    r.blobs != [] &&
    var last := r.blobs[|r.blobs| - 1];
    Plus(last.addr, |last.data|) == addr && |last.data| + n < r.maxsize
  }

  function Recorded(r: Recording, addr: Addr, bytes: seq<Byte>): Recording
  {
    if Continues(r, addr, |bytes|) then
      var k := |r.blobs| - 1;
      Recording(r.blobs[..k] + [Blob(r.blobs[k].addr, r.blobs[k].data + bytes)], r.maxsize)
    else
      Recording(r.blobs + [Blob(addr, bytes)], |bytes| + BLOB_TAIL_SIZE)
  }

  lemma AccessBytesAppend(a: Addr, xs: seq<Byte>, ys: seq<Byte>)
    ensures AccessBytes(a, xs + ys) == AccessBytes(a, xs) + AccessBytes(Plus(a, |xs|), ys)
  {
    var l, r := AccessBytes(a, xs + ys), AccessBytes(a, xs) + AccessBytes(Plus(a, |xs|), ys);
    forall i | 0 <= i < |l|
      ensures l[i] == r[i]
    {
      if i >= |xs| {
        PlusPlus(a, |xs|, i - |xs|);
      }
      hide Plus;
    }
  }

  lemma FlattenAppend(blobs: seq<Blob>, b: Blob)
    ensures Flatten(blobs + [b]) == Flatten(blobs) + AccessBytes(b.addr, b.data)
  {
    assert (blobs + [b])[..|blobs|] == blobs;
  }

  /** Coalescing loses nothing: the blobs flatten to the accesses in order. */
  lemma RecordedFlattens(r: Recording, addr: Addr, bytes: seq<Byte>)
    ensures Flatten(Recorded(r, addr, bytes).blobs) == Flatten(r.blobs) + AccessBytes(addr, bytes)
  {
    hide Flatten, AccessBytes;
    if Continues(r, addr, |bytes|) {
      var k := |r.blobs| - 1;
      var last := r.blobs[k];
      AccessBytesAppend(last.addr, last.data, bytes);
      FlattenAppend(r.blobs[..k], last);
      FlattenAppend(r.blobs[..k], Blob(last.addr, last.data + bytes));
      assert r.blobs == r.blobs[..k] + [last];
    } else {
      FlattenAppend(r.blobs, Blob(addr, bytes));
    }
  }

  // ---- A system call ---------------------------------------------------------------------

  /** A system call as the tracer sees it: its memory accesses in order, and then the break point and
      the values of r2 to r7 that it leaves. */
  datatype Syscall = Syscall(accesses: seq<Transfer>, brk: Addr, results: seq<Word>)

  predicate ReadsThenWrites(ops: seq<Transfer>)
  {
    forall i, j :: 0 <= i < j < |ops| && ops[i].Deposit? ==> ops[j].Deposit?
  }

  /** What one transfer does to memory and to the two recordings. */
  function Effect(m: Pages, op: Transfer): (r: Pages)
    requires WellFormed(m)
    ensures WellFormed(r)
  {
    match op
    case Fetch(_, _) => m
    case Deposit(a, bytes) => StoreBytes(m, a, bytes)
  }

  function NotedInput(r: Recording, m: Pages, op: Transfer): Recording
    requires WellFormed(m)
  {
    match op
    case Fetch(a, n) => Recorded(r, a, LoadBytes(m, a, n))
    case Deposit(_, _) => r
  }

  function NotedOutput(r: Recording, op: Transfer): Recording
  {
    match op
    case Fetch(_, _) => r
    case Deposit(a, bytes) => Recorded(r, a, bytes)
  }

  /** Memory after the transfers. */
  function Performed(m: Pages, ops: seq<Transfer>): (r: Pages)
    requires WellFormed(m)
    ensures WellFormed(r)
  {
    if ops == [] then m else Effect(Performed(m, ops[..|ops| - 1]), ops[|ops| - 1])
  }

  /** What the transfers make of the input and output recordings, from memory m. */
  function Inputs(m: Pages, ops: seq<Transfer>): Recording
    requires WellFormed(m)
  {
    if ops == [] then Recording([], 0)
    else
      var before := ops[..|ops| - 1];
      NotedInput(Inputs(m, before), Performed(m, before), ops[|ops| - 1])
  }

  function Outputs(ops: seq<Transfer>): Recording
  {
    if ops == [] then Recording([], 0)
    else NotedOutput(Outputs(ops[..|ops| - 1]), ops[|ops| - 1])
  }

  /** The bytes read and written, access by access, without any coalescing. */
  function RawReads(m: Pages, ops: seq<Transfer>): seq<(Addr, Byte)>
    requires WellFormed(m)
  {
    if ops == [] then []
    else
      var before, last := ops[..|ops| - 1], ops[|ops| - 1];
      match last
      case Fetch(a, n) => RawReads(m, before) + AccessBytes(a, LoadBytes(Performed(m, before), a, n))
      case Deposit(_, _) => RawReads(m, before)
  }

  function RawWrites(ops: seq<Transfer>): seq<(Addr, Byte)>
  {
    if ops == [] then []
    else
      var before, last := ops[..|ops| - 1], ops[|ops| - 1];
      match last
      case Fetch(_, _) => RawWrites(before)
      case Deposit(a, bytes) => RawWrites(before) + AccessBytes(a, bytes)
  }

  lemma {:induction false} RecordingsFlatten(m: Pages, ops: seq<Transfer>)
    requires WellFormed(m)
    ensures Flatten(Inputs(m, ops).blobs) == RawReads(m, ops)
    ensures Flatten(Outputs(ops).blobs) == RawWrites(ops)
  {
    hide Recorded, AccessBytes, LoadBytes, Performed;
    if ops != [] {
      var before, last := ops[..|ops| - 1], ops[|ops| - 1];
      RecordingsFlatten(m, before);
      match last
      case Fetch(a, n) => RecordedFlattens(Inputs(m, before), a, LoadBytes(Performed(m, before), a, n));
      case Deposit(a, bytes) => RecordedFlattens(Outputs(before), a, bytes);
    }
  }

  // ---- Transfers byte by byte ------------------------------------------------------------------

  function Size(op: Transfer): nat
  {
    match op
    case Fetch(_, n) => n
    case Deposit(_, bytes) => |bytes|
  }

  /** The accesses of a copy: one for each byte. */
  function OneByOne(op: Transfer): (r: seq<Transfer>)
    ensures |r| == Size(op)
    ensures forall i :: 0 <= i < |r| ==> Size(r[i]) == 1 && r[i].Deposit? == op.Deposit?
  {
    match op
    case Fetch(a, n) => seq(n, i requires 0 <= i < n => Fetch(Plus(a, i), 1))
    case Deposit(a, bytes) => seq(|bytes|, i requires 0 <= i < |bytes| => Deposit(Plus(a, i), [bytes[i]]))
  }

  /** A call that moves its data by copies. */
  function ByteByByte(ops: seq<Transfer>): (r: seq<Transfer>)
    ensures forall i :: 0 <= i < |r| ==> Size(r[i]) == 1
  {
    if ops == [] then [] else ByteByByte(ops[..|ops| - 1]) + OneByOne(ops[|ops| - 1])
  }

  lemma {:induction false} PerformedAppend(m: Pages, xs: seq<Transfer>, ys: seq<Transfer>)
    requires WellFormed(m)
    ensures Performed(m, xs + ys) == Performed(Performed(m, xs), ys)
  {
    hide Effect;
    if ys == [] {
      assert xs + ys == xs;
    } else {
      var k := |ys| - 1;
      PerformedAppend(m, xs, ys[..k]);
      assert (xs + ys)[..|xs + ys| - 1] == xs + ys[..k];
    }
  }

  lemma {:induction false} RawAppend(m: Pages, xs: seq<Transfer>, ys: seq<Transfer>)
    requires WellFormed(m)
    ensures RawReads(m, xs + ys) == RawReads(m, xs) + RawReads(Performed(m, xs), ys)
    ensures RawWrites(xs + ys) == RawWrites(xs) + RawWrites(ys)
  {
    hide Performed, AccessBytes, LoadBytes;
    if ys == [] {
      assert xs + ys == xs;
    } else {
      var k := |ys| - 1;
      RawAppend(m, xs, ys[..k]);
      PerformedAppend(m, xs, ys[..k]);
      assert (xs + ys)[..|xs + ys| - 1] == xs + ys[..k] && (xs + ys)[|xs + ys| - 1] == ys[k];
    }
  }

  /** One transfer in bytes: what it reads, what it writes and what it leaves. */
  lemma {:induction false} OneByOneIsWhole(m: Pages, op: Transfer)
    requires WellFormed(m)
    ensures Performed(m, OneByOne(op)) == Effect(m, op)
    ensures RawReads(m, OneByOne(op)) == RawReads(m, [op])
    ensures RawWrites(OneByOne(op)) == RawWrites([op])
    decreases Size(op)
  {
    hide Performed, RawReads, RawWrites;
    OneRaw(m, op);
    if Size(op) == 0 {
      NoneRaw(m, op);
    } else {
      var k := Size(op) - 1;
      var before := if op.Fetch? then Fetch(op.addr, k) else Deposit(op.addr, op.bytes[..k]);
      var last := if op.Fetch? then Fetch(Plus(op.addr, k), 1) else Deposit(Plus(op.addr, k), [op.bytes[k]]);
      OneByOneIsWhole(m, before);
      assert OneByOne(op) == OneByOne(before) + [last];
      PerformedAppend(m, OneByOne(before), [last]);
      RawAppend(m, OneByOne(before), [last]);
      OneRaw(m, before);
      OneRaw(Effect(m, before), last);
      LastByte(m, op, before, last);
    }
  }

  lemma OneRaw(m: Pages, op: Transfer)
    requires WellFormed(m)
    ensures Performed(m, [op]) == Effect(m, op)
    ensures RawReads(m, [op]) == if op.Fetch? then AccessBytes(op.addr, LoadBytes(m, op.addr, op.n)) else []
    ensures RawWrites([op]) == if op.Fetch? then [] else AccessBytes(op.addr, op.bytes)
  {
    hide AccessBytes, LoadBytes, StoreBytes;
    assert [op][..0] == [];
  }

  lemma NoneRaw(m: Pages, op: Transfer)
    requires WellFormed(m) && Size(op) == 0
    ensures Performed(m, OneByOne(op)) == Effect(m, op)
    ensures RawReads(m, OneByOne(op)) == RawReads(m, [op]) && RawWrites(OneByOne(op)) == RawWrites([op])
  {
    OneRaw(m, op);
  }

  lemma LastByte(m: Pages, op: Transfer, before: Transfer, last: Transfer)
    requires WellFormed(m) && Size(op) > 0
    requires var k := Size(op) - 1;
             && before == (if op.Fetch? then Fetch(op.addr, k) else Deposit(op.addr, op.bytes[..k]))
             && last == if op.Fetch? then Fetch(Plus(op.addr, k), 1) else Deposit(Plus(op.addr, k), [op.bytes[k]])
    ensures Effect(Effect(m, before), last) == Effect(m, op)
    ensures op.Fetch? ==> AccessBytes(op.addr, LoadBytes(m, op.addr, op.n)) ==
                          AccessBytes(before.addr, LoadBytes(m, before.addr, before.n)) +
                          AccessBytes(last.addr, LoadBytes(m, last.addr, 1))
    ensures op.Deposit? ==> AccessBytes(op.addr, op.bytes) ==
                            AccessBytes(before.addr, before.bytes) + AccessBytes(last.addr, last.bytes)
  {
    hide AccessBytes, Load, StoreBytes;
    var k := Size(op) - 1;
    match op
    case Fetch(a, n) =>
      PlusPlus(a, k, 0);
      hide Plus;
      assert LoadBytes(m, a, n) == LoadBytes(m, a, k) + LoadBytes(m, Plus(a, k), 1);
      AccessBytesAppend(a, LoadBytes(m, a, k), LoadBytes(m, Plus(a, k), 1));
    case Deposit(a, bytes) =>
      assert bytes == bytes[..k] + [bytes[k]];
      AccessBytesAppend(a, bytes[..k], [bytes[k]]);
      StoreBytesAppend(m, a, bytes[..k], [bytes[k]]);
  }

  /** A call that moves its data byte by byte leaves the memory, and gives the recorder the bytes, that the same
      transfers in one piece would. */
  lemma {:induction false} ByteByByteIsWhole(m: Pages, ops: seq<Transfer>)
    requires WellFormed(m)
    ensures Performed(m, ByteByByte(ops)) == Performed(m, ops)
    ensures RawReads(m, ByteByByte(ops)) == RawReads(m, ops) && RawWrites(ByteByByte(ops)) == RawWrites(ops)
    ensures ReadsThenWrites(ops) ==> ReadsThenWrites(ByteByByte(ops))
  {
    hide Performed, RawReads, RawWrites, ReadsThenWrites, OneByOne;
    if ops == [] {
      NoBytes();
    } else {
      var k := |ops| - 1;
      var xs, ys := ops[..k], [ops[k]];
      ByteByByteIsWhole(m, xs);
      OneByOneIsWhole(Performed(m, xs), ops[k]);
      assert ops == xs + ys;
      PerformedAppend(m, xs, ys);
      RawAppend(m, xs, ys);
      OneRaw(Performed(m, xs), ops[k]);
      PerformedAppend(m, ByteByByte(xs), OneByOne(ops[k]));
      RawAppend(m, ByteByByte(xs), OneByOne(ops[k]));
      if ReadsThenWrites(ops) {
        BytesInOrder(ops);
      }
    }
  }

  lemma NoBytes()
    ensures ByteByByte([]) == [] && ReadsThenWrites([])
  {
  }

  lemma {:induction false} BytesKind(ops: seq<Transfer>, deposit: bool)
    requires forall i :: 0 <= i < |ops| ==> ops[i].Deposit? == deposit
    ensures forall i :: 0 <= i < |ByteByByte(ops)| ==> ByteByByte(ops)[i].Deposit? == deposit
  {
    hide OneByOne;
    if ops != [] {
      BytesKind(ops[..|ops| - 1], deposit);
    }
  }

  lemma {:induction false} BytesInOrder(ops: seq<Transfer>)
    requires ReadsThenWrites(ops)
    ensures ReadsThenWrites(ByteByByte(ops))
  {
    if ops != [] {
      var k := |ops| - 1;
      assert forall i :: 0 <= i < k ==> ops[..k][i] == ops[i];
      BytesInOrder(ops[..k]);
      if ops[k].Fetch? {
        BytesKind(ops[..k], false);
      }
    }
  }

  datatype Transaction = Transaction(
    icnt: int, pc: Addr,
    inRegs: seq<int>, inMem: seq<Blob>,
    outBrk: Addr, outRegs: seq<int>, outMem: seq<Blob>)

  function ResultsToExo(results: seq<Word>): (r: seq<int>)
    requires |results| == 6
    ensures |r| == 6
  {
    seq(6, i requires 0 <= i < 6 => ToExo(results[i]))
  }

  /** The machine after a system call, and the transaction that describes it. */
  function After(s: Machine, c: Syscall): (r: Machine)
    requires |c.results| == 6
  {
    s.(regs := WithRegs(s.regs, ResultsToExo(c.results)), brk := c.brk, mem := Performed(s.mem, c.accesses))
  }

  function TransactionOf(icnt: int, s: Machine, c: Syscall): (t: Transaction)
    requires |c.results| == 6
  {
    var s' := After(s, c);
    Transaction(icnt, s'.pc, RegsToExo(s.regs), Inputs(s.mem, c.accesses).blobs,
                s'.brk, RegsToExo(s'.regs), Outputs(c.accesses).blobs)
  }

  // ---- Replaying -------------------------------------------------------------------------

  datatype Mismatch = IcntMismatch | PcMismatch | RegMismatch(reg: nat) | MemMismatch(addr: Addr) | BadTransaction

  datatype ReplayOutcome = Ok(state: Machine) | Fatal(why: Mismatch)

  predicate Holds(m: Pages, flat: seq<(Addr, Byte)>)
    requires WellFormed(m)
  {
    forall i :: 0 <= i < |flat| ==> Load(m, flat[i].0) == flat[i].1
  }

  function Deposited(m: Pages, flat: seq<(Addr, Byte)>): (r: Pages)
    requires WellFormed(m)
    ensures WellFormed(r)
  {
    if flat == [] then m
    else Store(Deposited(m, flat[..|flat| - 1]), flat[|flat| - 1].0, flat[|flat| - 1].1)
  }

  /** A register agrees with its record. */
  predicate Agrees(regs: seq<Word>, vals: seq<int>, i: nat)
    requires |regs| == 32 && i < 6 && i < |vals|
  {
    regs[FIRST_REG + i] == FromExo(vals[i])
  }

  predicate RegsMatch(regs: seq<Word>, vals: seq<int>)
    requires |regs| == 32 && |vals| == 6
  {
    forall i :: 0 <= i < 6 ==> Agrees(regs, vals, i)
  }

  /** The replayer accepts a state exactly when it agrees with every recorded input. */
  predicate Accepts(t: Transaction, icnt: int, s: Machine)
  {
    && |t.inRegs| == 6 && |t.outRegs| == 6
    && icnt == t.icnt && s.pc == t.pc
    && RegsMatch(s.regs, t.inRegs)
    && Holds(s.mem, Flatten(t.inMem))
  }

  /** The first register that disagrees with the record, from position i on; a record of the wrong length is
      bad where that shows. */
  function RegsComplaint(regs: seq<Word>, vals: seq<int>, i: nat): seq<Mismatch>
    requires |regs| == 32 && i <= 6
    decreases 6 - i
  {
    if i == 6 then (if |vals| > 6 then [BadTransaction] else [])
    else if i >= |vals| then [BadTransaction]
    else if !Agrees(regs, vals, i) then [RegMismatch(FIRST_REG + i)]
    else RegsComplaint(regs, vals, i + 1)
  }

  /** The first byte that disagrees with memory. */
  function FlatComplaint(m: Pages, flat: seq<(Addr, Byte)>): seq<Mismatch>
    requires WellFormed(m)
  {
    if flat == [] then []
    else
      var k := |flat| - 1;
      var before := FlatComplaint(m, flat[..k]);
      if before != [] then before
      else if Load(m, flat[k].0) != flat[k].1 then [MemMismatch(flat[k].0)]
      else []
  }

  /** The check that a transaction fails first, in the replayer's order: count, PC, registers, memory, and
      the number of results. */
  function Complaint(t: Transaction, icnt: int, s: Machine): seq<Mismatch>
  {
    if icnt != t.icnt then [IcntMismatch]
    else if s.pc != t.pc then [PcMismatch]
    else
      var r := RegsComplaint(s.regs, t.inRegs, 0);
      if r != [] then r
      else
        var f := FlatComplaint(s.mem, Flatten(t.inMem));
        if f != [] then f else if |t.outRegs| != 6 then [BadTransaction] else []
  }

  lemma {:induction false} NoRegsComplaint(regs: seq<Word>, vals: seq<int>, i: nat)
    requires |regs| == 32 && i <= 6 && i <= |vals|
    ensures RegsComplaint(regs, vals, i) == [] <==>
              |vals| == 6 && forall j :: i <= j < 6 ==> Agrees(regs, vals, j)
    decreases 6 - i
  {
    hide Agrees;
    if i < 6 && i < |vals| && Agrees(regs, vals, i) {
      NoRegsComplaint(regs, vals, i + 1);
    }
  }

  lemma {:induction false} NoFlatComplaint(m: Pages, flat: seq<(Addr, Byte)>)
    requires WellFormed(m)
    ensures FlatComplaint(m, flat) == [] <==> Holds(m, flat)
  {
    hide Load;
    if flat != [] {
      var k := |flat| - 1;
      NoFlatComplaint(m, flat[..k]);
      assert forall i :: 0 <= i < k ==> flat[..k][i] == flat[i];
    }
  }

  /** There is nothing to complain of exactly in the states that a transaction accepts. */
  lemma AcceptsUnlessComplaint(t: Transaction, icnt: int, s: Machine)
    ensures Complaint(t, icnt, s) == [] <==> Accepts(t, icnt, s)
  {
    hide RegsComplaint, FlatComplaint, Holds, Flatten, FromExo;
    NoRegsComplaint(s.regs, t.inRegs, 0);
    NoFlatComplaint(s.mem, Flatten(t.inMem));
  }

  lemma {:induction false} FlatComplaintAppend(m: Pages, x: seq<(Addr, Byte)>, y: seq<(Addr, Byte)>)
    requires WellFormed(m)
    ensures FlatComplaint(m, x + y) ==
            if FlatComplaint(m, x) != [] then FlatComplaint(m, x) else FlatComplaint(m, y)
  {
    hide Load;
    if y == [] {
      assert x + y == x;
    } else {
      var k := |y| - 1;
      FlatComplaintAppend(m, x, y[..k]);
      assert (x + y)[..|x + y| - 1] == x + y[..k] && (x + y)[|x + y| - 1] == y[k];
    }
  }

  /** What a transaction makes of a state that it accepts. */
  function Replay(t: Transaction, s: Machine): Machine
    requires |t.outRegs| == 6
  {
    s.(brk := t.outBrk, regs := WithRegs(s.regs, t.outRegs), mem := Deposited(s.mem, Flatten(t.outMem)))
  }

  lemma {:induction false} DepositedAppend(m: Pages, xs: seq<(Addr, Byte)>, ys: seq<(Addr, Byte)>)
    requires WellFormed(m)
    ensures Deposited(m, xs + ys) == Deposited(Deposited(m, xs), ys)
  {
    hide Store;
    if ys == [] {
      assert xs + ys == xs;
    } else {
      var k := |ys| - 1;
      DepositedAppend(m, xs, ys[..k]);
      assert (xs + ys)[..|xs + ys| - 1] == xs + ys[..k];
    }
  }

  lemma {:induction false} DepositedBytes(m: Pages, a: Addr, bytes: seq<Byte>)
    requires WellFormed(m)
    ensures Deposited(m, AccessBytes(a, bytes)) == StoreBytes(m, a, bytes)
  {
    hide Store, Plus;
    if bytes != [] {
      var k := |bytes| - 1;
      DepositedBytes(m, a, bytes[..k]);
      assert AccessBytes(a, bytes)[..k] == AccessBytes(a, bytes[..k]);
    }
  }

  /** Byte-wise replay of the raw writes performs the accesses. */
  lemma {:induction false} RawWritesPerform(m: Pages, ops: seq<Transfer>)
    requires WellFormed(m)
    ensures Deposited(m, RawWrites(ops)) == Performed(m, ops)
  {
    hide Deposited, AccessBytes, StoreBytes;
    if ops == [] {
      assert Deposited(m, []) == m by { DepositedNothing(m); }
    } else {
      var before, last := ops[..|ops| - 1], ops[|ops| - 1];
      RawWritesPerform(m, before);
      if last.Deposit? {
        DepositedAppend(m, RawWrites(before), AccessBytes(last.addr, last.bytes));
        DepositedBytes(Performed(m, before), last.addr, last.bytes);
      }
    }
  }

  lemma DepositedNothing(m: Pages)
    requires WellFormed(m)
    ensures Deposited(m, []) == m
  {
  }

  lemma LoadedHolds(m: Pages, a: Addr, n: nat)
    requires WellFormed(m)
    ensures Holds(m, AccessBytes(a, LoadBytes(m, a, n)))
  {
    hide Load, Plus;
  }

  lemma {:induction false} NoWritesYet(m: Pages, ops: seq<Transfer>)
    requires WellFormed(m) && forall i :: 0 <= i < |ops| ==> ops[i].Fetch?
    ensures Performed(m, ops) == m
  {
    if ops != [] {
      NoWritesYet(m, ops[..|ops| - 1]);
    }
  }

  /** When all reads come before all writes, the recorded inputs hold in the starting memory. */
  lemma {:induction false} RawReadsHold(m: Pages, ops: seq<Transfer>)
    requires WellFormed(m) && ReadsThenWrites(ops)
    ensures Holds(m, RawReads(m, ops))
  {
    hide AccessBytes, LoadBytes, Load, Performed;
    if ops != [] {
      var before, last := ops[..|ops| - 1], ops[|ops| - 1];
      assert forall i :: 0 <= i < |before| ==> before[i] == ops[i];
      RawReadsHold(m, before);
      if last.Fetch? {
        NoWritesYet(m, before);
        LoadedHolds(m, last.addr, last.n);
      }
    }
  }

  lemma RegsRoundTrip(s: Machine, c: Syscall)
    requires |c.results| == 6
    ensures RegsMatch(s.regs, RegsToExo(s.regs))
    ensures WithRegs(s.regs, RegsToExo(After(s, c).regs)) == After(s, c).regs
  {
    forall w: Word
      ensures FromExo(ToExo(w)) == w
    {
      ExoRoundTrip(w);
    }
    hide ToExo, FromExo;
    var vals := RegsToExo(After(s, c).regs);
    forall i | FIRST_REG <= i <= LAST_REG
      ensures FromExo(vals[i - FIRST_REG]) == After(s, c).regs[i]
    {
    }
  }

  /** Replaying a system call from the state it was recorded in passes every check and ends in the
      same state: memory, break point and registers. */
  lemma ReplayReproduces(icnt: int, s: Machine, c: Syscall)
    requires |c.results| == 6 && ReadsThenWrites(c.accesses)
    ensures Accepts(TransactionOf(icnt, s, c), icnt, s)
    ensures Replay(TransactionOf(icnt, s, c), s) == After(s, c)
  {
    RecordingsFlatten(s.mem, c.accesses);
    RawReadsHold(s.mem, c.accesses);
    RawWritesPerform(s.mem, c.accesses);
    RegsRoundTrip(s, c);
    hide Inputs, Outputs, Flatten, Deposited, Performed, RegsToExo, WithRegs, Holds, RegsMatch;
  }

  // ---- Recording a replay ------------------------------------------------------------------------

  /** The accesses of a replay: every recorded input byte is fetched, then every output byte deposited. */
  function Fetches(flat: seq<(Addr, Byte)>): (ops: seq<Transfer>)
    ensures |ops| == |flat|
    ensures forall i :: 0 <= i < |ops| ==> ops[i] == Fetch(flat[i].0, 1)
  {
    if flat == [] then [] else Fetches(flat[..|flat| - 1]) + [Fetch(flat[|flat| - 1].0, 1)]
  }

  function Deposits(flat: seq<(Addr, Byte)>): (ops: seq<Transfer>)
    ensures |ops| == |flat|
    ensures forall i :: 0 <= i < |ops| ==> ops[i] == Deposit(flat[i].0, [flat[i].1])
  {
    if flat == [] then [] else Deposits(flat[..|flat| - 1]) + [Deposit(flat[|flat| - 1].0, [flat[|flat| - 1].1])]
  }

  /** The replay of a transaction as a system call that is traced in its turn. */
  function ReplayCall(t: Transaction): Syscall
    requires |t.outRegs| == 6
  {
    Syscall(Fetches(Flatten(t.inMem)) + Deposits(Flatten(t.outMem)), t.outBrk,
            seq(6, i requires 0 <= i < 6 => FromExo(t.outRegs[i])))
  }

  lemma {:induction false} FetchesRead(m: Pages, flat: seq<(Addr, Byte)>)
    requires WellFormed(m) && Holds(m, flat)
    ensures RawReads(m, Fetches(flat)) == flat
    ensures RawWrites(Fetches(flat)) == [] && Performed(m, Fetches(flat)) == m
  {
    hide Load, Holds;
    if flat != [] {
      var k := |flat| - 1;
      HoldsPrefix(m, flat, k);
      FetchesRead(m, flat[..k]);
      assert Fetches(flat)[..k] == Fetches(flat[..k]);
      OneByte(m, flat[k].0);
    }
  }

  lemma HoldsPrefix(m: Pages, flat: seq<(Addr, Byte)>, k: nat)
    requires WellFormed(m) && Holds(m, flat) && k < |flat|
    ensures Holds(m, flat[..k]) && Load(m, flat[k].0) == flat[k].1
  {
    hide Load;
  }

  lemma OneByte(m: Pages, a: Addr)
    requires WellFormed(m)
    ensures AccessBytes(a, LoadBytes(m, a, 1)) == [(a, Load(m, a))]
  {
    hide Load;
    assert Plus(a, 0) == a;
  }

  /** One more write records its bytes and no input. */
  lemma OneDeposit(m: Pages, ops: seq<Transfer>, a: Addr, b: Byte)
    requires WellFormed(m)
    ensures RawReads(m, ops + [Deposit(a, [b])]) == RawReads(m, ops)
    ensures RawWrites(ops + [Deposit(a, [b])]) == RawWrites(ops) + [(a, b)]
  {
    hide Performed, LoadBytes;
    var all := ops + [Deposit(a, [b])];
    assert all[..|all| - 1] == ops;
    assert AccessBytes(a, [b]) == [(a, b)] by { assert Plus(a, 0) == a; }
  }

  /** Deposits after fetches: the reads stay, the writes are those of the deposits. */
  lemma {:induction false} DepositsWrite(m: Pages, ops: seq<Transfer>, flat: seq<(Addr, Byte)>)
    requires WellFormed(m)
    ensures RawReads(m, ops + Deposits(flat)) == RawReads(m, ops)
    ensures RawWrites(ops + Deposits(flat)) == RawWrites(ops) + flat
  {
    hide RawReads, RawWrites;
    if flat == [] {
      assert ops + Deposits(flat) == ops;
    } else {
      var k := |flat| - 1;
      var before := ops + Deposits(flat[..k]);
      DepositsWrite(m, ops, flat[..k]);
      OneDeposit(m, before, flat[k].0, flat[k].1);
      assert ops + Deposits(flat) == before + [Deposit(flat[k].0, [flat[k].1])];
    }
  }

  /** A replay that is accepted and recorded again gives a transaction with the same input bytes and the
      same output bytes, whatever its blobs. The two are interchangeable: in every state both are accepted
      or neither, and they lead to the same state. */
  lemma RerecordedReplays(t: Transaction, icnt: int, s: Machine, x: Machine)
    requires Accepts(t, icnt, s)
    ensures var c := ReplayCall(t);
            var t' := TransactionOf(icnt, s, c);
            && ReadsThenWrites(c.accesses)
            && Flatten(t'.inMem) == Flatten(t.inMem) && Flatten(t'.outMem) == Flatten(t.outMem)
            && After(s, c) == Replay(t, s)
            && (Accepts(t', icnt, x) <==> Accepts(t, icnt, x))
            && Replay(t', x) == Replay(t, x)
  {
    var c := ReplayCall(t);
    RerecordedBytes(t, s);
    RerecordedRegs(t, icnt, s, x);
    RawWritesPerform(s.mem, c.accesses);
    hide Inputs, Outputs, Flatten, Deposited, Performed, RegsToExo, WithRegs, Holds, RegsMatch, RawReads, RawWrites,
         Fetches, Deposits, ResultsToExo, ReadsThenWrites, FromExo;
  }

  lemma RerecordedBytes(t: Transaction, s: Machine)
    requires |t.outRegs| == 6 && Holds(s.mem, Flatten(t.inMem))
    ensures var ops := ReplayCall(t).accesses;
            && ReadsThenWrites(ops)
            && Flatten(Inputs(s.mem, ops).blobs) == Flatten(t.inMem)
            && RawWrites(ops) == Flatten(t.outMem) == Flatten(Outputs(ops).blobs)
  {
    hide Inputs, Outputs, Flatten, Performed, RawReads, RawWrites, Holds, Fetches, Deposits;
    var x, y := Flatten(t.inMem), Flatten(t.outMem);
    FetchesRead(s.mem, x);
    DepositsWrite(s.mem, Fetches(x), y);
    RecordingsFlatten(s.mem, Fetches(x) + Deposits(y));
    assert [] + y == y;
  }

  /** Records of registers that are read as the same words are interchangeable. */
  lemma SameWordsSameRegs(regs: seq<Word>, vals: seq<int>, vals': seq<int>)
    requires |regs| == 32 && |vals| == |vals'| == 6
    requires forall i :: 0 <= i < 6 ==> FromExo(vals[i]) == FromExo(vals'[i])
    ensures RegsMatch(regs, vals) <==> RegsMatch(regs, vals')
    ensures WithRegs(regs, vals) == WithRegs(regs, vals')
  {
    hide FromExo;
    assert forall i :: 0 <= i < 6 ==> Agrees(regs, vals, i) == Agrees(regs, vals', i);
  }

  /** Registers recorded again are read as the same words. */
  lemma RerecordedRegs(t: Transaction, icnt: int, s: Machine, x: Machine)
    requires |t.inRegs| == 6 && |t.outRegs| == 6 && RegsMatch(s.regs, t.inRegs)
    ensures var t' := TransactionOf(icnt, s, ReplayCall(t));
            && (RegsMatch(x.regs, t'.inRegs) <==> RegsMatch(x.regs, t.inRegs))
            && WithRegs(x.regs, t'.outRegs) == WithRegs(x.regs, t.outRegs)
            && WithRegs(s.regs, ResultsToExo(ReplayCall(t).results)) == WithRegs(s.regs, t.outRegs)
  {
    hide ToExo, FromExo, Inputs, Outputs, Performed, Fetches, Deposits, Flatten;
    var t' := TransactionOf(icnt, s, ReplayCall(t));
    var results := ResultsToExo(ReplayCall(t).results);
    forall i | 0 <= i < 6
      ensures FromExo(t'.inRegs[i]) == FromExo(t.inRegs[i])
      ensures FromExo(results[i]) == FromExo(t.outRegs[i])
      ensures FromExo(t'.outRegs[i]) == FromExo(t.outRegs[i])
    {
      assert Agrees(s.regs, t.inRegs, i);
      ExoRoundTrip(s.regs[FIRST_REG + i]);
      ExoRoundTrip(FromExo(t.outRegs[i]));
    }
    hide *;
    SameWordsSameRegs(x.regs, t'.inRegs, t.inRegs);
    SameWordsSameRegs(x.regs, t'.outRegs, t.outRegs);
    SameWordsSameRegs(s.regs, results, t.outRegs);
  }
}
