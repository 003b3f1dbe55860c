// The recorder and replayer of Lab1-Hazards/eio.c as the program holds them: blob buffers that grow in
// place, the record of the last blob, and machine state updated by loops over transactions.
module EioMachine {
  import opened FlatMemory
  import opened PageTable
  import opened MemoryAccess
  import opened Eio

  /** A blob under construction: its buffer has room for a tail. */
  class BlobBuffer {
    const addr: Addr
    const data: array<Byte>
    var size: nat

    constructor (addr: Addr, capacity: nat)
      ensures this.addr == addr && fresh(data) && data.Length == capacity && size == 0
    {
      this.addr := addr;
      data := new Byte[capacity](_ => 0);
      size := 0;
    }
  }

  method CopyIn(dst: array<Byte>, pos: nat, src: array<Byte>, at: nat, n: nat)
    requires dst != src && pos + n <= dst.Length && at + n <= src.Length
    modifies dst
    ensures dst[..pos + n] == old(dst[..pos]) + src[at..at + n]
  {
    var i := 0;
    while i < n
      invariant 0 <= i <= n
      invariant dst[..pos + i] == old(dst[..pos]) + src[at..at + i]
    {
      dst[pos + i] := src[at + i];
      i := i + 1;
    }
  }

  /** What recording an access makes of the list. */
  lemma RecordedBy(r: Recording, a: Addr, bytes: seq<Byte>)
    ensures Continues(r, a, |bytes|) ==>
              (var k := |r.blobs| - 1;
               k >= 0 && Recorded(r, a, bytes) ==
                         Recording(r.blobs[..k] + [Blob(r.blobs[k].addr, r.blobs[k].data + bytes)], r.maxsize))
    ensures !Continues(r, a, |bytes|) ==>
              Recorded(r, a, bytes) == Recording(r.blobs + [Blob(a, bytes)], |bytes| + BLOB_TAIL_SIZE)
  {
  }

  /** The list of blobs for one direction and the record of the last one. */
  class Recorder {
    var list: seq<BlobBuffer>
    var addr: Addr
    var size: nat
    var maxsize: nat
    var blob: BlobBuffer?
    ghost var Repr: set<object>

    ghost predicate Valid()
      reads this, Repr
      ensures Valid() ==> this in Repr
    {
      && this in Repr
      && (forall i :: 0 <= i < |list| ==>
            list[i] in Repr && list[i].data in Repr && list[i].size <= list[i].data.Length)
      && (forall i, j :: 0 <= i < j < |list| ==> list[i] != list[j] && list[i].data != list[j].data)
      && (if list == [] then blob == null && maxsize == 0
          else blob == list[|list| - 1] && addr == blob.addr && size == blob.size
               && maxsize == blob.data.Length && size < maxsize)
    }

    ghost function Abs(): (r: Recording)
      requires Valid()
      reads this, Repr
    {
      Recording(seq(|list|, i requires 0 <= i < |list| && Valid() reads this, Repr => Contents(i)), maxsize)
    }

    ghost function Contents(i: nat): Blob
      requires Valid() && i < |list|
      reads this, Repr
    {
      Blob(list[i].addr, list[i].data[..list[i].size])
    }

    constructor ()
      ensures Valid() && fresh(Repr) && Abs() == Recording([], 0)
    {
      list, blob := [], null;
      addr, size, maxsize := 0, 0, 0;
      Repr := {this};
    }

    /** Note an access: coalesce it with the last blob when it continues that blob and fits. */
    method Note(a: Addr, p: array<Byte>, at: nat, nbytes: nat)
      requires Valid() && p !in Repr && at + nbytes <= p.Length
      modifies Repr
      ensures Valid() && fresh(Repr - old(Repr))
      ensures Abs() == Recorded(old(Abs()), a, p[at..at + nbytes])
    {
      hide Valid, Abs, Contents, Recorded, Continues;
      LastBlob(a, nbytes);
      RecordedBy(Abs(), a, p[at..at + nbytes]);
      if blob != null && (addr + size) % 0x1_0000_0000 == a && size + nbytes < maxsize {
        Append(p, at, nbytes);
      } else {
        var b := NewBlob(a, p, at, nbytes);
        Add(b);
      }
    }

    /** A blob of its own for an access. */
    method NewBlob(a: Addr, p: array<Byte>, at: nat, nbytes: nat) returns (b: BlobBuffer)
      requires at + nbytes <= p.Length
      ensures fresh(b) && fresh(b.data) && b.data.Length == nbytes + BLOB_TAIL_SIZE
      ensures b.addr == a && b.size == nbytes && b.data[..b.size] == p[at..at + nbytes]
    {
      b := new BlobBuffer(a, nbytes + BLOB_TAIL_SIZE);
      CopyIn(b.data, 0, p, at, nbytes);
      b.size := nbytes;
    }

    /** The test for coalescing is on the last blob. */
    lemma LastBlob(a: Addr, n: nat)
      requires Valid()
      ensures Continues(Abs(), a, n) <==>
                blob != null && (addr + size) % 0x1_0000_0000 == a && size + n < maxsize
      ensures a == Plus(addr, size) <==> (addr + size) % 0x1_0000_0000 == a
    {
    }

    /** The finished list, as it is printed. */
    method Blobs() returns (r: seq<Blob>)
      requires Valid()
      ensures r == Abs().blobs
    {
      r := [];
      var i := 0;
      while i < |list|
        invariant 0 <= i <= |list| && |r| == i
        invariant forall j :: 0 <= j < i ==> r[j] == Contents(j)
      {
        r := r + [Blob(list[i].addr, list[i].data[..list[i].size])];
        i := i + 1;
      }
    }

    method Append(p: array<Byte>, at: nat, nbytes: nat)
      requires Valid() && p !in Repr && at + nbytes <= p.Length
      requires Continues(Abs(), Plus(addr, size), nbytes)
      modifies Repr
      ensures Valid() && Repr == old(Repr)
      ensures Abs() == Recorded(old(Abs()), old(Plus(addr, size)), p[at..at + nbytes])
    {
      hide Valid, Contents, Recorded, Continues;
      RecordedBy(Abs(), Plus(addr, size), p[at..at + nbytes]);
      LastBlob(Plus(addr, size), nbytes);
      Grow(p, at, nbytes);
    }

    /** The last blob's buffer takes in more bytes. */
    method Grow(p: array<Byte>, at: nat, nbytes: nat)
      requires Valid() && p !in Repr && at + nbytes <= p.Length
      requires blob != null && size + nbytes < maxsize
      modifies Repr
      ensures Valid() && Repr == old(Repr) && list == old(list) != [] && maxsize == old(maxsize)
      ensures forall j :: 0 <= j < |list| - 1 ==> Contents(j) == old(Contents(j))
      ensures var k := |list| - 1;
              Contents(k) == Blob(old(Contents(k)).addr, old(Contents(k)).data + p[at..at + nbytes])
    {
      CopyIn(blob.data, size, p, at, nbytes);
      size := size + nbytes;
      blob.size := size;
    }

    method Add(b: BlobBuffer)
      requires Valid() && b !in Repr && b.data !in Repr && b.size < b.data.Length
      modifies this
      ensures Valid() && Repr == old(Repr) + {b, b.data}
      ensures Abs() == Recording(old(Abs()).blobs + [Blob(b.addr, b.data[..b.size])], b.data.Length)
    {
      list := list + [b];
      blob, addr, size, maxsize := b, b.addr, b.size, b.data.Length;
      Repr := Repr + {b, b.data};
    }
  }

  // ---- Recording a system call -----------------------------------------------------------------

  /** The tracing state of one system call. */
  class Tracer {
    const input: Recorder
    const output: Recorder
    var seenWrite: bool

    constructor ()
      ensures fresh(input) && fresh(output) && fresh(input.Repr) && fresh(output.Repr)
      ensures input.Valid() && output.Valid() && input.Repr !! output.Repr && this !in input.Repr + output.Repr
      ensures input.Abs() == output.Abs() == Recording([], 0) && !seenWrite
    {
      input := new Recorder();
      output := new Recorder();
      seenWrite := false;
    }

    ghost function Repr(): set<object>
      reads this, input, output
    {
      {this} + input.Repr + output.Repr
    }

    ghost predicate Valid()
      reads this, input, output, input.Repr, output.Repr
    {
      input.Valid() && output.Valid() && input.Repr !! output.Repr && this !in input.Repr && this !in output.Repr
    }

    /** The access function that a traced system call uses: note the access and perform it, a read
        before its bytes are noted and a write after. A read after a write is fatal. */
    method MemFn(mem: Memory, cmd: Command, addr: Addr, p: array<Byte>, at: nat, nbytes: nat)
      returns (fatal: bool, fault: Fault)
      requires Valid() && mem.Valid() && mem.Repr !! Repr()
      requires p !in mem.Repr && p !in Repr()
      requires at + nbytes <= p.Length && nbytes < 0x8000_0000
      modifies this, input.Repr, output.Repr, mem.Repr, p
      ensures Valid() && mem.Valid() && fresh(Repr() - old(Repr())) && fresh(mem.Repr - old(mem.Repr))
      ensures mem.Repr !! Repr()
      ensures fatal <==> cmd == Read && old(seenWrite)
      ensures !fatal ==>
                && fault == FaultOf(addr, nbytes)
                && seenWrite == (old(seenWrite) || cmd == Write)
                && var n := if fault == NoFault then nbytes else 0;
                && mem.Contents() == CopiedPages(cmd, old(mem.Contents()), addr, old(p[..]), at, n)
                && p[..] == CopiedBuffer(cmd, old(mem.Contents()), addr, old(p[..]), at, n)
                && input.Abs() == (if cmd == Read then Recorded(old(input.Abs()), addr, p[at..at + nbytes])
                                   else old(input.Abs()))
                && output.Abs() == (if cmd == Write then Recorded(old(output.Abs()), addr, p[at..at + nbytes])
                                    else old(output.Abs()))
    {
      hide Recorder.Valid, Recorder.Abs, Memory.Valid, Memory.Contents, Recorded, CopiedPages, Filled, FaultOf;
      if cmd == Read && seenWrite {
        return true, NoFault;
      }
      fatal := false;
      if cmd == Write {
        seenWrite := true;
        output.Note(addr, p, at, nbytes);
      }
      fault := Access(mem, cmd, addr, p, at, nbytes);
      assert cmd == Write ==> p[at..at + nbytes] == p[..][at..at + nbytes] == old(p[..])[at..at + nbytes];
      if cmd == Read {
        input.Note(addr, p, at, nbytes);
      }
    }
  }

  /** No transfer of the system call faults: sizes are powers of two, naturally aligned. */
  predicate NonFaulting(ops: seq<Transfer>)
  {
    forall i :: 0 <= i < |ops| ==> FaultOf(ops[i].addr, Size(ops[i])) == NoFault
  }

  /** Accesses of one byte never fault. */
  lemma SingleBytesNeverFault(ops: seq<Transfer>)
    requires forall i :: 0 <= i < |ops| ==> Size(ops[i]) == 1
    ensures NonFaulting(ops)
  {
    forall i | 0 <= i < |ops|
      ensures FaultOf(ops[i].addr, Size(ops[i])) == NoFault
    {
      UnitFaults(ops[i].addr);
    }
  }

  /** So no system call faults: its handler moves all data by byte and string copies. In memory and in what is
      recorded these copies are transfers in one piece. */
  lemma CopiesNeverFault(m: Pages, ops: seq<Transfer>)
    requires WellFormed(m)
    ensures NonFaulting(ByteByByte(ops))
    ensures Performed(m, ByteByByte(ops)) == Performed(m, ops)
    ensures Flatten(Inputs(m, ByteByByte(ops)).blobs) == Flatten(Inputs(m, ops).blobs)
    ensures Flatten(Outputs(ByteByByte(ops)).blobs) == Flatten(Outputs(ops).blobs)
    ensures ReadsThenWrites(ops) ==> ReadsThenWrites(ByteByByte(ops))
  {
    hide NonFaulting, Performed, Inputs, Outputs, Flatten, ReadsThenWrites, RawReads, RawWrites;
    SingleBytesNeverFault(ByteByByte(ops));
    ByteByByteIsWhole(m, ops);
    RecordingsFlatten(m, ops);
    RecordingsFlatten(m, ByteByByte(ops));
  }

  /** Nor does a replay, which moves single bytes as well. */
  lemma ReplayNeverFaults(t: Transaction)
    requires |t.outRegs| == 6
    ensures NonFaulting(ReplayCall(t).accesses)
  {
    hide NonFaulting, Flatten, Fetches, Deposits;
    SingleBytesNeverFault(ReplayCall(t).accesses);
  }

  /** The pages of a run of bytes are allocated, and each byte already has its value. */
  predicate HeldAlready(m: Pages, addr: Addr, bytes: seq<Byte>)
    requires WellFormed(m)
  {
    forall i :: 0 <= i < |bytes| ==> PageNo(Plus(addr, i)) in m && Load(m, Plus(addr, i)) == bytes[i]
  }

  lemma StoreHeld(m: Pages, a: Addr, v: Byte)
    requires WellFormed(m) && PageNo(a) in m && Load(m, a) == v
    ensures Store(m, a, v) == m
  {
    hide PageNo, Offset;
    assert m[PageNo(a)][Offset(a) := v] == m[PageNo(a)];
  }

  lemma {:induction false} HeldStays(m: Pages, addr: Addr, bytes: seq<Byte>)
    requires WellFormed(m) && HeldAlready(m, addr, bytes)
    ensures StoreBytes(m, addr, bytes) == m
  {
    hide Store, Load, PageNo, Plus;
    if bytes != [] {
      var k := |bytes| - 1;
      assert forall i :: 0 <= i < k ==> bytes[..k][i] == bytes[i];
      HeldStays(m, addr, bytes[..k]);
      StoreHeld(m, Plus(addr, k), bytes[k]);
    }
  }

  lemma {:induction false} StoreAllocates(m: Pages, addr: Addr, bytes: seq<Byte>)
    requires WellFormed(m)
    ensures forall i :: 0 <= i < |bytes| ==> PageNo(Plus(addr, i)) in StoreBytes(m, addr, bytes)
  {
    hide PageNo, Plus, Offset;
    if bytes != [] {
      StoreAllocates(m, addr, bytes[..|bytes| - 1]);
    }
  }

  lemma StaysIfHeld(m: Pages, addr: Addr, bytes: seq<Byte>)
    requires WellFormed(m) && |bytes| < 0x8000_0000
    ensures StoreBytes(m, addr, bytes) == m <==> HeldAlready(m, addr, bytes)
  {
    hide StoreBytes, PageNo, Plus, Load;
    if HeldAlready(m, addr, bytes) {
      HeldStays(m, addr, bytes);
    }
    StoreAllocates(m, addr, bytes);
    forall i | 0 <= i < |bytes|
      ensures Load(StoreBytes(m, addr, bytes), Plus(addr, i)) == bytes[i]
    {
      Distance(addr, Plus(addr, i), i);
      LoadAfterStoreBytes(m, addr, bytes, Plus(addr, i));
    }
  }

  /** For a caller with wider accesses: a write that faults leaves memory alone but is recorded all the same, and
      replay stores its bytes one by one. At any point of a call, replay meets the live memory exactly when
      the write did not fault or its bytes were there already. */
  lemma FaultedWriteIsReplayed(m: Pages, r: Recording, addr: Addr, bytes: seq<Byte>)
    requires WellFormed(m) && |bytes| < 0x8000_0000
    ensures var before := Deposited(m, Flatten(r.blobs));
            var live := if FaultOf(addr, |bytes|) == NoFault then StoreBytes(before, addr, bytes) else before;
            Deposited(m, Flatten(Recorded(r, addr, bytes).blobs)) == live <==>
              FaultOf(addr, |bytes|) == NoFault || HeldAlready(before, addr, bytes)
  {
    hide StoreBytes, FaultOf, Recorded, Flatten, AccessBytes, HeldAlready, Deposited;
    RecordedFlattens(r, addr, bytes);
    var before := Deposited(m, Flatten(r.blobs));
    DepositedAppend(m, Flatten(r.blobs), AccessBytes(addr, bytes));
    DepositedBytes(before, addr, bytes);
    StaysIfHeld(before, addr, bytes);
  }

  lemma NothingFlattens(m: Pages)
    requires WellFormed(m)
    ensures Deposited(m, Flatten([])) == m
  {
  }

  /** A write of two bytes at address 1 is one that differs: it faults, and its replay allocates a page. */
  lemma MisalignedWriteDiffers()
    ensures FaultOf(1, 2) != NoFault
    ensures Deposited(map[], Flatten(Recorded(Recording([], 0), 1, [7, 7]).blobs)) != map[]
  {
    hide Deposited, Flatten, Recorded;
    var none: Pages := map[];
    NothingFlattens(none);
    FaultedWriteIsReplayed(none, Recording([], 0), 1, [7, 7]);
    assert PageNo(Plus(1, 0)) !in none;
  }

  /** One transfer of a traced system call, through a host buffer of its own. */
  method Transferred(t: Tracer, mem: Memory, op: Transfer) returns (fatal: bool)
    requires t.Valid() && mem.Valid() && mem.Repr !! t.Repr()
    requires FaultOf(op.addr, Size(op)) == NoFault
    modifies t, t.input.Repr, t.output.Repr, mem.Repr
    ensures t.Valid() && mem.Valid() && fresh(t.Repr() - old(t.Repr())) && fresh(mem.Repr - old(mem.Repr))
    ensures mem.Repr !! t.Repr()
    ensures fatal <==> op.Fetch? && old(t.seenWrite)
    ensures !fatal ==>
              && t.seenWrite == (old(t.seenWrite) || op.Deposit?)
              && mem.Contents() == Effect(old(mem.Contents()), op)
              && t.input.Abs() == NotedInput(old(t.input.Abs()), old(mem.Contents()), op)
              && t.output.Abs() == NotedOutput(old(t.output.Abs()), op)
  {
    hide *;
    match op {
      case Fetch(a, n) => fatal := Fetched(t, mem, op, a, n);
      case Deposit(a, bytes) => DepositOne(t, mem, op, a, bytes); fatal := false;
    }
  }

  method Fetched(t: Tracer, mem: Memory, op: Transfer, a: Addr, n: nat) returns (fatal: bool)
    requires t.Valid() && mem.Valid() && mem.Repr !! t.Repr()
    requires op == Fetch(a, n) && FaultOf(op.addr, Size(op)) == NoFault
    modifies t, t.input.Repr, t.output.Repr, mem.Repr
    ensures t.Valid() && mem.Valid() && fresh(t.Repr() - old(t.Repr())) && fresh(mem.Repr - old(mem.Repr))
    ensures mem.Repr !! t.Repr()
    ensures fatal <==> old(t.seenWrite)
    ensures !fatal ==>
              && t.seenWrite == old(t.seenWrite)
              && mem.Contents() == Effect(old(mem.Contents()), op)
              && t.input.Abs() == NotedInput(old(t.input.Abs()), old(mem.Contents()), op)
              && t.output.Abs() == NotedOutput(old(t.output.Abs()), op)
  {
    hide Tracer.Valid, Recorder.Valid, Recorder.Abs, Memory.Valid, Memory.Contents;
    hide Recorded, LoadBytes, FaultOf, Filled;
    SizeWithinPage(op);
    var p := new Byte[n](_ => 0);
    FilledWhole(p[..], mem.Contents(), a);
    var fault;
    fatal, fault := t.MemFn(mem, Read, a, p, 0, n);
    assert p[0..n] == p[..];
  }

  method DepositOne(t: Tracer, mem: Memory, op: Transfer, a: Addr, bytes: seq<Byte>)
    requires t.Valid() && mem.Valid() && mem.Repr !! t.Repr()
    requires op == Deposit(a, bytes) && FaultOf(op.addr, Size(op)) == NoFault
    modifies t, t.input.Repr, t.output.Repr, mem.Repr
    ensures t.Valid() && mem.Valid() && fresh(t.Repr() - old(t.Repr())) && fresh(mem.Repr - old(mem.Repr))
    ensures mem.Repr !! t.Repr()
    ensures t.seenWrite
    ensures mem.Contents() == Effect(old(mem.Contents()), op)
    ensures t.input.Abs() == NotedInput(old(t.input.Abs()), old(mem.Contents()), op)
    ensures t.output.Abs() == NotedOutput(old(t.output.Abs()), op)
  {
    hide Tracer.Valid, Recorder.Valid, Recorder.Abs, Memory.Valid, Memory.Contents, Recorded, StoreBytes, FaultOf;
    SizeWithinPage(op);
    var p := Buffer(bytes);
    var n := |bytes|;
    assert p[0..n] == p[..] && p[..][0..n] == bytes;
    var fatal, fault := t.MemFn(mem, Write, a, p, 0, n);
    assert p[0..n] == p[..];
  }

  method Buffer(bytes: seq<Byte>) returns (p: array<Byte>)
    ensures fresh(p) && p[..] == bytes
  {
    p := new Byte[|bytes|](i requires 0 <= i < |bytes| => bytes[i]);
  }

  lemma SizeWithinPage(op: Transfer)
    requires FaultOf(op.addr, Size(op)) == NoFault
    ensures Size(op) <= 4096
  {
  }

  lemma FilledWhole(b: seq<Byte>, m: Pages, a: Addr)
    requires WellFormed(m)
    ensures Filled(b, 0, m, a, |b|) == LoadBytes(m, a, |b|)
  {
  }

  /** All transfers of a traced system call. */
  method TracedCall(t: Tracer, mem: Memory, ops: seq<Transfer>) returns (fatal: bool)
    requires t.Valid() && mem.Valid() && mem.Repr !! t.Repr() && NonFaulting(ops)
    requires t.input.Abs() == t.output.Abs() == Recording([], 0) && !t.seenWrite
    modifies t, t.input.Repr, t.output.Repr, mem.Repr
    ensures t.Valid() && mem.Valid() && fresh(mem.Repr - old(mem.Repr)) && fresh(t.Repr() - old(t.Repr()))
    ensures fatal <==> !ReadsThenWrites(ops)
    ensures !fatal ==>
              && mem.Contents() == Performed(old(mem.Contents()), ops)
              && t.input.Abs() == Inputs(old(mem.Contents()), ops)
              && t.output.Abs() == Outputs(ops)
  {
    hide Recorder.Valid, Recorder.Abs, Memory.Valid, Memory.Contents, FaultOf, NonFaulting, Performed, Inputs, Outputs,
         Effect, NotedInput, NotedOutput, ReadsThenWrites, Written;
    ghost var m := mem.Contents();
    NothingTransferred(m, ops);
    var i := 0;
    while i < |ops|
      invariant 0 <= i <= |ops|
      invariant t.Valid() && mem.Valid() && mem.Repr !! t.Repr()
      invariant fresh(t.Repr() - old(t.Repr())) && fresh(mem.Repr - old(mem.Repr))
      invariant ReadsThenWrites(ops[..i])
      invariant t.seenWrite <==> Written(ops[..i])
      invariant mem.Contents() == Performed(m, ops[..i])
      invariant t.input.Abs() == Inputs(m, ops[..i]) && t.output.Abs() == Outputs(ops[..i])
    {
      NextTransfer(m, ops, i);
      NoFaultAt(ops, i);
      fatal := Transferred(t, mem, ops[i]);
      if fatal {
        return;
      }
      i := i + 1;
    }
    fatal := false;
  }

  lemma NoFaultAt(ops: seq<Transfer>, i: nat)
    requires NonFaulting(ops) && i < |ops|
    ensures FaultOf(ops[i].addr, Size(ops[i])) == NoFault
  {
  }

  /** Some transfer is a write. */
  predicate Written(ops: seq<Transfer>)
  {
    exists j :: 0 <= j < |ops| && ops[j].Deposit?
  }

  lemma NothingTransferred(m: Pages, ops: seq<Transfer>)
    requires WellFormed(m)
    ensures Performed(m, ops[..0]) == m && Inputs(m, ops[..0]) == Outputs(ops[..0]) == Recording([], 0)
    ensures !Written(ops[..0]) && ReadsThenWrites(ops[..0]) && ops[..|ops|] == ops
  {
  }

  lemma NextTransfer(m: Pages, ops: seq<Transfer>, i: nat)
    requires WellFormed(m) && i < |ops|
    ensures Performed(m, ops[..i + 1]) == Effect(Performed(m, ops[..i]), ops[i])
    ensures Inputs(m, ops[..i + 1]) == NotedInput(Inputs(m, ops[..i]), Performed(m, ops[..i]), ops[i])
    ensures Outputs(ops[..i + 1]) == NotedOutput(Outputs(ops[..i]), ops[i])
    ensures Written(ops[..i + 1]) <==> Written(ops[..i]) || ops[i].Deposit?
    ensures ops[i].Fetch? && Written(ops[..i]) ==> !ReadsThenWrites(ops)
    ensures ReadsThenWrites(ops[..i]) && !(ops[i].Fetch? && Written(ops[..i])) ==> ReadsThenWrites(ops[..i + 1])
  {
    hide Effect, NotedInput, NotedOutput;
    var next := ops[..i + 1];
    assert next[..i] == ops[..i] && next[i] == ops[i];
    if Written(ops[..i]) {
      var j :| 0 <= j < i && ops[..i][j].Deposit?;
      assert ops[j].Deposit? && next[j].Deposit?;
    }
    if ops[i].Deposit? {
      assert next[i].Deposit?;
    }
  }

  // ---- The machine ------------------------------------------------------------------------------

  /** Run the memory side of a system call under a fresh tracer. */
  method TraceMemory(mem: Memory, ops: seq<Transfer>) returns (fatal: bool, inMem: seq<Blob>, outMem: seq<Blob>)
    requires mem.Valid() && NonFaulting(ops)
    modifies mem.Repr
    ensures mem.Valid() && fresh(mem.Repr - old(mem.Repr))
    ensures fatal <==> !ReadsThenWrites(ops)
    ensures !fatal ==>
              && mem.Contents() == Performed(old(mem.Contents()), ops)
              && inMem == Inputs(old(mem.Contents()), ops).blobs
              && outMem == Outputs(ops).blobs
  {
    hide Recorder.Valid, Recorder.Abs, Memory.Valid, Memory.Contents;
    hide ReadsThenWrites, NonFaulting, Performed, Inputs, Outputs;
    inMem, outMem := [], [];
    var t := new Tracer();
    fatal := TracedCall(t, mem, ops);
    if !fatal {
      inMem := t.input.Blobs();
      outMem := t.output.Blobs();
    }
  }

  /** What a transaction says and what the call leaves, field by field. */
  lemma TransactionFields(icnt: int, s: Eio.Machine, c: Syscall)
    requires |c.results| == 6
    ensures var vals := ResultsToExo(c.results);
            && After(s, c) == MachineState(WithRegs(s.regs, vals), s.pc, c.brk, Performed(s.mem, c.accesses), s.other)
            && TransactionOf(icnt, s, c) ==
               Transaction(icnt, s.pc, RegsToExo(s.regs), Inputs(s.mem, c.accesses).blobs,
                           c.brk, RegsToExo(WithRegs(s.regs, vals)), Outputs(c.accesses).blobs)
  {
  }

  class Machine {
    const regs: array<Word>
    var pc: Addr
    var brk: Addr
    const mem: Memory
    /** The registers that system calls and their replay leave alone. */
    var other: Others

    ghost predicate Valid()
      reads this, regs, mem, mem.Repr
    {
      regs.Length == 32 && mem.Valid() && this !in mem.Repr && regs !in mem.Repr
    }

    ghost function Abs(): Eio.Machine
      requires Valid()
      reads this, regs, mem, mem.Repr
    {
      MachineState(regs[..], pc, brk, mem.Contents(), other)
    }

    constructor (other: Others)
      ensures Valid() && fresh(mem) && fresh(mem.Repr) && fresh(regs)
      ensures mem.Contents() == map[] && this.other == other
    {
      this.other := other;
      regs := new Word[32](_ => 0);
      pc, brk := 0, 0;
      mem := new Memory();
    }

    /** eio_write_trace for a system call that ends with the given break point and r2 to r7: perform it
        under the tracer and emit the transaction. The PC is recorded after the call. */
    method WriteTrace(icnt: int, call: Syscall) returns (fatal: bool, tr: Transaction)
      requires Valid() && |call.results| == 6 && NonFaulting(call.accesses)
      modifies this, regs, mem.Repr
      ensures Valid() && fresh(mem.Repr - old(mem.Repr))
      ensures fatal <==> !ReadsThenWrites(call.accesses)
      ensures !fatal ==> tr == TransactionOf(icnt, old(Abs()), call) && Abs() == After(old(Abs()), call)
    {
      hide *;
      ghost var s := Abs();
      TransactionFields(icnt, s, call);
      AbsFields();
      var inRegs := SaveRegs();
      var inMem, outMem;
      fatal, inMem, outMem := TraceMemory(mem, call.accesses);
      tr := Transaction(0, 0, [], [], 0, [], []);
      if !fatal {
        var outRegs := SetOutputs(call);
        tr := Transaction(icnt, pc, inRegs, inMem, brk, outRegs, outMem);
      }
      AbsFields();
    }

    /** The break point and result registers that the call leaves, and their record. */
    method SetOutputs(call: Syscall) returns (outRegs: seq<int>)
      requires regs.Length == 32 && |call.results| == 6
      modifies `brk, regs
      ensures brk == call.brk && regs[..] == WithRegs(old(regs[..]), ResultsToExo(call.results))
      ensures outRegs == RegsToExo(regs[..])
    {
      hide *;
      brk := call.brk;
      SetResults(call.results);
      outRegs := SaveRegs();
    }

    lemma AbsFields()
      requires Valid() || (regs.Length == 32 && mem.Valid() && this !in mem.Repr && regs !in mem.Repr)
      ensures regs.Length == 32 && mem.Valid() && this !in mem.Repr && regs !in mem.Repr
      ensures Valid() && Abs() == MachineState(regs[..], pc, brk, mem.Contents(), other)
    {
    }

    method SaveRegs() returns (r: seq<int>)
      requires regs.Length == 32
      ensures r == RegsToExo(regs[..])
    {
      r := [];
      var i := FIRST_REG;
      while i <= LAST_REG
        invariant 2 <= i <= 8 && |r| == i - 2
        invariant forall j :: 0 <= j < |r| ==> r[j] == ToExo(regs[2 + j])
      {
        r := r + [ToExo(regs[i])];
        i := i + 1;
      }
    }

    method SetResults(results: seq<Word>)
      requires regs.Length == 32 && |results| == 6
      modifies regs
      ensures regs[..] == WithRegs(old(regs[..]), ResultsToExo(results))
    {
      var i := FIRST_REG;
      while i <= LAST_REG
        invariant 2 <= i <= 8
        invariant forall j :: 0 <= j < 32 ==> regs[j] == if 2 <= j < i then results[j - 2] else old(regs[j])
      {
        regs[i] := results[i - 2];
        i := i + 1;
      }
      forall j | 0 <= j < 6
        ensures FromExo(ToExo(results[j])) == results[j]
      {
        ExoRoundTrip(results[j]);
      }
    }

    /** MD_EXO_TO_IREG for r2 to r7. */
    method LoadRegs(vals: seq<int>)
      requires regs.Length == 32 && |vals| == 6
      modifies regs
      ensures regs[..] == WithRegs(old(regs[..]), vals)
    {
      var i := FIRST_REG;
      while i <= LAST_REG
        invariant 2 <= i <= 8
        invariant forall j :: 0 <= j < 32 ==> regs[j] == if 2 <= j < i then FromExo(vals[j - 2]) else old(regs[j])
      {
        regs[i] := FromExo(vals[i - 2]);
        i := i + 1;
      }
    }

    /** Compare r2 to r7 with their record, one after the other. */
    method CheckRegs(vals: seq<int>) returns (why: seq<Mismatch>)
      requires regs.Length == 32
      ensures why == RegsComplaint(regs[..], vals, 0)
    {
      hide FromExo;
      var i := FIRST_REG;
      while i <= LAST_REG
        invariant 2 <= i <= 8
        invariant RegsComplaint(regs[..], vals, i - 2) == RegsComplaint(regs[..], vals, 0)
      {
        if i - 2 >= |vals| {
          return [BadTransaction];
        }
        if regs[i] != FromExo(vals[i - 2]) {
          return [RegMismatch(i)];
        }
        i := i + 1;
      }
      why := if |vals| > 6 then [BadTransaction] else [];
    }

    /** Write the recorded outputs. */
    method TakeOutputs(tr: Transaction)
      requires Valid() && |tr.outRegs| == 6
      modifies this, regs, mem.Repr
      ensures Valid() && fresh(mem.Repr - old(mem.Repr))
      ensures Abs() == Replay(tr, old(Abs()))
    {
      hide *;
      AbsFields();
      ReplayFields(tr, Abs());
      brk := tr.outBrk;
      LoadRegs(tr.outRegs);
      WriteOutputs(mem, tr.outMem);
      AbsFields();
    }

    /** eio_read_trace for a transaction: check every recorded input against the machine, then write the
        recorded outputs. It stops at the first check that fails, and goes through exactly when the
        transaction accepts the machine's state. */
    method ReadTrace(tr: Transaction, icnt: int) returns (why: seq<Mismatch>)
      requires Valid()
      modifies this, regs, mem.Repr
      ensures Valid() && fresh(mem.Repr - old(mem.Repr))
      ensures why == Complaint(tr, icnt, old(Abs()))
      ensures why == [] <==> Accepts(tr, icnt, old(Abs()))
      ensures why == [] ==> Abs() == Replay(tr, old(Abs()))
      ensures why != [] ==> Abs() == old(Abs())
    {
      hide Valid, Abs, RegsComplaint, FlatComplaint, Flatten, Accepts, Replay, Memory.Valid, Memory.Contents;
      AbsFields();
      AcceptsUnlessComplaint(tr, icnt, Abs());
      if icnt != tr.icnt {
        return [IcntMismatch];
      }
      if pc != tr.pc {
        return [PcMismatch];
      }
      why := CheckRegs(tr.inRegs);
      if why != [] {
        return;
      }
      why := CheckInputs(mem, tr.inMem);
      AbsFields();
      if why != [] {
        return;
      }
      if |tr.outRegs| != 6 {
        return [BadTransaction];
      }
      TakeOutputs(tr);
    }
  }

  lemma ReplayFields(t: Transaction, s: Eio.Machine)
    requires |t.outRegs| == 6
    ensures Replay(t, s) == MachineState(WithRegs(s.regs, t.outRegs), s.pc, t.outBrk,
                                         Deposited(s.mem, Flatten(t.outMem)), s.other)
  {
  }

  /** Compare the recorded input bytes with memory, one byte at a time. */
  method CheckInputs(mem: Memory, blobs: seq<Blob>) returns (why: seq<Mismatch>)
    requires mem.Valid()
    modifies mem.Repr
    ensures mem.Valid() && mem.Repr == old(mem.Repr) && mem.Contents() == old(mem.Contents())
    ensures why == FlatComplaint(mem.Contents(), Flatten(blobs))
  {
    hide Memory.Valid, Memory.Contents, FlatComplaint, Flatten, AccessBytes;
    ghost var m := mem.Contents();
    var b := 0;
    NoBlobs(m, blobs);
    while b < |blobs|
      invariant 0 <= b <= |blobs|
      invariant mem.Valid() && mem.Repr == old(mem.Repr) && mem.Contents() == m
      invariant FlatComplaint(m, Flatten(blobs[..b])) == []
    {
      why := CheckBlob(mem, blobs[b]);
      NextBlob(m, blobs, b);
      if why != [] {
        return;
      }
      b := b + 1;
    }
    return [];
  }

  lemma NoBlobs(m: Pages, blobs: seq<Blob>)
    requires WellFormed(m)
    ensures FlatComplaint(m, Flatten(blobs[..0])) == [] && blobs[..|blobs|] == blobs
  {
  }

  /** The first complaint about a list is that about its first blob with one. */
  lemma NextBlob(m: Pages, blobs: seq<Blob>, b: nat)
    requires WellFormed(m) && b < |blobs| && FlatComplaint(m, Flatten(blobs[..b])) == []
    ensures var c := FlatComplaint(m, AccessBytes(blobs[b].addr, blobs[b].data));
            && FlatComplaint(m, Flatten(blobs[..b + 1])) == c
            && (c != [] ==> FlatComplaint(m, Flatten(blobs)) == c)
  {
    hide FlatComplaint, AccessBytes;
    assert blobs[..b + 1] == blobs[..b] + [blobs[b]];
    FlattenAppend(blobs[..b], blobs[b]);
    hide Flatten;
    FlatComplaintAppend(m, Flatten(blobs[..b]), AccessBytes(blobs[b].addr, blobs[b].data));
    ComplaintStays(m, blobs, b + 1);
  }

  lemma {:induction false} ComplaintStays(m: Pages, blobs: seq<Blob>, b: nat)
    requires WellFormed(m) && b <= |blobs|
    ensures FlatComplaint(m, Flatten(blobs[..b])) != [] ==>
              FlatComplaint(m, Flatten(blobs)) == FlatComplaint(m, Flatten(blobs[..b]))
    decreases |blobs|
  {
    hide FlatComplaint, AccessBytes, Flatten;
    if b < |blobs| {
      var k := |blobs| - 1;
      ComplaintStays(m, blobs[..k], b);
      assert blobs[..k][..b] == blobs[..b];
      FlattenAppend(blobs[..k], blobs[k]);
      assert blobs[..k] + [blobs[k]] == blobs;
      FlatComplaintAppend(m, Flatten(blobs[..k]), AccessBytes(blobs[k].addr, blobs[k].data));
    } else {
      assert blobs[..b] == blobs;
    }
  }

  method CheckBlob(mem: Memory, blob: Blob) returns (why: seq<Mismatch>)
    requires mem.Valid()
    modifies mem.Repr
    ensures mem.Valid() && mem.Repr == old(mem.Repr) && mem.Contents() == old(mem.Contents())
    ensures why == FlatComplaint(mem.Contents(), AccessBytes(blob.addr, blob.data))
  {
    hide Memory.Valid, Memory.Contents, Load, Plus, FlatComplaint, AccessBytes;
    ghost var m := mem.Contents();
    var loc, i := blob.addr, 0;
    PlusZero(blob.addr);
    NothingRead(m, blob.addr, blob.data);
    while i < |blob.data|
      invariant 0 <= i <= |blob.data| && loc == Plus(blob.addr, i)
      invariant mem.Valid() && mem.Repr == old(mem.Repr) && mem.Contents() == m
      invariant FlatComplaint(m, AccessBytes(blob.addr, blob.data[..i])) == []
    {
      var val := mem.ReadByte(loc);
      NextByte(m, blob.addr, blob.data, i);
      if val != blob.data[i] {
        return [MemMismatch(loc)];
      }
      PlusPlus(blob.addr, i, 1);
      loc, i := Plus(loc, 1), i + 1;
    }
    return [];
  }

  lemma NothingRead(m: Pages, a: Addr, data: seq<Byte>)
    requires WellFormed(m)
    ensures FlatComplaint(m, AccessBytes(a, data[..0])) == [] && data[..|data|] == data
  {
  }

  lemma NextByte(m: Pages, a: Addr, data: seq<Byte>, i: nat)
    requires WellFormed(m) && i < |data| && FlatComplaint(m, AccessBytes(a, data[..i])) == []
    ensures var c := if Load(m, Plus(a, i)) != data[i] then [MemMismatch(Plus(a, i))] else [];
            && FlatComplaint(m, AccessBytes(a, data[..i + 1])) == c
            && (c != [] ==> FlatComplaint(m, AccessBytes(a, data)) == c)
  {
    hide Load, Plus;
    var one := AccessBytes(a, data[..i + 1]);
    assert one[..i] == AccessBytes(a, data[..i]) && one[i] == (Plus(a, i), data[i]);
    assert data == data[..i + 1] + data[i + 1..];
    AccessBytesAppend(a, data[..i + 1], data[i + 1..]);
    FlatComplaintAppend(m, one, AccessBytes(Plus(a, i + 1), data[i + 1..]));
  }

  /** Write the recorded output bytes, one byte at a time. */
  method WriteOutputs(mem: Memory, blobs: seq<Blob>)
    requires mem.Valid()
    modifies mem.Repr
    ensures mem.Valid() && fresh(mem.Repr - old(mem.Repr))
    ensures mem.Contents() == Deposited(old(mem.Contents()), Flatten(blobs))
  {
    hide Memory.Valid, Memory.Contents, Deposited, Flatten, StoreBytes;
    ghost var m := mem.Contents();
    var b := 0;
    NothingDeposited(m, blobs);
    while b < |blobs|
      invariant 0 <= b <= |blobs|
      invariant mem.Valid() && fresh(mem.Repr - old(mem.Repr))
      invariant mem.Contents() == Deposited(m, Flatten(blobs[..b]))
    {
      DepositNext(m, blobs, b);
      WriteBlob(mem, blobs[b]);
      b := b + 1;
    }
  }

  lemma NothingDeposited(m: Pages, blobs: seq<Blob>)
    requires WellFormed(m)
    ensures Deposited(m, Flatten(blobs[..0])) == m && blobs[..|blobs|] == blobs
  {
  }

  lemma DepositNext(m: Pages, blobs: seq<Blob>, b: nat)
    requires WellFormed(m) && b < |blobs|
    ensures Deposited(m, Flatten(blobs[..b + 1])) ==
            StoreBytes(Deposited(m, Flatten(blobs[..b])), blobs[b].addr, blobs[b].data)
  {
    assert blobs[..b + 1] == blobs[..b] + [blobs[b]];
    FlattenAppend(blobs[..b], blobs[b]);
    DepositedAppend(m, Flatten(blobs[..b]), AccessBytes(blobs[b].addr, blobs[b].data));
    DepositedBytes(Deposited(m, Flatten(blobs[..b])), blobs[b].addr, blobs[b].data);
    hide Flatten, Deposited, StoreBytes, AccessBytes;
  }

  method WriteBlob(mem: Memory, blob: Blob)
    requires mem.Valid()
    modifies mem.Repr
    ensures mem.Valid() && fresh(mem.Repr - old(mem.Repr))
    ensures mem.Contents() == StoreBytes(old(mem.Contents()), blob.addr, blob.data)
  {
    hide Memory.Valid, Memory.Contents, Store, StoreBytes, Plus;
    ghost var m := mem.Contents();
    var loc, i := blob.addr, 0;
    PlusZero(blob.addr);
    StoreNothing(m, blob.addr, blob.data);
    while i < |blob.data|
      invariant 0 <= i <= |blob.data| && loc == Plus(blob.addr, i)
      invariant mem.Valid() && fresh(mem.Repr - old(mem.Repr))
      invariant mem.Contents() == StoreBytes(m, blob.addr, blob.data[..i])
    {
      mem.WriteByte(loc, blob.data[i]);
      StoreStep(m, blob.addr, blob.data, i);
      PlusPlus(blob.addr, i, 1);
      loc, i := Plus(loc, 1), i + 1;
    }
  }
}
