// What a recorded transaction says, which states accept it, and how accesses end up in blobs (Lab1-Hazards/eio.c),
// written out.
module EioTraces {
  import opened FlatMemory
  import opened Eio

  // ---- What a transaction says ---------------------------------------------------------------------

  /** A register is stored as it is, sign-extended to 64 bits. */
  lemma StoredWord(w: Word)
    ensures ToExo(w) == if w < 0 then w + 0x1_0000_0000_0000_0000 else w
    ensures FromExo(ToExo(w)) == w
  {
  }

  /** A stored value is read back by its low 32 bits, as a signed number. */
  lemma ReadWord(v: int, w: Word)
    ensures FromExo(v) == w <==> exists k :: v == w + k * 0x1_0000_0000
  {
    if FromExo(v) == w {
      var k := (v - w) / 0x1_0000_0000;
      assert v == w + k * 0x1_0000_0000;
    }
  }

  /** A system call sets r2 to r7 to its results, moves the break point, performs its accesses and leaves the rest. */
  lemma AfterCall(s: Machine, c: Syscall)
    requires |c.results| == 6
    ensures forall i :: 0 <= i < 6 ==> After(s, c).regs[2 + i] == c.results[i]
    ensures forall i :: 0 <= i < 32 && !(2 <= i <= 7) ==> After(s, c).regs[i] == s.regs[i]
    ensures After(s, c).brk == c.brk && After(s, c).mem == Performed(s.mem, c.accesses)
    ensures After(s, c).pc == s.pc && After(s, c).other == s.other
  {
    hide ToExo, FromExo, Performed;
    forall w: Word
      ensures FromExo(ToExo(w)) == w
    {
      StoredWord(w);
    }
    forall i | 0 <= i < 6
      ensures After(s, c).regs[2 + i] == c.results[i]
    {
      assert NewReg(s.regs, ResultsToExo(c.results), 2 + i) == FromExo(ToExo(c.results[i]));
    }
  }

  /** A transaction holds the count, the PC, r2 to r7 before and after the call, the break point after it, and blobs
      with the bytes that the call read and wrote. */
  lemma TransactionSays(icnt: int, s: Machine, c: Syscall)
    requires |c.results| == 6
    ensures var t := TransactionOf(icnt, s, c);
            && t.icnt == icnt && t.pc == s.pc && t.outBrk == c.brk
            && |t.inRegs| == |t.outRegs| == 6
            && (forall i :: 0 <= i < 6 ==> t.inRegs[i] == ToExo(s.regs[2 + i]) && t.outRegs[i] == ToExo(c.results[i]))
            && Flatten(t.inMem) == RawReads(s.mem, c.accesses) && Flatten(t.outMem) == RawWrites(c.accesses)
  {
    AfterCall(s, c);
    RecordingsFlatten(s.mem, c.accesses);
    hide ToExo, FromExo, Performed, Inputs, Outputs, Flatten, RawReads, RawWrites, WithRegs;
  }

  // ---- Which states accept it ------------------------------------------------------------------------

  lemma SameRegs(regs: seq<Word>, vals: seq<int>, x: seq<Word>)
    requires |regs| == |x| == 32 && |vals| == 6
    requires forall i :: 0 <= i < 6 ==> vals[i] == ToExo(regs[2 + i])
    ensures RegsMatch(x, vals) <==> forall i :: 2 <= i <= 7 ==> x[i] == regs[i]
  {
    hide ToExo, FromExo;
    forall i | 0 <= i < 6
      ensures Agrees(x, vals, i) <==> x[2 + i] == regs[2 + i]
    {
      StoredWord(regs[2 + i]);
    }
    if RegsMatch(x, vals) {
      forall i | 2 <= i <= 7
        ensures x[i] == regs[i]
      {
        assert Agrees(x, vals, i - 2);
      }
    }
  }

  /** A state accepts a recorded call exactly if it has the count and the PC of the recording state, the same values in
      r2 to r7, and in memory every byte that the call read. */
  lemma AcceptanceMeans(icnt: int, s: Machine, c: Syscall, n: int, x: Machine)
    requires |c.results| == 6
    ensures Accepts(TransactionOf(icnt, s, c), n, x) <==>
              && n == icnt && x.pc == s.pc
              && (forall i :: 2 <= i <= 7 ==> x.regs[i] == s.regs[i])
              && forall k :: 0 <= k < |RawReads(s.mem, c.accesses)| ==>
                   Load(x.mem, RawReads(s.mem, c.accesses)[k].0) == RawReads(s.mem, c.accesses)[k].1
  {
    hide ToExo, FromExo, Flatten, RawReads, RawWrites, TransactionOf, Load, RegsMatch;
    TransactionSays(icnt, s, c);
    SameRegs(s.regs, TransactionOf(icnt, s, c).inRegs, x.regs);
  }

  /** What the replay of a recorded call leaves in any state. */
  lemma ReplayMeans(icnt: int, s: Machine, c: Syscall, x: Machine)
    requires |c.results| == 6
    ensures var r := Replay(TransactionOf(icnt, s, c), x);
            && (forall i :: 0 <= i < 6 ==> r.regs[2 + i] == c.results[i])
            && (forall i :: 0 <= i < 32 && !(2 <= i <= 7) ==> r.regs[i] == x.regs[i])
            && r.brk == c.brk && r.pc == x.pc && r.other == x.other
            && r.mem == Performed(x.mem, c.accesses)
  {
    hide ToExo, FromExo, Flatten, RawReads, RawWrites, TransactionOf, Deposited, Performed;
    TransactionSays(icnt, s, c);
    RawWritesPerform(x.mem, c.accesses);
    var t := TransactionOf(icnt, s, c);
    forall i | 0 <= i < 6
      ensures Replay(t, x).regs[2 + i] == c.results[i]
    {
      StoredWord(c.results[i]);
      assert NewReg(x.regs, t.outRegs, 2 + i) == FromExo(t.outRegs[i]);
    }
  }

  /** Register i is the lowest of r2 to r7 in which the two differ. */
  predicate FirstDifference(x: seq<Word>, regs: seq<Word>, i: nat)
    requires |x| == |regs| == 32
  {
    2 <= i <= 7 && x[i] != regs[i] && forall j :: 2 <= j < i ==> x[j] == regs[j]
  }

  /** Byte k is the first that memory does not hold. */
  predicate FirstMissing(m: Pages, flat: seq<(Addr, Byte)>, k: nat)
    requires WellFormed(m)
  {
    k < |flat| && Load(m, flat[k].0) != flat[k].1 && forall j :: 0 <= j < k ==> Load(m, flat[j].0) == flat[j].1
  }

  /** The reason for refusing a recorded call is the first of: another count, another PC, the lowest of r2 to r7 that
      differs, the first byte read that memory does not hold. */
  lemma ComplaintMeans(icnt: int, s: Machine, c: Syscall, n: int, x: Machine)
    requires |c.results| == 6
    ensures var why := Complaint(TransactionOf(icnt, s, c), n, x);
            && (n != icnt ==> why == [IcntMismatch])
            && (n == icnt && x.pc != s.pc ==> why == [PcMismatch])
            && (n == icnt && x.pc == s.pc ==>
                  forall i :: FirstDifference(x.regs, s.regs, i) ==> why == [RegMismatch(i)])
            && (n == icnt && x.pc == s.pc && (forall i :: 2 <= i <= 7 ==> x.regs[i] == s.regs[i]) ==>
                  forall k: nat :: FirstMissing(x.mem, RawReads(s.mem, c.accesses), k) ==>
                                why == [MemMismatch(RawReads(s.mem, c.accesses)[k].0)])
  {
    hide ToExo, FromExo, Flatten, RawReads, RawWrites, TransactionOf, Load, RegsComplaint, FlatComplaint;
    TransactionSays(icnt, s, c);
    FirstRegister(s.regs, TransactionOf(icnt, s, c).inRegs, x.regs, 0);
    FirstByte(x.mem, RawReads(s.mem, c.accesses));
  }

  lemma {:induction false} FirstRegister(regs: seq<Word>, vals: seq<int>, x: seq<Word>, n: nat)
    requires |regs| == |x| == 32 && |vals| == 6 && n <= 6
    requires forall i :: 0 <= i < 6 ==> vals[i] == ToExo(regs[2 + i])
    requires forall j :: 2 <= j < 2 + n ==> x[j] == regs[j]
    ensures (forall i :: 2 <= i <= 7 ==> x[i] == regs[i]) ==> RegsComplaint(x, vals, n) == []
    ensures forall i :: FirstDifference(x, regs, i) ==> RegsComplaint(x, vals, n) == [RegMismatch(i)]
    decreases 6 - n
  {
    hide ToExo, FromExo;
    if n < 6 {
      StoredWord(regs[2 + n]);
      if x[2 + n] == regs[2 + n] {
        FirstRegister(regs, vals, x, n + 1);
      }
    }
  }

  lemma {:induction false} FirstByte(m: Pages, flat: seq<(Addr, Byte)>)
    requires WellFormed(m)
    ensures (forall k :: 0 <= k < |flat| ==> Load(m, flat[k].0) == flat[k].1) ==> FlatComplaint(m, flat) == []
    ensures forall k: nat :: FirstMissing(m, flat, k) ==> FlatComplaint(m, flat) == [MemMismatch(flat[k].0)]
  {
    hide Load;
    if flat != [] {
      var n := |flat| - 1;
      FirstByte(m, flat[..n]);
      forall k: nat | FirstMissing(m, flat, k)
        ensures FlatComplaint(m, flat) == [MemMismatch(flat[k].0)]
      {
        assert k < n ==> FirstMissing(m, flat[..n], k);
      }
    }
  }

  // ---- Blobs ---------------------------------------------------------------------------------------------

  /** Blobs of single bytes: none is empty or longer than 256 bytes, and one that ends where the next begins is full. */
  predicate Packed(r: Recording)
  {
    && (r.blobs != [] ==> r.maxsize == 257)
    && (forall i :: 0 <= i < |r.blobs| ==> 1 <= |r.blobs[i].data| <= 256)
    && forall i :: 0 <= i < |r.blobs| - 1 && Plus(r.blobs[i].addr, |r.blobs[i].data|) == r.blobs[i + 1].addr ==>
         |r.blobs[i].data| == 256
  }

  lemma StaysPacked(r: Recording, a: Addr, b: Byte)
    requires Packed(r)
    ensures Packed(Recorded(r, a, [b]))
  {
    hide Plus;
    var r' := Recorded(r, a, [b]);
    assert forall i :: 0 <= i < |r.blobs| ==> r'.blobs[i].addr == r.blobs[i].addr;
  }

  /** When all accesses are single bytes, adjacent blobs are only begun once the one before is full. */
  lemma {:induction false} BlobsArePacked(m: Pages, ops: seq<Transfer>)
    requires WellFormed(m) && forall i :: 0 <= i < |ops| ==> Size(ops[i]) == 1
    ensures Packed(Inputs(m, ops)) && Packed(Outputs(ops))
  {
    hide Packed, Recorded, Performed, Load, Plus;
    if ops == [] {
      NothingPacked();
    } else {
      var before, last := ops[..|ops| - 1], ops[|ops| - 1];
      BlobsArePacked(m, before);
      match last
      case Fetch(a, n) =>
        StaysPacked(Inputs(m, before), a, LoadBytes(Performed(m, before), a, 1)[0]);
        assert LoadBytes(Performed(m, before), a, 1) == [LoadBytes(Performed(m, before), a, 1)[0]];
      case Deposit(a, bytes) =>
        StaysPacked(Outputs(before), a, bytes[0]);
        assert bytes == [bytes[0]];
    }
  }

  lemma NothingPacked()
    ensures Packed(Recording([], 0))
  {
  }

  /** The recording of a run of bytes that were recorded one by one: blobs of 256 bytes and a last one with the rest. */
  ghost predicate InRun(r: Recording, a: Addr, bytes: seq<Byte>)
  {
    && |r.blobs| == (|bytes| + 255) / 256
    && (bytes != [] ==> r.maxsize == 257)
    && forall i :: 0 <= i < |r.blobs| ==>
         && r.blobs[i].addr == Plus(a, 256 * i)
         && r.blobs[i].data == bytes[256 * i..if i == |r.blobs| - 1 then |bytes| else 256 * i + 256]
  }

  lemma RunGrows(r: Recording, a: Addr, bytes: seq<Byte>, b: Byte)
    requires InRun(r, a, bytes)
    ensures InRun(Recorded(r, Plus(a, |bytes|), [b]), a, bytes + [b])
  {
    var n, k, all := |bytes|, |r.blobs|, bytes + [b];
    var r' := Recorded(r, Plus(a, n), [b]);
    hide Plus;
    if k > 0 {
      PlusPlus(a, 256 * (k - 1), |r.blobs[k - 1].data|);
    }
    forall i | 0 <= i < |r'.blobs|
      ensures r'.blobs[i].addr == Plus(a, 256 * i)
      ensures r'.blobs[i].data == all[256 * i..if i == |r'.blobs| - 1 then |all| else 256 * i + 256]
    {
    }
  }

  /** A run of bytes that is written byte by byte makes one blob for every 256 bytes. */
  lemma {:induction false} WrittenRun(a: Addr, bytes: seq<Byte>)
    ensures InRun(Outputs(ByteByByte([Deposit(a, bytes)])), a, bytes)
    ensures |Outputs(ByteByByte([Deposit(a, bytes)])).blobs| == (|bytes| + 255) / 256
  {
    WrittenOneByOne(a, bytes);
    hide InRun, Outputs, OneByOne;
    assert ByteByByte([Deposit(a, bytes)]) == OneByOne(Deposit(a, bytes)) by { OneTransfer(Deposit(a, bytes)); }
    RunLength(Outputs(ByteByByte([Deposit(a, bytes)])), a, bytes);
  }

  lemma RunLength(r: Recording, a: Addr, bytes: seq<Byte>)
    requires InRun(r, a, bytes)
    ensures |r.blobs| == (|bytes| + 255) / 256
  {
  }

  lemma OneTransfer(op: Transfer)
    ensures ByteByByte([op]) == OneByOne(op)
  {
    assert [op][..0] == [];
  }

  lemma NoRun(a: Addr)
    ensures InRun(Recording([], 0), a, [])
  {
  }

  lemma {:induction false} WrittenOneByOne(a: Addr, bytes: seq<Byte>)
    ensures InRun(Outputs(OneByOne(Deposit(a, bytes))), a, bytes)
  {
    hide InRun, Recorded, Plus;
    if bytes == [] {
      NoRun(a);
    } else {
      var k := |bytes| - 1;
      var ops := OneByOne(Deposit(a, bytes));
      WrittenOneByOne(a, bytes[..k]);
      assert ops[..k] == OneByOne(Deposit(a, bytes[..k]));
      RunGrows(Outputs(ops[..k]), a, bytes[..k], bytes[k]);
      assert bytes[..k] + [bytes[k]] == bytes;
    }
  }

  /** So does one that is read byte by byte. */
  lemma {:induction false} ReadRun(m: Pages, a: Addr, n: nat)
    requires WellFormed(m)
    ensures InRun(Inputs(m, ByteByByte([Fetch(a, n)])), a, LoadBytes(m, a, n))
    ensures |Inputs(m, ByteByByte([Fetch(a, n)])).blobs| == (n + 255) / 256
  {
    ReadOneByOne(m, a, n);
    hide InRun, Inputs, OneByOne, LoadBytes;
    assert ByteByByte([Fetch(a, n)]) == OneByOne(Fetch(a, n)) by { OneTransfer(Fetch(a, n)); }
    RunLength(Inputs(m, ByteByByte([Fetch(a, n)])), a, LoadBytes(m, a, n));
  }

  lemma {:induction false} ReadOneByOne(m: Pages, a: Addr, n: nat)
    requires WellFormed(m)
    ensures InRun(Inputs(m, OneByOne(Fetch(a, n))), a, LoadBytes(m, a, n))
  {
    hide InRun, Recorded, Plus, Load, Performed;
    if n == 0 {
      NoRun(a);
      assert LoadBytes(m, a, 0) == [];
    } else {
      var k := n - 1;
      var ops := OneByOne(Fetch(a, n));
      ReadOneByOne(m, a, k);
      assert ops[..k] == OneByOne(Fetch(a, k));
      NoWritesYet(m, ops[..k]);
      assert LoadBytes(m, a, n) == LoadBytes(m, a, k) + [Load(m, Plus(a, k))];
      RunGrows(Inputs(m, ops[..k]), a, LoadBytes(m, a, k), Load(m, Plus(a, k)));
      PlusPlus(a, k, 0);
      assert LoadBytes(m, Plus(a, k), 1) == [Load(m, Plus(a, k))];
    }
  }
}
