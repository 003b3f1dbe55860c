// The access routines of Lab1-Hazards/memory.c: the checked access of one power-of-two unit, and the
// block and string copies built on it. Host buffers are arrays with a position in them.
module MemoryAccess {
  import opened FlatMemory
  import opened PageTable

  datatype Command = Read | Write

  datatype Fault = NoFault | AccessFault | AlignmentFault

  predicate IsPowerOfTwo(n: nat)
  {
    n == 1 || (n > 0 && n % 2 == 0 && IsPowerOfTwo(n / 2))
  }

  /** Sizes n with n & (n - 1) zero in 32 bits: zero, the powers of two, and the most negative one. */
  predicate PassesSizeTest(n: int)
  {
    n == 0 || n == -0x8000_0000 || (n > 0 && IsPowerOfTwo(n))
  }

  /** addr & (n - 1) is zero: the mask is all ones for zero and the low bits otherwise. */
  predicate Aligned(addr: Addr, n: int)
    requires PassesSizeTest(n)
  {
    if n == 0 then addr == 0 else if n < 0 then addr % 0x8000_0000 == 0 else addr % n == 0
  }

  /** The checks of an access, in the program's order. */
  function FaultOf(addr: Addr, n: int): Fault
  {
    if !PassesSizeTest(n) || n > 4096 then AccessFault
    else if !Aligned(addr, n) then AlignmentFault
    else NoFault
  }

  /** Bytes never fault; words fault exactly when misaligned. */
  lemma UnitFaults(addr: Addr)
    ensures FaultOf(addr, 1) == NoFault
    ensures FaultOf(addr, 4) == if addr % 4 == 0 then NoFault else AlignmentFault
  {
    assert IsPowerOfTwo(2);
  }

  /** How many bytes a count asks for: loops that count down to zero do nothing for negative ones. */
  function Count(nbytes: int): nat
  {
    if nbytes > 0 then nbytes else 0
  }

  method Access(mem: Memory, cmd: Command, addr: Addr, buf: array<Byte>, at: nat, nbytes: int) returns (fault: Fault)
    requires mem.Valid() && buf !in mem.Repr
    requires nbytes < 0x8000_0000 && at + nbytes <= buf.Length && at <= buf.Length
    modifies mem.Repr, buf
    ensures mem.Valid() && fresh(mem.Repr - old(mem.Repr))
    ensures fault == FaultOf(addr, nbytes)
    ensures var n := if fault == NoFault && nbytes > 0 then nbytes else 0;
            && mem.Contents() == CopiedPages(cmd, old(mem.Contents()), addr, old(buf[..]), at, n)
            && buf[..] == CopiedBuffer(cmd, old(mem.Contents()), addr, old(buf[..]), at, n)
  {
    hide FaultOf, PassesSizeTest, Aligned, IsPowerOfTwo, Memory.Valid, Memory.Contents, StoreBytes, Filled;
    CopyNothing(cmd, mem.Contents(), addr, buf[..], at);
    if !PassesSizeTest(nbytes) || nbytes > 4096 {
      assert FaultOf(addr, nbytes) == AccessFault by { CheckSize(addr, nbytes); }
      return AccessFault;
    }
    if !Aligned(addr, nbytes) {
      assert FaultOf(addr, nbytes) == AlignmentFault by { CheckAlignment(addr, nbytes); }
      return AlignmentFault;
    }
    CheckAlignment(addr, nbytes);
    if cmd == Read {
      ReadBytes(mem, addr, buf, at, nbytes);
    } else {
      WriteBytes(mem, addr, buf, at, nbytes);
    }
    return NoFault;
  }

  lemma CheckSize(addr: Addr, n: int)
    requires !PassesSizeTest(n) || n > 4096
    ensures FaultOf(addr, n) == AccessFault
  {
  }

  lemma CheckAlignment(addr: Addr, n: int)
    requires PassesSizeTest(n) && n <= 4096
    ensures FaultOf(addr, n) == if Aligned(addr, n) then NoFault else AlignmentFault
  {
  }

  /** A host buffer after i bytes of simulated memory have been copied to position at. */
  function Filled(b: seq<Byte>, at: nat, m: Pages, addr: Addr, i: nat): (r: seq<Byte>)
    requires WellFormed(m) && at + i <= |b|
    ensures |r| == |b|
  {
    b[..at] + LoadBytes(m, addr, i) + b[at + i..]
  }

  lemma FilledStep(b: seq<Byte>, at: nat, m: Pages, addr: Addr, i: nat)
    requires WellFormed(m) && at + i < |b|
    ensures Filled(b, at, m, addr, 0) == b
    ensures Filled(b, at, m, addr, i)[at + i := Load(m, Plus(addr, i))] == Filled(b, at, m, addr, i + 1)
  {
    hide Load, Plus;
    LoadStep(m, addr, i);
  }

  lemma StoreStep(m: Pages, addr: Addr, bytes: seq<Byte>, i: nat)
    requires WellFormed(m) && i < |bytes|
    ensures StoreBytes(m, addr, bytes[..i + 1]) == Store(StoreBytes(m, addr, bytes[..i]), Plus(addr, i), bytes[i])
  {
    hide Store, Plus;
    assert bytes[..i + 1][..i] == bytes[..i];
  }

  method ReadBytes(mem: Memory, addr: Addr, buf: array<Byte>, at: nat, nbytes: int)
    requires mem.Valid() && buf !in mem.Repr
    requires at + nbytes <= buf.Length && at <= buf.Length
    modifies mem.Repr, buf
    ensures mem.Valid() && mem.Repr == old(mem.Repr)
    ensures mem.Contents() == old(mem.Contents())
    ensures buf[..] == Filled(old(buf[..]), at, old(mem.Contents()), addr, Count(nbytes))
  {
    hide Memory.Valid, Memory.Contents, Load, WellFormed, Plus, Filled;
    ghost var m, b := mem.Contents(), buf[..];
    PlusZero(addr);
    FilledNothing(b, at, m, addr);
    var a, i := addr, 0;
    while i < nbytes
      invariant 0 <= i <= Count(nbytes) && a == Plus(addr, i)
      invariant mem.Valid() && mem.Repr == old(mem.Repr) && mem.Contents() == m
      invariant buf[..] == Filled(b, at, m, addr, i)
    {
      var v := mem.ReadByte(a);
      FilledStep(b, at, m, addr, i);
      buf[at + i] := v;
      PlusPlus(addr, i, 1);
      a, i := Plus(a, 1), i + 1;
    }
  }

  lemma FilledNothing(b: seq<Byte>, at: nat, m: Pages, addr: Addr)
    requires WellFormed(m) && at <= |b|
    ensures Filled(b, at, m, addr, 0) == b
  {
  }

  method WriteBytes(mem: Memory, addr: Addr, buf: array<Byte>, at: nat, nbytes: int)
    requires mem.Valid() && buf !in mem.Repr
    requires at + nbytes <= buf.Length && at <= buf.Length
    modifies mem.Repr
    ensures mem.Valid() && fresh(mem.Repr - old(mem.Repr))
    ensures mem.Contents() == StoreBytes(old(mem.Contents()), addr, old(buf[at..at + Count(nbytes)]))
  {
    hide Memory.Valid, Memory.Contents, WellFormed, Plus, Store, StoreBytes;
    ghost var m := mem.Contents();
    ghost var bytes := buf[at..at + Count(nbytes)];
    PlusZero(addr);
    StoreNothing(m, addr, bytes);
    var a, i := addr, 0;
    while i < nbytes
      invariant 0 <= i <= Count(nbytes) && a == Plus(addr, i)
      invariant mem.Valid() && fresh(mem.Repr - old(mem.Repr)) && buf !in mem.Repr
      invariant buf[..] == old(buf[..])
      invariant mem.Contents() == StoreBytes(m, addr, bytes[..i])
    {
      assert buf[at + i] == bytes[i];
      mem.WriteByte(a, buf[at + i]);
      StoreStep(m, addr, bytes, i);
      PlusPlus(addr, i, 1);
      a, i := Plus(a, 1), i + 1;
    }
  }

  // ---- Block copies -----------------------------------------------------------------------

  /** Copies go on where they stopped. */
  lemma FilledAppend(b: seq<Byte>, at: nat, m: Pages, addr: Addr, i: nat, n: nat)
    requires WellFormed(m) && at + i + n <= |b|
    ensures Filled(Filled(b, at, m, addr, i), at + i, m, Plus(addr, i), n) == Filled(b, at, m, addr, i + n)
  {
    hide Load;
    forall j | 0 <= j < n
      ensures Plus(Plus(addr, i), j) == Plus(addr, i + j)
    {
      PlusPlus(addr, i, j);
    }
    hide Plus;
    assert LoadBytes(m, addr, i + n) == LoadBytes(m, addr, i) + LoadBytes(m, Plus(addr, i), n);
  }

  lemma StoreAppend(m: Pages, addr: Addr, bytes: seq<Byte>, i: nat, n: nat)
    requires WellFormed(m) && i + n <= |bytes|
    ensures StoreBytes(StoreBytes(m, addr, bytes[..i]), Plus(addr, i), bytes[i..i + n])
            == StoreBytes(m, addr, bytes[..i + n])
  {
    hide StoreBytes, Plus;
    StoreBytesAppend(m, addr, bytes[..i], bytes[i..i + n]);
    assert bytes[..i] + bytes[i..i + n] == bytes[..i + n];
  }

  /** What a copy of n bytes leaves in memory and in the host buffer. */
  function CopiedPages(cmd: Command, m: Pages, addr: Addr, b: seq<Byte>, at: nat, n: nat): (r: Pages)
    requires WellFormed(m) && at + n <= |b|
    ensures WellFormed(r)
  {
    if cmd == Write then StoreBytes(m, addr, b[at..at + n]) else m
  }

  function CopiedBuffer(cmd: Command, m: Pages, addr: Addr, b: seq<Byte>, at: nat, n: nat): (r: seq<Byte>)
    requires WellFormed(m) && at + n <= |b|
    ensures |r| == |b|
  {
    if cmd == Read then Filled(b, at, m, addr, n) else b
  }

  lemma CopyNothing(cmd: Command, m: Pages, addr: Addr, b: seq<Byte>, at: nat)
    requires WellFormed(m) && at <= |b|
    ensures CopiedPages(cmd, m, addr, b, at, 0) == m && CopiedBuffer(cmd, m, addr, b, at, 0) == b
  {
  }

  /** A copy of i bytes followed by a copy of the next n is a copy of i + n bytes. */
  lemma CopyAppend(cmd: Command, m: Pages, addr: Addr, b: seq<Byte>, at: nat, i: nat, n: nat)
    requires WellFormed(m) && at + i + n <= |b|
    ensures var m', b' := CopiedPages(cmd, m, addr, b, at, i), CopiedBuffer(cmd, m, addr, b, at, i);
            && CopiedPages(cmd, m', Plus(addr, i), b', at + i, n) == CopiedPages(cmd, m, addr, b, at, i + n)
            && CopiedBuffer(cmd, m', Plus(addr, i), b', at + i, n) == CopiedBuffer(cmd, m, addr, b, at, i + n)
  {
    hide StoreBytes, Filled, Plus;
    if cmd == Write {
      var bytes := b[at..at + i + n];
      StoreAppend(m, addr, bytes, i, n);
      assert bytes[..i] == b[at..at + i] && bytes[i..i + n] == b[at + i..at + i + n] && bytes[..i + n] == bytes;
    } else {
      FilledAppend(b, at, m, addr, i, n);
    }
  }

  /** One unit of a block copy that has come to offset off. */
  method CopyUnit(mem: Memory, cmd: Command, a: Addr, buf: array<Byte>, unit: nat,
                  ghost m: Pages, ghost addr: Addr, ghost b: seq<Byte>, at: nat, off: nat) returns (fault: Fault)
    requires mem.Valid() && buf !in mem.Repr && at + off + unit <= buf.Length == |b| && unit < 0x8000_0000
    requires WellFormed(m) && a == Plus(addr, off)
    requires mem.Contents() == CopiedPages(cmd, m, addr, b, at, off)
    requires buf[..] == CopiedBuffer(cmd, m, addr, b, at, off)
    modifies mem.Repr, buf
    ensures mem.Valid() && fresh(mem.Repr - old(mem.Repr)) && buf !in mem.Repr
    ensures fault == FaultOf(a, unit)
    ensures var n := if fault == NoFault then off + unit else off;
            && mem.Contents() == CopiedPages(cmd, m, addr, b, at, n)
            && buf[..] == CopiedBuffer(cmd, m, addr, b, at, n)
  {
    hide *;
    CopyAppend(cmd, m, addr, b, at, off, unit);
    CopyNothing(cmd, mem.Contents(), a, buf[..], at + off);
    fault := Access(mem, cmd, a, buf, at + off, unit);
  }

  /** Copy byte by byte: no access can fault. */
  method Bcopy(mem: Memory, cmd: Command, addr: Addr, buf: array<Byte>, at: nat, nbytes: int) returns (fault: Fault)
    requires mem.Valid() && buf !in mem.Repr && at + Count(nbytes) <= buf.Length
    modifies mem.Repr, buf
    ensures mem.Valid() && fresh(mem.Repr - old(mem.Repr)) && buf !in mem.Repr
    ensures fault == NoFault
    ensures mem.Contents() == CopiedPages(cmd, old(mem.Contents()), addr, old(buf[..]), at, Count(nbytes))
    ensures buf[..] == CopiedBuffer(cmd, old(mem.Contents()), addr, old(buf[..]), at, Count(nbytes))
  {
    hide Memory.Valid, Memory.Contents, WellFormed, Plus, CopiedPages, CopiedBuffer, FaultOf;
    ghost var m, b := mem.Contents(), buf[..];
    PlusZero(addr);
    CopyNothing(cmd, m, addr, b, at);
    var a, i := addr, 0;
    while i < nbytes
      invariant 0 <= i <= Count(nbytes) && a == Plus(addr, i)
      invariant mem.Valid() && fresh(mem.Repr - old(mem.Repr)) && buf !in mem.Repr
      invariant mem.Contents() == CopiedPages(cmd, m, addr, b, at, i)
      invariant buf[..] == CopiedBuffer(cmd, m, addr, b, at, i)
    {
      UnitFaults(a);
      PlusPlus(addr, i, 1);
      fault := CopyUnit(mem, cmd, a, buf, 1, m, addr, b, at, i);
      if fault != NoFault {
        return;
      }
      a, i := Plus(a, 1), i + 1;
    }
    fault := NoFault;
  }

  /** Copy word by word. On an aligned address this is the byte copy of the whole words; on any
      other the first word faults before anything is copied. */
  method Bcopy4(mem: Memory, cmd: Command, addr: Addr, buf: array<Byte>, at: nat, nbytes: int) returns (fault: Fault)
    requires mem.Valid() && buf !in mem.Repr && at + Count(nbytes) <= buf.Length
    modifies mem.Repr, buf
    ensures mem.Valid() && fresh(mem.Repr - old(mem.Repr)) && buf !in mem.Repr
    ensures fault == if OnWord(addr) || nbytes < 4 then NoFault else AlignmentFault
    ensures var n := if fault == NoFault then WholeWords(nbytes) else 0;
            && mem.Contents() == CopiedPages(cmd, old(mem.Contents()), addr, old(buf[..]), at, n)
            && buf[..] == CopiedBuffer(cmd, old(mem.Contents()), addr, old(buf[..]), at, n)
  {
    hide Memory.Valid, Memory.Contents, WellFormed, Plus, CopiedPages, CopiedBuffer, FaultOf, OnWord, WholeWords;
    ghost var m, b := mem.Contents(), buf[..];
    PlusZero(addr);
    CopyNothing(cmd, m, addr, b, at);
    WordsLeft(nbytes);
    var a, off, words := addr, 0, nbytes / 4;
    while words > 0
      invariant off + (if words > 0 then 4 * words else 0) == WholeWords(nbytes) && 0 <= off
      invariant a == Plus(addr, off) && (OnWord(a) <==> OnWord(addr))
      invariant words == nbytes / 4 || OnWord(addr)
      invariant off == 0 || OnWord(addr)
      invariant mem.Valid() && fresh(mem.Repr - old(mem.Repr)) && buf !in mem.Repr
      invariant mem.Contents() == CopiedPages(cmd, m, addr, b, at, off)
      invariant buf[..] == CopiedBuffer(cmd, m, addr, b, at, off)
    {
      WordFaults(a);
      NextWord(a);
      PlusPlus(addr, off, 4);
      fault := CopyUnit(mem, cmd, a, buf, 4, m, addr, b, at, off);
      if fault != NoFault {
        return;
      }
      a, off, words := Plus(a, 4), off + 4, words - 1;
    }
    fault := NoFault;
  }

  /** The bytes of the whole words in a count. */
  function WholeWords(nbytes: int): nat
  {
    if nbytes >= 4 then nbytes / 4 * 4 else 0
  }

  lemma WordsLeft(nbytes: int)
    ensures nbytes / 4 > 0 <==> nbytes >= 4
    ensures WholeWords(nbytes) == if nbytes / 4 > 0 then 4 * (nbytes / 4) else 0
    ensures WholeWords(nbytes) <= Count(nbytes)
  {
  }

  lemma PlusZero(addr: Addr)
    ensures Plus(addr, 0) == addr
  {
  }

  predicate OnWord(addr: Addr) { addr % 4 == 0 }

  lemma WordFaults(addr: Addr)
    ensures FaultOf(addr, 4) == if OnWord(addr) then NoFault else AlignmentFault
  {
    UnitFaults(addr);
  }

  lemma NextWord(addr: Addr)
    ensures OnWord(Plus(addr, 4)) <==> OnWord(addr)
  {
  }

  /** Clear a run of bytes. */
  method Bzero(mem: Memory, addr: Addr, nbytes: int) returns (fault: Fault)
    requires mem.Valid()
    modifies mem.Repr
    ensures mem.Valid() && fresh(mem.Repr - old(mem.Repr))
    ensures fault == NoFault
    ensures mem.Contents() == StoreBytes(old(mem.Contents()), addr, Zeros(Count(nbytes)))
  {
    hide Memory.Valid, Memory.Contents, WellFormed, Plus, Store, StoreBytes;
    ghost var m := mem.Contents();
    ghost var bytes := Zeros(Count(nbytes));
    PlusZero(addr);
    StoreNothing(m, addr, bytes);
    var a, i := addr, 0;
    while i < nbytes
      invariant 0 <= i <= Count(nbytes) && a == Plus(addr, i)
      invariant mem.Valid() && fresh(mem.Repr - old(mem.Repr))
      invariant mem.Contents() == StoreBytes(m, addr, bytes[..i])
    {
      mem.WriteByte(a, 0);
      StoreStep(m, addr, bytes, i);
      PlusPlus(addr, i, 1);
      a, i := Plus(a, 1), i + 1;
    }
    fault := NoFault;
  }

  function Zeros(n: nat): (r: seq<Byte>)
    ensures |r| == n && forall i :: 0 <= i < n ==> r[i] == 0
  {
    seq(n, _ => 0)
  }

  lemma StoreNothing(m: Pages, addr: Addr, bytes: seq<Byte>)
    requires WellFormed(m)
    ensures StoreBytes(m, addr, bytes[..0]) == m && bytes[..|bytes|] == bytes
  {
  }

  // ---- Strings -----------------------------------------------------------------------------

  /** A host string: its bytes up to, and not including, the terminator. */
  predicate IsCString(s: seq<Byte>)
  {
    forall i :: 0 <= i < |s| ==> s[i] != 0
  }

  /** The string s, with its terminator, is in memory at addr. */
  predicate StringAt(m: Pages, addr: Addr, s: seq<Byte>)
    requires WellFormed(m)
  {
    IsCString(s) && LoadBytes(m, addr, |s| + 1) == s + [0]
  }

  /** Copy a string and its terminator into memory. */
  method StrcpyWrite(mem: Memory, addr: Addr, s: seq<Byte>) returns (fault: Fault)
    requires mem.Valid() && IsCString(s)
    modifies mem.Repr
    ensures mem.Valid() && fresh(mem.Repr - old(mem.Repr))
    ensures fault == NoFault
    ensures mem.Contents() == StoreBytes(old(mem.Contents()), addr, s + [0])
  {
    hide Memory.Valid, Memory.Contents, WellFormed, Plus, Store, StoreBytes;
    ghost var m := mem.Contents();
    var bytes: seq<Byte> := s + [0];
    PlusZero(addr);
    StoreNothing(m, addr, bytes);
    var a, n, c: Byte := addr, 0, 1;
    while c != 0
      invariant 0 <= n <= |bytes| && a == Plus(addr, n)
      invariant c == 0 <==> n == |bytes|
      invariant mem.Valid() && fresh(mem.Repr - old(mem.Repr))
      invariant mem.Contents() == StoreBytes(m, addr, bytes[..n])
      decreases |bytes| - n
    {
      c := bytes[n];
      mem.WriteByte(a, c);
      StoreStep(m, addr, bytes, n);
      PlusPlus(addr, n, 1);
      a, n := Plus(a, 1), n + 1;
    }
    fault := NoFault;
  }

  lemma LoadStep(m: Pages, addr: Addr, n: nat)
    requires WellFormed(m)
    ensures LoadBytes(m, addr, n + 1) == LoadBytes(m, addr, n) + [Load(m, Plus(addr, n))]
  {
  }

  /** Copy a string out of memory: the bytes up to the first zero. Without a zero byte anywhere the
      program's loop does not end; k is the position of one. */
  method StrcpyRead(mem: Memory, addr: Addr, ghost k: nat) returns (fault: Fault, s: seq<Byte>)
    requires mem.Valid() && Load(mem.Contents(), Plus(addr, k)) == 0
    modifies mem.Repr
    ensures mem.Valid() && mem.Repr == old(mem.Repr) && mem.Contents() == old(mem.Contents())
    ensures fault == NoFault && StringAt(mem.Contents(), addr, s)
  {
    hide Memory.Valid, Memory.Contents, WellFormed, Plus, Load, LoadBytes;
    ghost var m := mem.Contents();
    PlusZero(addr);
    s := [];
    var a, c: Byte := addr, 1;
    while c != 0
      invariant c != 0 ==> a == Plus(addr, |s|)
      invariant mem.Valid() && mem.Repr == old(mem.Repr) && mem.Contents() == m
      invariant IsCString(s) && |s| <= k
      invariant s == LoadBytes(m, addr, |s|)
      invariant c == 0 ==> Load(m, Plus(addr, |s|)) == 0
      decreases c != 0, k - |s|
    {
      c := mem.ReadByte(a);
      PlusPlus(addr, |s|, 1);
      a := Plus(a, 1);
      if c != 0 {
        LoadStep(m, addr, |s|);
        s := s + [c];
      }
    }
    LoadStep(m, addr, |s|);
    fault := NoFault;
  }
}
