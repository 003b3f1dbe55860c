// The checks of a memory access (Lab1-Hazards/memory.c) bit by bit, as the program makes them.
module MemoryLaws {
  import opened BinaryWords
  import opened FlatMemory
  import opened MemoryAccess

  /** A 32-bit signed number as a word. */
  function Word(n: int): (w: nat)
    requires -0x8000_0000 <= n < 0x8000_0000
    ensures w < 0x1_0000_0000
  {
    if n < 0 then n + 0x1_0000_0000 else n
  }

  /** Whether the bitwise and of two words is zero. */
  ghost predicate NoCommonBit(x: nat, y: nat)
  {
    forall k: nat :: !(BitAt(x, k) && BitAt(y, k))
  }

  lemma CommonBitsHalved(x: nat, y: nat)
    ensures NoCommonBit(x, y) <==> !(x % 2 == 1 && y % 2 == 1) && NoCommonBit(x / 2, y / 2)
  {
    if NoCommonBit(x, y) {
      assert !(BitAt(x, 0) && BitAt(y, 0));
      forall k: nat
        ensures !(BitAt(x / 2, k) && BitAt(y / 2, k))
      {
        assert !(BitAt(x, k + 1) && BitAt(y, k + 1));
      }
    }
    if !(x % 2 == 1 && y % 2 == 1) && NoCommonBit(x / 2, y / 2) {
      forall k: nat
        ensures !(BitAt(x, k) && BitAt(y, k))
      {
        if k > 0 {
          assert !(BitAt(x / 2, k - 1) && BitAt(y / 2, k - 1));
        }
      }
    }
  }

  lemma {:induction false} NoBitsInZero(k: nat)
    ensures !BitAt(0, k)
  {
    if k > 0 {
      NoBitsInZero(k - 1);
    }
  }

  lemma NothingCommon(y: nat)
    ensures NoCommonBit(0, y) && NoCommonBit(y, 0)
  {
    forall k: nat
      ensures !BitAt(0, k)
    {
      NoBitsInZero(k);
    }
  }

  lemma {:induction false} SomeBit(n: nat)
    requires n > 0
    ensures !NoCommonBit(n, n)
  {
    CommonBitsHalved(n, n);
    if n % 2 == 0 {
      SomeBit(n / 2);
    }
  }

  /** A positive number has no bit in common with its predecessor exactly if it is a power of two. */
  lemma {:induction false} PowersShareNoBit(n: nat)
    requires n > 0
    ensures NoCommonBit(n, n - 1) <==> IsPowerOfTwo(n)
  {
    hide NoCommonBit;
    CommonBitsHalved(n, n - 1);
    if n == 1 {
      NothingCommon(0);
    } else if n % 2 == 0 {
      assert (n - 1) / 2 == n / 2 - 1;
      PowersShareNoBit(n / 2);
    } else {
      SomeBit(n / 2);
    }
  }

  /** A power of two has the bits below its own in its predecessor. */
  lemma {:induction false} MaskTakesRemainder(a: nat, n: nat)
    requires n > 0 && IsPowerOfTwo(n)
    ensures NoCommonBit(a, n - 1) <==> a % n == 0
  {
    hide NoCommonBit;
    if n == 1 {
      NothingCommon(a);
    } else {
      CommonBitsHalved(a, n - 1);
      MaskTakesRemainder(a / 2, n / 2);
      HalfOfLow(a, n / 2);
      assert 2 * (n / 2) == n;
    }
  }

  lemma LargePower(n: nat)
    requires 0x8000_0000 <= n < 0x1_0000_0000
    ensures IsPowerOfTwo(n) <==> n == 0x8000_0000
  {
    TopPower();
    PowerBetween(n, 0x8000_0000);
  }

  /** Between a power of two and the next there is no other. */
  lemma {:induction false} PowerBetween(n: nat, p: nat)
    requires 0 < p <= n < 2 * p && IsPowerOfTwo(p)
    ensures IsPowerOfTwo(n) <==> n == p
    decreases p
  {
    if p > 1 {
      assert p % 2 == 0;
      if n % 2 == 0 {
        PowerBetween(n / 2, p / 2);
      }
    }
  }

  /** The test of the size: a number has no bit in common with its predecessor. */
  lemma SizeTestMeans(n: int)
    requires -0x8000_0000 <= n < 0x8000_0000
    ensures PassesSizeTest(n) <==>
              NoCommonBit(Word(n), if n == -0x8000_0000 then 0x7fff_ffff else Word(n - 1))
  {
    hide NoCommonBit, IsPowerOfTwo;
    if n == 0 {
      NothingCommon(0xffff_ffff);
    } else {
      PowersShareNoBit(Word(n));
      if n < 0 {
        LargePower(Word(n));
      }
    }
  }

  /** The test of the alignment: the address has no bit in common with the predecessor of the size. */
  lemma AlignmentTestMeans(addr: Addr, n: int)
    requires -0x8000_0000 <= n < 0x8000_0000 && PassesSizeTest(n)
    ensures Aligned(addr, n) <==>
              NoCommonBit(addr, if n == -0x8000_0000 then 0x7fff_ffff else Word(n - 1))
  {
    hide NoCommonBit, IsPowerOfTwo;
    if n == 0 {
      AllOnes(addr);
    } else {
      if n < 0 {
        TopPower();
      }
      MaskTakesRemainder(addr, Word(n));
    }
  }

  lemma DoublePower(n: nat)
    requires n > 0 && IsPowerOfTwo(n)
    ensures IsPowerOfTwo(2 * n)
  {
  }

  lemma PowerTimes256(n: nat)
    requires n > 0 && IsPowerOfTwo(n)
    ensures IsPowerOfTwo(256 * n)
  {
    hide IsPowerOfTwo;
    DoublePower(n);
    DoublePower(2 * n);
    DoublePower(4 * n);
    DoublePower(8 * n);
    DoublePower(16 * n);
    DoublePower(32 * n);
    DoublePower(64 * n);
    DoublePower(128 * n);
  }

  lemma TopPower()
    ensures IsPowerOfTwo(0x8000_0000) && IsPowerOfTwo(0x1_0000_0000)
  {
    assert IsPowerOfTwo(0x80);
    hide IsPowerOfTwo;
    PowerTimes256(0x80);
    PowerTimes256(0x8000);
    PowerTimes256(0x80_0000);
    DoublePower(0x8000_0000);
  }

  lemma AllOnes(addr: Addr)
    ensures NoCommonBit(addr, 0xffff_ffff) <==> addr == 0
  {
    hide NoCommonBit, IsPowerOfTwo;
    TopPower();
    MaskTakesRemainder(addr, 0x1_0000_0000);
  }

  /** The fault of an access: of the size if it is no power of two or more than a page, and else of the alignment. */
  lemma FaultMeans(addr: Addr, n: int)
    requires -0x8000_0000 <= n < 0x8000_0000
    ensures var mask := if n == -0x8000_0000 then 0x7fff_ffff else Word(n - 1);
            FaultOf(addr, n) ==
            if !NoCommonBit(Word(n), mask) || n > 4096 then AccessFault
            else if !NoCommonBit(addr, mask) then AlignmentFault
            else NoFault
  {
    hide NoCommonBit, IsPowerOfTwo, Aligned, PassesSizeTest;
    SizeTestMeans(n);
    if PassesSizeTest(n) {
      AlignmentTestMeans(addr, n);
    }
  }

  // ---- Copies -----------------------------------------------------------------------------------------

  /** A copy of nbytes bytes, by either direction: none for a negative count, and else as many as asked for. */
  lemma CopyMeans(cmd: Command, m: Pages, addr: Addr, b: seq<Byte>, at: nat, nbytes: int)
    requires WellFormed(m) && at <= |b| && at + nbytes <= |b|
    ensures var n := if nbytes < 0 then 0 else nbytes;
            at + Count(nbytes) <= |b| &&
            var m' := CopiedPages(cmd, m, addr, b, at, Count(nbytes));
            var b' := CopiedBuffer(cmd, m, addr, b, at, Count(nbytes));
            && (cmd == Read ==> m' == m && |b'| == |b| && forall i :: 0 <= i < |b| ==>
                  b'[i] == if at <= i < at + n then Load(m, (addr + (i - at)) % 0x1_0000_0000) else b[i])
            && (cmd == Write ==> b' == b && (n <= 0x1_0000_0000 ==> forall a: Addr ::
                  var d := (a - addr) % 0x1_0000_0000;
                  Load(m', a) == if d < n then b[at + d] else Load(m, a)))
  {
    hide Load;
    if cmd == Write && Count(nbytes) <= 0x1_0000_0000 {
      forall a: Addr
        ensures var d := (a - addr) % 0x1_0000_0000;
                Load(CopiedPages(cmd, m, addr, b, at, Count(nbytes)), a)
                == if d < Count(nbytes) then b[at + d] else Load(m, a)
      {
        LoadAfterStoreBytes(m, addr, b[at..at + Count(nbytes)], a);
      }
    }
  }

  /** Word by word, what is left over of the count is not copied. */
  lemma WholeWordsMean(nbytes: int)
    ensures WholeWords(nbytes) == if nbytes < 0 then 0 else nbytes - nbytes % 4
    ensures WholeWords(nbytes) <= Count(nbytes) == if nbytes < 0 then 0 else nbytes
  {
  }
}
