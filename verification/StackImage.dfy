// The initial stack of a simulated program, as Lab1-Hazards/loader.c writes it: argc, the argv and envp
// arrays, and their strings.
module StackImage {
  import opened FlatMemory
  import opened PageTable
  import opened MemoryAccess

  type Text = seq<Byte>

  // ---- Words in memory ---------------------------------------------------------------------------

  /** The bytes of a word in the byte order that host and target share. */
  function WordBytes(w: Addr, bigEndian: bool): (r: seq<Byte>)
    ensures |r| == 4
  {
    var b0, b1, b2, b3 := w % 256, w / 256 % 256, w / 65536 % 256, w / 16777216;
    if bigEndian then [b3, b2, b1, b0] else [b0, b1, b2, b3]
  }

  function WordOf(b: seq<Byte>, bigEndian: bool): int
    requires |b| == 4
  {
    var b0: int, b1: int, b2: int, b3: int := b[0], b[1], b[2], b[3];
    if bigEndian then b3 + 256 * b2 + 65536 * b1 + 16777216 * b0
    else b0 + 256 * b1 + 65536 * b2 + 16777216 * b3
  }

  lemma WordRoundTrip(w: Addr, bigEndian: bool)
    ensures WordOf(WordBytes(w, bigEndian), bigEndian) == w
  {
    assert w / 65536 == w / 256 / 256 && w / 16777216 == w / 65536 / 256;
  }

  function LoadWord(m: Pages, a: Addr, bigEndian: bool): int
    requires WellFormed(m)
  {
    WordOf(LoadBytes(m, a, 4), bigEndian)
  }

  /** A word in memory, from its four bytes. */
  lemma WordMeans(m: Pages, a: Addr)
    requires WellFormed(m) && a + 4 <= 0xffff_ffff
    ensures LoadWord(m, a, false) == Load(m, a) + 0x100 * Load(m, a + 1) + 0x1_0000 * Load(m, a + 2)
                                     + 0x100_0000 * Load(m, a + 3)
    ensures LoadWord(m, a, true) == Load(m, a + 3) + 0x100 * Load(m, a + 2) + 0x1_0000 * Load(m, a + 1)
                                    + 0x100_0000 * Load(m, a)
  {
    hide Load;
  }

  // ---- The image ---------------------------------------------------------------------------------

  /** Strings one after the other, each with its terminator. */
  function Strings(ss: seq<Text>): seq<Byte>
  {
    if ss == [] then [] else ss[0] + [0] + Strings(ss[1..])
  }

  /** The addresses of strings that lie one after the other from start. */
  function Pointers(start: Addr, ss: seq<Text>, bigEndian: bool): (r: seq<Byte>)
    requires start + |Strings(ss)| <= 0xffff_ffff
    ensures |r| == 4 * |ss|
    decreases ss
  {
    if ss == [] then []
    else WordBytes(start, bigEndian) + Pointers(start + |ss[0]| + 1, ss[1..], bigEndian)
  }

  /** A pointer array with its terminator. */
  function Vector(start: Addr, ss: seq<Text>, bigEndian: bool): (r: seq<Byte>)
    requires start + |Strings(ss)| <= 0xffff_ffff
    ensures |r| == 4 * |ss| + 4
  {
    Pointers(start, ss, bigEndian) + WordBytes(0, bigEndian)
  }

  /** Where the strings start, relative to the stack pointer. */
  function TableSize(argv: seq<Text>, envp: seq<Text>): nat
  {
    4 + (4 * |argv| + 4) + (4 * |envp| + 4)
  }

  /** All of it lies below the top of the address space. */
  predicate Addressable(argv: seq<Text>, envp: seq<Text>)
  {
    0x7fff_8000 + TableSize(argv, envp) + |Strings(argv)| + |Strings(envp)| <= 0xffff_ffff
  }

  function Image(argv: seq<Text>, envp: seq<Text>, bigEndian: bool): (r: seq<Byte>)
    requires Addressable(argv, envp)
    ensures |r| == TableSize(argv, envp) + |Strings(argv)| + |Strings(envp)|
  {
    var start := 0x7fff_8000 + TableSize(argv, envp);
    WordBytes(|argv|, bigEndian)
    + Vector(start, argv, bigEndian)
    + Vector(start + |Strings(argv)|, envp, bigEndian)
    + Strings(argv)
    + Strings(envp)
  }

  /** Memory m is m0 with the image at the initial stack pointer. */
  ghost predicate Holds(m0: Pages, m: Pages, image: seq<Byte>)
    requires WellFormed(m0) && WellFormed(m) && 0x7fff_8000 + |image| <= 0xffff_ffff
  {
    Partial(m0, m, image, |image|, |image|, |image|)
  }

  // ---- An image half written ---------------------------------------------------------------------

  /** What address a holds when the image is written up to h, and from mid to s. */
  function Expected(m0: Pages, image: seq<Byte>, h: nat, mid: nat, s: nat, a: Addr): Byte
    requires WellFormed(m0) && h <= mid <= s <= |image|
  {
    var d := a - 0x7fff_8000;
    if 0 <= d < h || mid <= d < s then image[d] else Load(m0, a)
  }

  ghost predicate Partial(m0: Pages, m: Pages, image: seq<Byte>, h: nat, mid: nat, s: nat)
    requires WellFormed(m0) && WellFormed(m) && h <= mid <= s <= |image|
  {
    forall a: Addr :: Load(m, a) == Expected(m0, image, h, mid, s, a)
  }

  /** The offset of a from the place of a store. */
  lemma StoredAt(m: Pages, image: seq<Byte>, at: nat, n: nat, a: Addr)
    requires WellFormed(m) && at + n <= |image| && 0x7fff_8000 + |image| <= 0xffff_ffff
    ensures var d := a - 0x7fff_8000;
            Load(StoreBytes(m, 0x7fff_8000 + at, image[at..at + n]), a)
            == if at <= d < at + n then image[d] else Load(m, a)
  {
    hide Load, StoreBytes;
    LoadAfterStoreBytes(m, 0x7fff_8000 + at, image[at..at + n], a);
    var e := a - (0x7fff_8000 + at);
    assert e % 0x1_0000_0000 == if e >= 0 then e else e + 0x1_0000_0000;
  }

  lemma HeadStored(m0: Pages, m: Pages, image: seq<Byte>, h: nat, mid: nat, s: nat, n: nat)
    requires WellFormed(m0) && WellFormed(m) && h + n <= mid <= s <= |image|
    requires 0x7fff_8000 + |image| <= 0xffff_ffff
    requires Partial(m0, m, image, h, mid, s)
    ensures Partial(m0, StoreBytes(m, 0x7fff_8000 + h, image[h..h + n]), image, h + n, mid, s)
  {
    hide Load, StoreBytes;
    var r := StoreBytes(m, 0x7fff_8000 + h, image[h..h + n]);
    forall a: Addr
      ensures Load(r, a) == Expected(m0, image, h + n, mid, s, a)
    {
      StoredAt(m, image, h, n, a);
    }
  }

  lemma TailStored(m0: Pages, m: Pages, image: seq<Byte>, h: nat, mid: nat, s: nat, n: nat)
    requires WellFormed(m0) && WellFormed(m) && h <= mid <= s && s + n <= |image|
    requires 0x7fff_8000 + |image| <= 0xffff_ffff
    requires Partial(m0, m, image, h, mid, s)
    ensures Partial(m0, StoreBytes(m, 0x7fff_8000 + s, image[s..s + n]), image, h, mid, s + n)
  {
    hide Load, StoreBytes;
    var r := StoreBytes(m, 0x7fff_8000 + s, image[s..s + n]);
    forall a: Addr
      ensures Load(r, a) == Expected(m0, image, h, mid, s + n, a)
    {
      StoredAt(m, image, s, n, a);
    }
  }

  // ---- Where things are in the image ---------------------------------------------------------------

  lemma {:induction false} StringsAppend(xs: seq<Text>, ys: seq<Text>)
    ensures Strings(xs + ys) == Strings(xs) + Strings(ys)
  {
    if xs == [] {
      assert xs + ys == ys;
    } else {
      StringsAppend(xs[1..], ys);
      assert (xs + ys)[1..] == xs[1..] + ys;
    }
  }

  /** String i starts after the strings before it. */
  lemma StringInStrings(ss: seq<Text>, i: nat)
    requires i < |ss|
    ensures var k := |Strings(ss[..i])|;
            && k + |ss[i]| + 1 <= |Strings(ss)|
            && |Strings(ss[..i + 1])| == k + |ss[i]| + 1
            && Strings(ss)[k..k + |ss[i]| + 1] == ss[i] + [0]
  {
    assert ss == ss[..i] + ([ss[i]] + ss[i + 1..]);
    assert ss[..i + 1] == ss[..i] + [ss[i]];
    StringsAppend(ss[..i], [ss[i]] + ss[i + 1..]);
    StringsAppend(ss[..i], [ss[i]]);
    StringsAppend([ss[i]], ss[i + 1..]);
    OneString(ss[i]);
  }

  lemma OneString(s: Text)
    ensures Strings([s]) == s + [0]
  {
    var one: seq<Text>, none: seq<Text> := [s], [];
    assert one[1..] == none;
  }

  lemma AfterFirst(first: seq<Byte>, rest: seq<Byte>, i: nat)
    requires |first| == 4 && i > 0 && 4 * i <= |rest|
    ensures (first + rest)[4 * i..4 * i + 4] == rest[4 * (i - 1)..4 * (i - 1) + 4]
  {
  }

  lemma FirstString(ss: seq<Text>, i: nat)
    requires 0 < i <= |ss|
    ensures |Strings(ss)| == |ss[0]| + 1 + |Strings(ss[1..])|
    ensures |Strings(ss[..i])| == |ss[0]| + 1 + |Strings(ss[1..][..i - 1])|
  {
    assert ss[..i][1..] == ss[1..][..i - 1];
  }

  /** Pointer i leads to where string i starts. */
  lemma {:induction false} PointerInPointers(start: Addr, ss: seq<Text>, bigEndian: bool, i: nat)
    requires start + |Strings(ss)| <= 0xffff_ffff && i < |ss|
    ensures start + |Strings(ss[..i])| <= 0xffff_ffff
    ensures Pointers(start, ss, bigEndian)[4 * i..4 * i + 4] == WordBytes(start + |Strings(ss[..i])|, bigEndian)
    decreases ss
  {
    if i == 0 {
      var none: seq<Text> := [];
      assert ss[..0] == none;
    } else {
      hide WordBytes, Strings;
      FirstString(ss, i);
      var rest := Pointers(start + |ss[0]| + 1, ss[1..], bigEndian);
      var first := WordBytes(start, bigEndian);
      assert Pointers(start, ss, bigEndian) == first + rest;
      hide *;
      PointerInPointers(start + |ss[0]| + 1, ss[1..], bigEndian, i - 1);
      AfterFirst(first, rest, i);
    }
  }

  // ---- Writing the image -----------------------------------------------------------------------------

  /** Write one word; the stack pointer and the arrays lie on word boundaries. */
  method WriteWord(mem: Memory, a: Addr, w: Addr, bigEndian: bool)
    requires mem.Valid() && a % 4 == 0
    modifies mem.Repr
    ensures mem.Valid() && fresh(mem.Repr - old(mem.Repr))
    ensures mem.Contents() == StoreBytes(old(mem.Contents()), a, WordBytes(w, bigEndian))
  {
    var bytes := WordBytes(w, bigEndian);
    var temp := new Byte[4](i requires 0 <= i < 4 => bytes[i]);
    assert temp[..] == bytes && temp[..][0..4] == bytes;
    UnitFaults(a);
    hide WordBytes, StoreBytes, FaultOf, Memory.Valid, Memory.Contents;
    var _ := Access(mem, Write, a, temp, 0, 4);
  }

  /** Part of a sequence of bytes. */
  predicate At(image: seq<Byte>, at: nat, bytes: seq<Byte>)
  {
    at + |bytes| <= |image| && image[at..at + |bytes|] == bytes
  }

  /** The image has the array of ss at h and the strings themselves at s. */
  predicate ListAt(image: seq<Byte>, h: nat, s: nat, ss: seq<Text>, bigEndian: bool)
  {
    && 0x7fff_8000 + s + |Strings(ss)| <= 0xffff_ffff
    && At(image, h, Vector(0x7fff_8000 + s, ss, bigEndian))
    && At(image, s, Strings(ss))
  }

  lemma PartOf(image: seq<Byte>, at: nat, bytes: seq<Byte>, i: nat, n: nat)
    requires At(image, at, bytes) && i + n <= |bytes|
    ensures image[at + i..at + i + n] == bytes[i..i + n]
  {
    var inImage, inBytes := image[at + i..at + i + n], bytes[i..i + n];
    assert forall j :: 0 <= j < n ==> inImage[j] == image[at..at + |bytes|][i + j] == inBytes[j];
  }

  /** What the image holds for entry i of a list. */
  lemma EntryAt(image: seq<Byte>, h: nat, s: nat, ss: seq<Text>, bigEndian: bool, i: nat)
    requires ListAt(image, h, s, ss, bigEndian) && i < |ss|
    ensures var k := |Strings(ss[..i])|;
            && h + 4 * i + 8 <= |image| && s + k + |ss[i]| + 1 <= |image|
            && 0x7fff_8000 + s + k <= 0xffff_ffff
            && image[h + 4 * i..h + 4 * i + 4] == WordBytes(0x7fff_8000 + s + k, bigEndian)
            && image[s + k..s + k + |ss[i]| + 1] == ss[i] + [0]
            && |Strings(ss[..i + 1])| == k + |ss[i]| + 1
  {
    hide WordBytes, Strings, Pointers;
    var start: Addr := 0x7fff_8000 + s;
    var v := Vector(start, ss, bigEndian);
    VectorEntry(start, ss, bigEndian, i);
    hide Vector;
    StringInStrings(ss, i);
    PartOf(image, h, v, 4 * i, 4);
    PartOf(image, s, Strings(ss), |Strings(ss[..i])|, |ss[i]| + 1);
  }

  lemma VectorEntry(start: Addr, ss: seq<Text>, bigEndian: bool, i: nat)
    requires start + |Strings(ss)| <= 0xffff_ffff && i < |ss|
    ensures start + |Strings(ss[..i])| <= 0xffff_ffff
    ensures Vector(start, ss, bigEndian)[4 * i..4 * i + 4] == WordBytes(start + |Strings(ss[..i])|, bigEndian)
  {
    hide WordBytes, Strings, Pointers;
    PointerInPointers(start, ss, bigEndian, i);
    assert Vector(start, ss, bigEndian)[4 * i..4 * i + 4] == Pointers(start, ss, bigEndian)[4 * i..4 * i + 4];
  }

  lemma TerminatorAt(image: seq<Byte>, h: nat, s: nat, ss: seq<Text>, bigEndian: bool)
    requires ListAt(image, h, s, ss, bigEndian)
    ensures h + 4 * |ss| + 4 <= |image|
    ensures image[h + 4 * |ss|..h + 4 * |ss| + 4] == WordBytes(0, bigEndian)
  {
    var v := Vector(0x7fff_8000 + s, ss, bigEndian);
    assert v[4 * |ss|..4 * |ss| + 4] == WordBytes(0, bigEndian);
    hide Pointers, Vector, Strings, WordBytes;
    PartOf(image, h, v, 4 * |ss|, 4);
  }

  lemma StringsOfNone(ss: seq<Text>)
    ensures Strings(ss[..0]) == [] && ss[..|ss|] == ss
  {
  }

  /** Write one pointer and the string that it leads to. */
  method PutEntry(mem: Memory, entry: Addr, sp: Addr, t: Text, bigEndian: bool,
                  ghost m0: Pages, ghost image: seq<Byte>, ghost h: nat, ghost mid: nat, ghost s: nat)
    requires mem.Valid() && WellFormed(m0) && IsCString(t)
    requires 0x7fff_8000 + |image| <= 0xffff_ffff && entry == 0x7fff_8000 + h && sp == 0x7fff_8000 + s
    requires h % 4 == 0 && h + 4 <= mid <= s && s + |t| + 1 <= |image|
    requires image[h..h + 4] == WordBytes(sp, bigEndian) && image[s..s + |t| + 1] == t + [0]
    requires Partial(m0, mem.Contents(), image, h, mid, s)
    modifies mem.Repr
    ensures mem.Valid() && fresh(mem.Repr - old(mem.Repr))
    ensures Partial(m0, mem.Contents(), image, h + 4, mid, s + |t| + 1)
  {
    hide *;
    HeadStored(m0, mem.Contents(), image, h, mid, s, 4);
    WriteWord(mem, entry, sp, bigEndian);
    TailStored(m0, mem.Contents(), image, h + 4, mid, s, |t| + 1);
    var _ := StrcpyWrite(mem, sp, t);
  }

  /** Fill in one pointer array and copy its strings; the stack pointer ends past the strings. */
  method FillArray(mem: Memory, array': Addr, sp0: Addr, ss: seq<Text>, bigEndian: bool,
                   ghost m0: Pages, ghost image: seq<Byte>, ghost h: nat, ghost mid: nat, ghost s: nat)
    returns (sp: Addr)
    requires mem.Valid() && WellFormed(m0) && forall t <- ss :: IsCString(t)
    requires 0x7fff_8000 + |image| <= 0xffff_ffff && array' == 0x7fff_8000 + h && sp0 == 0x7fff_8000 + s
    requires h % 4 == 0 && h + 4 * |ss| + 4 <= mid <= s <= s + |Strings(ss)| <= |image|
    requires ListAt(image, h, s, ss, bigEndian)
    requires Partial(m0, mem.Contents(), image, h, mid, s)
    modifies mem.Repr
    ensures mem.Valid() && fresh(mem.Repr - old(mem.Repr))
    ensures sp == 0x7fff_8000 + s + |Strings(ss)|
    ensures Partial(m0, mem.Contents(), image, h + 4 * |ss| + 4, mid, s + |Strings(ss)|)
  {
    hide *;
    sp := sp0;
    StringsOfNone(ss);
    for i := 0 to |ss|
      invariant mem.Valid() && fresh(mem.Repr - old(mem.Repr))
      invariant s + |Strings(ss[..i])| <= |image| && sp == 0x7fff_8000 + s + |Strings(ss[..i])|
      invariant Partial(m0, mem.Contents(), image, h + 4 * i, mid, s + |Strings(ss[..i])|)
    {
      ghost var k := |Strings(ss[..i])|;
      EntryAt(image, h, s, ss, bigEndian, i);
      PutEntry(mem, array' + 4 * i, sp, ss[i], bigEndian, m0, image, h + 4 * i, mid, s + k);
      sp := sp + |ss[i]| + 1;
    }
    TerminatorAt(image, h, s, ss, bigEndian);
    HeadStored(m0, mem.Contents(), image, h + 4 * |ss|, mid, s + |Strings(ss)|, 4);
    WriteWord(mem, array' + 4 * |ss|, 0, bigEndian);
  }

  lemma AtMiddle(xs: seq<Byte>, ys: seq<Byte>, zs: seq<Byte>)
    ensures At(xs + ys + zs, |xs|, ys)
  {
    assert (xs + ys + zs)[|xs|..|xs| + |ys|] == ys;
  }

  /** The parts of the image are argc, the two arrays and the two lists of strings. */
  lemma ImageParts(argv: seq<Text>, envp: seq<Text>, bigEndian: bool)
    requires Addressable(argv, envp)
    ensures var image, t := Image(argv, envp, bigEndian), TableSize(argv, envp);
            && t == 12 + 4 * |argv| + 4 * |envp| && |image| == t + |Strings(argv)| + |Strings(envp)|
            && 0x7fff_8000 + |image| <= 0xffff_ffff
            && image[0..4] == WordBytes(|argv|, bigEndian)
            && ListAt(image, 4, t, argv, bigEndian)
            && ListAt(image, 4 + 4 * |argv| + 4, t + |Strings(argv)|, envp, bigEndian)
  {
    hide Strings, Vector, WordBytes, At;
    var image, t := Image(argv, envp, bigEndian), TableSize(argv, envp);
    var start: Addr := 0x7fff_8000 + t;
    var c, va, ve := WordBytes(|argv|, bigEndian), Vector(start, argv, bigEndian),
                     Vector(start + |Strings(argv)|, envp, bigEndian);
    assert image == c + va + ve + Strings(argv) + Strings(envp);
    hide Image;
    FiveParts(c, va, ve, Strings(argv), Strings(envp));
  }

  lemma FiveParts(c: seq<Byte>, va: seq<Byte>, ve: seq<Byte>, sa: seq<Byte>, se: seq<Byte>)
    ensures var image := c + va + ve + sa + se;
            && image[0..|c|] == c
            && At(image, |c|, va)
            && At(image, |c| + |va|, ve)
            && At(image, |c| + |va| + |ve|, sa)
            && At(image, |c| + |va| + |ve| + |sa|, se)
  {
    var image := c + va + ve + sa + se;
    AtMiddle(c, va, ve + sa + se);
    AtMiddle(c + va, ve, sa + se);
    AtMiddle(c + va + ve, sa, se);
    AtMiddle(c + va + ve + sa, se, []);
    hide At;
    assert image == c + va + (ve + sa + se);
    assert image == (c + va) + ve + (sa + se);
    assert image == (c + va + ve + sa) + se + [];
  }

  /** Lay out the initial stack: where the stack pointer starts, where the image ends, and whether it
      runs into the top of the stack. */
  method InitStack(mem: Memory, argv: seq<Text>, envp: seq<Text>, bigEndian: bool)
    returns (start: Addr, sp: Addr, overflow: bool)
    requires mem.Valid() && Addressable(argv, envp)
    requires (forall t <- argv :: IsCString(t)) && (forall t <- envp :: IsCString(t))
    modifies mem.Repr
    ensures mem.Valid() && fresh(mem.Repr - old(mem.Repr))
    ensures start == 0x7fff_8000 && sp == start + |Image(argv, envp, bigEndian)|
    ensures overflow <==> |Image(argv, envp, bigEndian)| > 16384
    ensures Holds(old(mem.Contents()), mem.Contents(), Image(argv, envp, bigEndian))
  {
    hide *;
    ghost var m0, image, t := mem.Contents(), Image(argv, envp, bigEndian), TableSize(argv, envp);
    start := (0x7fff_c000 - 16384) / 8 * 8;
    ImageParts(argv, envp, bigEndian);
    NothingWritten(m0, image, t);
    sp := start;
    HeadStored(m0, mem.Contents(), image, 0, t, t, 4);
    WriteWord(mem, sp, |argv|, bigEndian);
    sp := sp + 4;
    var argvAddr := sp;
    sp := sp + (|argv| + 1) * 4;
    var envpAddr := sp;
    for i := 0 to |envp|
      invariant sp == envpAddr + 4 * i
    {
      sp := sp + 4;
    }
    sp := sp + 4;
    sp := FillArray(mem, argvAddr, sp, argv, bigEndian, m0, image, 4, t, t);
    sp := FillArray(mem, envpAddr, sp, envp, bigEndian, m0, image, 4 + 4 * |argv| + 4, t, t + |Strings(argv)|);
    WholeWritten(m0, mem.Contents(), image, t);
    overflow := sp > 0x7fff_c000;
  }

  lemma NothingWritten(m0: Pages, image: seq<Byte>, t: nat)
    requires WellFormed(m0) && t <= |image|
    ensures Partial(m0, m0, image, 0, t, t)
  {
  }

  lemma WholeWritten(m0: Pages, m: Pages, image: seq<Byte>, t: nat)
    requires WellFormed(m0) && WellFormed(m) && t <= |image| && 0x7fff_8000 + |image| <= 0xffff_ffff
    requires Partial(m0, m, image, t, t, |image|)
    ensures Holds(m0, m, image)
  {
    forall a: Addr
      ensures Load(m, a) == Expected(m0, image, |image|, |image|, |image|, a)
    {
      assert Load(m, a) == Expected(m0, image, t, t, |image|, a);
    }
  }

  // ---- Reading it back -----------------------------------------------------------------------------------

  /** A null-terminated array at a leads to exactly the strings ss. */
  ghost predicate VectorIn(m: Pages, a: int, ss: seq<Text>, bigEndian: bool)
    requires WellFormed(m) && 0 <= a && a + 4 * |ss| + 4 <= 0xffff_ffff
  {
    && (forall i :: 0 <= i < |ss| ==> EntryIn(m, LoadWord(m, a + 4 * i, bigEndian), ss[i]))
    && LoadWord(m, a + 4 * |ss|, bigEndian) == 0
  }

  /** A pointer that is not null and the string that it leads to. */
  ghost predicate EntryIn(m: Pages, p: int, t: Text)
    requires WellFormed(m)
  {
    0 < p <= 0xffff_ffff && StringAt(m, p, t)
  }

  /** What a program finds from its stack pointer. */
  ghost predicate Layout(m: Pages, sp: int, argv: seq<Text>, envp: seq<Text>, bigEndian: bool)
    requires WellFormed(m) && 0 <= sp && sp + TableSize(argv, envp) <= 0xffff_ffff
  {
    && LoadWord(m, sp, bigEndian) == |argv|
    && VectorIn(m, sp + 4, argv, bigEndian)
    && VectorIn(m, sp + 4 + 4 * |argv| + 4, envp, bigEndian)
  }

  /** Bytes of the image are bytes of memory. */
  lemma HeldBytes(m0: Pages, m: Pages, image: seq<Byte>, at: nat, n: nat)
    requires WellFormed(m0) && WellFormed(m) && 0x7fff_8000 + |image| <= 0xffff_ffff
    requires Holds(m0, m, image) && at + n <= |image|
    ensures LoadBytes(m, 0x7fff_8000 + at, n) == image[at..at + n]
  {
    hide Load;
    var r, e := LoadBytes(m, 0x7fff_8000 + at, n), image[at..at + n];
    forall i | 0 <= i < n
      ensures r[i] == e[i]
    {
      var a := Plus(0x7fff_8000 + at, i);
      assert a == 0x7fff_8000 + at + i;
      assert Load(m, a) == Expected(m0, image, |image|, |image|, |image|, a);
    }
  }

  lemma HeldList(m0: Pages, m: Pages, image: seq<Byte>, h: nat, s: nat, ss: seq<Text>, bigEndian: bool)
    requires WellFormed(m0) && WellFormed(m) && 0x7fff_8000 + |image| <= 0xffff_ffff
    requires Holds(m0, m, image) && ListAt(image, h, s, ss, bigEndian)
    requires h + 4 * |ss| + 4 <= |image|
    requires forall t <- ss :: IsCString(t)
    ensures VectorIn(m, 0x7fff_8000 + h, ss, bigEndian)
  {
    hide Holds, ListAt, Strings, WordBytes, LoadBytes, IsCString, WellFormed, WordOf;
    forall i | 0 <= i < |ss|
      ensures EntryIn(m, LoadWord(m, 0x7fff_8000 + h + 4 * i, bigEndian), ss[i])
    {
      EntryAt(image, h, s, ss, bigEndian, i);
      var k := |Strings(ss[..i])|;
      HeldBytes(m0, m, image, h + 4 * i, 4);
      HeldBytes(m0, m, image, s + k, |ss[i]| + 1);
      WordRoundTrip(0x7fff_8000 + s + k, bigEndian);
    }
    TerminatorAt(image, h, s, ss, bigEndian);
    HeldBytes(m0, m, image, h + 4 * |ss|, 4);
    WordRoundTrip(0, bigEndian);
  }

  /** From the stack pointer a program reads back argc and exactly the strings of both lists. */
  lemma ImageDecodes(m0: Pages, m: Pages, argv: seq<Text>, envp: seq<Text>, bigEndian: bool)
    requires WellFormed(m0) && WellFormed(m) && Addressable(argv, envp)
    requires (forall t <- argv :: IsCString(t)) && (forall t <- envp :: IsCString(t))
    requires Holds(m0, m, Image(argv, envp, bigEndian))
    ensures Layout(m, 0x7fff_8000, argv, envp, bigEndian)
  {
    hide *;
    var image, t := Image(argv, envp, bigEndian), TableSize(argv, envp);
    ImageParts(argv, envp, bigEndian);
    HeldBytes(m0, m, image, 0, 4);
    WordRoundTrip(|argv|, bigEndian);
    HeldList(m0, m, image, 4, t, argv, bigEndian);
    HeldList(m0, m, image, 4 + 4 * |argv| + 4, t + |Strings(argv)|, envp, bigEndian);
    LayoutFrom(m, argv, envp, bigEndian);
  }

  lemma LayoutFrom(m: Pages, argv: seq<Text>, envp: seq<Text>, bigEndian: bool)
    requires WellFormed(m) && 0x7fff_8000 + TableSize(argv, envp) <= 0xffff_ffff
    requires WordOf(LoadBytes(m, 0x7fff_8000, 4), bigEndian) == |argv|
    requires VectorIn(m, 0x7fff_8000 + 4, argv, bigEndian)
    requires VectorIn(m, 0x7fff_8000 + (4 + 4 * |argv| + 4), envp, bigEndian)
    ensures Layout(m, 0x7fff_8000, argv, envp, bigEndian)
  {
    hide VectorIn, WordOf, LoadBytes, WellFormed;
  }

  /** Memory determines the string at an address. */
  lemma OneStringAt(m: Pages, a: Addr, s: Text, t: Text)
    requires WellFormed(m) && StringAt(m, a, s) && StringAt(m, a, t)
    ensures s == t
  {
    NotShorter(m, a, s, t);
    NotShorter(m, a, t, s);
    assert s == (s + [0])[..|s|] && t == (t + [0])[..|t|];
  }

  lemma NotShorter(m: Pages, a: Addr, s: Text, t: Text)
    requires WellFormed(m) && StringAt(m, a, s) && StringAt(m, a, t)
    ensures |t| <= |s|
  {
    hide Load;
    assert forall i :: 0 <= i < |t| ==> t[i] == LoadBytes(m, a, |t| + 1)[i] == Load(m, Plus(a, i));
    var zero := LoadBytes(m, a, |s| + 1)[|s|];
    assert zero == 0 == Load(m, Plus(a, |s|));
  }

  /** Memory determines a null-terminated array and its strings. */
  lemma OneVectorIn(m: Pages, a: int, ss: seq<Text>, tt: seq<Text>, bigEndian: bool)
    requires WellFormed(m) && 0 <= a && a + 4 * |ss| + 4 <= 0xffff_ffff && a + 4 * |tt| + 4 <= 0xffff_ffff
    requires VectorIn(m, a, ss, bigEndian) && VectorIn(m, a, tt, bigEndian)
    ensures ss == tt
  {
    hide StringAt, LoadWord;
    NoLonger(m, a, ss, tt, bigEndian);
    NoLonger(m, a, tt, ss, bigEndian);
    forall i | 0 <= i < |ss|
      ensures ss[i] == tt[i]
    {
      var p := LoadWord(m, a + 4 * i, bigEndian);
      assert EntryIn(m, p, ss[i]) && EntryIn(m, p, tt[i]);
      OneStringAt(m, p, ss[i], tt[i]);
    }
  }

  lemma NoLonger(m: Pages, a: int, ss: seq<Text>, tt: seq<Text>, bigEndian: bool)
    requires WellFormed(m) && 0 <= a && a + 4 * |ss| + 4 <= 0xffff_ffff && a + 4 * |tt| + 4 <= 0xffff_ffff
    requires VectorIn(m, a, ss, bigEndian) && VectorIn(m, a, tt, bigEndian)
    ensures |tt| <= |ss|
  {
    hide StringAt, LoadWord;
    assert |ss| < |tt| ==> EntryIn(m, LoadWord(m, a + 4 * |ss|, bigEndian), tt[|ss|]);
  }

  /** Different lists never leave the same stack: memory determines argv and envp. */
  lemma LayoutDeterminesLists(m: Pages, sp: int, argv: seq<Text>, envp: seq<Text>,
                              argv': seq<Text>, envp': seq<Text>, bigEndian: bool)
    requires WellFormed(m) && 0 <= sp
    requires sp + TableSize(argv, envp) <= 0xffff_ffff && sp + TableSize(argv', envp') <= 0xffff_ffff
    requires Layout(m, sp, argv, envp, bigEndian) && Layout(m, sp, argv', envp', bigEndian)
    ensures argv == argv' && envp == envp'
  {
    hide VectorIn, LoadWord, WellFormed;
    OneVectorIn(m, sp + 4, argv, argv', bigEndian);
    OneVectorIn(m, sp + 4 + 4 * |argv| + 4, envp, envp', bigEndian);
  }
}
