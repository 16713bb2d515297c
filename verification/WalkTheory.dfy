/** Properties of the page walk: what it reads, how it relates to the architecture's own algorithm, and
    that splitting a superpage does not change it (src/page_table/sv39.rs). */
module WalkTheory {
  import opened Words
  import opened PageWalks

  // ---------------------------------------------------------------- what a walk reads

  /** The addresses a walk reads, in order, whether or not it succeeds. */
  function Reads(read: Reader, table: nat, va: nat, l: nat): seq<nat>
    requires l <= 3
    decreases 3 - l
  {
    if l == 3 then []
    else
      var addr := table + VaIndex(va, l) * 8;
      var w := read(addr);
      if Unusable(w) || IsLeaf(w) then [addr] else [addr] + Reads(read, NextTable(w), va, l + 1)
  }

  /** Memories that agree on the words a walk reads give it the same result. */
  lemma {:induction false} WalkIsLocal(read: Reader, read': Reader, table: nat, va: nat, l: nat)
    requires l <= 3
    requires forall a :: a in Reads(read, table, va, l) ==> read'(a) == read(a)
    ensures WalkFrom(read', table, va, l) == WalkFrom(read, table, va, l)
    ensures Reads(read', table, va, l) == Reads(read, table, va, l)
    decreases 3 - l
  {
    hide LeafPa, NextTable;
    if l < 3 {
      var addr: nat := table + VaIndex(va, l) * 8;
      var w := read(addr);
      assert Reads(read, table, va, l)[0] == addr;
      assert read'(addr) == w;
      if !Unusable(w) && !IsLeaf(w) {
        var rest := Reads(read, NextTable(w), va, l + 1);
        assert Reads(read, table, va, l) == [addr] + rest;
        forall a | a in rest ensures read'(a) == read(a) {
          assert a in Reads(read, table, va, l);
        }
        WalkIsLocal(read, read', NextTable(w), va, l + 1);
      }
    }
  }

  // ---------------------------------------------------------------- the architecture's algorithm

  // Section 4.3.2 of the RISC-V Privileged Architecture (version 20211203), with levels counted down
  // from 2, physical page numbers split into their three fields, and what depends on the access left
  // out: of step 5 all but the U bit, and step 7 (the A and D bits).

  function Ppn2(w: Word): nat { w / 0x1000_0000 % 0x400_0000 }
  function Ppn1(w: Word): nat { w / 0x8_0000 % 512 }
  function Ppn0(w: Word): nat { w / 1024 % 512 }

  /** Bits 63 to 54, and D, A and U of a pointer, are reserved. */
  predicate Reserved(w: Word) {
    w >= 0x40_0000_0000_0000 || (!LeafBits(w) && (IsUser(w) || w / 64 % 2 == 1 || w / 128 % 2 == 1))
  }

  predicate Misaligned(w: Word, i: nat) {
    (i >= 1 && Ppn0(w) != 0) || (i >= 2 && Ppn1(w) != 0)
  }

  function SpecPa(w: Word, va: nat, i: nat): nat {
    Ppn2(w) * 0x4000_0000
    + (if i >= 2 then va / 0x20_0000 % 512 else Ppn1(w)) * 0x20_0000
    + (if i >= 1 then va / 0x1000 % 512 else Ppn0(w)) * 0x1000
    + va % 0x1000
  }

  predicate IsUser(w: Word) {
    w / 16 % 2 == 1
  }

  /** The walk from a table at address a on level i; `user` asks for the U bit of the leaf, as the G-stage
      does of every access. */
  function SpecWalk(read: Reader, a: nat, va: nat, i: nat, user: bool): Option<nat>
    requires i < 3
    decreases i, 1
  {
    SpecEntry(read, read(a + VpnField(va, i) * 8), va, i, user)
  }

  /** The walk from entry w on. */
  function SpecEntry(read: Reader, w: Word, va: nat, i: nat, user: bool): Option<nat>
    requires i < 3
    decreases i, 0
  {
    if InvalidBits(w) || Reserved(w) then None
    else if LeafBits(w) then (if Misaligned(w, i) || (user && !IsUser(w)) then None else Some(SpecPa(w, va, i)))
    else if i == 0 then None
    else SpecWalk(read, (Ppn2(w) * 0x4_0000 + Ppn1(w) * 512 + Ppn0(w)) * 4096, va, i - 1, user)
  }

  /** An entry that the architecture would accept where the walk met it. */
  predicate WellFormed(p: PteWrapper) {
    !Reserved(p.pte) && (LeafBits(p.pte) ==> !Misaligned(p.pte, match p.level case Level1GB => 2 case Level2MB => 1 case Level4KB => 0))
  }

  lemma PpnFields(w: Word)
    requires w < 0x40_0000_0000_0000
    ensures Ppn2(w) * 0x4_0000 + Ppn1(w) * 512 + Ppn0(w) == w / 1024
    ensures Ppn2(w) == w / 0x1000_0000 && Ppn2(w) * 512 + Ppn1(w) == w / 0x8_0000
    ensures NextTable(w) == w / 1024 * 4096
  {
    var p := w / 1024;
    var a, b, c := p / 0x4_0000, p / 512 % 512, p % 512;
    Euclid(p / 512, 512, a, b);
    var low := w % 1024;
    Euclid(w, 0x8_0000, a * 512 + b, c * 1024 + low);
    Euclid(w, 0x1000_0000, a, b * 0x8_0000 + c * 1024 + low);
    Euclid(a * 512 + b, 512, a, b);
  }

  lemma OffsetFields(va: nat)
    ensures va % 0x20_0000 == va / 0x1000 % 512 * 0x1000 + va % 0x1000
    ensures va % 0x4000_0000 == va / 0x20_0000 % 512 * 0x20_0000 + va / 0x1000 % 512 * 0x1000 + va % 0x1000
  {
    var p, o := va / 0x1000, va % 0x1000;
    var q, b := p / 512, p % 512;
    var r, c := q / 512, q % 512;
    Euclid(va, 0x20_0000, q, b * 0x1000 + o);
    Euclid(va, 0x4000_0000, r, c * 0x20_0000 + b * 0x1000 + o);
  }

  lemma NextTableIsSpec(w: Word)
    requires !Reserved(w)
    ensures NextTable(w) == (Ppn2(w) * 0x4_0000 + Ppn1(w) * 512 + Ppn0(w)) * 4096
  {
    PpnFields(w);
  }

  lemma LeafPaIsSpecPa(w: Word, va: nat, l: nat)
    requires l < 3 && !Reserved(w) && !Misaligned(w, 2 - l)
    ensures LeafPa(w, va, l) == SpecPa(w, va, 2 - l)
  {
    PpnFields(w);
    OffsetFields(va);
  }

  /** The architecture succeeds exactly when the walk does through well-formed entries only, and they then
      give the same address. */
  ghost predicate MeetsSpec(s: Option<nat>, w: Option<PageWalk>) {
    && (s.Some? <==> w.Some? && forall p :: p in w.value.path ==> WellFormed(p))
    && (s.Some? ==> s.value == w.value.pa)
  }

  lemma LeafMeetsSpec(read: Reader, a: nat, va: nat, l: nat)
    requires l < 3 && var w := read(a + VaIndex(va, l) * 8); !Unusable(w) && IsLeaf(w)
    ensures MeetsSpec(SpecWalk(read, a, va, 2 - l, false), WalkFrom(read, a, va, l))
  {
    hide LeafPa, NextTable, SpecPa, Misaligned, Reserved, VaIndex, Unusable, IsLeaf, InvalidBits, LeafBits, VpnField;
    SameIndex(va, l);
    var addr: nat := a + VaIndex(va, l) * 8;
    var w := read(addr);
    SameTests(w);
    var here := PteWrapper(addr, w, LevelAt(l));
    assert WalkFrom(read, a, va, l).value.path == [here];
    assert here in [here];
    if !Reserved(w) && !Misaligned(w, 2 - l) {
      LeafPaIsSpecPa(w, va, l);
    }
  }

  lemma PointerMeetsSpec(here: PteWrapper, s: Option<nat>, rest: Option<PageWalk>)
    requires MeetsSpec(s, rest) && !IsLeaf(here.pte)
    ensures MeetsSpec(if Reserved(here.pte) then None else s, Prepend([here], rest))
  {
    hide Reserved, IsLeaf, Unusable, InvalidBits, LeafBits, Misaligned;
    SameTests(here.pte);
    if rest.Some? {
      assert here in [here] + rest.value.path;
      assert forall p :: p in [here] + rest.value.path <==> p == here || p in rest.value.path;
    }
  }

  /** The walk refines the architecture's algorithm. */
  lemma {:induction false} WalkMeetsSpec(read: Reader, a: nat, va: nat, l: nat)
    requires l < 3
    ensures MeetsSpec(SpecWalk(read, a, va, 2 - l, false), WalkFrom(read, a, va, l))
    decreases 3 - l
  {
    hide LeafPa, NextTable, SpecWalk, Reserved, VaIndex, Unusable, IsLeaf, WellFormed;
    var addr: nat := a + VaIndex(va, l) * 8;
    var w := read(addr);
    if Unusable(w) {
      UnusableFaults(read, a, va, l);
    } else if IsLeaf(w) {
      LeafMeetsSpec(read, a, va, l);
    } else if l == 2 {
      SpecEnds(read, read, a, va, l);
    } else {
      var next, here := NextTable(w), PteWrapper(addr, w, LevelAt(l));
      WalkMeetsSpec(read, next, va, l + 1);
      if Reserved(w) { SpecEnds(read, read, a, va, l); } else { SpecPointerStep(read, a, va, l); }
      PointerMeetsSpec(here, SpecWalk(read, next, va, 1 - l, false), WalkFrom(read, next, va, l + 1));
    }
  }

  lemma UnusableFaults(read: Reader, a: nat, va: nat, l: nat)
    requires l < 3 && Unusable(read(a + VaIndex(va, l) * 8))
    ensures SpecWalk(read, a, va, 2 - l, false) == None
  {
    hide VaIndex, Unusable, IsLeaf, InvalidBits, LeafBits, VpnField;
    SameIndex(va, l);
    SameTests(read(a + VaIndex(va, l) * 8));
  }

  // ---------------------------------------------------------------- reads that come back invalid

  /** Memory of which only the addresses in `pass` can be read; the others read as invalid entries. */
  ghost predicate Masks(direct: Reader, masked: Reader, pass: iset<nat>) {
    forall x: nat :: masked(x) == if x in pass then direct(x) else PTE_EMPTY
  }

  ghost predicate AllIn(trace: seq<nat>, pass: iset<nat>) {
    forall x :: x in trace ==> x in pass
  }

  /** Over masked memory the architecture's walk is what it was if all reads pass, and faults otherwise. */
  lemma {:induction false} MaskedWalk(direct: Reader, masked: Reader, pass: iset<nat>, a: nat, va: nat, l: nat)
    requires l < 3 && Masks(direct, masked, pass)
    ensures SpecWalk(masked, a, va, 2 - l, false) ==
            if AllIn(Reads(direct, a, va, l), pass) then SpecWalk(direct, a, va, 2 - l, false) else None
    decreases 3 - l
  {
    hide SpecWalk, Reads, Reserved, VaIndex, NextTable, IsLeaf, Unusable, Masks, AllIn;
    var addr: nat := a + VaIndex(va, l) * 8;
    var w := direct(addr);
    MaskedRead(direct, masked, pass, addr);
    FirstRead(direct, a, va, l, pass);
    if addr !in pass {
      EmptyIsUnusable();
      UnusableFaults(masked, a, va, l);
    } else if Unusable(w) || IsLeaf(w) || Reserved(w) || l == 2 {
      SpecEnds(direct, masked, a, va, l);
    } else {
      MaskedWalk(direct, masked, pass, NextTable(w), va, l + 1);
      SpecPointerStep(direct, a, va, l);
      SpecPointerStep(masked, a, va, l);
    }
  }

  lemma MaskedRead(direct: Reader, masked: Reader, pass: iset<nat>, x: nat)
    requires Masks(direct, masked, pass)
    ensures masked(x) == if x in pass then direct(x) else PTE_EMPTY
  {
  }

  lemma FirstRead(read: Reader, a: nat, va: nat, l: nat, pass: iset<nat>)
    requires l < 3
    ensures var addr: nat := a + VaIndex(va, l) * 8; var w := read(addr);
            AllIn(Reads(read, a, va, l), pass) <==>
              addr in pass && (Unusable(w) || IsLeaf(w) || AllIn(Reads(read, NextTable(w), va, l + 1), pass))
  {
    hide VaIndex, NextTable, IsLeaf, Unusable;
    var addr: nat := a + VaIndex(va, l) * 8;
    assert Reads(read, a, va, l)[0] == addr;
    var rest := Reads(read, NextTable(read(addr)), va, l + 1);
    assert forall x :: x in [addr] + rest <==> x == addr || x in rest;
  }

  lemma EmptyIsUnusable()
    ensures Unusable(PTE_EMPTY)
  {
  }

  /** A walk that ends with its first entry depends on that entry alone. */
  lemma SpecEnds(read: Reader, read': Reader, a: nat, va: nat, l: nat)
    requires l < 3
    requires var w := read(a + VaIndex(va, l) * 8); Unusable(w) || IsLeaf(w) || Reserved(w) || l == 2
    requires read'(a + VaIndex(va, l) * 8) == read(a + VaIndex(va, l) * 8)
    ensures SpecWalk(read', a, va, 2 - l, false) == SpecWalk(read, a, va, 2 - l, false)
    ensures var w := read(a + VaIndex(va, l) * 8); !Unusable(w) && !IsLeaf(w) ==> SpecWalk(read, a, va, 2 - l, false) == None
  {
    hide VaIndex, Reserved, IsLeaf, Unusable, SpecPa, Misaligned, InvalidBits, LeafBits, VpnField;
    SameIndex(va, l);
    SameTests(read(a + VaIndex(va, l) * 8));
  }

  lemma SpecPointerStep(read: Reader, a: nat, va: nat, l: nat)
    requires l < 2
    requires var w := read(a + VaIndex(va, l) * 8); !Unusable(w) && !IsLeaf(w) && !Reserved(w)
    ensures SpecWalk(read, a, va, 2 - l, false) == SpecWalk(read, NextTable(read(a + VaIndex(va, l) * 8)), va, 1 - l, false)
  {
    hide VaIndex, Reserved, IsLeaf, Unusable, SpecPa, Misaligned, Ppn2, Ppn1, Ppn0, NextTable, InvalidBits, LeafBits, VpnField;
    SameIndex(va, l);
    SameTests(read(a + VaIndex(va, l) * 8));
    NextTableIsSpec(read(a + VaIndex(va, l) * 8));
  }

  // ---------------------------------------------------------------- splitting a superpage

  /** Entry k of the table that replaces a superpage leaf of level l: the same flags, one 512th further. */
  function SplitEntry(w: Word, l: nat, k: nat): Word
    requires w < 0x40_0000_0000_0000 && l < 2 && k < 512
  {
    w + k * (if l == 0 then 0x8_0000 else 1024)
  }

  /** Memory after the leaf at address x was replaced by a pointer to frame f, filled with the 512
      smaller leaves. */
  function SplitReader(read: Reader, x: nat, w: Word, l: nat, f: nat): Reader
    requires w < 0x40_0000_0000_0000 && l < 2 && f < 0x1000_0000_0000
  {
    (a: nat) =>
      if a == x then PteNew(f, 1)
      else if f * 4096 <= a < f * 4096 + 4096 then SplitEntry(w, l, (a - f * 4096) / 8)
      else read(a)
  }

  function PaOf(walk: Option<PageWalk>): Option<nat> {
    match walk
    case None => None
    case Some(r) => Some(r.pa)
  }

  lemma SplitEntryFlags(w: Word, l: nat, k: nat)
    requires w < 0x40_0000_0000_0000 && l < 2 && k < 512
    ensures PteFlags(SplitEntry(w, l, k)) == PteFlags(w)
  {
    var u := if l == 0 then 0x800 else 4;
    Euclid(SplitEntry(w, l, k), 256, w / 256 + k * u, w % 256);
  }

  lemma SplitGigabytePa(w: Word, va: nat)
    requires w < 0x40_0000_0000_0000 && !Misaligned(w, 2)
    ensures LeafPa(SplitEntry(w, 0, VaIndex(va, 1)), va, 1) == LeafPa(w, va, 0)
  {
    PpnFields(w);
    OffsetFields(va);
    var k, low := VaIndex(va, 1), w % 1024;
    Euclid(w, 0x8_0000, Ppn2(w) * 512, low);
    Euclid(SplitEntry(w, 0, k), 0x8_0000, Ppn2(w) * 512 + k, low);
  }

  lemma SplitMegabytesPa(w: Word, va: nat)
    requires w < 0x40_0000_0000_0000 && !Misaligned(w, 1)
    ensures LeafPa(SplitEntry(w, 1, VaIndex(va, 2)), va, 2) == LeafPa(w, va, 1)
  {
    PpnFields(w);
    OffsetFields(va);
    Euclid(SplitEntry(w, 1, VaIndex(va, 2)), 1024, w / 1024 + VaIndex(va, 2), w % 1024);
  }

  lemma PointerEntry(f: nat)
    requires f < 0x1000_0000_0000
    ensures !Unusable(PteNew(f, 1)) && !IsLeaf(PteNew(f, 1)) && NextTable(PteNew(f, 1)) == f * 4096
  {
    hide PteNew, PteFlags;
    PteRoundTrip(f, 1);
    PointerTarget(PteNew(f, 1), f);
  }

  lemma PointerTarget(w: Word, f: nat)
    requires w == f * 1024 + 1 && f < 0x1000_0000_0000
    ensures NextTable(w) == f * 4096
  {
    Euclid(w, 1024, f, 1);
  }

  lemma SplitReads(read: Reader, x: nat, w: Word, l: nat, f: nat, k: nat)
    requires w < 0x40_0000_0000_0000 && l < 2 && f < 0x1000_0000_0000 && k < 512
    requires !(f * 4096 <= x < f * 4096 + 4096)
    ensures SplitReader(read, x, w, l, f)(f * 4096 + k * 8) == SplitEntry(w, l, k)
  {
    Euclid(k * 8, 8, k, 0);
  }

  lemma LeafEnds(read: Reader, table: nat, va: nat, l: nat)
    requires l < 3
    ensures var w := read(table + VaIndex(va, l) * 8);
            !Unusable(w) && IsLeaf(w) ==> PaOf(WalkFrom(read, table, va, l)) == Some(LeafPa(w, va, l))
  {
    hide LeafPa;
  }

  lemma PointerContinues(read: Reader, table: nat, va: nat, l: nat)
    requires l < 3
    ensures var w := read(table + VaIndex(va, l) * 8);
            !Unusable(w) && !IsLeaf(w) ==>
              PaOf(WalkFrom(read, table, va, l)) == PaOf(WalkFrom(read, NextTable(w), va, l + 1))
  {
    hide LeafPa, NextTable;
  }

  lemma SplitAtLeaf(read: Reader, x: nat, w: Word, l: nat, f: nat, table: nat, va: nat)
    requires w < 0x40_0000_0000_0000 && l < 2 && f < 0x1000_0000_0000
    requires read(x) == w && !Unusable(w) && IsLeaf(w) && !Misaligned(w, 2 - l)
    requires x == table + VaIndex(va, l) * 8 && !(f * 4096 <= x < f * 4096 + 4096)
    ensures PaOf(WalkFrom(SplitReader(read, x, w, l, f), table, va, l)) == PaOf(WalkFrom(read, table, va, l))
  {
    var k := VaIndex(va, l + 1);
    SplitEntryFlags(w, l, k);
    if l == 0 { SplitGigabytePa(w, va); } else { SplitMegabytesPa(w, va); }
    hide LeafPa, NextTable, Misaligned, SplitEntry, PteNew, VaIndex;
    var read' := SplitReader(read, x, w, l, f);
    LeafEnds(read, table, va, l);
    PointerEntry(f);
    PointerContinues(read', table, va, l);
    SplitReads(read, x, w, l, f, k);
    LeafEnds(read', f * 4096, va, l + 1);
  }

  /** Every walk that did not touch the new frame, and met the superpage only as a leaf of its level,
      gives the same address after the split, or fails as before. */
  lemma {:induction false} SplitKeepsWalk(read: Reader, x: nat, w: Word, l: nat, f: nat, table: nat, va: nat, j: nat)
    requires w < 0x40_0000_0000_0000 && l < 2 && f < 0x1000_0000_0000 && j <= 3
    requires read(x) == w && !Unusable(w) && IsLeaf(w) && !Misaligned(w, 2 - l)
    requires Undisturbed(Reads(read, table, va, j), j, x, l, f)
    ensures PaOf(WalkFrom(SplitReader(read, x, w, l, f), table, va, j)) == PaOf(WalkFrom(read, table, va, j))
    decreases 3 - j
  {
    hide LeafPa, NextTable, Misaligned;
    if j < 3 {
      var addr: nat := table + VaIndex(va, j) * 8;
      var trace := Reads(read, table, va, j);
      assert trace[0] == addr;
      if addr == x {
        SplitAtLeaf(read, x, w, l, f, table, va);
      } else {
        var v := read(addr);
        assert SplitReader(read, x, w, l, f)(addr) == v;
        if !Unusable(v) && !IsLeaf(v) {
          assert trace == [addr] + Reads(read, NextTable(v), va, j + 1);
          UndisturbedTail(trace, j, x, l, f);
          SplitKeepsWalk(read, x, w, l, f, NextTable(v), va, j + 1);
          PointerContinues(read, table, va, j);
          PointerContinues(SplitReader(read, x, w, l, f), table, va, j);
        }
      }
    }
  }

  /** The walk's addresses from level j on avoid frame f, and meet address x at level l only. */
  ghost predicate Undisturbed(trace: seq<nat>, j: nat, x: nat, l: nat, f: nat) {
    forall k :: 0 <= k < |trace| ==> !(f * 4096 <= trace[k] < f * 4096 + 4096) && (trace[k] == x ==> j + k == l)
  }

  lemma UndisturbedTail(trace: seq<nat>, j: nat, x: nat, l: nat, f: nat)
    requires trace != [] && Undisturbed(trace, j, x, l, f)
    ensures Undisturbed(trace[1..], j + 1, x, l, f)
  {
  }
}
