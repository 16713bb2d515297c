/** Two ways to translate, and two stages of it (src/page_table/sv39.rs, src/page_table/mod.rs,
    src/guest/mod.rs). */
module Translation {
  import opened Words
  import opened Memory
  import opened TableModel
  import opened PageTables
  import opened PageWalks
  import opened WalkTheory

  function ReaderOf(m: Mem): Reader {
    (a: nat) => RdAddr(m, a)
  }

  // ---------------------------------------------------------------- the walk over a table built by map

  lemma ReadSlot(m: Mem, p: nat, i: nat)
    requires i < 512
    ensures ReaderOf(m)(p * 4096 + i * 8) == Rd(m, p, i)
  {
    Euclid(p * 4096 + i * 8, 4096, p, i * 8);
    Euclid(i * 8, 8, i, 0);
  }

  lemma VaIndexIsIndex(va: nat, l: nat)
    requires l < 3
    ensures VaIndex(va, l) == Index(va / 4096, l)
  {
    var p, o := va / 4096, va % 4096;
    var q, b := p / 512, p % 512;
    var r, c := q / 512, q % 512;
    Euclid(va, 0x20_0000, q, b * 4096 + o);
    Euclid(va, 0x4000_0000, r, c * 0x20_0000 + b * 4096 + o);
    Euclid(p, 0x4_0000, r, c * 512 + b);
  }

  /** One level down a built table, in the walk's terms. */
  lemma WalkStepDown(m: Mem, t: Tree, pages: PageMap, va: nat, l: nat)
    requires Shape(t) && Represents(m, t, pages) && l < 2 && HasNode(t, Key(va / 4096), l)
    ensures var v := Key(va / 4096); var walk := PaOf(WalkFrom(ReaderOf(m), NodeAt(t, v, l) * 4096, va, l));
            if HasNode(t, v, l + 1) then walk == PaOf(WalkFrom(ReaderOf(m), NodeAt(t, v, l + 1) * 4096, va, l + 1))
            else walk == None
  {
    hide LeafPa, PteNew, VaIndex, NextTable, IsLeaf, ReaderOf, Represents, Shape, NodeAt, HasNode, Key;
    var v := Key(va / 4096);
    ReadDown(m, t, pages, va, l);
    if HasNode(t, v, l + 1) {
      PointerEntry(NodeAt(t, v, l + 1));
      PointerContinues(ReaderOf(m), NodeAt(t, v, l) * 4096, va, l);
    }
  }

  /** What a walk reads at a level of a built table: a pointer to the next table, or an invalid entry. */
  lemma ReadDown(m: Mem, t: Tree, pages: PageMap, va: nat, l: nat)
    requires Shape(t) && Represents(m, t, pages) && l < 2 && HasNode(t, Key(va / 4096), l)
    ensures var v := Key(va / 4096); var w := ReaderOf(m)(NodeAt(t, v, l) * 4096 + VaIndex(va, l) * 8);
            if HasNode(t, v, l + 1) then w == PteNew(NodeAt(t, v, l + 1), 1) && NodeAt(t, v, l + 1) < 0x1000_0000_0000
            else !IsValid(w)
  {
    hide PteNew, VaIndex, Index, ReaderOf, Represents, NodeAt, HasNode;
    VaIndexIsIndex(va, l);
    ReadSlot(m, NodeAt(t, Key(va / 4096), l), Index(va / 4096, l));
    StepDown(m, t, pages, va / 4096, l);
    if HasNode(t, Key(va / 4096), l + 1) {
      PointerWord(m, t, pages, va / 4096, l);
    }
  }

  lemma PointerWord(m: Mem, t: Tree, pages: PageMap, vpn: nat, l: nat)
    requires Shape(t) && Represents(m, t, pages) && l < 2 && HasNode(t, Key(vpn), l) && HasNode(t, Key(vpn), l + 1)
    ensures Rd(m, NodeAt(t, Key(vpn), l), Index(vpn, l)) == PteNew(NodeAt(t, Key(vpn), l + 1), 1)
    ensures NodeAt(t, Key(vpn), l + 1) < 0x1000_0000_0000
  {
    KeySplits(vpn);
    NodeOwned(t, Key(vpn), l + 1);
  }

  /** `walk_page_table` over a table built by `map` succeeds exactly on the mapped pages whose entry is
      a usable leaf, and gives that entry's address. */
  lemma WalkOfTable(m: Mem, t: Tree, pages: PageMap, va: nat)
    requires Shape(t) && Represents(m, t, pages)
    ensures var v := Key(va / 4096);
            PaOf(Walk(ReaderOf(m), t.root * 4096, va)) ==
            if v in pages && !Unusable(pages[v]) && IsLeaf(pages[v]) then Some(LeafPa(pages[v], va, 2)) else None
  {
    hide WalkFrom, LeafPa;
    var v := Key(va / 4096);
    WalkStepDown(m, t, pages, va, 0);
    KeySplits(va / 4096);
    if HasNode(t, v, 1) {
      WalkStepDown(m, t, pages, va, 1);
      if HasNode(t, v, 2) {
        WalkLeaf(m, t, pages, va);
      }
    }
  }

  lemma WalkLeaf(m: Mem, t: Tree, pages: PageMap, va: nat)
    requires Shape(t) && Represents(m, t, pages) && HasNode(t, Key(va / 4096), 2)
    ensures var w := Entry(pages, Key(va / 4096));
            PaOf(WalkFrom(ReaderOf(m), NodeAt(t, Key(va / 4096), 2) * 4096, va, 2)) ==
            if !Unusable(w) && IsLeaf(w) then Some(LeafPa(w, va, 2)) else None
  {
    hide LeafPa, NextTable, ReaderOf, VaIndex, Represents, Shape, NodeAt, HasNode, Key, Entry;
    ReadLeaf(m, t, pages, va);
  }

  lemma ReadLeaf(m: Mem, t: Tree, pages: PageMap, va: nat)
    requires Shape(t) && Represents(m, t, pages) && HasNode(t, Key(va / 4096), 2)
    ensures ReaderOf(m)(NodeAt(t, Key(va / 4096), 2) * 4096 + VaIndex(va, 2) * 8) == Entry(pages, Key(va / 4096))
  {
    hide ReaderOf, VaIndex;
    VaIndexIsIndex(va, 2);
    ReadSlot(m, NodeAt(t, Key(va / 4096), 2), Index(va / 4096, 2));
    KeySplits(va / 4096);
  }

  /** `walk_page_table` and `translate_va` agree on a mapped page exactly when the entry's page number
      fits in 44 bits, as every page number below 2^44 given to `map` does. */
  lemma WalkMeetsTranslateVa(m: Mem, t: Tree, pages: PageMap, va: nat)
    requires Shape(t) && Represents(m, t, pages)
    requires Walk(ReaderOf(m), t.root * 4096, va).Some?
    ensures Key(va / 4096) in pages
    ensures TranslateVa(m, t.root, va).Some?
    ensures var w := pages[Key(va / 4096)];
            Walk(ReaderOf(m), t.root * 4096, va).value.pa == TranslateVa(m, t.root, va).value
            <==> w / 1024 % 0x10_0000_0000_0000 < 0x1000_0000_0000
  {
    hide WalkFrom, LeafPa;
    var v := Key(va / 4096);
    WalkOfTable(m, t, pages, va);
    KeyOfKey(va / 4096);
    LookupIsMap(m, t, pages, v);
    LeafPaOfPage(pages[v], va);
  }

  lemma KeyOfKey(vpn: nat)
    ensures Key(Key(vpn)) == Key(vpn)
  {
    Euclid(Key(vpn), 0x800_0000, 0, Key(vpn));
  }

  lemma LeafPaOfPage(w: Word, va: nat)
    ensures LeafPa(w, va, 2) == PtePpn(w) * 4096 + va % 4096 <==> w / 1024 % 0x10_0000_0000_0000 < 0x1000_0000_0000
  {
    var p := w / 1024;
    var q, r := p / 0x10_0000_0000_0000, p % 0x10_0000_0000_0000;
    Euclid(p * 4096, 0x1_0000_0000_0000_0000, q, r * 4096);
    var a, b := r / 0x1000_0000_0000, r % 0x1000_0000_0000;
    Euclid(p, 0x1000_0000_0000, q * 256 + a, b);
  }

  // ---------------------------------------------------------------- the hardware's G-stage walk

  /** Sv39x4 (section 8.5.1 of the same manual): a 41-bit guest physical address, of which eleven bits
      index a root of 2048 entries on a 16 KiB boundary; below the root it is the algorithm of section
      4.3.2, with every access taken as a user's. */
  function GStageWalk(read: Reader, rootPpn: nat, gpa: nat): Option<nat> {
    if gpa >= 0x200_0000_0000 then None
    else SpecEntry(read, read(rootPpn / 4 * 4 * 4096 + gpa / 0x4000_0000 * 8), gpa, 2, true)
  }

  /** The root is aligned, and the three frames after it belong to the table and are never linked. */
  ghost predicate FullGuestRoot(t: Tree) {
    t.root % 4 == 0 && t.root + 1 in t.spare && t.root + 2 in t.spare && t.root + 3 in t.spare
  }

  /** A leaf entry of a page that the G-stage accepts. */
  predicate GoodLeaf(w: Word) {
    w < 0x40_0000_0000_0000 && !InvalidBits(w) && LeafBits(w) && IsUser(w)
  }

  /** The hardware translates exactly the guest physical addresses below 2^39 in mapped pages with a good
      leaf, to the page of that leaf: the root's slots 512 to 2047 never become valid. */
  lemma GStageOfTable(m: Mem, live: set<nat>, frames: seq<nat>, t: Tree, pages: PageMap, gpa: nat)
    requires TableInv(m, live, t.root, frames, t, pages) && FullGuestRoot(t)
    ensures GStageWalk(ReaderOf(m), t.root, gpa) ==
            if gpa < 0x80_0000_0000 && gpa / 4096 in pages && GoodLeaf(pages[gpa / 4096])
            then Some(PtePpn(pages[gpa / 4096]) * 4096 + gpa % 4096) else None
  {
    hide Represents, Holds, SpareZero, ReaderOf, SpecEntry, GoodLeaf, PtePpn;
    if gpa < 0x80_0000_0000 {
      RootIndex(gpa);
      SpecOfTable(m, t, pages, gpa);
    } else if gpa < 0x200_0000_0000 {
      UpperSlotZero(m, t, gpa / 0x4000_0000);
      InvalidEntry(ReaderOf(m), PTE_EMPTY, gpa, 2);
    }
  }

  lemma RootIndex(gpa: nat)
    requires gpa < 0x80_0000_0000
    ensures VaIndex(gpa, 0) == gpa / 0x4000_0000 && Key(gpa / 4096) == gpa / 4096
  {
    Euclid(gpa / 0x4000_0000, 512, 0, gpa / 0x4000_0000);
    Euclid(gpa / 4096, 0x800_0000, 0, gpa / 4096);
  }

  lemma InvalidEntry(read: Reader, w: Word, va: nat, i: nat)
    requires i < 3 && !IsValid(w)
    ensures SpecEntry(read, w, va, i, true) == None
  {
    SameTests(w);
    hide InvalidBits, SpecWalk, SpecPa;
  }

  /** The architecture's walk over a table built by `map`. */
  lemma SpecOfTable(m: Mem, t: Tree, pages: PageMap, va: nat)
    requires Shape(t) && Represents(m, t, pages)
    ensures var v := Key(va / 4096);
            SpecWalk(ReaderOf(m), t.root * 4096, va, 2, true) ==
            if v in pages && GoodLeaf(pages[v]) then Some(PtePpn(pages[v]) * 4096 + va % 4096) else None
  {
    hide SpecWalk, GoodLeaf, PtePpn, ReaderOf;
    var v := Key(va / 4096);
    SpecStepDown(m, t, pages, va, 0);
    KeySplits(va / 4096);
    if HasNode(t, v, 1) {
      SpecStepDown(m, t, pages, va, 1);
      if HasNode(t, v, 2) {
        SpecLeaf(m, t, pages, va);
      }
    }
    assert !GoodLeaf(PTE_EMPTY) by { EmptyIsNoLeaf(); }
  }

  lemma EmptyIsNoLeaf()
    ensures !GoodLeaf(PTE_EMPTY)
  {
  }

  lemma SpecStepDown(m: Mem, t: Tree, pages: PageMap, va: nat, l: nat)
    requires Shape(t) && Represents(m, t, pages) && l < 2 && HasNode(t, Key(va / 4096), l)
    ensures var v := Key(va / 4096); var walk := SpecWalk(ReaderOf(m), NodeAt(t, v, l) * 4096, va, 2 - l, true);
            if HasNode(t, v, l + 1) then walk == SpecWalk(ReaderOf(m), NodeAt(t, v, l + 1) * 4096, va, 1 - l, true)
            else walk == None
  {
    hide PteNew, VaIndex, VpnField, SpecEntry, ReaderOf, Represents, Shape, NodeAt, HasNode, Key;
    ReadDown(m, t, pages, va, l);
    SameIndex(va, l);
    if HasNode(t, Key(va / 4096), l + 1) {
      SpecPointer(ReaderOf(m), NodeAt(t, Key(va / 4096), l + 1), va, 2 - l);
    } else {
      InvalidEntry(ReaderOf(m), ReaderOf(m)(NodeAt(t, Key(va / 4096), l) * 4096 + VaIndex(va, l) * 8), va, 2 - l);
    }
  }

  lemma SpecPointer(read: Reader, f: nat, va: nat, i: nat)
    requires f < 0x1000_0000_0000 && 1 <= i < 3
    ensures SpecEntry(read, PteNew(f, 1), va, i, true) == SpecWalk(read, f * 4096, va, i - 1, true)
  {
    hide SpecWalk, SpecPa, Ppn2, Ppn1, Ppn0, PteNew, PtePpn, PteFlags, InvalidBits, LeafBits, Reserved, NextTable;
    PointerEntry(f);
    PteRoundTrip(f, 1);
    PointerNotReserved(PteNew(f, 1), f);
    NextTableIsSpec(PteNew(f, 1));
  }

  lemma PointerNotReserved(w: Word, f: nat)
    requires w == f * 1024 + 1 && f < 0x1000_0000_0000
    ensures !Reserved(w) && !InvalidBits(w) && !LeafBits(w)
  {
    Euclid(w, 2, f * 512, 1);
    Euclid(w, 4, f * 256, 1);
    Euclid(w, 8, f * 128, 1);
    Euclid(w, 16, f * 64, 1);
    Euclid(w, 64, f * 16, 1);
    Euclid(w, 128, f * 8, 1);
  }

  lemma SpecLeaf(m: Mem, t: Tree, pages: PageMap, va: nat)
    requires Shape(t) && Represents(m, t, pages) && HasNode(t, Key(va / 4096), 2)
    ensures var w := Entry(pages, Key(va / 4096));
            SpecWalk(ReaderOf(m), NodeAt(t, Key(va / 4096), 2) * 4096, va, 0, true) ==
            if GoodLeaf(w) then Some(PtePpn(w) * 4096 + va % 4096) else None
  {
    hide VaIndex, VpnField, ReaderOf, SpecPa, PtePpn, IsUser, InvalidBits, LeafBits, Represents, Shape, NodeAt, HasNode, Key, Entry;
    ReadLeaf(m, t, pages, va);
    SameIndex(va, 2);
    var w := Entry(pages, Key(va / 4096));
    if w < 0x40_0000_0000_0000 { PagePa(w, va); }
  }

  lemma PagePa(w: Word, va: nat)
    requires w < 0x40_0000_0000_0000
    ensures SpecPa(w, va, 0) == PtePpn(w) * 4096 + va % 4096
  {
    PpnFields(w);
    Euclid(w / 1024, 0x1000_0000_0000, 0, w / 1024);
  }

  lemma UpperSlotZero(m: Mem, t: Tree, i: nat)
    requires SpareZero(m, t)
    requires FullGuestRoot(t) && 512 <= i < 2048
    ensures ReaderOf(m)(t.root * 4096 + i * 8) == PTE_EMPTY
  {
    var p, j := t.root + i / 512, i % 512;
    assert t.root * 4096 + i * 8 == p * 4096 + j * 8;
    ReadSlot(m, p, j);
    assert p in t.spare;
    assert ZeroFrame(m, p);
  }

  /** The software lookup drops the bits above 39 instead of faulting. */
  lemma TranslateVaAliases(m: Mem, root: nat, va: nat)
    ensures TranslateVa(m, root, va) == TranslateVa(m, root, va % 0x80_0000_0000)
  {
    var q, r := va / 0x80_0000_0000, va % 0x80_0000_0000;
    var p, o := r / 4096, r % 4096;
    Euclid(va, 4096, q * 0x800_0000 + p, o);
    Euclid(va / 4096, 0x800_0000, q, p);
    Euclid(p, 0x800_0000, 0, p);
  }
}
