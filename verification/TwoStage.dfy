/** Guest address translation (`pmap` of src/guest/mod.rs, `translate_guest_va` of src/page_table/mod.rs). */
module TwoStage {
  import opened Words
  import opened Memory
  import opened TableModel
  import opened PageTables
  import opened PageWalks
  import opened WalkTheory
  import opened Translation

  datatype AddressTranslation =
    AddressTranslation(pte: Word, pteAddr: nat, guestPa: nat, level: Level, pageWalk: PageWalk)

  function Gpa2Hpa(va: nat, guestId: nat): nat {
    va + guestId * 0x800_0000
  }

  /** The closure of `translate_guest_va`: guest memory seen through the guest's segment. */
  function GuestReader(host: Reader, guestId: nat): Reader {
    (a: nat) => host(Gpa2Hpa(a, guestId))
  }

  /** `translate_guest_va`; the walk's path is never empty. */
  function TranslateGuestVa(host: Reader, guestId: nat, root: nat, va: nat): (r: Option<AddressTranslation>)
    ensures r.None? <==> Walk(GuestReader(host, guestId), root, va).None?
    ensures r.Some? ==>
              && 1 <= |r.value.pageWalk.path| <= 3
              && r.value.pte == host(r.value.pteAddr + guestId * 0x800_0000)
              && r.value.pte % 2 == 1 && (r.value.pte / 2 % 2 == 1 || r.value.pte / 8 % 2 == 1)
              && PageBits(r.value.level) == 39 - 9 * |r.value.pageWalk.path|
              && LeafGives(r.value.pte, va, |r.value.pageWalk.path| - 1, r.value.guestPa)
  {
    match Walk(GuestReader(host, guestId), root, va)
    case None => None
    case Some(w) =>
      WalkIsChain(GuestReader(host, guestId), root, va, w);
      var last := w.path[|w.path| - 1];
      assert StepOk(GuestReader(host, guestId), root, va, 0, w.path, |w.path| - 1);
      assert last.pte == host(Gpa2Hpa(last.addr, guestId));
      Some(AddressTranslation(last.pte, last.addr, w.pa, last.level, w))
  }

  /** The root that both translations take from vsatp: a mask of 42 bits. */
  function GuestRoot(vsatp: Word): nat {
    vsatp % 0x400_0000_0000 * 4096
  }

  /** `two_stage_translation`; the second stage is `gpm.translate_va`. */
  function TwoStageTranslation(host: Reader, guestId: nat, va: nat, vsatp: Word, m: Mem, gpmRoot: nat): Option<nat> {
    var root := GuestRoot(vsatp);
    if root != 0 then
      match TranslateGuestVa(host, guestId, root, va)
      case None => None
      case Some(t) => TranslateVa(m, gpmRoot, t.guestPa)
    else TranslateVa(m, gpmRoot, va)
  }

  /** `fast_two_stage_translation`: the first stage alone. */
  function FastTwoStageTranslation(host: Reader, guestId: nat, va: nat, vsatp: Word): Option<nat> {
    var root := GuestRoot(vsatp);
    if root != 0 then
      match TranslateGuestVa(host, guestId, root, va)
      case None => None
      case Some(t) => Some(t.guestPa)
    else Some(va)
  }

  // ---------------------------------------------------------------- the fast form against the full one

  /** Guest physical page g is mapped to itself. */
  ghost predicate IdentityMapped(pages: PageMap, g: nat) {
    g in pages && PtePpn(pages[g]) == g
  }

  /** Both forms fail together when the first stage faults.  Otherwise they return the same address
      exactly when the second stage's leaf table for that page exists and its entry, valid or not, names
      the page itself. */
  lemma FastAgainstFull(host: Reader, guestId: nat, va: nat, vsatp: Word, m: Mem, t: Tree, pages: PageMap)
    requires Shape(t) && Represents(m, t, pages)
    ensures var fast := FastTwoStageTranslation(host, guestId, va, vsatp);
            var full := TwoStageTranslation(host, guestId, va, vsatp, m, t.root);
            && (fast.None? <==> GuestRoot(vsatp) != 0 && Walk(GuestReader(host, guestId), GuestRoot(vsatp), va).None?)
            && (fast.None? ==> full.None?)
            && (fast.Some? ==>
                  var page := fast.value / 4096;
                  full == fast <==> Key(page) / 512 in t.leaf && PtePpn(Entry(pages, Key(page))) == page)
  {
    FullIsFastThenTable(host, guestId, va, vsatp, m, t.root);
    hide Walk, Entry, TwoStageTranslation, FastTwoStageTranslation, TranslateVa, PtePpn;
    var fast := FastTwoStageTranslation(host, guestId, va, vsatp);
    if fast.Some? {
      TranslateVaIs(m, t, pages, fast.value);
    }
  }

  lemma FullIsFastThenTable(host: Reader, guestId: nat, va: nat, vsatp: Word, m: Mem, gpmRoot: nat)
    ensures var fast := FastTwoStageTranslation(host, guestId, va, vsatp);
            && (fast.None? <==> GuestRoot(vsatp) != 0 && Walk(GuestReader(host, guestId), GuestRoot(vsatp), va).None?)
            && TwoStageTranslation(host, guestId, va, vsatp, m, gpmRoot)
               == if fast.None? then None else TranslateVa(m, gpmRoot, fast.value)
  {
    hide Walk, TranslateVa;
  }

  lemma TranslateVaIs(m: Mem, t: Tree, pages: PageMap, g: nat)
    requires Shape(t) && Represents(m, t, pages)
    ensures TranslateVa(m, t.root, g) ==
            if Key(g / 4096) / 512 in t.leaf then Some(PtePpn(Entry(pages, Key(g / 4096))) * 4096 + g % 4096) else None
  {
    hide PtePpn;
    KeyOfKey(g / 4096);
    LookupIsMap(m, t, pages, Key(g / 4096));
  }

  lemma PagesAreLow(m: Mem, t: Tree, pages: PageMap, v: nat)
    requires Shape(t) && Represents(m, t, pages) && v in pages
    ensures v < 0x800_0000 && Key(v) == v && v / 512 in t.leaf
  {
    Euclid(v, 0x800_0000, 0, v);
  }

  /** The refinement the fault handler relies on: on identity-mapped pages the fast form is the full one. */
  lemma FastIsFullOnIdentity(host: Reader, guestId: nat, va: nat, vsatp: Word, m: Mem, t: Tree, pages: PageMap)
    requires Shape(t) && Represents(m, t, pages)
    requires var fast := FastTwoStageTranslation(host, guestId, va, vsatp);
             fast.Some? ==> IdentityMapped(pages, fast.value / 4096)
    ensures TwoStageTranslation(host, guestId, va, vsatp, m, t.root) == FastTwoStageTranslation(host, guestId, va, vsatp)
  {
    hide Walk, PtePpn, TwoStageTranslation, FastTwoStageTranslation;
    FastAgainstFull(host, guestId, va, vsatp, m, t, pages);
    var fast := FastTwoStageTranslation(host, guestId, va, vsatp);
    if fast.Some? {
      PagesAreLow(m, t, pages, fast.value / 4096);
    }
  }

  /** On an unmapped page the full form does not fail: it answers from the invalid entry, so the two
      forms differ on every unmapped page but page zero. */
  lemma FullAnswersUnmapped(host: Reader, guestId: nat, va: nat, vsatp: Word, m: Mem, t: Tree, pages: PageMap)
    requires Shape(t) && Represents(m, t, pages)
    requires var fast := FastTwoStageTranslation(host, guestId, va, vsatp); fast.Some? && Key(fast.value / 4096) !in pages
    ensures var g := FastTwoStageTranslation(host, guestId, va, vsatp).value;
            var full := TwoStageTranslation(host, guestId, va, vsatp, m, t.root);
            && (Key(g / 4096) / 512 in t.leaf ==> full == Some(g % 4096))
            && (full == Some(g) <==> g < 4096 && 0 in t.leaf)
  {
    FullIsFastThenTable(host, guestId, va, vsatp, m, t.root);
    hide Walk, TwoStageTranslation, FastTwoStageTranslation, TranslateVa, Represents, Shape;
    var g := FastTwoStageTranslation(host, guestId, va, vsatp).value;
    TranslateVaIs(m, t, pages, g);
    assert PtePpn(PTE_EMPTY) == 0;
  }

  /** The mask keeps the root's page number exactly when it is below 2^42; 2^42 itself is taken for a
      guest without paging. */
  lemma MaskKeepsRoot(vsatp: Word)
    ensures GuestRoot(vsatp) == vsatp % 0x1000_0000_0000 * 4096 <==> vsatp % 0x1000_0000_0000 < 0x400_0000_0000
    ensures vsatp % 0x1000_0000_0000 == 0x400_0000_0000 ==> GuestRoot(vsatp) == 0
  {
    var q, r := vsatp / 0x1000_0000_0000, vsatp % 0x1000_0000_0000;
    Euclid(vsatp, 0x400_0000_0000, q * 4 + r / 0x400_0000_0000, r % 0x400_0000_0000);
  }

  // ---------------------------------------------------------------- the hardware's nested translation

  /** Guest memory as the hardware's first stage reads it: every address goes through the G-stage; a
      fault there reads as an invalid entry. */
  function NestedRead(host: Reader, gpmRoot: nat, a: nat): Word {
    match GStageWalk(host, gpmRoot, a)
    case None => PTE_EMPTY
    case Some(pa) => host(pa)
  }

  function NestedReader(host: Reader, gpmRoot: nat): Reader {
    (a: nat) => NestedRead(host, gpmRoot, a)
  }

  const MODE_BARE: nat := 0
  const MODE_SV39: nat := 8

  function Mode(vsatp: Word): nat {
    vsatp / 0x1000_0000_0000_0000
  }

  /** Bits 63 to 39 equal bit 38 (section 4.4.1). */
  predicate Canonical(va: Word) {
    va < 0x40_0000_0000 || va >= 0xffff_ffc0_0000_0000
  }

  /** Two-stage translation as the architecture defines it (section 8.5), on a hart with Sv39: no first
      stage in bare mode; else the algorithm of section 4.3.2 over nested reads; then the G-stage. */
  function NestedTranslation(host: Reader, gpmRoot: nat, vsatp: Word, va: Word): Option<nat> {
    if Mode(vsatp) == MODE_BARE then GStageWalk(host, gpmRoot, va)
    else if Mode(vsatp) != MODE_SV39 || !Canonical(va) then None
    else
      match SpecWalk(NestedReader(host, gpmRoot), vsatp % 0x1000_0000_0000 * 4096, va, 2, false)
      case None => None
      case Some(g) => GStageWalk(host, gpmRoot, g)
  }

  /** The G-stage lets the address through, as it is. */
  ghost predicate PassesThrough(pages: PageMap, a: nat) {
    IdentityMapped(pages, a / 4096) && GoodLeaf(pages[a / 4096])
  }

  lemma GStagePasses(m: Mem, live: set<nat>, frames: seq<nat>, t: Tree, pages: PageMap, g: nat)
    requires TableInv(m, live, t.root, frames, t, pages) && FullGuestRoot(t)
    ensures GStageWalk(ReaderOf(m), t.root, g) == Some(g) <==> PassesThrough(pages, g)
    ensures GStageWalk(ReaderOf(m), t.root, g).Some? <==> g / 4096 in pages && GoodLeaf(pages[g / 4096])
  {
    hide PtePpn, GStageWalk, GoodLeaf, FullGuestRoot, Represents, Holds, SpareZero, Shape;
    GStageOfTable(m, live, frames, t, pages, g);
    if g / 4096 in pages { PagesAreLow(m, t, pages, g / 4096); }
  }

  /** The walk succeeded through entries that the architecture accepts. */
  ghost predicate WellFormedWalk(walk: Option<PageWalk>) {
    walk.Some? && forall p :: p in walk.value.path ==> WellFormed(p)
  }

  /** Every page that the G-stage accepts maps onto itself, as in each guest's space. */
  ghost predicate OnlyIdentity(pages: PageMap) {
    forall v :: v in pages && GoodLeaf(pages[v]) ==> IdentityMapped(pages, v)
  }

  /** The root that hardware takes from vsatp. */
  function HardwareRoot(vsatp: Word): nat {
    vsatp % 0x1000_0000_0000 * 4096
  }

  /** What hardware asks of the first stage: the mode is Sv39, the address is canonical, the walk from its
      root goes through well-formed entries only, and reads nothing that the G-stage does not pass. */
  ghost predicate Accepted(pages: PageMap, read: Reader, vsatp: Word, va: Word) {
    && Mode(vsatp) == MODE_SV39 && Canonical(va)
    && WellFormedWalk(Walk(read, HardwareRoot(vsatp), va))
    && forall a :: a in Reads(read, HardwareRoot(vsatp), va, 0) ==> PassesThrough(pages, a)
  }

  lemma NestedReads(m: Mem, live: set<nat>, frames: seq<nat>, t: Tree, pages: PageMap, pass: iset<nat>)
    requires TableInv(m, live, t.root, frames, t, pages) && FullGuestRoot(t) && OnlyIdentity(pages)
    requires forall a: nat :: a in pass <==> PassesThrough(pages, a)
    ensures Masks(GuestReader(ReaderOf(m), 0), NestedReader(ReaderOf(m), t.root), pass)
  {
    hide GStageWalk, ReaderOf, FullGuestRoot, TableInv, GoodLeaf;
    forall a: nat
      ensures NestedReader(ReaderOf(m), t.root)(a) == if a in pass then GuestReader(ReaderOf(m), 0)(a) else PTE_EMPTY
    {
      GStagePasses(m, live, frames, t, pages, a);
      assert Gpa2Hpa(a, 0) == a;
    }
  }

  /** The first stage of the hardware, in the software's terms, for every root and address. */
  lemma FirstStage(m: Mem, live: set<nat>, frames: seq<nat>, t: Tree, pages: PageMap, root: nat, va: nat)
    requires TableInv(m, live, t.root, frames, t, pages) && FullGuestRoot(t) && OnlyIdentity(pages)
    ensures var direct := GuestReader(ReaderOf(m), 0);
            SpecWalk(NestedReader(ReaderOf(m), t.root), root, va, 2, false) ==
            if WellFormedWalk(Walk(direct, root, va)) && forall a :: a in Reads(direct, root, va, 0) ==> PassesThrough(pages, a)
            then Some(Walk(direct, root, va).value.pa) else None
  {
    hide WalkFrom, PassesThrough, ReaderOf, SpecWalk, WellFormed, FullGuestRoot, TableInv, GuestReader, NestedReader, Reads,
         OnlyIdentity, Masks;
    var pass := iset a: nat | PassesThrough(pages, a);
    NestedReads(m, live, frames, t, pages, pass);
    MaskedWalk(GuestReader(ReaderOf(m), 0), NestedReader(ReaderOf(m), t.root), pass, root, va, 0);
    WalkMeetsSpec(GuestReader(ReaderOf(m), 0), root, va, 0);
  }

  /** What hardware makes of every address of a guest with paging, whatever its root and its page tables. */
  lemma HardwareTranslates(m: Mem, live: set<nat>, frames: seq<nat>, t: Tree, pages: PageMap, va: Word, vsatp: Word)
    requires TableInv(m, live, t.root, frames, t, pages) && FullGuestRoot(t) && OnlyIdentity(pages)
    requires Mode(vsatp) != MODE_BARE
    ensures var direct := GuestReader(ReaderOf(m), 0);
            NestedTranslation(ReaderOf(m), t.root, vsatp, va) ==
            if Accepted(pages, direct, vsatp, va) && PassesThrough(pages, Walk(direct, HardwareRoot(vsatp), va).value.pa)
            then Some(Walk(direct, HardwareRoot(vsatp), va).value.pa) else None
  {
    hide GStageWalk, WalkFrom, GoodLeaf, ReaderOf, SpecWalk, WellFormed, FullGuestRoot, Canonical, Reads, TableInv;
    FirstStage(m, live, frames, t, pages, HardwareRoot(vsatp), va);
    var walk := Walk(GuestReader(ReaderOf(m), 0), HardwareRoot(vsatp), va);
    if walk.Some? { GStagePasses(m, live, frames, t, pages, walk.value.pa); }
  }

  /** Nothing from 2^39 up is passed, so a root from 2^42 on is never accepted. */
  lemma HighRootRefused(m: Mem, live: set<nat>, frames: seq<nat>, t: Tree, pages: PageMap, read: Reader, va: Word, vsatp: Word)
    requires TableInv(m, live, t.root, frames, t, pages) && vsatp % 0x1000_0000_0000 >= 0x400_0000_0000
    ensures !Accepted(pages, read, vsatp, va)
  {
    hide WellFormedWalk, Canonical, GoodLeaf, Represents, Shape, Holds, SpareZero, VaIndex;
    var a: nat := HardwareRoot(vsatp) + VaIndex(va, 0) * 8;
    assert Reads(read, HardwareRoot(vsatp), va, 0)[0] == a;
    Euclid(a, 4096, vsatp % 0x1000_0000_0000, VaIndex(va, 0) * 8);
    assert a in Reads(read, HardwareRoot(vsatp), va, 0);
    hide Reads, HardwareRoot;
    if a / 4096 in pages { PagesAreLow(m, t, pages, a / 4096); }
    assert !PassesThrough(pages, a);
  }

  /** Both software forms against hardware, for a guest with paging, whatever its root, its page tables and
      the address.  With a root that the mask keeps, fast form and hardware agree exactly when the fast form
      fails, or hardware accepts the walk and passes its answer; from 2^42 on hardware always faults; root
      zero is taken for a guest without paging, which is right only if the walk from there ends where it
      started.  Where the target is passed as it is, the full form is the fast one. */
  lemma SoftwareMeetsHardware(m: Mem, live: set<nat>, frames: seq<nat>, t: Tree, pages: PageMap, va: Word, vsatp: Word)
    requires TableInv(m, live, t.root, frames, t, pages) && FullGuestRoot(t) && OnlyIdentity(pages)
    requires Mode(vsatp) != MODE_BARE
    ensures var direct, ppn := GuestReader(ReaderOf(m), 0), vsatp % 0x1000_0000_0000;
            var fast := FastTwoStageTranslation(ReaderOf(m), 0, va, vsatp);
            var nested := NestedTranslation(ReaderOf(m), t.root, vsatp, va);
            var walk := Walk(direct, HardwareRoot(vsatp), va);
            && (0 < ppn < 0x400_0000_0000 ==>
                  && (fast.Some? <==> walk.Some?)
                  && (nested.Some? <==> Accepted(pages, direct, vsatp, va) && PassesThrough(pages, fast.value))
                  && (nested == fast <==> (fast.Some? ==> Accepted(pages, direct, vsatp, va) && PassesThrough(pages, fast.value))))
            && (ppn >= 0x400_0000_0000 ==> nested.None?)
            && (ppn == 0 ==>
                  && fast == Some(va)
                  && (nested == fast <==>
                        Accepted(pages, direct, vsatp, va) && walk.value.pa == va && PassesThrough(pages, va)))
            && (fast.Some? && PassesThrough(pages, fast.value) ==>
                  TwoStageTranslation(ReaderOf(m), 0, va, vsatp, m, t.root) == fast)
  {
    hide WalkFrom, IdentityMapped, GoodLeaf, ReaderOf, WellFormed, FullGuestRoot, Canonical, Reads, TableInv, NestedTranslation;
    HardwareTranslates(m, live, frames, t, pages, va, vsatp);
    MaskKeepsRoot(vsatp);
    var ppn := vsatp % 0x1000_0000_0000;
    if ppn >= 0x400_0000_0000 { HighRootRefused(m, live, frames, t, pages, GuestReader(ReaderOf(m), 0), va, vsatp); }
    if 0 < ppn < 0x400_0000_0000 { FastIsFirstStage(ReaderOf(m), va, vsatp); }
    var fast := FastTwoStageTranslation(ReaderOf(m), 0, va, vsatp);
    if fast.Some? && PassesThrough(pages, fast.value) { FullOnIdentity(m, live, frames, t, pages, va, vsatp); }
  }

  lemma FastIsFirstStage(host: Reader, va: nat, vsatp: Word)
    requires GuestRoot(vsatp) != 0
    ensures FastTwoStageTranslation(host, 0, va, vsatp) == PaOf(Walk(GuestReader(host, 0), GuestRoot(vsatp), va))
  {
    hide WalkFrom;
  }

  lemma FullOnIdentity(m: Mem, live: set<nat>, frames: seq<nat>, t: Tree, pages: PageMap, va: nat, vsatp: Word)
    requires TableInv(m, live, t.root, frames, t, pages)
    requires var fast := FastTwoStageTranslation(ReaderOf(m), 0, va, vsatp); fast.Some? && IdentityMapped(pages, fast.value / 4096)
    ensures TwoStageTranslation(ReaderOf(m), 0, va, vsatp, m, t.root) == FastTwoStageTranslation(ReaderOf(m), 0, va, vsatp)
  {
    hide TwoStageTranslation, FastTwoStageTranslation, IdentityMapped, Represents, Shape;
    FastIsFullOnIdentity(ReaderOf(m), 0, va, vsatp, m, t, pages);
  }

  /** A guest without paging: hardware answers exactly where the G-stage accepts the page, and with the
      address itself exactly where it passes it.  With a zero root, as each guest starts, the fast form
      always answers with the address, and the full form does where it is passed. */
  lemma BareMeetsHardware(m: Mem, live: set<nat>, frames: seq<nat>, t: Tree, pages: PageMap, va: Word, vsatp: Word)
    requires TableInv(m, live, t.root, frames, t, pages) && FullGuestRoot(t)
    requires Mode(vsatp) == MODE_BARE
    ensures NestedTranslation(ReaderOf(m), t.root, vsatp, va) == Some(va) <==> PassesThrough(pages, va)
    ensures NestedTranslation(ReaderOf(m), t.root, vsatp, va).Some? <==> va / 4096 in pages && GoodLeaf(pages[va / 4096])
    ensures GuestRoot(vsatp) == 0 ==> FastTwoStageTranslation(ReaderOf(m), 0, va, vsatp) == Some(va)
    ensures GuestRoot(vsatp) == 0 && PassesThrough(pages, va) ==>
              TwoStageTranslation(ReaderOf(m), 0, va, vsatp, m, t.root) == Some(va)
  {
    hide GStageWalk, IdentityMapped, GoodLeaf, ReaderOf, FullGuestRoot, TableInv;
    GStagePasses(m, live, frames, t, pages, va);
    if GuestRoot(vsatp) == 0 && PassesThrough(pages, va) { FullOnIdentity(m, live, frames, t, pages, va, vsatp); }
  }
}
