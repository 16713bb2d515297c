/** `HostMemorySet` and `GuestMemorySet` (src/mm/memory_set.rs, src/mm/mod.rs): a page table and the areas
    pushed into it. */
module MemorySets {
  import opened Words
  import opened Frames
  import opened Memory
  import opened TableModel
  import opened PageTables
  import opened AreaSpecs
  import opened MapAreas

  /** The trampoline's page: the last page of the 39-bit space. */
  const TRAMPOLINE_VPN: nat := 0x7ff_ffff

  /** R and X. */
  const TRAMPOLINE_PERM: Flags := 10

  /** Two areas hold no frame in common. */
  ghost predicate Apart(a: map<nat, nat>, b: map<nat, nat>) {
    a.Values !! b.Values
  }

  /** Mapping one area leaves another area intact: its frames stay its own and keep their pages. */
  lemma OtherAreaKept(d: AreaDesc, o: Snap, n: Snap, e: AreaDesc, data: map<nat, nat>)
    requires Progress(d, o, n, d.vpnEnd) && SnapInv(d, n)
    requires AreaInv(e, Live(o.pool), o.frames, o.pages, data) && Apart(data, o.data)
    ensures AreaInv(e, Live(n.pool), n.frames, n.pages, data) && Apart(data, n.data)
  {
    hide PteNew, WithV, Live, PagesAdded, DataAdded, TablesAdded, BothGrew, TableNeed, SameOutside, Elements;
    forall v | v in data ensures data[v] in Live(n.pool) && data[v] !in n.frames && data[v] !in n.data.Values {
      OthersFrameKept(o, n, data, v);
    }
    OldPagesKept(d, o, n);
    ApartFromEach(data, n.data);
  }

  lemma OthersFrameKept(o: Snap, n: Snap, data: map<nat, nat>, v: nat)
    requires BothGrew(o.pool, n.pool, o.frames, n.frames, o.data, n.data)
    requires v in data && data[v] in Live(o.pool) && data[v] !in o.frames && Apart(data, o.data)
    ensures data[v] in Live(n.pool) && data[v] !in n.frames && data[v] !in n.data.Values
  {
    hide Live;
    assert data[v] in data.Values;
    assert data[v] in Live(o.pool) - Elements(o.frames) - o.data.Values;
    assert data[v] in Live(n.pool) - Elements(n.frames) - n.data.Values;
  }

  lemma OldPagesKept(d: AreaDesc, o: Snap, n: Snap)
    requires Progress(d, o, n, d.vpnEnd)
    ensures forall x :: x in o.pages ==> x in n.pages && n.pages[x] == o.pages[x]
  {
    hide PteNew, DataAdded, TablesAdded, BothGrew, TableNeed, SameOutside;
  }

  lemma ApartFromEach(a: map<nat, nat>, b: map<nat, nat>)
    requires forall v :: v in a ==> a[v] !in b.Values
    ensures Apart(a, b)
  {
    forall x | x in a.Values ensures x !in b.Values {
      var v :| v in a && a[v] == x;
    }
  }

  /** What an area holds, as a value. */
  datatype Held = Held(d: AreaDesc, data: map<nat, nat>)

  ghost function HeldBy(areas: seq<MapArea>): (h: seq<Held>)
    reads areas
    ensures |h| == |areas| && forall i :: 0 <= i < |h| ==> h[i] == Held(areas[i].d, areas[i].dataFrames)
  {
    if areas == [] then [] else HeldBy(areas[..|areas| - 1]) + [Held(areas[|areas| - 1].d, areas[|areas| - 1].dataFrames)]
  }

  /** All data frames of a list of areas. */
  function DataOf(held: seq<Held>): set<nat> {
    if held == [] then {} else DataOf(held[..|held| - 1]) + held[|held| - 1].data.Values
  }

  lemma {:induction false} DataOfHas(held: seq<Held>, x: nat)
    ensures x in DataOf(held) <==> exists i :: 0 <= i < |held| && x in held[i].data.Values
  {
    if held != [] {
      var n := |held| - 1;
      DataOfHas(held[..n], x);
      if x in DataOf(held[..n]) {
        var i :| 0 <= i < n && x in held[..n][i].data.Values;
        assert x in held[i].data.Values;
      }
      if exists i :: 0 <= i < |held| && x in held[i].data.Values {
        var i :| 0 <= i < |held| && x in held[i].data.Values;
        if i < n { assert x in held[..n][i].data.Values; }
      }
    }
  }

  lemma DataOfNext(held: seq<Held>, h: Held)
    ensures DataOf(held + [h]) == DataOf(held) + h.data.Values
  {
    assert (held + [h])[..|held|] == held;
  }

  /** The byte that a virtual address reads through a table. */
  function ReadVa(m: Mem, root: nat, va: nat): Option<nat> {
    match TranslateVa(m, root, va)
    case None => None
    case Some(pa) => Some(ReadByte(m, pa / 4096, pa % 4096))
  }

  /** Byte i of an area, read through a table. */
  function AreaByte(d: AreaDesc, m: Mem, root: nat, i: nat): Option<nat> {
    ReadVa(m, root, d.vpnStart * 4096 + i)
  }

  /** Read through the table, the area holds the bytes from its start on, and zeros after them. */
  ghost predicate Filled(d: AreaDesc, m: Mem, root: nat, bytes: seq<Byte>) {
    forall i :: 0 <= i < (d.vpnEnd - d.vpnStart) * 4096 ==>
      AreaByte(d, m, root, i) == Some(if i < |bytes| then bytes[i] else 0)
  }

  class MemorySet {
    const table: PageTable
    var areas: seq<MapArea>

    ghost predicate Valid(mem: PhysMem, alloc: FrameAllocator)
      reads this, table, areas, mem, alloc
    {
      && table.Valid(mem, alloc)
      && (forall i :: 0 <= i < |areas| ==> areas[i].Valid(alloc, table))
      && (forall i, j :: 0 <= i < j < |areas| ==> areas[i] != areas[j] && Apart(areas[i].dataFrames, areas[j].dataFrames))
    }

    constructor (table: PageTable)
      ensures this.table == table && areas == []
    {
      this.table := table;
      areas := [];
    }

    /** The first part of `push`: map the area and file it. */
    method MapAndFile(mem: PhysMem, alloc: FrameAllocator, area: MapArea) returns (r: Outcome)
      requires Valid(mem, alloc) && area !in areas && area.dataFrames == map[]
      requires area.d.vpnStart <= area.d.vpnEnd <= 0x800_0000
      requires area.d.ppns.Some? ==> area.d.ppns.value.0 <= area.d.ppns.value.1
      modifies this, table, area, mem, alloc
      ensures r.Done? <==> Fits(area.d, old(area.Snapshot(mem, alloc, table)))
      ensures !r.Done? && (area.d.ppns.Some? ==> area.d.vpnStart < area.d.vpnEnd) ==>
                Explains(area.d, old(area.Snapshot(mem, alloc, table)), r.why)
      ensures r.Done? ==> Valid(mem, alloc) && areas == old(areas) + [area]
      ensures r.Done? ==>
                Progress(area.d, old(area.Snapshot(mem, alloc, table)), area.Snapshot(mem, alloc, table), area.d.vpnEnd)
    {
      hide TableInv, AreaInv, Progress, Fits, Apart, Live, FramesInv, Explains;
      ghost var o := area.Snapshot(mem, alloc, table);
      EmptyAreaInv(area.d, o);
      r := area.Map(mem, alloc, table);
      if r.Done? {
        ghost var n := area.Snapshot(mem, alloc, table);
        TableFramesLive(mem.words, Live(alloc.State()), table.rootPpn, table.frames, table.tree, table.pages);
        forall i | 0 <= i < |areas|
          ensures areas[i].Valid(alloc, table) && Apart(areas[i].dataFrames, area.dataFrames)
        {
          ApartFromNothing(areas[i].dataFrames);
          OtherAreaKept(area.d, o, n, areas[i].d, areas[i].dataFrames);
        }
        areas := areas + [area];
      }
    }

    /** `push` of a fresh area.  It returns exactly when the area fits; then the table has gained exactly
        the area's pages, every area pushed before keeps its frames and pages, and data, if given, reads
        back through the table with zeros after it. */
    method Push(mem: PhysMem, alloc: FrameAllocator, area: MapArea, data: Option<seq<Byte>>) returns (r: Outcome)
      requires Valid(mem, alloc) && area !in areas && area.dataFrames == map[]
      requires area.d.vpnStart <= area.d.vpnEnd <= 0x800_0000
      requires area.d.ppns.Some? ==> area.d.ppns.value.0 <= area.d.ppns.value.1
      requires data.Some? && area.d.mapType.Framed? ==>
                 area.d.vpnStart < area.d.vpnEnd && |data.value| <= (area.d.vpnEnd - area.d.vpnStart) * 4096
      modifies this, table, area, mem, alloc
      ensures r.Done? <==>
                Fits(area.d, old(area.Snapshot(mem, alloc, table))) && (data.Some? ==> area.d.mapType.Framed?)
      ensures !r.Done? && (area.d.ppns.Some? ==> area.d.vpnStart < area.d.vpnEnd) ==>
                || Explains(area.d, old(area.Snapshot(mem, alloc, table)), r.why)
                || (r.why == NotFramed && data.Some? && area.d.mapType.Linear?)
      ensures r.Done? ==> Valid(mem, alloc) && areas == old(areas) + [area] && table.tree.root == old(table.tree.root)
      ensures r.Done? ==> SameOutside(old(mem.words), mem.words, Elements(table.frames) + area.dataFrames.Values)
      ensures r.Done? ==> Extended(area.d, old(area.Snapshot(mem, alloc, table)), area.Snapshot(mem, alloc, table))
      ensures r.Done? && data.None? ==>
                Progress(area.d, old(area.Snapshot(mem, alloc, table)), area.Snapshot(mem, alloc, table), area.d.vpnEnd)
      ensures r.Done? && area.d.mapType.Framed? ==>
                var bytes := if data.Some? then data.value else [];
                Stored(area.d, area.dataFrames, mem.words, bytes) && Filled(area.d, mem.words, table.rootPpn, bytes)
    {
      hide TableInv, AreaInv, Progress, Fits, Copied, Stored, Filled, Apart, Extended, Live, FramesInv, Range, SameOutside,
           Elements, Explains;
      ghost var o := area.Snapshot(mem, alloc, table);
      r := MapAndFile(mem, alloc, area);
      if r.Done? {
        ghost var n := area.Snapshot(mem, alloc, table);
        ProgressParts(area.d, o, n);
        ProgressExtends(area.d, o, n);
        assert area == areas[|areas| - 1] && area.Valid(alloc, table);
        if area.d.mapType.Framed? {
          ProgressKeys(area.d, o, n);
          FreshStored(area.d, o, n);
          FilledIfStored(area.d, mem.words, Live(alloc.State()), table.rootPpn, n, []);
        }
        if data.Some? {
          r := area.CopyData(mem, alloc, table, data.value);
          if r.Done? {
            OutsideOfBoth(o.m, n.m, mem.words, Elements(n.frames), n.data.Values);
            ExtendedAnyBytes(area.d, o, n, mem.words);
            CopyStored(area.d, n.data, n.m, mem.words, data.value);
            FilledIfStored(area.d, mem.words, Live(alloc.State()), table.rootPpn, n, data.value);
          }
        }
      }
    }

    /** `insert_framed_area`: a fresh framed area without data. */
    method InsertFramedArea(mem: PhysMem, alloc: FrameAllocator, startVa: nat, endVa: nat, perm: Flags) returns (r: Outcome)
      requires Valid(mem, alloc) && endVa < 0x80_0000_0000
      modifies this, table, mem, alloc
      ensures var d := NewArea(startVa, endVa, None, Framed, perm);
              && (r.Done? <==> d.Some? && Fits(d.value, old(BareSnap(mem, alloc, table))))
              && (!r.Done? ==> if d.None? then r.why == BadRange else Explains(d.value, old(BareSnap(mem, alloc, table)), r.why))
      ensures r.Done? ==>
                && Valid(mem, alloc) && |areas| == old(|areas|) + 1 && areas[..old(|areas|)] == old(areas)
                && Some(areas[old(|areas|)].d) == NewArea(startVa, endVa, None, Framed, perm)
                && Extended(areas[old(|areas|)].d, old(BareSnap(mem, alloc, table)),
                            areas[old(|areas|)].Snapshot(mem, alloc, table))
    {
      hide TableInv, AreaInv, Progress, Fits, Apart, Live, Extended, Filled, FramesInv, Explains;
      var d := NewArea(startVa, endVa, None, Framed, perm);
      if d.None? {
        return Panicked(BadRange);
      }
      var area := new MapArea(d.value);
      r := Push(mem, alloc, area, None);
    }

    /** `map_trampoline`: one page, not filed among the areas. */
    method MapTrampoline(mem: PhysMem, alloc: FrameAllocator, strampoline: nat) returns (r: Outcome)
      requires Valid(mem, alloc)
      modifies table, mem, alloc
      ensures r.Done? <==>
                PhysAddr(strampoline) % 4096 == 0 && Fits(TrampolineArea(strampoline), old(BareSnap(mem, alloc, table)))
      ensures r.Done? ==> Valid(mem, alloc)
      ensures r.Done? ==>
                Progress(TrampolineArea(strampoline), old(BareSnap(mem, alloc, table)), BareSnap(mem, alloc, table), 0x800_0000)
      ensures r.Done? ==>
                && Translate(mem.words, table.rootPpn, 0x7ff_ffff) == Some(strampoline % 0x100_0000_0000_0000 / 4096 * 1024 + 11)
                && (forall va: nat :: 0x7f_ffff_f000 <= va < 0x80_0000_0000 ==>
                      TranslateVa(mem.words, table.rootPpn, va) == Some(strampoline % 0x100_0000_0000_0000 + (va - 0x7f_ffff_f000)))
    {
      hide TableInv, AreaInv, Progress, Fits, Apart, Live, FramesInv;
      if PhysAddr(strampoline) % 4096 != 0 {
        return Panicked(Misaligned);
      }
      ghost var o, d := BareSnap(mem, alloc, table), TrampolineArea(strampoline);
      TrampolineFits(d, o);
      TableFramesLive(mem.words, Live(alloc.State()), table.rootPpn, table.frames, table.tree, table.pages);
      r := table.Map(mem, alloc, TRAMPOLINE_VPN, PhysAddr(strampoline) / 4096, TRAMPOLINE_PERM);
      if r.Done? {
        ghost var n := BareSnap(mem, alloc, table);
        TableFramesLive(mem.words, Live(alloc.State()), table.rootPpn, table.frames, table.tree, table.pages);
        EmptyAreaInv(d, o);
        EmptyAreaInv(d, n);
        LinearPage(d, o, n, TRAMPOLINE_VPN, PhysAddr(strampoline) / 4096);
        NoProgress(d, o);
        ProgressStep(d, o, o, n, TRAMPOLINE_VPN, Some(PhysAddr(strampoline) / 4096));
        forall i | 0 <= i < |areas| ensures areas[i].Valid(alloc, table) {
          ApartFromNothing(areas[i].dataFrames);
          OtherAreaKept(d, o, n, areas[i].d, areas[i].dataFrames);
        }
        TrampolineReads(mem.words, Live(alloc.State()), table.rootPpn, table.frames, table.tree, table.pages, strampoline);
      }
    }

    /** Drop: the table's frames, then each area's.  No return is rejected, and exactly the frames that
        the set held go back. */
    method Drop(mem: PhysMem, alloc: FrameAllocator) returns (r: Outcome)
      requires Valid(mem, alloc)
      modifies alloc
      ensures alloc.Valid() && alloc.lo == old(alloc.lo) && alloc.end == old(alloc.end)
      ensures r.Done?
      ensures Live(alloc.State()) == old(Live(alloc.State())) - Elements(table.frames) - DataOf(HeldBy(areas))
    {
      hide TableInv, Live, FramesInv, Elements, AreaInv, Apart, HeldBy;
      ghost var h := HeldBy(areas);
      assert forall i, j :: 0 <= i < j < |h| ==> Apart(h[i].data, h[j].data);
      r := table.Drop(mem, alloc);
      for k := 0 to |areas|
        invariant alloc.Valid() && alloc.lo == old(alloc.lo) && alloc.end == old(alloc.end)
        invariant r.Done?
        invariant Live(alloc.State()) == old(Live(alloc.State())) - Elements(table.frames) - DataOf(h[..k])
      {
        assert AreaInv(h[k].d, old(Live(alloc.State())), table.frames, table.pages, h[k].data);
        StillHeld(h, k, old(Live(alloc.State())), table.frames, table.pages);
        r := ReturnData(alloc, areas[k].dataFrames);
        DataOfNext(h[..k], h[k]);
        assert h[..k + 1] == h[..k] + [h[k]];
        LessOneMore(old(Live(alloc.State())), Elements(table.frames), DataOf(h[..k]), areas[k].dataFrames.Values);
      }
      assert h[..|areas|] == h;
    }
  }

  // ---------------------------------------------------------------- creation

  /** `new_bare`: an empty set over a host root. */
  method NewBare(mem: PhysMem, alloc: FrameAllocator) returns (s: MemorySet?)
    requires alloc.Valid()
    modifies mem, alloc
    ensures s != null <==> old(FreeCount(alloc.State())) > 0
    ensures s != null ==>
              && fresh(s) && fresh(s.table) && s.Valid(mem, alloc) && s.areas == []
              && s.table.pages == map[] && s.table.tree.mid == map[] && s.table.tree.leaf == map[]
              && Grew(old(alloc.State()), alloc.State(), [], s.table.frames) && |s.table.frames| == 1
  {
    hide TableInv, Grew, FramesInv, Live, SameOutside;
    FreeIsNat(alloc);
    var t := PageTable.New(mem, alloc);
    if t == null {
      return null;
    }
    s := new MemorySet(t);
  }

  lemma FreeIsNat(alloc: FrameAllocator)
    requires alloc.Valid()
    ensures FreeCount(alloc.State()) >= 0
  {
  }

  /** `new_guest_bare`: an empty set over a guest root. */
  method NewGuestBare(mem: PhysMem, alloc: FrameAllocator) returns (gpm: MemorySet?)
    requires alloc.Valid()
    modifies mem, alloc
    ensures var order := old(AllocOrder(alloc.State())); var k := Unaligned(order);
            gpm != null <==> k + 4 <= |order|
    ensures gpm != null ==>
              && fresh(gpm) && fresh(gpm.table) && gpm.Valid(mem, alloc) && gpm.areas == []
              && gpm.table.pages == map[] && gpm.table.tree.mid == map[] && gpm.table.tree.leaf == map[]
              && Grew(old(alloc.State()), alloc.State(), [], gpm.table.frames)
    ensures gpm != null ==>
              var order := old(AllocOrder(alloc.State())); var k := Unaligned(order);
              && gpm.table.tree.root == order[k] && gpm.table.tree.spare == Elements(order[..k + 4]) - {order[k]}
              && |gpm.table.frames| == k + 4 && FreeCount(alloc.State()) == |order| - (k + 4)
  {
    FreeIsOrder(alloc.State());
    hide TableInv, Grew, FramesInv, AllocOrder, Unaligned, FreeCount, Live, SameOutside;
    var t := PageTable.NewGuest(mem, alloc);
    if t == null {
      return null;
    }
    gpm := new MemorySet(t);
    GrewCount(old(alloc.State()), alloc.State(), t.frames);
    RootIs(mem.words, Live(alloc.State()), t.rootPpn, t.frames, t.tree, t.pages);
  }

  lemma FreeIsOrder(s: FrameState)
    requires FramesInv(s)
    ensures |AllocOrder(s)| == FreeCount(s)
  {
    TakeFollowsOrder(s);
  }

  lemma GrewCount(s: FrameState, s': FrameState, frames: seq<nat>)
    requires Grew(s, s', [], frames)
    ensures FreeCount(s') == FreeCount(s) - |frames|
  {
  }

  /** The trampoline page as a linear area of one page. */
  function TrampolineArea(strampoline: nat): AreaDesc {
    var p := PhysAddr(strampoline) / 4096;
    AreaDesc(TRAMPOLINE_VPN, 0x800_0000, Some((p, p + 1)), Linear, TRAMPOLINE_PERM)
  }

  /** The top page of the 39-bit space, once its entry is in the table, reads as the trampoline's frame. */
  lemma TrampolineReads(m: Mem, live: set<nat>, root: nat, frames: seq<nat>, t: Tree, pages: PageMap, strampoline: nat)
    requires TableInv(m, live, root, frames, t, pages) && strampoline % 0x100_0000_0000_0000 % 4096 == 0
    requires 0x7ff_ffff in pages && pages[0x7ff_ffff] == strampoline % 0x100_0000_0000_0000 / 4096 * 1024 + 11
    ensures Translate(m, root, 0x7ff_ffff) == Some(pages[0x7ff_ffff])
    ensures forall va: nat :: 0x7f_ffff_f000 <= va < 0x80_0000_0000 ==>
              TranslateVa(m, root, va) == Some(strampoline % 0x100_0000_0000_0000 + (va - 0x7f_ffff_f000))
  {
    hide TableInv, Translate, PtePpn;
    TopPage(m, live, root, frames, t, pages);
    var p := strampoline % 0x100_0000_0000_0000 / 4096;
    TrampolinePpn(p);
    forall va: nat | 0x7f_ffff_f000 <= va < 0x80_0000_0000
      ensures TranslateVa(m, root, va) == Some(p * 4096 + (va - 0x7f_ffff_f000))
    {
      Euclid(va, 4096, 0x7ff_ffff, va - 0x7f_ffff_f000);
    }
  }

  lemma TopPage(m: Mem, live: set<nat>, root: nat, frames: seq<nat>, t: Tree, pages: PageMap)
    requires TableInv(m, live, root, frames, t, pages) && 0x7ff_ffff in pages
    ensures Translate(m, root, 0x7ff_ffff) == Some(pages[0x7ff_ffff])
  {
    hide Translate, Represents, Shape, SpareZero;
    LookupIsMap(m, t, pages, 0x7ff_ffff);
  }

  lemma TrampolinePpn(p: nat)
    requires p < 0x1000_0000_0000
    ensures PtePpn(p * 1024 + 11) == p
  {
    Euclid(p * 1024 + 11, 1024, p, 11);
  }

  ghost function BareSnap(mem: PhysMem, alloc: FrameAllocator, table: PageTable): Snap
    reads mem, alloc, table
  {
    Snap(mem.words, alloc.State(), table.frames, table.tree, table.pages, map[])
  }

  lemma TrampolineFits(d: AreaDesc, o: Snap)
    requires d.vpnStart == TRAMPOLINE_VPN && d.vpnEnd == 0x800_0000 && d.mapType.Linear?
    requires d.ppns.Some? && d.ppns.value.1 == d.ppns.value.0 + 1
    ensures Fits(d, o) <==> Key(TRAMPOLINE_VPN) !in o.pages && Missing(o.tree, TRAMPOLINE_VPN) <= FreeCount(o.pool)
  {
    hide TableNeed, Missing;
    OnePageNeed(o.tree, TRAMPOLINE_VPN);
  }

  lemma OnePageNeed(t: Tree, v: nat)
    requires v < 0x800_0000
    ensures TableNeed(t, v, v + 1) == Missing(t, v)
  {
    hide TableNeed, Missing;
    NeedNothing(t, v);
    NeedStep(t, t, v, v);
  }

  lemma LessOneMore(l: set<nat>, f: set<nat>, a: set<nat>, b: set<nat>)
    ensures l - f - a - b == l - f - (a + b)
  {
  }

  /** When the table and the first k areas have been dropped, the frames of area k are still live. */
  lemma StillHeld(held: seq<Held>, k: nat, live: set<nat>, frames: seq<nat>, pages: PageMap)
    requires k < |held| && AreaInv(held[k].d, live, frames, pages, held[k].data)
    requires forall i, j :: 0 <= i < j < |held| ==> Apart(held[i].data, held[j].data)
    ensures held[k].data.Values <= live - Elements(frames) - DataOf(held[..k])
    ensures Injective(held[k].data)
  {
    hide PteNew;
    var data := held[k].data;
    forall x | x in data.Values ensures x in live - Elements(frames) - DataOf(held[..k]) {
      var v :| v in data && data[v] == x;
      DataOfHas(held[..k], x);
      forall i | 0 <= i < k ensures x !in held[..k][i].data.Values {
        assert Apart(held[i].data, data);
      }
    }
  }

  /** Dropping an area's trackers returns exactly its frames. */
  method ReturnData(alloc: FrameAllocator, data: map<nat, nat>) returns (r: Outcome)
    requires alloc.Valid() && Injective(data) && data.Values <= Live(alloc.State())
    modifies alloc
    ensures alloc.Valid() && alloc.lo == old(alloc.lo) && alloc.end == old(alloc.end)
    ensures r.Done?
    ensures Live(alloc.State()) == old(Live(alloc.State())) - data.Values
  {
    var rest := data;
    r := Done;
    assert data.Values - data.Values == {};
    while rest.Keys != {}
      invariant alloc.Valid() && alloc.lo == old(alloc.lo) && alloc.end == old(alloc.end)
      invariant r.Done? && Injective(rest) && rest.Values <= data.Values
      invariant Live(alloc.State()) == old(Live(alloc.State())) - (data.Values - rest.Values)
      decreases |rest|
    {
      var v :| v in rest.Keys;
      assert rest[v] in rest.Values;
      RemovedValues(rest, rest - {v}, v);
      r := alloc.Dealloc(rest[v]);
      rest := rest - {v};
    }
    assert rest.Values == {};
  }

  lemma EmptyAreaInv(d: AreaDesc, o: Snap)
    ensures AreaInv(d, Live(o.pool), o.frames, o.pages, map[])
  {
  }

  lemma ApartFromNothing(a: map<nat, nat>)
    ensures Apart(a, map[])
  {
  }

  lemma ProgressParts(d: AreaDesc, o: Snap, n: Snap)
    requires Progress(d, o, n, d.vpnEnd)
    ensures PagesAdded(d, o.pages, n.pages, n.data, d.vpnEnd) && n.tree.root == o.tree.root
    ensures o.data == map[] ==> SameOutside(o.m, n.m, Elements(n.frames) + n.data.Values)
  {
    hide PagesAdded, DataAdded, BothGrew, TableNeed;
  }

  lemma ExtendedAnyBytes(d: AreaDesc, o: Snap, n: Snap, m: Mem)
    requires Extended(d, o, n)
    ensures Extended(d, o, n.(m := m))
  {
    hide PagesAdded, TablesAdded, BothGrew, TableNeed;
  }

  lemma OutsideOfBoth(m0: Mem, m1: Mem, m2: Mem, f: set<nat>, v: set<nat>)
    requires SameOutside(m0, m1, f + v) && SameOutside(m1, m2, v)
    ensures SameOutside(m0, m2, f + v)
  {
  }

  lemma RootIs(m: Mem, live: set<nat>, root: nat, frames: seq<nat>, t: Tree, pages: PageMap)
    requires TableInv(m, live, root, frames, t, pages)
    ensures t.root == root
  {
  }

  lemma OutsideByte(m: Mem, m': Mem, changed: set<nat>, p: nat, off: nat)
    requires SameOutside(m, m', changed) && p !in changed
    ensures ReadByte(m', p, off) == ReadByte(m, p, off)
  {
    hide ByteOf;
    assert Rd(m', p, off / 8) == Rd(m, p, off / 8);
  }

  lemma ProgressKeys(d: AreaDesc, o: Snap, n: Snap)
    requires Progress(d, o, n, d.vpnEnd) && d.mapType.Framed?
    ensures Range(d.vpnStart, d.vpnEnd) <= n.data.Keys
  {
    hide PteNew, TablesAdded, BothGrew, TableNeed, SameOutside, PagesAdded;
  }

  /** The area's frames hold the bytes, page after page, and zeros after them. */
  ghost predicate Stored(d: AreaDesc, data: map<nat, nat>, m: Mem, bytes: seq<Byte>) {
    && d.vpnStart <= d.vpnEnd && Pages(d) <= data.Keys
    && forall x: nat, off: nat :: d.vpnStart <= x < d.vpnEnd && off < 4096 ==> StoredAt(d, data, m, bytes, x, off)
  }

  predicate StoredAt(d: AreaDesc, data: map<nat, nat>, m: Mem, bytes: seq<Byte>, x: nat, off: nat)
    requires d.vpnStart <= x && x in data
  {
    var i := (x - d.vpnStart) * 4096 + off;
    ReadByte(m, data[x], off) == if i < |bytes| then bytes[i] else 0
  }

  lemma FreshStored(d: AreaDesc, o: Snap, n: Snap)
    requires Progress(d, o, n, d.vpnEnd) && d.mapType.Framed? && Range(d.vpnStart, d.vpnEnd) <= n.data.Keys
    ensures Stored(d, n.data, n.m, [])
  {
    hide Progress, StoredAt;
    StartsBelow(d, o, n, d.vpnEnd);
    forall x: nat, off: nat | d.vpnStart <= x < d.vpnEnd && off < 4096 ensures StoredAt(d, n.data, n.m, [], x, off) {
      FreshByte(d, o, n, x, off);
    }
  }

  lemma FreshByte(d: AreaDesc, o: Snap, n: Snap, x: nat, off: nat)
    requires Progress(d, o, n, d.vpnEnd) && d.mapType.Framed? && d.vpnStart <= x < d.vpnEnd && off < 4096
    ensures x in n.data && StoredAt(d, n.data, n.m, [], x, off)
  {
    hide Progress, ReadByte, ZeroFrame;
    FreshFrameIsZero(d, o, n, x);
    BytesOfZeroFrame(n.m, n.data[x], off);
  }

  lemma CopyStored(d: AreaDesc, data: map<nat, nat>, m0: Mem, m: Mem, bytes: seq<Byte>)
    requires Range(d.vpnStart, d.vpnEnd) <= data.Keys && Stored(d, data, m0, []) && Copied(d, data, m0, m, bytes, |bytes|)
    ensures Stored(d, data, m, bytes)
  {
    hide ReadByte;
    forall x: nat, off: nat | d.vpnStart <= x < d.vpnEnd && off < 4096 ensures StoredAt(d, data, m, bytes, x, off) {
      assert StoredAt(d, data, m0, [], x, off) && CopiedAt(d, data, m0, m, bytes, |bytes|, x, off);
    }
  }

  lemma FilledIfStored(d: AreaDesc, m: Mem, live: set<nat>, root: nat, n: Snap, bytes: seq<Byte>)
    requires Stored(d, n.data, m, bytes) && d.vpnEnd <= 0x800_0000
    requires TableInv(m, live, root, n.frames, n.tree, n.pages) && AreaInv(d, live, n.frames, n.pages, n.data)
    ensures Filled(d, m, root, bytes)
  {
    hide TableInv, AreaInv, Stored, AreaByte;
    forall i | 0 <= i < (d.vpnEnd - d.vpnStart) * 4096
      ensures AreaByte(d, m, root, i) == Some(if i < |bytes| then bytes[i] else 0)
    {
      FilledByte(d, m, live, root, n, bytes, i);
    }
  }

  lemma FilledByte(d: AreaDesc, m: Mem, live: set<nat>, root: nat, n: Snap, bytes: seq<Byte>, i: nat)
    requires Stored(d, n.data, m, bytes) && d.vpnEnd <= 0x800_0000 && i < (d.vpnEnd - d.vpnStart) * 4096
    requires TableInv(m, live, root, n.frames, n.tree, n.pages) && AreaInv(d, live, n.frames, n.pages, n.data)
    ensures AreaByte(d, m, root, i) == Some(if i < |bytes| then bytes[i] else 0)
  {
    hide TableInv, AreaInv, ReadByte, ReadVa;
    var x, off := d.vpnStart + i / 4096, i % 4096;
    assert x in Pages(d) && StoredAt(d, n.data, m, bytes, x, off);
    ReadOwnPage(d, m, live, root, n.frames, n.tree, n.pages, n.data, x, off);
    assert x * 4096 + off == d.vpnStart * 4096 + i && (x - d.vpnStart) * 4096 + off == i;
  }

  lemma ReadOwnPage(d: AreaDesc, m: Mem, live: set<nat>, root: nat, frames: seq<nat>, t: Tree, pages: PageMap,
                    data: map<nat, nat>, x: nat, off: nat)
    requires TableInv(m, live, root, frames, t, pages) && AreaInv(d, live, frames, pages, data)
    requires x in data && x < 0x800_0000 && off < 4096
    ensures ReadVa(m, root, x * 4096 + off) == Some(ReadByte(m, data[x], off))
  {
    hide TableInv, AreaInv, ReadByte, FindSlot, PtePpn, Rd;
    Euclid(x * 4096 + off, 4096, x, off);
    Euclid(x, 0x800_0000, 0, x);
    OwnPage(d, m, live, root, frames, t, pages, data, x);
    Euclid(data[x] * 4096 + off, 4096, data[x], off);
  }

  lemma FreshFrameIsZero(d: AreaDesc, o: Snap, n: Snap, x: nat)
    requires Progress(d, o, n, d.vpnEnd) && d.mapType.Framed? && d.vpnStart <= x < d.vpnEnd
    ensures x in n.data && ZeroFrame(n.m, n.data[x])
  {
    hide PteNew, TablesAdded, BothGrew, TableNeed, SameOutside, PagesAdded, ZeroFrame;
  }
}
