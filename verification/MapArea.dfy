/** `MapArea` (src/mm/memory_set.rs): mapping, unmapping and filling a range of pages. */
module MapAreas {
  import opened Words
  import opened Frames
  import opened Memory
  import opened TableModel
  import opened PageTables
  import opened AreaSpecs

  class MapArea {
    const d: AreaDesc
    var dataFrames: map<nat, nat>

    constructor (d: AreaDesc)
      ensures this.d == d && dataFrames == map[]
    {
      this.d := d;
      dataFrames := map[];
    }

    ghost function Snapshot(mem: PhysMem, alloc: FrameAllocator, table: PageTable): Snap
      reads this, mem, alloc, table
    {
      Snap(mem.words, alloc.State(), table.frames, table.tree, table.pages, dataFrames)
    }

    ghost predicate Valid(alloc: FrameAllocator, table: PageTable)
      reads this, alloc, table
    {
      AreaInv(d, Live(alloc.State()), table.frames, table.pages, dataFrames)
    }

    /** The framed arm of `map_one`: take a cleared frame for a page and keep its tracker; inserting over
        a tracker that the area already holds drops the old one. */
    method TakeDataFrame(mem: PhysMem, alloc: FrameAllocator, table: PageTable, vpn: nat) returns (f: Option<nat>)
      requires table.Valid(mem, alloc) && Valid(alloc, table)
      modifies this, mem, alloc
      ensures table.Valid(mem, alloc)
      ensures f.Some? <==> old(FreeCount(alloc.State())) > 0
      ensures f.Some? ==>
                && f.value < 0x1000_0000_0000 && f.value !in old(Live(alloc.State())) && f.value in Live(alloc.State())
                && ZeroFrame(mem.words, f.value) && SameOutside(old(mem.words), mem.words, {f.value})
                && dataFrames == old(dataFrames)[vpn := f.value]
      ensures f.Some? && vpn !in old(dataFrames) ==>
                && Live(alloc.State()) == old(Live(alloc.State())) + {f.value}
                && FreeCount(alloc.State()) == old(FreeCount(alloc.State())) - 1
                && alloc.lo == old(alloc.lo) && alloc.end == old(alloc.end)
    {
      hide ZeroFrame, TableInv;
      TableFramesLive(mem.words, Live(alloc.State()), table.rootPpn, table.frames, table.tree, table.pages);
      f := FrameAlloc(mem, alloc);
      if f.Some? {
        if vpn in dataFrames {
          var r := alloc.Dealloc(dataFrames[vpn]);
        }
        assert table.Valid(mem, alloc) by {
          TableInvFrame(old(mem.words), mem.words, old(Live(alloc.State())), Live(alloc.State()), table.rootPpn,
                        table.frames, table.tree, table.pages, {f.value});
        }
        dataFrames := dataFrames[vpn := f.value];
      }
    }

    /** `map_one`: panics exactly when the page is mapped already, when a linear page has no page number
        or when the pool cannot supply the missing tables and the data frame. */
    method MapOne(mem: PhysMem, alloc: FrameAllocator, table: PageTable, vpn: nat, ppn: Option<nat>) returns (r: Outcome)
      requires table.Valid(mem, alloc) && Valid(alloc, table)
      modifies this, table, mem, alloc
      ensures r.Done? <==>
                && Key(vpn) !in old(table.pages)
                && (d.mapType.Linear? ==> ppn.Some?)
                && old(Missing(table.tree, vpn)) + DataNeed(d, 1) <= old(FreeCount(alloc.State()))
      ensures !r.Done? ==> Blocks(d, old(Snapshot(mem, alloc, table)), vpn, ppn, r.why)
      ensures r.Done? ==>
                && table.Valid(mem, alloc) && Valid(alloc, table)
                && OnePage(d, old(Snapshot(mem, alloc, table)), Snapshot(mem, alloc, table), vpn, ppn)
    {
      hide TableInv, FramesInv, ZeroFrame, PteNew, Grew, Missing, OnePage, AreaInv, Live, SameOutside, PathAdded, FreeCount;
      ghost var o := Snapshot(mem, alloc, table);
      TableFramesLive(mem.words, Live(alloc.State()), table.rootPpn, table.frames, table.tree, table.pages);
      HeldIsMapped(d, Live(alloc.State()), table.frames, table.pages, dataFrames, vpn);
      var p: nat;
      match d.mapType {
        case Linear =>
          if ppn.None? {
            return Panicked(NoPhysicalRange);
          }
          p := ppn.value;
        case Framed =>
          var f := TakeDataFrame(mem, alloc, table, vpn);
          if f.None? {
            return Panicked(OutOfFrames);
          }
          p := f.value;
      }
      ghost var m1, s1 := mem.words, alloc.State();
      r := table.Map(mem, alloc, vpn, p, d.perm);
      if r.Done? {
        TableFramesLive(mem.words, Live(alloc.State()), table.rootPpn, table.frames, table.tree, table.pages);
        if d.mapType.Linear? {
          LinearPage(d, o, Snapshot(mem, alloc, table), vpn, p);
        } else {
          FramedPage(d, o, m1, s1, Snapshot(mem, alloc, table), vpn, p, ppn);
        }
      }
    }

    /** The loop body of `map`, over the pages of the range in order. */
    method MapPage(mem: PhysMem, alloc: FrameAllocator, table: PageTable, v: nat, ppn: Option<nat>, ghost o: Snap)
      returns (r: Outcome)
      requires table.Valid(mem, alloc) && Valid(alloc, table)
      requires SnapInv(d, o) && Progress(d, o, Snapshot(mem, alloc, table), v) && v < 0x800_0000
      requires d.mapType.Linear? && ppn.Some? ==> ppn == Some(Target(d, dataFrames, v))
      modifies this, table, mem, alloc
      ensures r.Done? <==> PageFits(d, o, v, ppn)
      ensures !r.Done? ==> Blocks(d, old(Snapshot(mem, alloc, table)), v, ppn, r.why)
      ensures r.Done? ==>
                && table.Valid(mem, alloc) && Valid(alloc, table)
                && Progress(d, o, Snapshot(mem, alloc, table), v + 1)
    {
      ghost var n := Snapshot(mem, alloc, table);
      Euclid(v, 0x800_0000, 0, v);
      TableFramesLive(mem.words, Live(alloc.State()), table.rootPpn, table.frames, table.tree, table.pages);
      PageFitsNow(d, o, n, v, ppn);
      r := MapOne(mem, alloc, table, v, ppn);
      if r.Done? {
        TableFramesLive(mem.words, Live(alloc.State()), table.rootPpn, table.frames, table.tree, table.pages);
        ProgressStep(d, o, n, Snapshot(mem, alloc, table), v, ppn);
      }
    }

    /** The `for` loop of `map`, for an area without a physical range. */
    method MapEach(mem: PhysMem, alloc: FrameAllocator, table: PageTable) returns (r: Outcome)
      requires table.Valid(mem, alloc) && Valid(alloc, table)
      requires d.vpnStart <= d.vpnEnd <= 0x800_0000 && d.ppns.None?
      modifies this, table, mem, alloc
      ensures r.Done? <==> Fits(d, old(Snapshot(mem, alloc, table)))
      ensures !r.Done? ==> Explains(d, old(Snapshot(mem, alloc, table)), r.why)
      ensures r.Done? ==>
                && table.Valid(mem, alloc) && Valid(alloc, table)
                && Progress(d, old(Snapshot(mem, alloc, table)), Snapshot(mem, alloc, table), d.vpnEnd)
    {
      hide TableInv, Progress, AreaInv, PageFits, Explains, Blocks;
      ghost var o := Snapshot(mem, alloc, table);
      TableFramesLive(mem.words, Live(alloc.State()), table.rootPpn, table.frames, table.tree, table.pages);
      NoProgress(d, o);
      for v := d.vpnStart to d.vpnEnd
        invariant table.Valid(mem, alloc) && Valid(alloc, table) && Progress(d, o, Snapshot(mem, alloc, table), v)
        invariant v > d.vpnStart ==> d.mapType.Framed?
      {
        LinearNeedsNumber(d, o, v);
        ghost var n := Snapshot(mem, alloc, table);
        r := MapPage(mem, alloc, table, v, None, o);
        if !r.Done? {
          FitsEachPage(d, o, v, None);
          BlockedRange(d, o, n, v, None, r.why);
          return;
        }
      }
      ProgressFits(d, o, Snapshot(mem, alloc, table));
      r := Done;
    }

    /** The `loop` of `map`, for an area with a physical range: the exit is tested after the body. */
    method MapPaired(mem: PhysMem, alloc: FrameAllocator, table: PageTable) returns (r: Outcome)
      requires table.Valid(mem, alloc) && Valid(alloc, table)
      requires d.vpnStart <= d.vpnEnd <= 0x800_0000 && d.ppns.Some?
      requires d.ppns.value.1 - d.ppns.value.0 == d.vpnEnd - d.vpnStart
      modifies this, table, mem, alloc
      ensures r.Done? <==> Fits(d, old(Snapshot(mem, alloc, table)))
      ensures !r.Done? && d.vpnStart < d.vpnEnd ==> Explains(d, old(Snapshot(mem, alloc, table)), r.why)
      ensures r.Done? ==>
                && table.Valid(mem, alloc) && Valid(alloc, table)
                && Progress(d, old(Snapshot(mem, alloc, table)), Snapshot(mem, alloc, table), d.vpnEnd)
    {
      hide TableInv, Progress, AreaInv, PageFits, Missing, OnePage, Explains, Blocks;
      ghost var o := Snapshot(mem, alloc, table);
      TableFramesLive(mem.words, Live(alloc.State()), table.rootPpn, table.frames, table.tree, table.pages);
      NoProgress(d, o);
      var p, v := d.ppns.value.0, d.vpnStart;
      while true
        invariant d.vpnStart <= v && p == d.ppns.value.0 + (v - d.vpnStart)
        invariant table.Valid(mem, alloc) && Valid(alloc, table)
        invariant d.vpnStart < d.vpnEnd ==> v < d.vpnEnd && Progress(d, o, Snapshot(mem, alloc, table), v)
        invariant d.vpnStart == d.vpnEnd ==> |table.pages| == |o.pages| + (v - d.vpnStart)
        decreases if d.vpnStart < d.vpnEnd then d.vpnEnd - v else 0x800_0000 - |table.pages|
      {
        ghost var n := Snapshot(mem, alloc, table);
        PagesBounded(mem.words, Live(alloc.State()), table.rootPpn, table.frames, table.tree, table.pages);
        TableFramesLive(mem.words, Live(alloc.State()), table.rootPpn, table.frames, table.tree, table.pages);
        if d.vpnStart < d.vpnEnd { PageFitsNow(d, o, n, v, Some(p)); }
        r := MapOne(mem, alloc, table, v, Some(p));
        if !r.Done? {
          if d.vpnStart < d.vpnEnd {
            FitsEachPage(d, o, v, Some(p));
            BlockedRange(d, o, n, v, Some(p), r.why);
          }
          return;
        }
        TableFramesLive(mem.words, Live(alloc.State()), table.rootPpn, table.frames, table.tree, table.pages);
        PagesBounded(mem.words, Live(alloc.State()), table.rootPpn, table.frames, table.tree, table.pages);
        OnePageMore(d, n, Snapshot(mem, alloc, table), v, Some(p));
        if d.vpnStart < d.vpnEnd { ProgressStep(d, o, n, Snapshot(mem, alloc, table), v, Some(p)); }
        p, v := p + 1, v + 1;
        if p == d.ppns.value.1 && v == d.vpnEnd {
          ProgressFits(d, o, Snapshot(mem, alloc, table));
          return Done;
        }
      }
    }

    /** `map`: returns exactly when the range fits, and then it added exactly the pages of the range,
        each with its target.  An empty range with a physical range never fits: the loop runs past its
        end until it panics.  Any other panic tells why the range does not fit. */
    method Map(mem: PhysMem, alloc: FrameAllocator, table: PageTable) returns (r: Outcome)
      requires table.Valid(mem, alloc) && Valid(alloc, table)
      requires d.vpnStart <= d.vpnEnd <= 0x800_0000 && (d.ppns.Some? ==> d.ppns.value.0 <= d.ppns.value.1)
      modifies this, table, mem, alloc
      ensures r.Done? <==> Fits(d, old(Snapshot(mem, alloc, table)))
      ensures !r.Done? && (d.ppns.Some? ==> d.vpnStart < d.vpnEnd) ==> Explains(d, old(Snapshot(mem, alloc, table)), r.why)
      ensures r.Done? ==>
                && table.Valid(mem, alloc) && Valid(alloc, table)
                && Progress(d, old(Snapshot(mem, alloc, table)), Snapshot(mem, alloc, table), d.vpnEnd)
      ensures r.Done? && d.mapType.Linear? ==>
                forall x: nat :: d.vpnStart <= x < d.vpnEnd ==>
                  && x in table.pages && d.ppns.Some?
                  && table.pages[x] == (d.ppns.value.0 + (x - d.vpnStart)) % 0x40_0000_0000_0000 * 1024 + d.perm / 2 * 2 + 1
      ensures r.Done? && d.mapType.Framed? ==>
                forall x: nat :: d.vpnStart <= x < d.vpnEnd ==>
                  && x in table.pages && x in dataFrames
                  && table.pages[x] == dataFrames[x] % 0x40_0000_0000_0000 * 1024 + d.perm / 2 * 2 + 1
    {
      hide TableInv, AreaInv, Progress, FramesInv, Live, TableNeed;
      ghost var o := Snapshot(mem, alloc, table);
      if d.ppns.Some? {
        if d.ppns.value.1 - d.ppns.value.0 != d.vpnEnd - d.vpnStart {
          return Panicked(RangeMismatch);
        }
        r := MapPaired(mem, alloc, table);
      } else {
        r := MapEach(mem, alloc, table);
      }
      if r.Done? {
        forall x: nat | d.vpnStart <= x < d.vpnEnd {
          EntriesOf(d, o, Snapshot(mem, alloc, table), x);
        }
      }
    }

    /** `unmap_one`: the frame goes back to the pool first, then the entry is cleared. */
    method UnmapOne(mem: PhysMem, alloc: FrameAllocator, table: PageTable, vpn: nat) returns (r: Outcome)
      requires table.Valid(mem, alloc) && Valid(alloc, table)
      requires vpn < 0x800_0000 && forall v :: v in dataFrames ==> v < 0x800_0000
      modifies this, table, mem, alloc
      ensures r.Done? <==> vpn in old(table.pages)
      ensures r.Done? ==>
                && table.Valid(mem, alloc) && Valid(alloc, table)
                && Released(old(Snapshot(mem, alloc, table)), Snapshot(mem, alloc, table), {vpn})
    {
      hide TableInv, FramesInv, PteNew;
      Euclid(vpn, 0x800_0000, 0, vpn);
      TableFramesLive(mem.words, Live(alloc.State()), table.rootPpn, table.frames, table.tree, table.pages);
      if d.mapType == Framed {
        if vpn in dataFrames {
          r := alloc.Dealloc(dataFrames[vpn]);
          assert table.Valid(mem, alloc) by {
            TableInvFrame(mem.words, mem.words, old(Live(alloc.State())), Live(alloc.State()), table.rootPpn, table.frames,
                          table.tree, table.pages, {});
          }
        }
        dataFrames := dataFrames - {vpn};
      }
      r := table.Unmap(mem, alloc, vpn);
      if r.Done? {
        ReleaseOne(d, old(Snapshot(mem, alloc, table)), Snapshot(mem, alloc, table), vpn);
      }
    }

    /** `unmap`: returns exactly when every page of the range is mapped; every data frame of the range is
        back in the pool and the tables stay. */
    method Unmap(mem: PhysMem, alloc: FrameAllocator, table: PageTable) returns (r: Outcome)
      requires table.Valid(mem, alloc) && Valid(alloc, table)
      requires d.vpnStart <= d.vpnEnd <= 0x800_0000 && forall v :: v in dataFrames ==> v < 0x800_0000
      modifies this, table, mem, alloc
      ensures r.Done? <==> Range(d.vpnStart, d.vpnEnd) <= old(table.pages.Keys)
      ensures r.Done? ==>
                && table.Valid(mem, alloc) && Valid(alloc, table)
                && Released(old(Snapshot(mem, alloc, table)), Snapshot(mem, alloc, table), Range(d.vpnStart, d.vpnEnd))
    {
      hide TableInv, AreaInv, Released;
      ghost var o := Snapshot(mem, alloc, table);
      NothingReleased(o);
      assert Range(d.vpnStart, d.vpnStart) == {};
      for v := d.vpnStart to d.vpnEnd
        invariant table.Valid(mem, alloc) && Valid(alloc, table)
        invariant Range(d.vpnStart, v) <= o.pages.Keys
        invariant Released(o, Snapshot(mem, alloc, table), Range(d.vpnStart, v))
      {
        ghost var n := Snapshot(mem, alloc, table);
        ReleasedKeys(o, n, Range(d.vpnStart, v));
        r := UnmapOne(mem, alloc, table, v);
        if !r.Done? {
          assert v in Range(d.vpnStart, d.vpnEnd);
          return;
        }
        RangeGrows(d.vpnStart, v);
        ReleasedOnward(o, n, Snapshot(mem, alloc, table), Range(d.vpnStart, v), {v});
      }
      r := Done;
    }

    /** Mapping an area and unmapping it again restores the map and the area, and returns every data
        frame; only the tables that mapping created are still held. */
    method MapThenUnmap(mem: PhysMem, alloc: FrameAllocator, table: PageTable) returns (r: Outcome)
      requires table.Valid(mem, alloc) && Valid(alloc, table)
      requires d.vpnStart <= d.vpnEnd <= 0x800_0000 && (d.ppns.Some? ==> d.ppns.value.0 <= d.ppns.value.1)
      requires dataFrames == map[]
      modifies this, table, mem, alloc
      ensures r.Done? <==> Fits(d, old(Snapshot(mem, alloc, table)))
      ensures r.Done? ==>
                && table.Valid(mem, alloc)
                && table.pages == old(table.pages) && dataFrames == map[]
                && Live(alloc.State()) - Elements(table.frames) == old(Live(alloc.State())) - old(Elements(table.frames))
                && |table.frames| == old(|table.frames|) + old(TableNeed(table.tree, d.vpnStart, d.vpnEnd))
                && FreeCount(alloc.State()) + |table.frames| == old(FreeCount(alloc.State())) + old(|table.frames|)
    {
      hide TableInv, AreaInv, Progress, Released, Fits, TableNeed;
      ghost var o := Snapshot(mem, alloc, table);
      r := Map(mem, alloc, table);
      if r.Done? {
        ghost var n := Snapshot(mem, alloc, table);
        MappedKeys(d, o, n);
        r := Unmap(mem, alloc, table);
        UnmapUndoesMap(d, o, n, Snapshot(mem, alloc, table));
      }
    }

    /** `copy_data` on a mapped framed area that is large enough: byte i of the data is at offset i of the
        area, every other byte of the area is as before, and no other frame changes. */
    method CopyData(mem: PhysMem, alloc: FrameAllocator, table: PageTable, bytes: seq<Byte>) returns (r: Outcome)
      requires table.Valid(mem, alloc) && Valid(alloc, table)
      requires d.mapType.Framed? ==>
                 && d.vpnStart < d.vpnEnd <= 0x800_0000 && Range(d.vpnStart, d.vpnEnd) <= dataFrames.Keys
                 && |bytes| <= (d.vpnEnd - d.vpnStart) * 4096
      modifies mem
      ensures table.Valid(mem, alloc)
      ensures r.Done? <==> d.mapType.Framed?
      ensures !r.Done? ==> r == Panicked(NotFramed) && mem.words == old(mem.words)
      ensures SameOutside(old(mem.words), mem.words, dataFrames.Values)
      ensures r.Done? ==> Copied(d, dataFrames, old(mem.words), mem.words, bytes, |bytes|)
    {
      hide TableInv, AreaInv;
      if d.mapType != Framed {
        return Panicked(NotFramed);
      }
      ghost var m0 := mem.words;
      var start, v := 0, d.vpnStart;
      NothingCopied(d, dataFrames, m0, bytes);
      while true
        invariant d.vpnStart <= v < d.vpnEnd && start == (v - d.vpnStart) * 4096 && start <= |bytes|
        invariant table.Valid(mem, alloc) && SameOutside(m0, mem.words, dataFrames.Values)
        invariant Copied(d, dataFrames, m0, mem.words, bytes, start)
        decreases |bytes| - start
      {
        var stop := if |bytes| < start + 4096 then |bytes| else start + 4096;
        var slot := table.FindPte(mem, v);
        OwnPage(d, mem.words, Live(alloc.State()), table.rootPpn, table.frames, table.tree, table.pages, dataFrames, v);
        if slot.None? {
          return Panicked(NotMapped);
        }
        ghost var m1 := mem.words;
        CopyInto(mem, PtePpn(Rd(mem.words, slot.value.0, slot.value.1)), bytes[start..stop]);
        OneFrameChanged(d, m0, m1, mem.words, Live(alloc.State()), table.rootPpn, table.frames, table.tree, table.pages, dataFrames, v);
        CopiedOnward(d, dataFrames, m0, m1, mem.words, bytes, v, stop, Live(alloc.State()), table.frames, table.pages);
        start := start + 4096;
        if start >= |bytes| {
          return Done;
        }
        v := v + 1;
      }
    }
  }

  lemma HeldIsMapped(d: AreaDesc, live: set<nat>, frames: seq<nat>, pages: PageMap, data: map<nat, nat>, vpn: nat)
    requires AreaInv(d, live, frames, pages, data)
    ensures vpn in data ==> Key(vpn) in pages
  {
  }

  lemma LinearPage(d: AreaDesc, o: Snap, n: Snap, vpn: nat, p: nat)
    requires d.mapType.Linear? && AreaInv(d, Live(o.pool), o.frames, o.pages, o.data)
    requires Grew(o.pool, n.pool, o.frames, n.frames) && SameOutside(o.m, n.m, Elements(n.frames))
    requires Key(vpn) !in o.pages && n.pages == o.pages[Key(vpn) := PteNew(p, WithV(d.perm))] && n.data == o.data
    requires PathAdded(o.tree, n.tree, vpn) && |n.frames| == |o.frames| + Missing(o.tree, vpn)
    ensures AreaInv(d, Live(n.pool), n.frames, n.pages, n.data) && OnePage(d, o, n, vpn, Some(p))
  {
    hide PteNew, WithV, PathAdded, Missing, SameOutside;
    LinearGrew(d, o.pool, n.pool, o.frames, n.frames, o.pages, o.data, n.pages);
  }

  lemma FramedPage(d: AreaDesc, o: Snap, m1: Mem, s1: FrameState, n: Snap, vpn: nat, p: nat, ppn: Option<nat>)
    requires d.mapType.Framed? && AreaInv(d, Live(o.pool), o.frames, o.pages, o.data)
    requires Elements(o.frames) <= Live(o.pool) && Elements(n.frames) <= Live(n.pool)
    requires vpn !in o.data && p !in Live(o.pool) && p < 0x1000_0000_0000
    requires Live(s1) == Live(o.pool) + {p} && FreeCount(s1) == FreeCount(o.pool) - 1 && s1.lo == o.pool.lo && s1.end == o.pool.end
    requires ZeroFrame(m1, p) && SameOutside(o.m, m1, {p})
    requires Grew(s1, n.pool, o.frames, n.frames) && SameOutside(m1, n.m, Elements(n.frames))
    requires Key(vpn) !in o.pages && n.pages == o.pages[Key(vpn) := PteNew(p, WithV(d.perm))] && n.data == o.data[vpn := p]
    requires PathAdded(o.tree, n.tree, vpn) && |n.frames| == |o.frames| + Missing(o.tree, vpn)
    ensures AreaInv(d, Live(n.pool), n.frames, n.pages, n.data) && OnePage(d, o, n, vpn, ppn)
  {
    FramedGrew(d, o.pool, s1, n.pool, o.frames, n.frames, o.data, vpn, p);
    hide PteNew, WithV, PathAdded, Missing, ZeroFrame, Live, Grew, BothGrew, AreaInv;
    FramedInv(d, Live(o.pool), o.frames, o.pages, o.data, Live(n.pool), n.frames, vpn, p);
    ZeroFrameKept(m1, n.m, Elements(n.frames), p);
  }

  lemma ZeroFrameKept(m: Mem, m': Mem, changed: set<nat>, p: nat)
    requires ZeroFrame(m, p) && SameOutside(m, m', changed) && p !in changed
    ensures ZeroFrame(m', p)
  {
  }

  /** What `map_one` demands of the present state is what the range demands of the state at its start. */
  lemma PageFitsNow(d: AreaDesc, o: Snap, n: Snap, v: nat, ppn: Option<nat>)
    requires Progress(d, o, n, v) && v < 0x800_0000
    ensures PageFits(d, o, v, ppn) <==>
              && Key(v) !in n.pages && (d.mapType.Linear? ==> ppn.Some?)
              && Missing(n.tree, v) + DataNeed(d, 1) <= FreeCount(n.pool)
  {
    Euclid(v, 0x800_0000, 0, v);
    NeedStep(o.tree, n.tree, d.vpnStart, v);
    hide PteNew, TableNeed, Missing, Live;
  }

  /** The pages of a table are 27-bit page numbers. */
  lemma PagesBounded(m: Mem, live: set<nat>, root: nat, frames: seq<nat>, t: Tree, pages: PageMap)
    requires TableInv(m, live, root, frames, t, pages)
    ensures |pages| <= 0x800_0000
  {
    assert pages.Keys <= Range(0, 0x800_0000);
    SubsetSize(pages.Keys, Range(0, 0x800_0000));
    RangeSize(0, 0x800_0000);
  }

  lemma OnePageMore(d: AreaDesc, n: Snap, n': Snap, vpn: nat, ppn: Option<nat>)
    requires OnePage(d, n, n', vpn, ppn)
    ensures |n'.pages| == |n.pages| + 1
  {
    assert n'.pages.Keys == n.pages.Keys + {Key(vpn)};
  }

  lemma LinearNeedsNumber(d: AreaDesc, o: Snap, v: nat)
    ensures d.mapType.Linear? ==> !PageFits(d, o, v, None)
  {
  }

  /** A range that was mapped to its end did fit. */
  lemma ProgressFits(d: AreaDesc, o: Snap, n: Snap)
    requires Progress(d, o, n, d.vpnEnd) && FramesInv(n.pool)
    requires d.ppns.Some? ==> d.vpnStart < d.vpnEnd && d.ppns.value.1 - d.ppns.value.0 == d.vpnEnd - d.vpnStart
    requires d.ppns.None? ==> d.mapType.Framed? || d.vpnStart == d.vpnEnd
    ensures Fits(d, o)
  {
    hide PagesAdded, TableNeed, Live, DataAdded, TablesAdded, SameOutside;
    NewPagesWereFree(d, o.pages, n.pages, n.data);
    assert FreeCount(n.pool) >= 0;
  }

  lemma NewPagesWereFree(d: AreaDesc, pages0: PageMap, pages: PageMap, data: map<nat, nat>)
    requires PagesAdded(d, pages0, pages, data, d.vpnEnd)
    ensures forall v :: d.vpnStart <= v < d.vpnEnd ==> v !in pages0
  {
    hide PteNew;
    forall v | d.vpnStart <= v < d.vpnEnd ensures v !in pages0 {
      assert v in Range(d.vpnStart, d.vpnEnd);
    }
  }

  /** The pages in `gone` were unmapped and their data frames returned; the tables stayed. */
  ghost predicate Released(o: Snap, n: Snap, gone: set<nat>) {
    && n.pages == o.pages - gone && n.data == o.data - gone
    && n.tree == o.tree && n.frames == o.frames
    && n.data.Values <= o.data.Values
    && Live(n.pool) == Live(o.pool) - (o.data.Values - n.data.Values)
    && FreeCount(n.pool) == FreeCount(o.pool) + |o.data| - |n.data|
    && n.pool.lo == o.pool.lo && n.pool.end == o.pool.end
    && SameOutside(o.m, n.m, Elements(n.frames))
  }

  ghost predicate Injective(data: map<nat, nat>) {
    forall v, w :: v in data && w in data && data[v] == data[w] ==> v == w
  }

  lemma ValuesAfterRemove(data: map<nat, nat>, data': map<nat, nat>, vpn: nat)
    requires vpn in data && Injective(data) && data' == data - {vpn}
    ensures data'.Values == data.Values - {data[vpn]} && |data'| == |data| - 1
  {
    assert data.Keys == data'.Keys + {vpn};
    forall x | x in data.Values && x != data[vpn] ensures x in data'.Values {
      var v :| v in data && data[v] == x;
      assert data'[v] == x;
    }
    forall x | x in data'.Values ensures x in data.Values && x != data[vpn] {
      var v :| v in data' && data'[v] == x;
      assert data[v] == x;
    }
  }

  lemma RemovedValues(data: map<nat, nat>, data': map<nat, nat>, vpn: nat)
    requires Injective(data) && data' == data - {vpn}
    ensures data'.Values <= data.Values
    ensures data.Values - data'.Values == if vpn in data then {data[vpn]} else {}
    ensures |data| - |data'| == if vpn in data then 1 else 0
  {
    if vpn in data {
      ValuesAfterRemove(data, data', vpn);
      RemoveFromSet(data.Values, data'.Values, data[vpn]);
    } else {
      assert data' == data;
    }
  }

  lemma RemoveFromSet(a: set<nat>, b: set<nat>, x: nat)
    requires x in a && b == a - {x}
    ensures b <= a && a - b == {x}
  {
  }

  lemma ReleaseOne(d: AreaDesc, o: Snap, n: Snap, vpn: nat)
    requires AreaInv(d, Live(o.pool), o.frames, o.pages, o.data)
    requires vpn < 0x800_0000 && forall v :: v in o.data ==> v < 0x800_0000
    requires n.pages == o.pages - {vpn} && n.data == o.data - {vpn} && n.tree == o.tree && n.frames == o.frames
    requires Live(n.pool) == Live(o.pool) - (if vpn in o.data then {o.data[vpn]} else {})
    requires FreeCount(n.pool) == FreeCount(o.pool) + (if vpn in o.data then 1 else 0)
    requires n.pool.lo == o.pool.lo && n.pool.end == o.pool.end && SameOutside(o.m, n.m, Elements(n.frames))
    ensures AreaInv(d, Live(n.pool), n.frames, n.pages, n.data) && Released(o, n, {vpn})
  {
    hide AreaInv, Live, SameOutside, FreeCount, Elements, Injective;
    ReleaseInv(d, Live(o.pool), Live(n.pool), o.frames, o.pages, o.data, vpn);
    DistinctFrames(d, Live(o.pool), o.frames, o.pages, o.data);
    RemovedValues(o.data, n.data, vpn);
  }

  lemma DistinctFrames(d: AreaDesc, live: set<nat>, frames: seq<nat>, pages: PageMap, data: map<nat, nat>)
    requires AreaInv(d, live, frames, pages, data)
    ensures Injective(data)
  {
  }

  lemma ReleaseInv(d: AreaDesc, live: set<nat>, live': set<nat>, frames: seq<nat>, pages: PageMap, data: map<nat, nat>, vpn: nat)
    requires AreaInv(d, live, frames, pages, data)
    requires vpn < 0x800_0000 && forall v :: v in data ==> v < 0x800_0000
    requires live' == live - (if vpn in data then {data[vpn]} else {})
    ensures AreaInv(d, live', frames, pages - {vpn}, data - {vpn})
  {
    hide PteNew, WithV;
    var data', pages' := data - {vpn}, pages - {vpn};
    forall v | v in data' ensures Key(v) in pages' && pages'[Key(v)] == PteNew(data'[v], WithV(d.perm)) {
      Euclid(v, 0x800_0000, 0, v);
      assert v in data;
    }
    assert d.mapType.Linear? ==> data' == map[];
  }

  lemma NothingReleased(o: Snap)
    ensures Released(o, o, {})
  {
    assert o.pages - {} == o.pages && o.data - {} == o.data;
  }

  lemma ReleasedKeys(o: Snap, n: Snap, gone: set<nat>)
    requires Released(o, n, gone)
    ensures n.pages.Keys == o.pages.Keys - gone && n.data.Keys <= o.data.Keys
  {
    hide Live, SameOutside;
  }

  lemma ReleasedOnward(o: Snap, n: Snap, n': Snap, gone: set<nat>, more: set<nat>)
    requires Released(o, n, gone) && Released(n, n', more)
    ensures Released(o, n', gone + more)
  {
    hide Live, FreeCount, SameOutside;
    MinusTwice(o.pages, gone, more);
    MinusTwice(o.data, gone, more);
    LessTwice(Live(o.pool), Live(n.pool), Live(n'.pool), o.data.Values, n.data.Values, n'.data.Values);
    SameOutsideTwice(o.m, n.m, n'.m, Elements(n.frames));
  }

  lemma MinusTwice<V>(m: map<nat, V>, gone: set<nat>, more: set<nat>)
    ensures m - gone - more == m - (gone + more)
  {
  }

  lemma LessTwice(l: set<nat>, l1: set<nat>, l2: set<nat>, a: set<nat>, b: set<nat>, c: set<nat>)
    requires l1 == l - (a - b) && l2 == l1 - (b - c) && c <= b <= a
    ensures l2 == l - (a - c)
  {
  }

  lemma SameOutsideTwice(m: Mem, m1: Mem, m2: Mem, changed: set<nat>)
    requires SameOutside(m, m1, changed) && SameOutside(m1, m2, changed)
    ensures SameOutside(m, m2, changed)
  {
  }

  lemma MappedKeys(d: AreaDesc, o: Snap, n: Snap)
    requires Progress(d, o, n, d.vpnEnd) && o.data == map[] && d.vpnEnd <= 0x800_0000
    ensures Range(d.vpnStart, d.vpnEnd) <= n.pages.Keys
    ensures forall v :: v in n.data ==> v < 0x800_0000
  {
    hide PteNew, Live, ZeroFrame, TableNeed, BothGrew, TablesAdded, SameOutside;
  }

  lemma UnmapUndoesMap(d: AreaDesc, o: Snap, n: Snap, z: Snap)
    requires Progress(d, o, n, d.vpnEnd) && o.data == map[] && Released(n, z, Range(d.vpnStart, d.vpnEnd))
    ensures z.pages == o.pages && z.data == map[]
    ensures Live(z.pool) - Elements(z.frames) == Live(o.pool) - Elements(o.frames)
    ensures |z.frames| == |o.frames| + TableNeed(o.tree, d.vpnStart, d.vpnEnd)
    ensures FreeCount(z.pool) + |z.frames| == FreeCount(o.pool) + |o.frames|
  {
    UnmapRestores(d, o, n, z);
    hide PagesAdded, DataAdded, TableNeed, TablesAdded, SameOutside, Live, FreeCount;
    assert |o.data| == 0 && |z.data| == 0 && o.data.Values == {} && z.data.Values == {};
    OthersRestored(Live(o.pool), Live(n.pool), Live(z.pool), Elements(o.frames), Elements(n.frames), n.data.Values);
  }

  lemma OthersRestored(l: set<nat>, l1: set<nat>, l2: set<nat>, f: set<nat>, f1: set<nat>, v: set<nat>)
    requires l1 - f1 - v == l - f - {} && l2 == l1 - (v - {})
    ensures l2 - f1 == l - f
  {
    assert l2 - f1 == l1 - f1 - v;
  }

  lemma UnmapRestores(d: AreaDesc, o: Snap, n: Snap, z: Snap)
    requires Progress(d, o, n, d.vpnEnd) && o.data == map[] && Released(n, z, Range(d.vpnStart, d.vpnEnd))
    ensures z.pages == o.pages && z.data == map[]
  {
    hide PteNew, Live, ZeroFrame, TableNeed, BothGrew, TablesAdded, SameOutside, Target, Range, FreeCount;
    MapRestored(o.pages, n.pages, Range(d.vpnStart, d.vpnEnd));
    if d.mapType.Framed? { MapRestored(o.data, n.data, Range(d.vpnStart, d.vpnEnd)); }
  }

  lemma MapRestored<V>(before: map<nat, V>, after: map<nat, V>, added: set<nat>)
    requires before.Keys !! added && after.Keys == before.Keys + added && forall x :: x in before ==> after[x] == before[x]
    ensures after - added == before
  {
  }

  // ---------------------------------------------------------------- copying

  /** Byte `off` of page x is the byte copied there, or that of m0 when the copy has not come this far. */
  ghost predicate CopiedAt(d: AreaDesc, data: map<nat, nat>, m0: Mem, m: Mem, bytes: seq<Byte>, n: nat, x: nat, off: nat)
    requires n <= |bytes| && d.vpnStart <= x && x in data
  {
    ReadByte(m, data[x], off) ==
    if (x - d.vpnStart) * 4096 + off < n then bytes[(x - d.vpnStart) * 4096 + off] else ReadByte(m0, data[x], off)
  }

  /** The first n bytes are in the area's frames, page after page; the area's other bytes are those of m0. */
  ghost predicate Copied(d: AreaDesc, data: map<nat, nat>, m0: Mem, m: Mem, bytes: seq<Byte>, n: nat)
    requires n <= |bytes| && Range(d.vpnStart, d.vpnEnd) <= data.Keys
  {
    forall x: nat, off: nat :: d.vpnStart <= x < d.vpnEnd && off < 4096 ==> CopiedAt(d, data, m0, m, bytes, n, x, off)
  }

  lemma NothingCopied(d: AreaDesc, data: map<nat, nat>, m0: Mem, bytes: seq<Byte>)
    requires Range(d.vpnStart, d.vpnEnd) <= data.Keys
    ensures Copied(d, data, m0, m0, bytes, 0)
  {
  }

  /** A page of the area translates to the area's own frame for it. */
  lemma OwnPage(d: AreaDesc, m: Mem, live: set<nat>, root: nat, frames: seq<nat>, t: Tree, pages: PageMap,
                data: map<nat, nat>, v: nat)
    requires TableInv(m, live, root, frames, t, pages) && AreaInv(d, live, frames, pages, data)
    requires v in data
    ensures FindSlot(m, root, v).Some?
    ensures var (p, i) := FindSlot(m, root, v).value; PtePpn(Rd(m, p, i)) == data[v]
    ensures data[v] in data.Values
  {
    hide Represents, Shape, PteNew, PtePpn, FindSlot, Key, WithV;
    LookupIsMap(m, t, pages, v);
    PteRoundTrip(data[v], WithV(d.perm));
    assert pages[Key(v)] == PteNew(data[v], WithV(d.perm));
    assert data[v] in data.Values;
  }

  lemma OneFrameChanged(d: AreaDesc, m0: Mem, m1: Mem, m: Mem, live: set<nat>, root: nat, frames: seq<nat>, t: Tree,
                        pages: PageMap, data: map<nat, nat>, v: nat)
    requires TableInv(m1, live, root, frames, t, pages) && AreaInv(d, live, frames, pages, data)
    requires v in data && SameOutside(m0, m1, data.Values) && SameOutside(m1, m, {data[v]})
    ensures TableInv(m, live, root, frames, t, pages) && SameOutside(m0, m, data.Values)
  {
    TableFramesLive(m1, live, root, frames, t, pages);
    TableInvFrame(m1, m, live, live, root, frames, t, pages, {data[v]});
    assert data[v] in data.Values;
  }

  lemma CopiedOnward(d: AreaDesc, data: map<nat, nat>, m0: Mem, m1: Mem, m: Mem, bytes: seq<Byte>, v: nat, stop: nat,
                     live: set<nat>, frames: seq<nat>, pages: PageMap)
    requires AreaInv(d, live, frames, pages, data)
    requires Range(d.vpnStart, d.vpnEnd) <= data.Keys && d.vpnStart <= v < d.vpnEnd
    requires var start := (v - d.vpnStart) * 4096;
             && start <= stop <= |bytes| && (stop == start + 4096 || (stop == |bytes| && stop < start + 4096))
             && Copied(d, data, m0, m1, bytes, start)
             && SameOutside(m1, m, {data[v]})
             && forall k: nat :: ReadByte(m, data[v], k) == if k < stop - start then bytes[start..stop][k] else ReadByte(m1, data[v], k)
    ensures Copied(d, data, m0, m, bytes, stop)
  {
    hide ReadByte, SameOutside, CopiedAt, AreaInv;
    forall x: nat, off: nat | d.vpnStart <= x < d.vpnEnd && off < 4096
      ensures CopiedAt(d, data, m0, m, bytes, stop, x, off)
    {
      if x == v {
        CopiedHere(d, data, m0, m1, m, bytes, v, stop, off);
      } else {
        OwnFrames(d, live, frames, pages, data, v, x);
        OtherByte(m1, m, data[v], data[x], off);
        CopiedElsewhere(d, data, m0, m1, m, bytes, v, stop, x, off);
      }
    }
  }

  lemma OwnFrames(d: AreaDesc, live: set<nat>, frames: seq<nat>, pages: PageMap, data: map<nat, nat>, v: nat, x: nat)
    requires AreaInv(d, live, frames, pages, data) && v in data && x in data && x != v
    ensures data[x] != data[v]
  {
    hide PteNew, Key, WithV;
  }

  lemma CopiedHere(d: AreaDesc, data: map<nat, nat>, m0: Mem, m1: Mem, m: Mem, bytes: seq<Byte>, v: nat, stop: nat, off: nat)
    requires d.vpnStart <= v && v in data
    requires var start := (v - d.vpnStart) * 4096;
             && start <= stop <= |bytes| && CopiedAt(d, data, m0, m1, bytes, start, v, off)
             && ReadByte(m, data[v], off) == if off < stop - start then bytes[start..stop][off] else ReadByte(m1, data[v], off)
    ensures CopiedAt(d, data, m0, m, bytes, stop, v, off)
  {
    hide ReadByte;
  }

  lemma CopiedElsewhere(d: AreaDesc, data: map<nat, nat>, m0: Mem, m1: Mem, m: Mem, bytes: seq<Byte>, v: nat, stop: nat,
                        x: nat, off: nat)
    requires d.vpnStart <= v && d.vpnStart <= x && x in data && x != v && off < 4096
    requires var start := (v - d.vpnStart) * 4096;
             start <= stop <= |bytes| && stop <= start + 4096 && CopiedAt(d, data, m0, m1, bytes, start, x, off)
    requires ReadByte(m, data[x], off) == ReadByte(m1, data[x], off)
    ensures CopiedAt(d, data, m0, m, bytes, stop, x, off)
  {
    hide ReadByte;
  }

  lemma OtherByte(m1: Mem, m: Mem, p: nat, q: nat, off: nat)
    requires SameOutside(m1, m, {p}) && q != p
    ensures ReadByte(m, q, off) == ReadByte(m1, q, off)
  {
    hide ByteOf;
    assert Rd(m, q, off / 8) == Rd(m1, q, off / 8);
  }
}
