/** Several memory sets over one pool, and one set from creation to drop (src/mm/memory_set.rs,
    src/hyp_alloc/frame_allocator.rs). */
module SetLives {
  import opened Words
  import opened Frames
  import opened Memory
  import opened TableModel
  import opened PageTables
  import TableRuns
  import opened AreaSpecs
  import opened MapAreas
  import opened MemorySets
  import opened SetRuns

  // ---------------------------------------------------------------- two sets, one pool

  /** The frames with a word outside `keep`. */
  function Touched(m: Mem, m': Mem, keep: set<nat>): set<nat> {
    set k | k in m.Keys + m'.Keys && k.0 !in keep :: k.0
  }

  lemma TouchedAlone(m: Mem, m': Mem, keep: set<nat>)
    requires forall p: nat, i: nat :: p in keep ==> Rd(m', p, i) == Rd(m, p, i)
    ensures SameOutside(m, m', Touched(m, m', keep)) && keep !! Touched(m, m', keep)
  {
    forall p: nat, i: nat | p !in Touched(m, m', keep) ensures Rd(m', p, i) == Rd(m, p, i) {
      if p !in keep {
        assert (p, i) !in m.Keys + m'.Keys;
      }
    }
  }

  /** The neighbour's view, after somebody else worked on memory and pool. */
  function Beside(v: Whole, w': Whole): Whole {
    v.(m := w'.m, pool := w'.pool)
  }

  /** Byte `off` of page x, read through a table. */
  function PageByte(m: Mem, root: nat, x: nat, off: nat): Option<nat> {
    ReadVa(m, root, x * 4096 + off)
  }

  /** Every byte of the areas' frames, read through the set's table. */
  ghost predicate SameBytes(v: Whole, v': Whole) {
    forall k, x, off: nat ::
      0 <= k < |v.held| && x in v.held[k].data && x < 0x800_0000 && off < 4096 ==>
        PageByte(v'.m, v.root, x, off) == PageByte(v.m, v.root, x, off)
  }

  /** Whatever one set does with its own frames and the pool's, another set keeps its invariant, every
      translation and every byte, and the two still share no frame. */
  lemma Neighbour(w: Whole, w': Whole, v: Whole)
    requires Kept(w, w') && FramesInv(w'.pool)
    requires SetInv(v) && v.m == w.m && v.pool == w.pool && Owned(v) !! Owned(w)
    ensures SetInv(Beside(v, w')) && Owned(v) <= Others(w')
    ensures forall vpn :: Translate(w'.m, v.root, vpn) == Translate(w.m, v.root, vpn)
    ensures SameBytes(v, Beside(v, w'))
  {
    hide TableInv, AreaInv, Apart, Live, FramesInv, SameOutside, Touched, Elements, DataOf, SameBytes;
    OwnedIsLive(v);
    var keep, changed := Others(w), Touched(w.m, w'.m, Others(w));
    TouchedAlone(w.m, w'.m, keep);
    assert Elements(v.frames) <= Owned(v) && Owned(v) <= keep;
    TableRuns.UntouchedTable(w.m, w'.m, Live(v.pool), v.root, v.frames, v.tree, v.pages, changed);
    TableInvFrame(w.m, w'.m, Live(v.pool), Live(w'.pool), v.root, v.frames, v.tree, v.pages, changed);
    NeighbourAreas(v, Live(w'.pool), keep);
    NeighbourBytes(v, Beside(v, w'), keep);
  }

  lemma NeighbourAreas(v: Whole, live: set<nat>, keep: set<nat>)
    requires SetInv(v) && Owned(v) <= keep <= live
    ensures AreasInv(live, v.frames, v.pages, v.held)
  {
    hide TableInv, FramesInv, PteNew, WithV, Key, Live, Elements, Apart;
    forall i | 0 <= i < |v.held| ensures AreaInv(v.held[i].d, live, v.frames, v.pages, v.held[i].data) {
      forall x | x in v.held[i].data ensures v.held[i].data[x] in live {
        DataInOwned(v, i, x);
      }
    }
  }

  lemma DataInOwned(v: Whole, i: nat, x: nat)
    requires i < |v.held| && x in v.held[i].data
    ensures v.held[i].data[x] in Owned(v)
  {
    hide Elements;
    assert v.held[i].data[x] in v.held[i].data.Values;
    DataOfHas(v.held, v.held[i].data[x]);
  }

  lemma NeighbourBytes(v: Whole, v': Whole, keep: set<nat>)
    requires SetInv(v) && SetInv(v') && v' == v.(m := v'.m, pool := v'.pool) && Owned(v) <= keep
    requires forall p: nat, i: nat :: p in keep ==> Rd(v'.m, p, i) == Rd(v.m, p, i)
    ensures SameBytes(v, v')
  {
    hide TableInv, FramesInv, AreaInv, Live, Apart, ReadVa, Elements, Owned;
    forall k, x, off: nat | 0 <= k < |v.held| && x in v.held[k].data && x < 0x800_0000 && off < 4096
      ensures PageByte(v'.m, v.root, x, off) == PageByte(v.m, v.root, x, off)
    {
      var h := v.held[k];
      ReadOwnPage(h.d, v.m, Live(v.pool), v.root, v.frames, v.tree, v.pages, h.data, x, off);
      ReadOwnPage(h.d, v'.m, Live(v'.pool), v.root, v.frames, v.tree, v.pages, h.data, x, off);
      DataInOwned(v, k, x);
      KeptByte(v.m, v'.m, keep, h.data[x], off);
    }
  }

  lemma KeptByte(m: Mem, m': Mem, keep: set<nat>, p: nat, off: nat)
    requires p in keep && forall p: nat, i: nat :: p in keep ==> Rd(m', p, i) == Rd(m, p, i)
    ensures ReadByte(m', p, off) == ReadByte(m, p, off)
  {
    hide ByteOf;
  }

  lemma ValidFromView(mem: PhysMem, alloc: FrameAllocator, s: MemorySet)
    requires SetInv(View(mem, alloc, s)) && forall i, j :: 0 <= i < j < |s.areas| ==> s.areas[i] != s.areas[j]
    ensures s.Valid(mem, alloc)
  {
    hide TableInv, FramesInv, AreaInv, Apart;
    var h := HeldBy(s.areas);
    forall i | 0 <= i < |s.areas| ensures s.areas[i].Valid(alloc, s.table) {
      assert h[i] == Held(s.areas[i].d, s.areas[i].dataFrames);
    }
    forall i, j | 0 <= i < j < |s.areas| ensures Apart(s.areas[i].dataFrames, s.areas[j].dataFrames) {
      assert Apart(h[i].data, h[j].data);
    }
  }

  /** Two memory sets over one pool: any run of pushes with or without data, unmaps, copies and the
      trampoline on one leaves the other valid, with every translation and every byte as before, and the
      two still share no frame. */
  method RunBeside(mem: PhysMem, alloc: FrameAllocator, a: MemorySet, b: MemorySet, ops: seq<SetOp>, ghost st: SetState)
    returns (r: Outcome)
    requires a.Valid(mem, alloc) && b.Valid(mem, alloc) && a != b && a.table != b.table
    requires forall i, j :: 0 <= i < |a.areas| && 0 <= j < |b.areas| ==> a.areas[i] != b.areas[j]
    requires Shows(View(mem, alloc, a), st) && ProperRun(st, ops)
    requires Owned(View(mem, alloc, b)) !! Owned(View(mem, alloc, a))
    modifies a, a.table, a.areas, mem, alloc
    ensures r.Done? <==> RunSet(st, ops).Some?
    ensures r.Done? ==> a.Valid(mem, alloc) && b.Valid(mem, alloc) && Shows(View(mem, alloc, a), RunSet(st, ops).value)
    ensures r.Done? ==> Owned(View(mem, alloc, b)) !! Owned(View(mem, alloc, a))
    ensures r.Done? ==> forall vpn :: Translate(mem.words, b.table.rootPpn, vpn) == Translate(old(mem.words), b.table.rootPpn, vpn)
    ensures r.Done? ==> SameBytes(old(View(mem, alloc, b)), View(mem, alloc, b))
  {
    hide TableInv, AreaInv, Apart, Live, FramesInv, Elements, Kept, Shows, Owned, RunSet, ProperRun, SameBytes, SetInv;
    ghost var w, v := View(mem, alloc, a), View(mem, alloc, b);
    ViewInv(mem, alloc, b);
    r := SetRuns.Run(mem, alloc, a, ops, st);
    if r.Done? {
      ghost var w' := View(mem, alloc, a);
      assert HeldBy(b.areas) == v.held;
      assert View(mem, alloc, b) == Beside(v, w');
      Neighbour(w, w', v);
      ValidFromView(mem, alloc, b);
      OthersAreApart(w', v);
      SameOwned(v, w');
    }
  }

  lemma SameOwned(v: Whole, w': Whole)
    ensures Owned(Beside(v, w')) == Owned(v)
  {
  }

  lemma OthersAreApart(w: Whole, v: Whole)
    requires Owned(v) <= Others(w)
    ensures Owned(v) !! Owned(w)
  {
    hide Owned;
  }

  // ---------------------------------------------------------------- from creation to drop

  /** The frames that a fresh root takes, or None when the pool cannot supply it. */
  function RootCost(s: FrameState, guest: bool): Option<nat>
    requires s.current <= s.end
  {
    if guest then
      var order := AllocOrder(s);
      if Unaligned(order) + 4 <= |order| then Some(Unaligned(order) + 4) else None
    else if FreeCount(s) > 0 then Some(1) else None
  }

  function Fresh(free: int): SetState {
    SetState(map[], map[], {}, {}, free, [], {}, [])
  }

  /** Any host or guest memory set, from creation through any run of calls to its drop.  It returns exactly
      when the pool supplies the root and the abstract run goes through; then the pool's free frames are
      exactly those from before. */
  method Lifecycle(mem: PhysMem, alloc: FrameAllocator, guest: bool, ops: seq<SetOp>) returns (r: Outcome)
    requires alloc.Valid()
    requires var c := RootCost(alloc.State(), guest);
             c.Some? ==> ProperRun(Fresh(FreeCount(alloc.State()) - c.value), ops)
    modifies mem, alloc
    ensures var c := old(RootCost(alloc.State(), guest));
            r.Done? <==> c.Some? && RunSet(Fresh(old(FreeCount(alloc.State())) - c.value), ops).Some?
    ensures r.Done? ==>
              alloc.Valid() && Live(alloc.State()) == old(Live(alloc.State()))
              && FreeFrames(alloc.State()) == old(FreeFrames(alloc.State()))
  {
    ghost var s0 := alloc.State();
    assert s0.current <= s0.end;
    hide TableInv, AreaInv, Apart, Live, FramesInv, Shows, RunSet, ProperRun, RootCost, Others, FreeFrames, FreeCount;
    var s := NewSet(mem, alloc, guest);
    if s == null {
      return Panicked(OutOfFrames);
    }
    r := RunAndDrop(mem, alloc, s, ops, Fresh(FreeCount(s0) - RootCost(s0, guest).value));
    if r.Done? { SamePool(s0, alloc.State()); }
  }

  /** Any run of calls on a set, and its drop: what is live then is what others had. */
  method RunAndDrop(mem: PhysMem, alloc: FrameAllocator, s: MemorySet, ops: seq<SetOp>, ghost st: SetState) returns (r: Outcome)
    requires s.Valid(mem, alloc) && Shows(View(mem, alloc, s), st) && ProperRun(st, ops)
    modifies s, s.table, s.areas, mem, alloc
    ensures r.Done? <==> RunSet(st, ops).Some?
    ensures r.Done? ==>
              && alloc.Valid() && Live(alloc.State()) == old(Others(View(mem, alloc, s)))
              && alloc.lo == old(alloc.lo) && alloc.end == old(alloc.end)
  {
    hide TableInv, AreaInv, Apart, Live, FramesInv, Elements, Shows, RunSet, ProperRun, DataOf;
    ghost var w := View(mem, alloc, s);
    r := SetRuns.Run(mem, alloc, s, ops, st);
    if r.Done? {
      ghost var w' := View(mem, alloc, s);
      r := s.Drop(mem, alloc);
      OthersLeft(Live(w'.pool), Elements(w'.frames), DataOf(w'.held));
    }
  }

  lemma OthersLeft(live: set<nat>, f: set<nat>, d: set<nat>)
    ensures live - f - d == live - (f + d)
  {
  }

  /** A fresh set, in terms of the view: empty, with only its root's frames taken from the pool. */
  ghost predicate FreshOver(w: Whole, s0: FrameState, cost: nat) {
    Shows(w, Fresh(FreeCount(s0) - cost)) && Others(w) == Live(s0) && w.pool.lo == s0.lo && w.pool.end == s0.end
  }

  method NewHostSet(mem: PhysMem, alloc: FrameAllocator) returns (s: MemorySet?)
    requires alloc.Valid()
    modifies mem, alloc
    ensures s != null <==> old(FreeCount(alloc.State())) > 0
    ensures s != null ==>
              && fresh(s) && fresh(s.table) && s.Valid(mem, alloc) && s.areas == []
              && FreshOver(View(mem, alloc, s), old(alloc.State()), 1)
  {
    hide TableInv, Live, FramesInv, Elements, Grew, FreeCount, AreaInv, Apart, FreshOver;
    ghost var s0 := alloc.State();
    s := NewBare(mem, alloc);
    if s != null { FreshSet(mem, alloc, s, s0, 1); }
  }

  method NewGuestSet(mem: PhysMem, alloc: FrameAllocator) returns (s: MemorySet?)
    requires alloc.Valid()
    modifies mem, alloc
    ensures s != null <==> old(RootCost(alloc.State(), true)).Some?
    ensures s != null ==>
              && fresh(s) && fresh(s.table) && s.Valid(mem, alloc) && s.areas == []
              && FreshOver(View(mem, alloc, s), old(alloc.State()), old(RootCost(alloc.State(), true)).value)
  {
    ghost var s0 := alloc.State();
    assert s0.current <= s0.end;
    hide TableInv, Live, FramesInv, Elements, Grew, AllocOrder, Unaligned, FreeCount, AreaInv, Apart, FreshOver;
    s := NewGuestBare(mem, alloc);
    if s != null { FreshSet(mem, alloc, s, s0, |s.table.frames|); }
  }

  /** `new_bare` or `new_guest_bare`. */
  method NewSet(mem: PhysMem, alloc: FrameAllocator, guest: bool) returns (s: MemorySet?)
    requires alloc.Valid()
    modifies mem, alloc
    ensures s != null <==> old(RootCost(alloc.State(), guest)).Some?
    ensures s != null ==>
              && fresh(s) && fresh(s.table) && s.Valid(mem, alloc) && s.areas == []
              && FreshOver(View(mem, alloc, s), old(alloc.State()), old(RootCost(alloc.State(), guest)).value)
  {
    hide TableInv, Live, FramesInv, AllocOrder, Unaligned, FreeCount, AreaInv, Apart, FreshOver, View;
    if guest { s := NewGuestSet(mem, alloc); } else { s := NewHostSet(mem, alloc); }
  }

  lemma FreshSet(mem: PhysMem, alloc: FrameAllocator, s: MemorySet, s0: FrameState, cost: nat)
    requires s.areas == [] && s.table.pages == map[] && s.table.tree.mid == map[] && s.table.tree.leaf == map[]
    requires Grew(s0, alloc.State(), [], s.table.frames) && |s.table.frames| == cost
    ensures FreshOver(View(mem, alloc, s), s0, cost)
  {
    hide Live, Elements, Shows, Others, FreeCount;
    FreshShows(s0, View(mem, alloc, s), cost);
  }

  lemma FreshShows(s0: FrameState, w: Whole, cost: nat)
    requires Grew(s0, w.pool, [], w.frames) && w.held == [] && |w.frames| == cost
    requires w.pages == map[] && w.tree.mid == map[] && w.tree.leaf == map[]
    ensures Shows(w, Fresh(FreeCount(s0) - cost))
    ensures Others(w) == Live(s0) && w.pool.lo == s0.lo && w.pool.end == s0.end
  {
    hide Live;
    var none: seq<nat> := [];
    assert Elements(none) == {};
    assert Others(w) == Live(w.pool) - Elements(w.frames) == Live(s0) - Elements(none);
  }

  lemma SamePool(s: FrameState, s': FrameState)
    requires FramesInv(s) && FramesInv(s') && s.lo == s'.lo && s.end == s'.end && Live(s) == Live(s')
    ensures FreeFrames(s) == FreeFrames(s')
  {
    Partition(s);
    Partition(s');
    hide Live, FreeFrames;
    Complement(Range(s.lo, s.end), Live(s), FreeFrames(s), FreeFrames(s'));
  }

  lemma Complement(pool: set<nat>, live: set<nat>, free: set<nat>, free0: set<nat>)
    requires live + free == pool && live + free0 == pool && live !! free && live !! free0
    ensures free == free0
  {
  }
}
