/** Whole lives of memory sets (src/mm/memory_set.rs, src/mm/mod.rs): any calls on a set refine a small
    abstract machine, they leave every other set over the same pool alone, and a dropped set gives all its
    frames back. */
module SetRuns {
  import opened Words
  import opened Frames
  import opened Memory
  import opened TableModel
  import opened PageTables
  import opened AreaSpecs
  import opened MapAreas
  import opened MemorySets

  // ---------------------------------------------------------------- the abstract machine

  /** A set as its caller knows it: the entries of the linearly mapped pages, the areas that own the framed
      ones, prefixes with a table, free frames of the pool, the areas pushed so far, those among them that
      were unmapped again, and what each framed area contains. */
  datatype SetState =
    SetState(linear: map<nat, Word>, owner: map<nat, nat>, mid: set<nat>, leaf: set<nat>, free: int, descs: seq<AreaDesc>,
             gone: set<nat>, contents: seq<seq<Byte>>)

  function Mapped(st: SetState): set<nat> {
    st.linear.Keys + st.owner.Keys
  }

  datatype SetOp =
    | PushOp(d: AreaDesc, data: Option<seq<Byte>>)
    | TrampolineOp(strampoline: nat)
    | UnmapOp(k: nat)
    | CopyOp(k: nat, bytes: seq<Byte>)

  /** Tables and data frames that pushing the area takes. */
  function Cost(st: SetState, d: AreaDesc): nat {
    |Prefixes(d.vpnStart, d.vpnEnd, 0x4_0000) - st.mid| + |Prefixes(d.vpnStart, d.vpnEnd, 512) - st.leaf|
    + (if d.vpnStart <= d.vpnEnd then DataNeed(d, d.vpnEnd - d.vpnStart) else 0)
  }

  predicate Pushable(st: SetState, d: AreaDesc) {
    && d.vpnStart <= d.vpnEnd
    && (d.ppns.Some? ==> d.vpnStart < d.vpnEnd && d.ppns.value.1 - d.ppns.value.0 == d.vpnEnd - d.vpnStart)
    && (d.ppns.None? ==> d.mapType.Framed? || d.vpnStart == d.vpnEnd)
    && Pages(d) !! Mapped(st)
    && Cost(st, d) <= st.free
  }

  /** The state with the area's pages: entries of their own for a linear area, and pages of the next area for
      a framed one. */
  function Add(st: SetState, d: AreaDesc): SetState {
    st.(linear := if d.mapType.Linear? then st.linear + Entries(d) else st.linear,
        owner := if d.mapType.Framed? then st.owner + (map v | v in Pages(d) :: |st.descs|) else st.owner,
        mid := st.mid + Prefixes(d.vpnStart, d.vpnEnd, 0x4_0000), leaf := st.leaf + Prefixes(d.vpnStart, d.vpnEnd, 512),
        free := st.free - Cost(st, d))
  }

  function Entries(d: AreaDesc): map<nat, Word> {
    map v | v in Pages(d) :: PteNew(Target(d, map[], v), WithV(d.perm))
  }

  function Zeros(n: nat): (z: seq<Byte>)
    ensures |z| == n && forall i :: 0 <= i < n ==> z[i] == 0
  {
    seq(n, _ => 0)
  }

  /** The bytes of a framed area that was filled from its start. */
  function Initial(d: AreaDesc, bytes: seq<Byte>): seq<Byte> {
    if d.mapType.Framed? && d.vpnStart <= d.vpnEnd && |bytes| <= (d.vpnEnd - d.vpnStart) * 4096
    then bytes + Zeros((d.vpnEnd - d.vpnStart) * 4096 - |bytes|) else []
  }

  function Overwritten(old_: seq<Byte>, bytes: seq<Byte>): seq<Byte> {
    if |bytes| <= |old_| then bytes + old_[|bytes|..] else bytes
  }

  function AddArea(st: SetState, d: AreaDesc, data: Option<seq<Byte>>): SetState {
    Add(st, d).(descs := st.descs + [d],
                contents := st.contents + [Initial(d, if data.Some? then data.value else [])])
  }

  function Remove(st: SetState, k: nat): SetState
    requires k < |st.descs|
  {
    var d := st.descs[k];
    st.(linear := st.linear - Pages(d), owner := st.owner - Pages(d), gone := st.gone + {k},
        free := st.free + if d.vpnStart <= d.vpnEnd then DataNeed(d, d.vpnEnd - d.vpnStart) else 0)
  }

  /** What one call does; None is its panic. */
  function StepSet(st: SetState, op: SetOp): Option<SetState> {
    match op
    case PushOp(d, data) =>
      if Pushable(st, d) && (data.Some? ==> d.mapType.Framed?) then Some(AddArea(st, d, data)) else None
    case TrampolineOp(strampoline) =>
      if PhysAddr(strampoline) % 4096 == 0 && Pushable(st, TrampolineArea(strampoline))
      then Some(Add(st, TrampolineArea(strampoline))) else None
    case UnmapOp(k) => if k < |st.descs| && Pages(st.descs[k]) <= Mapped(st) then Some(Remove(st, k)) else None
    case CopyOp(k, bytes) =>
      if k < |st.descs| && k < |st.contents| && st.descs[k].mapType.Framed?
      then Some(st.(contents := st.contents[k := Overwritten(st.contents[k], bytes)])) else None
  }

  function RunSet(st: SetState, ops: seq<SetOp>): Option<SetState>
    decreases |ops|
  {
    if ops == [] then Some(st)
    else
      match RunSet(st, ops[..|ops| - 1])
      case None => None
      case Some(before) => StepSet(before, ops[|ops| - 1])
  }

  predicate HasRoom(d: AreaDesc, n: nat) {
    d.vpnStart < d.vpnEnd && n <= (d.vpnEnd - d.vpnStart) * 4096
  }

  /** The calls that are covered: areas below 2^27, data that fits, and no area filled after it was unmapped,
      nor unmapped a second time over pages that others have mapped since. */
  predicate Proper(st: SetState, op: SetOp) {
    match op
    case PushOp(d, data) =>
      && d.vpnStart <= d.vpnEnd <= 0x800_0000 && (d.ppns.Some? ==> d.ppns.value.0 <= d.ppns.value.1)
      && (data.Some? && d.mapType.Framed? ==> HasRoom(d, |data.value|))
    case TrampolineOp(_) => true
    case UnmapOp(k) => k < |st.descs| && (k in st.gone ==> !(Pages(st.descs[k]) <= Mapped(st)))
    case CopyOp(k, bytes) =>
      k < |st.descs| && k !in st.gone && (st.descs[k].mapType.Framed? ==> HasRoom(st.descs[k], |bytes|))
  }

  ghost predicate ProperRun(st: SetState, ops: seq<SetOp>) {
    forall n :: 0 <= n < |ops| && RunSet(st, ops[..n]).Some? ==> Proper(RunSet(st, ops[..n]).value, ops[n])
  }

  // ---------------------------------------------------------------- a set as a value

  datatype Whole =
    Whole(m: Mem, pool: FrameState, root: nat, frames: seq<nat>, tree: Tree, pages: PageMap, held: seq<Held>)

  ghost function View(mem: PhysMem, alloc: FrameAllocator, s: MemorySet): Whole
    reads mem, alloc, s, s.table, s.areas
  {
    Whole(mem.words, alloc.State(), s.table.rootPpn, s.table.frames, s.table.tree, s.table.pages, HeldBy(s.areas))
  }

  ghost predicate AreasInv(live: set<nat>, frames: seq<nat>, pages: PageMap, held: seq<Held>) {
    && (forall i :: 0 <= i < |held| ==> AreaInv(held[i].d, live, frames, pages, held[i].data))
    && (forall i, j :: 0 <= i < j < |held| ==> Apart(held[i].data, held[j].data))
  }

  ghost predicate SetInv(w: Whole) {
    && FramesInv(w.pool) && TableInv(w.m, Live(w.pool), w.root, w.frames, w.tree, w.pages)
    && AreasInv(Live(w.pool), w.frames, w.pages, w.held)
  }

  ghost function Owned(w: Whole): set<nat> {
    Elements(w.frames) + DataOf(w.held)
  }

  /** Frames in the hands of others. */
  ghost function Others(w: Whole): set<nat> {
    Live(w.pool) - Owned(w)
  }

  /** Nobody else's frames changed hands or contents. */
  ghost predicate Kept(w: Whole, w': Whole) {
    && Others(w') == Others(w)
    && (forall p: nat, i: nat :: p in Others(w) ==> Rd(w'.m, p, i) == Rd(w.m, p, i))
    && w'.pool.lo == w.pool.lo && w'.pool.end == w.pool.end && w'.root == w.root && w'.tree.spare == w.tree.spare
  }

  /** The areas that were not unmapped are mapped, on pages of their own and with all their frames. */
  ghost predicate Standing(pages: set<nat>, held: seq<Held>, gone: set<nat>) {
    && (forall i :: i in gone ==> i < |held|)
    && (forall i :: 0 <= i < |held| ==> held[i].d.vpnStart <= held[i].d.vpnEnd <= 0x800_0000)
    && (forall i :: 0 <= i < |held| && i in gone ==> held[i].data == map[])
    && (forall i :: 0 <= i < |held| && i !in gone ==>
          && Pages(held[i].d) <= pages
          && held[i].data.Keys == if held[i].d.mapType.Framed? then Pages(held[i].d) else {})
    && (forall i, j :: 0 <= i < j < |held| && i !in gone && j !in gone ==> Pages(held[i].d) !! Pages(held[j].d))
  }

  /** The set is in the abstract state. */
  ghost predicate Shows(w: Whole, st: SetState) {
    Stands(w, st) && Linked(w.pages, st) && Contents(w.m, w.held, st)
  }

  ghost predicate Stands(w: Whole, st: SetState) {
    && Standing(Mapped(st), w.held, st.gone) && Counts(w, st)
    && |st.descs| == |w.held| && forall i :: 0 <= i < |w.held| ==> w.held[i].d == st.descs[i]
  }

  ghost predicate Counts(w: Whole, st: SetState) {
    && Mapped(st) == w.pages.Keys && st.mid == w.tree.mid.Keys && st.leaf == w.tree.leaf.Keys
    && st.free == FreeCount(w.pool)
  }

  /** Linear pages have the entries recorded, and the others belong to standing framed areas. */
  ghost predicate Linked(pages: PageMap, st: SetState) {
    && st.linear.Keys !! st.owner.Keys
    && (forall v :: v in st.linear ==> v in pages && pages[v] == st.linear[v])
    && (forall v :: v in st.owner ==>
          && st.owner[v] < |st.descs| && st.owner[v] !in st.gone
          && st.descs[st.owner[v]].mapType.Framed? && v in Pages(st.descs[st.owner[v]]))
  }

  /** The standing framed areas' frames hold what is recorded. */
  ghost predicate Contents(m: Mem, held: seq<Held>, st: SetState) {
    && |st.contents| == |held|
    && forall k :: 0 <= k < |held| && k !in st.gone && held[k].d.mapType.Framed? ==> Stores(held[k], m, st.contents[k])
  }

  ghost predicate Stores(h: Held, m: Mem, c: seq<Byte>) {
    && h.d.vpnStart <= h.d.vpnEnd && |c| == (h.d.vpnEnd - h.d.vpnStart) * 4096 && Pages(h.d) <= h.data.Keys
    && forall x: nat, off: nat :: h.d.vpnStart <= x < h.d.vpnEnd && off < 4096 ==> StoredAt(h.d, h.data, m, c, x, off)
  }

  function SnapOf(w: Whole, data: map<nat, nat>): Snap {
    Snap(w.m, w.pool, w.frames, w.tree, w.pages, data)
  }

  // ---------------------------------------------------------------- frames of others

  lemma OwnedIsLive(w: Whole)
    requires SetInv(w)
    ensures Owned(w) <= Live(w.pool)
  {
    hide TableInv, FramesInv, PteNew, Live, Key, WithV;
    TableFramesLive(w.m, Live(w.pool), w.root, w.frames, w.tree, w.pages);
    forall x | x in DataOf(w.held) ensures x in Live(w.pool) {
      DataOfHas(w.held, x);
      var i :| 0 <= i < |w.held| && x in w.held[i].data.Values;
      var v :| v in w.held[i].data && w.held[i].data[v] == x;
    }
  }

  // ---------------------------------------------------------------- one push

  lemma FitsIsPushable(w: Whole, st: SetState, d: AreaDesc)
    requires Counts(w, st)
    ensures Fits(d, SnapOf(w, map[])) <==> Pushable(st, d)
  {
    hide Prefixes, FreeCount, Mapped;
    if Pages(d) !! Mapped(st) {
      forall v | d.vpnStart <= v < d.vpnEnd ensures v !in w.pages {
        assert v in Pages(d);
      }
    }
  }

  lemma AddCounts(w: Whole, w': Whole, st: SetState, d: AreaDesc, data: map<nat, nat>)
    requires Counts(w, st) && Extended(d, SnapOf(w, map[]), SnapOf(w', data))
    ensures Counts(w', Add(st, d))
  {
    hide Prefixes, FreeCount, PteNew, Live, Range, Target, Mapped, BothGrew, Elements, Entries;
    AddMapped(st, d);
  }

  lemma AddMapped(st: SetState, d: AreaDesc)
    ensures Mapped(Add(st, d)) == Mapped(st) + Pages(d)
  {
    hide Pages, Prefixes, PteNew, Target, Cost;
  }

  lemma PushStanding(pages: set<nat>, held: seq<Held>, gone: set<nat>, d: AreaDesc, data: map<nat, nat>)
    requires Standing(pages, held, gone) && Pages(d) !! pages && d.vpnStart <= d.vpnEnd <= 0x800_0000
    requires data.Keys == if d.mapType.Framed? then Pages(d) else {}
    ensures Standing(pages + Pages(d), held + [Held(d, data)], gone)
  {
    hide Pages;
  }

  lemma TrampolineStanding(pages: set<nat>, held: seq<Held>, gone: set<nat>, more: set<nat>)
    requires Standing(pages, held, gone)
    ensures Standing(pages + more, held, gone)
  {
    hide Pages;
  }

  lemma PushStands(w: Whole, w': Whole, st: SetState, d: AreaDesc, data: map<nat, nat>, bytes: Option<seq<Byte>>)
    requires Stands(w, st) && Extended(d, SnapOf(w, map[]), SnapOf(w', data)) && d.vpnEnd <= 0x800_0000
    requires w'.held == w.held + [Held(d, data)]
    ensures Stands(w', AddArea(st, d, bytes))
  {
    hide Standing, Prefixes, FreeCount, PteNew, Live, Cost, Elements, TablesAdded, BothGrew, TableNeed, Initial;
    AddCounts(w, w', st, d, data);
    AddMapped(st, d);
    PushStanding(Mapped(st), w.held, st.gone, d, data);
  }

  lemma TrampolineStands(w: Whole, w': Whole, st: SetState, d: AreaDesc)
    requires Stands(w, st) && Extended(d, SnapOf(w, map[]), SnapOf(w', map[])) && w'.held == w.held
    ensures Stands(w', Add(st, d))
  {
    hide Standing, Prefixes, FreeCount, PteNew, Live, Cost, Elements, TablesAdded, BothGrew, TableNeed;
    AddCounts(w, w', st, d, map[]);
    AddMapped(st, d);
    TrampolineStanding(Mapped(st), w.held, st.gone, Pages(d));
  }

  // ---------------------------------------------------------------- where the pages lead

  lemma AddLinked(pages: PageMap, pages': PageMap, st: SetState, st': SetState, d: AreaDesc, data: map<nat, nat>)
    requires Linked(pages, st) && Mapped(st) == pages.Keys && PagesAdded(d, pages, pages', data, d.vpnEnd)
    requires st'.linear == Add(st, d).linear && st'.owner == Add(st, d).owner && st'.gone == st.gone
    requires |st'.descs| >= |st.descs| && st'.descs[..|st.descs|] == st.descs
    requires d.mapType.Framed? ==> |st'.descs| == |st.descs| + 1 && st'.descs[|st.descs|] == d && |st.descs| !in st.gone
    ensures Linked(pages', st')
  {
    hide PteNew, Cost, Prefixes;
    forall v | v in st'.linear ensures v in pages' && pages'[v] == st'.linear[v] {
      if v in st.linear && (d.mapType.Framed? || v !in Pages(d)) {
        assert pages'[v] == pages[v];
      }
    }
    forall v | v in st'.owner
      ensures st'.owner[v] < |st'.descs| && st'.owner[v] !in st'.gone
      ensures st'.descs[st'.owner[v]].mapType.Framed? && v in Pages(st'.descs[st'.owner[v]])
    {
      if v in st.owner { assert st'.descs[st.owner[v]] == st.descs[st.owner[v]]; }
    }
  }

  lemma RemoveLinked(pages: PageMap, st: SetState, k: nat, pages': PageMap)
    requires Linked(pages, st) && k < |st.descs| && pages' == pages - Pages(st.descs[k])
    ensures Linked(pages', Remove(st, k))
  {
    hide Pages;
    var st' := Remove(st, k);
    forall v | v in st'.owner ensures st'.owner[v] !in st'.gone {
      assert v in st.owner && v !in Pages(st.descs[k]);
    }
  }

  // ---------------------------------------------------------------- what the areas contain

  lemma StoresInitial(d: AreaDesc, data: map<nat, nat>, m: Mem, bytes: seq<Byte>)
    requires Stored(d, data, m, bytes) && d.mapType.Framed? && |bytes| <= (d.vpnEnd - d.vpnStart) * 4096
    ensures Stores(Held(d, data), m, Initial(d, bytes))
  {
    hide ReadByte;
    var c := Initial(d, bytes);
    forall x: nat, off: nat | d.vpnStart <= x < d.vpnEnd && off < 4096 ensures StoredAt(d, data, m, c, x, off) {
      assert StoredAt(d, data, m, bytes, x, off);
    }
  }

  lemma StoresOverwritten(h: Held, m: Mem, m': Mem, c: seq<Byte>, bytes: seq<Byte>)
    requires Stores(h, m, c) && BytesIn(h.d, h.data, m, m', bytes) && |bytes| <= |c|
    ensures Stores(h, m', Overwritten(c, bytes))
  {
    hide ReadByte;
    var c' := Overwritten(c, bytes);
    forall x: nat, off: nat | h.d.vpnStart <= x < h.d.vpnEnd && off < 4096 ensures StoredAt(h.d, h.data, m', c', x, off) {
      assert StoredAt(h.d, h.data, m, c, x, off) && CopiedAt(h.d, h.data, m, m', bytes, |bytes|, x, off);
    }
  }

  lemma StoresKept(h: Held, m: Mem, m': Mem, c: seq<Byte>, changed: set<nat>)
    requires Stores(h, m, c) && SameOutside(m, m', changed) && h.data.Values !! changed
    ensures Stores(h, m', c)
  {
    hide ReadByte, SameOutside;
    forall x: nat, off: nat | h.d.vpnStart <= x < h.d.vpnEnd && off < 4096 ensures StoredAt(h.d, h.data, m', c, x, off) {
      assert StoredAt(h.d, h.data, m, c, x, off) && h.data[x] in h.data.Values;
      OutsideByte(m, m', changed, h.data[x], off);
    }
  }

  /** Areas whose frames did not change keep their contents. */
  lemma ContentsKept(m: Mem, m': Mem, held: seq<Held>, st: SetState, changed: set<nat>)
    requires Contents(m, held, st) && SameOutside(m, m', changed)
    requires forall k :: 0 <= k < |held| && k !in st.gone ==> held[k].data.Values !! changed
    ensures Contents(m', held, st)
  {
    hide Stores, SameOutside;
    forall k | 0 <= k < |held| && k !in st.gone && held[k].d.mapType.Framed? ensures Stores(held[k], m', st.contents[k]) {
      StoresKept(held[k], m, m', st.contents[k], changed);
    }
  }

  /** An area's frames are neither the table's nor another area's. */
  lemma FramesApart(w: Whole, i: nat)
    requires SetInv(w) && i < |w.held|
    ensures w.held[i].data.Values !! Elements(w.frames)
    ensures forall j :: 0 <= j < |w.held| && j != i ==> w.held[i].data.Values !! w.held[j].data.Values
  {
    hide TableInv, FramesInv, Live, PteNew, Key, WithV;
    forall x | x in w.held[i].data.Values ensures x !in w.frames {
      var v :| v in w.held[i].data && w.held[i].data[v] == x;
    }
    forall j | 0 <= j < |w.held| && j != i ensures w.held[i].data.Values !! w.held[j].data.Values {
      if i < j { assert Apart(w.held[i].data, w.held[j].data); } else { assert Apart(w.held[j].data, w.held[i].data); }
    }
  }

  lemma PushContents(w: Whole, w': Whole, st: SetState, d: AreaDesc, data: map<nat, nat>, bytes: Option<seq<Byte>>)
    requires SetInv(w') && Stands(w, st) && Contents(w.m, w.held, st) && w'.held == w.held + [Held(d, data)]
    requires SameOutside(w.m, w'.m, Elements(w'.frames) + data.Values)
    requires d.mapType.Framed? ==>
               var given := if bytes.Some? then bytes.value else [];
               Stored(d, data, w'.m, given) && |given| <= (d.vpnEnd - d.vpnStart) * 4096
    ensures Contents(w'.m, w'.held, AddArea(st, d, bytes))
  {
    hide SetInv, Stores, Stored, SameOutside, Counts, Initial, Cost, Prefixes, Elements;
    forall k | 0 <= k < |w.held| ensures w.held[k].data.Values !! Elements(w'.frames) + data.Values {
      FramesApart(w', k);
      assert w'.held[k] == w.held[k] && w'.held[|w.held|].data == data;
    }
    ContentsKept(w.m, w'.m, w.held, st, Elements(w'.frames) + data.Values);
    if d.mapType.Framed? { StoresInitial(d, data, w'.m, if bytes.Some? then bytes.value else []); }
    var st' := AddArea(st, d, bytes);
    forall k | 0 <= k < |w'.held| && k !in st'.gone && w'.held[k].d.mapType.Framed? ensures Stores(w'.held[k], w'.m, st'.contents[k]) {
      if k < |w.held| { assert w'.held[k] == w.held[k] && st'.contents[k] == st.contents[k]; }
    }
  }

  /** What one push shows. */
  lemma PushShows(w: Whole, w': Whole, st: SetState, d: AreaDesc, data: map<nat, nat>, bytes: Option<seq<Byte>>)
    requires SetInv(w') && Shows(w, st) && Extended(d, SnapOf(w, map[]), SnapOf(w', data)) && d.vpnEnd <= 0x800_0000
    requires w'.held == w.held + [Held(d, data)] && SameOutside(w.m, w'.m, Elements(w'.frames) + data.Values)
    requires d.mapType.Framed? ==>
               var given := if bytes.Some? then bytes.value else [];
               Stored(d, data, w'.m, given) && |given| <= (d.vpnEnd - d.vpnStart) * 4096
    ensures Shows(w', AddArea(st, d, bytes))
  {
    hide SetInv, Contents, Stored, SameOutside, Elements, Linked, PagesAdded, TablesAdded, BothGrew, TableNeed, FreeCount, Prefixes,
         Cost, Initial, Entries, Pages;
    PushStands(w, w', st, d, data, bytes);
    AddLinked(w.pages, w'.pages, st, AddArea(st, d, bytes), d, data);
    PushContents(w, w', st, d, data, bytes);
  }

  lemma TrampolineShows(w: Whole, w': Whole, st: SetState, d: AreaDesc)
    requires SetInv(w') && Shows(w, st) && Extended(d, SnapOf(w, map[]), SnapOf(w', map[])) && w'.held == w.held
    requires d.mapType.Linear? && SameOutside(w.m, w'.m, Elements(w'.frames))
    ensures Shows(w', Add(st, d))
  {
    hide SetInv, SameOutside, Elements, Linked, PagesAdded, TablesAdded, BothGrew, TableNeed, FreeCount, Prefixes, Cost, Entries,
         Pages, Stores;
    TrampolineStands(w, w', st, d);
    AddLinked(w.pages, w'.pages, st, Add(st, d), d, map[]);
    forall k | 0 <= k < |w.held| ensures w.held[k].data.Values !! Elements(w'.frames) {
      FramesApart(w', k);
    }
    ContentsKept(w.m, w'.m, w.held, st, Elements(w'.frames));
  }

  /** A push moves frames between the pool and the set only. */
  lemma PushKept(w: Whole, w': Whole, d: AreaDesc, data: map<nat, nat>)
    requires Extended(d, SnapOf(w, map[]), SnapOf(w', data)) && w'.root == w.root
    requires DataOf(w'.held) == DataOf(w.held) + data.Values
    requires SameOutside(w.m, w'.m, Elements(w'.frames) + data.Values)
    ensures Kept(w, w')
  {
    hide PagesAdded, TableNeed, Prefixes, PteNew, Live, Elements, FreeCount, Range;
    var none: map<nat, nat> := map[];
    assert none.Values == {};
    Regroup(Live(w'.pool), Elements(w'.frames), data.Values, Live(w.pool), Elements(w.frames), DataOf(w.held));
  }

  lemma Regroup(l: set<nat>, f: set<nat>, v: set<nat>, l0: set<nat>, f0: set<nat>, rest: set<nat>)
    requires l - f - v == l0 - f0 - {}
    ensures l - (f + (rest + v)) == l0 - (f0 + rest)
    ensures (l0 - (f0 + rest)) !! (f + v)
  {
    assert l - (f + (rest + v)) == l - f - v - rest;
    assert l0 - (f0 + rest) == l0 - f0 - {} - rest;
  }

  // ---------------------------------------------------------------- one unmap

  lemma DataOfUpdate(held: seq<Held>, k: nat)
    requires k < |held|
    ensures DataOf(held) == DataOf(held[k := Held(held[k].d, map[])]) + held[k].data.Values
  {
    var held' := held[k := Held(held[k].d, map[])];
    forall x ensures x in DataOf(held) <==> x in DataOf(held') + held[k].data.Values {
      DataOfHas(held, x);
      DataOfHas(held', x);
      if x in DataOf(held) {
        var i :| 0 <= i < |held| && x in held[i].data.Values;
        if i != k { assert x in held'[i].data.Values; }
      }
      if x in DataOf(held') {
        var i :| 0 <= i < |held'| && x in held'[i].data.Values;
        assert x in held[i].data.Values;
      }
    }
  }

  lemma UnmapKept(w: Whole, w': Whole, k: nat, gone: set<nat>)
    requires k < |w.held| && w'.held == w.held[k := Held(w.held[k].d, map[])] && w'.root == w.root
    requires Released(SnapOf(w, w.held[k].data), SnapOf(w', map[]), gone)
    ensures Kept(w, w')
  {
    hide Live, Elements, FreeCount, DataOf;
    DataOfUpdate(w.held, k);
    var none: map<nat, nat> := map[];
    assert none.Values == {};
    Handed(Live(w.pool), Live(w'.pool), w.held[k].data.Values, Elements(w.frames), DataOf(w'.held));
  }

  lemma Handed(l: set<nat>, l': set<nat>, v: set<nat>, f: set<nat>, rest: set<nat>)
    requires l' == l - (v - {})
    ensures l' - (f + rest) == l - (f + (rest + v))
  {
  }

  lemma UnmapStanding(pages: set<nat>, held: seq<Held>, gone: set<nat>, k: nat)
    requires Standing(pages, held, gone) && k < |held| && k !in gone
    ensures Standing(pages - Pages(held[k].d), held[k := Held(held[k].d, map[])], gone + {k})
  {
    hide Pages;
    var held', d := held[k := Held(held[k].d, map[])], held[k].d;
    forall i | 0 <= i < |held'| && i !in gone + {k} ensures Pages(held'[i].d) <= pages - Pages(d) {
      assert held'[i] == held[i];
      if i < k { assert Pages(held[i].d) !! Pages(held[k].d); } else { assert Pages(held[k].d) !! Pages(held[i].d); }
    }
  }

  lemma UnmapStands(w: Whole, w': Whole, st: SetState, k: nat)
    requires Stands(w, st) && k < |w.held| && k !in st.gone && w'.held == w.held[k := Held(w.held[k].d, map[])]
    requires Released(SnapOf(w, w.held[k].data), SnapOf(w', map[]), Pages(w.held[k].d))
    ensures Stands(w', Remove(st, k))
  {
    hide Live, Elements, FreeCount, Mapped, Pages, Standing, SameOutside;
    UnmapStanding(Mapped(st), w.held, st.gone, k);
    RemoveMapped(st, k);
    DataCount(Mapped(st), w.held, st.gone, k);
  }

  lemma RemoveMapped(st: SetState, k: nat)
    requires k < |st.descs|
    ensures Mapped(Remove(st, k)) == Mapped(st) - Pages(st.descs[k])
  {
    hide Pages;
  }

  lemma DataCount(pages: set<nat>, held: seq<Held>, gone: set<nat>, k: nat)
    requires Standing(pages, held, gone) && k < |held| && k !in gone
    ensures held[k].d.vpnStart <= held[k].d.vpnEnd && |held[k].data| == DataNeed(held[k].d, held[k].d.vpnEnd - held[k].d.vpnStart)
  {
    RangeSize(held[k].d.vpnStart, held[k].d.vpnEnd);
    assert |held[k].data| == |held[k].data.Keys|;
    hide Range;
  }

  lemma UnmapShows(w: Whole, w': Whole, st: SetState, k: nat)
    requires SetInv(w) && Shows(w, st) && k < |w.held| && k !in st.gone && w'.held == w.held[k := Held(w.held[k].d, map[])]
    requires Released(SnapOf(w, w.held[k].data), SnapOf(w', map[]), Pages(w.held[k].d))
    ensures Shows(w', Remove(st, k))
  {
    hide SetInv, Live, Elements, FreeCount, SameOutside, Linked, Standing, Counts, Pages, Stores;
    UnmapStands(w, w', st, k);
    RemoveLinked(w.pages, st, k, w'.pages);
    forall i | 0 <= i < |w.held| ensures w.held[i].data.Values !! Elements(w.frames) {
      FramesApart(w, i);
    }
    ContentsKept(w.m, w'.m, w.held, st, Elements(w.frames));
  }

  /** The other areas stay as they are when one area is unmapped. */
  lemma OthersStay(w: Whole, w': Whole, st: SetState, k: nat, i: nat)
    requires SetInv(w) && Stands(w, st) && k < |w.held| && k !in st.gone && i < |w.held| && i != k
    requires Released(SnapOf(w, w.held[k].data), SnapOf(w', map[]), Pages(w.held[k].d))
    ensures AreaInv(w.held[i].d, Live(w'.pool), w'.frames, w'.pages, w.held[i].data)
  {
    hide Live, Elements, FreeCount, TableInv, FramesInv, AreaInv, Counts, Pages, Apart, Standing, Mapped, SameOutside;
    var e, d := w.held[i], w.held[k];
    if i < k {
      assert Apart(w.held[i].data, w.held[k].data);
    } else {
      assert Apart(w.held[k].data, w.held[i].data);
      ApartBothWays(d.data, e.data);
    }
    KeysApart(Mapped(st), w.held, st.gone, i, k);
    PagesBelow(Mapped(st), w.held, st.gone, i);
    var none: map<nat, nat> := map[];
    assert none.Values == {};
    StaysInv(e.d, Live(w.pool), Live(w'.pool), w.frames, w.pages, e.data, d.data, Pages(d.d));
  }

  lemma KeysApart(pages: set<nat>, held: seq<Held>, gone: set<nat>, i: nat, k: nat)
    requires Standing(pages, held, gone) && i < |held| && k < |held| && i != k && k !in gone
    ensures held[i].data.Keys !! Pages(held[k].d)
  {
    hide Pages;
    if i !in gone {
      if i < k { assert Pages(held[i].d) !! Pages(held[k].d); } else { assert Pages(held[k].d) !! Pages(held[i].d); }
    }
  }

  lemma ApartBothWays(a: map<nat, nat>, b: map<nat, nat>)
    requires Apart(a, b)
    ensures Apart(b, a)
  {
  }

  lemma PagesBelow(pages: set<nat>, held: seq<Held>, gone: set<nat>, i: nat)
    requires Standing(pages, held, gone) && i < |held|
    ensures forall v :: v in held[i].data ==> v < 0x800_0000
  {
  }

  lemma StaysInv(d: AreaDesc, live: set<nat>, live': set<nat>, frames: seq<nat>, pages: PageMap, data: map<nat, nat>,
                 other: map<nat, nat>, gone: set<nat>)
    requires AreaInv(d, live, frames, pages, data) && Apart(data, other) && data.Keys !! gone
    requires (forall v :: v in data ==> v < 0x800_0000) && live' == live - other.Values
    ensures AreaInv(d, live', frames, pages - gone, data)
  {
    hide PteNew, WithV;
    forall v | v in data ensures Key(v) == v && data[v] in live' {
      Euclid(v, 0x800_0000, 0, v);
      assert data[v] in data.Values;
    }
  }

  // ---------------------------------------------------------------- the calls

  lemma ViewInv(mem: PhysMem, alloc: FrameAllocator, s: MemorySet)
    requires s.Valid(mem, alloc)
    ensures SetInv(View(mem, alloc, s)) && s.table.tree.root == s.table.rootPpn
  {
    hide AreaInv, Apart, Represents, Shape, SpareZero, FramesInv;
  }

  lemma HeldNext(areas: seq<MapArea>, area: MapArea)
    ensures HeldBy(areas + [area]) == HeldBy(areas) + [Held(area.d, area.dataFrames)]
  {
    assert (areas + [area])[..|areas|] == areas;
  }

  method PerformPush(mem: PhysMem, alloc: FrameAllocator, s: MemorySet, d: AreaDesc, data: Option<seq<Byte>>, ghost st: SetState)
    returns (r: Outcome)
    requires s.Valid(mem, alloc) && Shows(View(mem, alloc, s), st) && Proper(st, PushOp(d, data))
    modifies s, s.table, mem, alloc
    ensures r.Done? <==> StepSet(st, PushOp(d, data)).Some?
    ensures r.Done? ==>
              && s.Valid(mem, alloc) && Shows(View(mem, alloc, s), StepSet(st, PushOp(d, data)).value)
              && Kept(old(View(mem, alloc, s)), View(mem, alloc, s))
    ensures r.Done? ==> |s.areas| == old(|s.areas|) + 1 && s.areas[..old(|s.areas|)] == old(s.areas) && fresh(s.areas[old(|s.areas|)])
  {
    hide TableInv, AreaInv, Progress, Fits, Apart, Extended, Live, FramesInv, Elements, SameOutside, Kept, Standing, Counts,
         AddArea, Pushable, Stored, DataOf, Linked, Contents;
    ghost var w := View(mem, alloc, s);
    FitsIsPushable(w, st, d);
    ghost var took;
    r, took := PushOnto(mem, alloc, s, d, data);
    if r.Done? {
      ghost var w' := View(mem, alloc, s);
      ViewInv(mem, alloc, s);
      DataOfNext(w.held, Held(d, took));
      PushShows(w, w', st, d, took, data);
      PushKept(w, w', d, took);
    }
  }

  /** `push` of a new area, in terms of the view. */
  method PushOnto(mem: PhysMem, alloc: FrameAllocator, s: MemorySet, d: AreaDesc, data: Option<seq<Byte>>)
    returns (r: Outcome, ghost took: map<nat, nat>)
    requires s.Valid(mem, alloc)
    requires d.vpnStart <= d.vpnEnd <= 0x800_0000 && (d.ppns.Some? ==> d.ppns.value.0 <= d.ppns.value.1)
    requires data.Some? && d.mapType.Framed? ==> HasRoom(d, |data.value|)
    modifies s, s.table, mem, alloc
    ensures r.Done? <==> Fits(d, old(SnapOf(View(mem, alloc, s), map[]))) && (data.Some? ==> d.mapType.Framed?)
    ensures r.Done? ==> s.Valid(mem, alloc)
    ensures r.Done? ==>
              var w, w' := old(View(mem, alloc, s)), View(mem, alloc, s);
              && w'.held == w.held + [Held(d, took)] && w'.root == w.root
              && Extended(d, SnapOf(w, map[]), SnapOf(w', took))
              && SameOutside(w.m, w'.m, Elements(w'.frames) + took.Values)
    ensures r.Done? ==> |s.areas| == old(|s.areas|) + 1 && s.areas[..old(|s.areas|)] == old(s.areas) && fresh(s.areas[old(|s.areas|)])
    ensures r.Done? && d.mapType.Framed? ==> Stored(d, took, mem.words, if data.Some? then data.value else [])
  {
    hide TableInv, AreaInv, Progress, Fits, Apart, Extended, Live, FramesInv, Elements, SameOutside, Filled, Stored, Explains,
         HeldBy;
    ghost var w := View(mem, alloc, s);
    RootOf(mem, alloc, s);
    var area := new MapArea(d);
    assert SnapOf(w, map[]) == area.Snapshot(mem, alloc, s.table);
    r := s.Push(mem, alloc, area, data);
    took := area.dataFrames;
    if r.Done? {
      RootOf(mem, alloc, s);
      assert HeldBy(old(s.areas)) == w.held;
      HeldNext(old(s.areas), area);
      assert SnapOf(View(mem, alloc, s), took) == area.Snapshot(mem, alloc, s.table);
    }
  }

  lemma RootOf(mem: PhysMem, alloc: FrameAllocator, s: MemorySet)
    requires s.table.Valid(mem, alloc)
    ensures s.table.tree.root == s.table.rootPpn
  {
    hide Represents, Shape, SpareZero, FramesInv;
  }

  method PerformTrampoline(mem: PhysMem, alloc: FrameAllocator, s: MemorySet, strampoline: nat, ghost st: SetState)
    returns (r: Outcome)
    requires s.Valid(mem, alloc) && Shows(View(mem, alloc, s), st)
    modifies s.table, mem, alloc
    ensures r.Done? <==> StepSet(st, TrampolineOp(strampoline)).Some?
    ensures r.Done? ==>
              && s.Valid(mem, alloc) && Shows(View(mem, alloc, s), StepSet(st, TrampolineOp(strampoline)).value)
              && Kept(old(View(mem, alloc, s)), View(mem, alloc, s))
  {
    hide TableInv, AreaInv, Progress, Fits, Apart, Extended, Live, FramesInv, Elements, SameOutside, Kept, Standing, Counts,
         Add, Pushable, DataOf, Linked, Contents;
    ghost var w, d := View(mem, alloc, s), TrampolineArea(strampoline);
    ViewInv(mem, alloc, s);
    FitsIsPushable(w, st, d);
    assert SnapOf(w, map[]) == BareSnap(mem, alloc, s.table);
    r := s.MapTrampoline(mem, alloc, strampoline);
    if r.Done? {
      ghost var w' := View(mem, alloc, s);
      ViewInv(mem, alloc, s);
      assert SnapOf(w', map[]) == BareSnap(mem, alloc, s.table);
      ProgressExtends(d, SnapOf(w, map[]), SnapOf(w', map[]));
      ProgressParts(d, SnapOf(w, map[]), SnapOf(w', map[]));
      NoValues(DataOf(w.held));
      NoValues(Elements(w'.frames));
      TrampolineShows(w, w', st, d);
      PushKept(w, w', d, map[]);
    }
  }

  lemma NoValues(s: set<nat>)
    ensures var none: map<nat, nat> := map[]; s == s + none.Values
  {
  }

  method PerformUnmap(mem: PhysMem, alloc: FrameAllocator, s: MemorySet, k: nat, ghost st: SetState) returns (r: Outcome)
    requires s.Valid(mem, alloc) && Shows(View(mem, alloc, s), st) && Proper(st, UnmapOp(k))
    modifies s.table, s.areas, mem, alloc
    ensures r.Done? <==> StepSet(st, UnmapOp(k)).Some?
    ensures r.Done? ==>
              && s.Valid(mem, alloc) && Shows(View(mem, alloc, s), StepSet(st, UnmapOp(k)).value)
              && Kept(old(View(mem, alloc, s)), View(mem, alloc, s))
  {
    hide TableInv, AreaInv, Apart, Live, FramesInv, Elements, SameOutside, Kept, DataOf, Released, Linked, Contents, Remove,
         Standing, Counts, Mapped, SetInv;
    ghost var w := View(mem, alloc, s);
    ViewInv(mem, alloc, s);
    var area := s.areas[k];
    assert w.held[k] == Held(area.d, area.dataFrames);
    PagesBelow(Mapped(st), w.held, st.gone, k);
    CanUnmap(w, st, k);
    if k !in st.gone { ShownPages(w, st, k); }
    r := area.Unmap(mem, alloc, s.table);
    if r.Done? {
      EmptiedBy(SnapOf(w, w.held[k].data), area.Snapshot(mem, alloc, s.table), Pages(area.d));
      ghost var w' := View(mem, alloc, s);
      assert w'.held == w.held[k := Held(area.d, map[])];
      assert SnapOf(w', map[]) == area.Snapshot(mem, alloc, s.table);
      UnmapValid(mem, alloc, s, w, st, k);
      UnmapShows(w, w', st, k);
      SameRoot(w, w', mem, alloc, s, Pages(area.d), k);
      UnmapKept(w, w', k, Pages(area.d));
    }
  }

  lemma UnmapValid(mem: PhysMem, alloc: FrameAllocator, s: MemorySet, w: Whole, st: SetState, k: nat)
    requires SetInv(w) && Stands(w, st) && k < |w.held| == |s.areas| && k !in st.gone
    requires s.table.Valid(mem, alloc) && s.areas[k].Valid(alloc, s.table)
    requires forall i, j :: 0 <= i < j < |s.areas| ==> s.areas[i] != s.areas[j]
    requires HeldBy(s.areas) == w.held[k := Held(w.held[k].d, map[])]
    requires Released(SnapOf(w, w.held[k].data), SnapOf(View(mem, alloc, s), map[]), Pages(w.held[k].d))
    ensures s.Valid(mem, alloc)
  {
    hide TableInv, AreaInv, Apart, Live, FramesInv, Elements, SameOutside, Counts, Released, Standing, Pages;
    var w' := View(mem, alloc, s);
    forall i | 0 <= i < |s.areas| ensures s.areas[i].Valid(alloc, s.table) {
      if i != k {
        OthersStay(w, w', st, k, i);
        assert w'.held[i] == Held(s.areas[i].d, s.areas[i].dataFrames);
      }
    }
    StillApart(w.held, w'.held, k);
    forall i, j | 0 <= i < j < |s.areas| ensures Apart(s.areas[i].dataFrames, s.areas[j].dataFrames) {
      assert Apart(w'.held[i].data, w'.held[j].data);
    }
  }

  lemma CanUnmap(w: Whole, st: SetState, k: nat)
    requires Stands(w, st) && k < |w.held|
    ensures w.held[k].d.vpnStart <= w.held[k].d.vpnEnd <= 0x800_0000
    ensures Range(w.held[k].d.vpnStart, w.held[k].d.vpnEnd) <= w.pages.Keys <==> Pages(st.descs[k]) <= Mapped(st)
    ensures k !in st.gone ==> Pages(st.descs[k]) <= Mapped(st)
  {
    hide Mapped;
  }

  lemma ShownPages(w: Whole, st: SetState, k: nat)
    requires Stands(w, st) && k < |w.held| && k !in st.gone
    ensures var h := w.held[k]; Range(h.d.vpnStart, h.d.vpnEnd) <= w.pages.Keys && h.data.Keys <= Range(h.d.vpnStart, h.d.vpnEnd)
    ensures w.held[k].d.mapType.Framed? ==> Range(w.held[k].d.vpnStart, w.held[k].d.vpnEnd) <= w.held[k].data.Keys
    ensures w.held[k].d.vpnStart <= w.held[k].d.vpnEnd <= 0x800_0000
  {
  }

  lemma EmptiedBy(o: Snap, n: Snap, gone: set<nat>)
    requires Released(o, n, gone) && o.data.Keys <= gone
    ensures n.data == map[]
  {
  }

  lemma StillApart(held: seq<Held>, held': seq<Held>, k: nat)
    requires k < |held| && held' == held[k := Held(held[k].d, map[])]
    requires forall i, j :: 0 <= i < j < |held| ==> Apart(held[i].data, held[j].data)
    ensures forall i, j :: 0 <= i < j < |held'| ==> Apart(held'[i].data, held'[j].data)
  {
  }

  lemma SameRoot(w: Whole, w': Whole, mem: PhysMem, alloc: FrameAllocator, s: MemorySet, gone: set<nat>, k: nat)
    requires SetInv(w) && k < |w.held| && s.Valid(mem, alloc) && w' == View(mem, alloc, s)
    requires Released(SnapOf(w, w.held[k].data), SnapOf(w', map[]), gone)
    ensures w'.root == w.root
  {
    hide Represents, Shape, SpareZero, AreaInv, Apart, FramesInv, Live, FreeCount, SameOutside;
  }

  method PerformCopy(mem: PhysMem, alloc: FrameAllocator, s: MemorySet, k: nat, bytes: seq<Byte>, ghost st: SetState)
    returns (r: Outcome)
    requires s.Valid(mem, alloc) && Shows(View(mem, alloc, s), st) && Proper(st, CopyOp(k, bytes))
    modifies mem
    ensures r.Done? <==> StepSet(st, CopyOp(k, bytes)).Some?
    ensures r.Done? ==>
              && s.Valid(mem, alloc) && Shows(View(mem, alloc, s), StepSet(st, CopyOp(k, bytes)).value)
              && Kept(old(View(mem, alloc, s)), View(mem, alloc, s))
  {
    hide TableInv, AreaInv, Apart, Live, FramesInv, Elements, SameOutside, Kept, Standing, DataOf, Copied, Range, Counts, Linked,
         Stores, SetInv;
    ghost var w := View(mem, alloc, s);
    ViewInv(mem, alloc, s);
    var area := s.areas[k];
    assert w.held[k] == Held(area.d, area.dataFrames);
    ShownPages(w, st, k);
    r := area.CopyData(mem, alloc, s.table, bytes);
    if r.Done? {
      CopyKept(w, mem.words, k);
      CopyShows(w, mem.words, st, k, bytes);
    }
  }

  /** The area's frames hold the bytes, page after page, and are as before beyond them. */
  ghost predicate BytesIn(d: AreaDesc, data: map<nat, nat>, m0: Mem, m: Mem, bytes: seq<Byte>) {
    Range(d.vpnStart, d.vpnEnd) <= data.Keys && Copied(d, data, m0, m, bytes, |bytes|)
  }

  lemma CopyShows(w: Whole, m: Mem, st: SetState, k: nat, bytes: seq<Byte>)
    requires SetInv(w) && Shows(w, st) && k < |w.held| && k !in st.gone && w.held[k].d.mapType.Framed?
    requires HasRoom(w.held[k].d, |bytes|) && BytesIn(w.held[k].d, w.held[k].data, w.m, m, bytes)
    requires SameOutside(w.m, m, w.held[k].data.Values)
    ensures StepSet(st, CopyOp(k, bytes)).Some? && Shows(w.(m := m), StepSet(st, CopyOp(k, bytes)).value)
  {
    hide SetInv, Standing, Counts, SameOutside, BytesIn, Linked, StoredAt;
    var st' := StepSet(st, CopyOp(k, bytes)).value;
    CopiedLinked(w.pages, st, st');
    CopiedStands(w, m, st, st');
    hide Stores;
    StoredSize(w.held[k], w.m, st.contents[k]);
    StoresOverwritten(w.held[k], w.m, m, st.contents[k], bytes);
    forall i | 0 <= i < |w.held| && i !in st.gone && w.held[i].d.mapType.Framed? ensures Stores(w.held[i], m, st'.contents[i]) {
      if i != k {
        FramesApart(w, i);
        StoresKept(w.held[i], w.m, m, st.contents[i], w.held[k].data.Values);
      }
    }
  }

  lemma CopiedStands(w: Whole, m: Mem, st: SetState, st': SetState)
    requires Stands(w, st) && st' == st.(contents := st'.contents)
    ensures Stands(w.(m := m), st')
  {
    hide Standing;
  }

  lemma CopiedLinked(pages: PageMap, st: SetState, st': SetState)
    requires Linked(pages, st) && st' == st.(contents := st'.contents)
    ensures Linked(pages, st')
  {
  }

  lemma StoredSize(h: Held, m: Mem, c: seq<Byte>)
    requires Stores(h, m, c)
    ensures h.d.vpnStart <= h.d.vpnEnd && |c| == (h.d.vpnEnd - h.d.vpnStart) * 4096
  {
  }

  lemma CopyKept(w: Whole, m: Mem, k: nat)
    requires k < |w.held| && SameOutside(w.m, m, w.held[k].data.Values)
    ensures Kept(w, w.(m := m))
  {
    hide Live, Elements;
    forall p | p in Others(w) ensures p !in w.held[k].data.Values {
      DataOfHas(w.held, p);
    }
  }

  /** One call: it panics exactly when the abstract machine does, and follows it otherwise. */
  method Perform(mem: PhysMem, alloc: FrameAllocator, s: MemorySet, op: SetOp, ghost st: SetState) returns (r: Outcome)
    requires s.Valid(mem, alloc) && Shows(View(mem, alloc, s), st) && Proper(st, op)
    modifies s, s.table, s.areas, mem, alloc
    ensures r.Done? <==> StepSet(st, op).Some?
    ensures r.Done? ==>
              && s.Valid(mem, alloc) && Shows(View(mem, alloc, s), StepSet(st, op).value)
              && Kept(old(View(mem, alloc, s)), View(mem, alloc, s))
    ensures r.Done? ==>
              |s.areas| >= old(|s.areas|) &&
              forall i :: 0 <= i < |s.areas| ==> if i < old(|s.areas|) then s.areas[i] == old(s.areas)[i] else fresh(s.areas[i])
  {
    hide TableInv, AreaInv, Apart, Live, FramesInv, Elements, Kept, Shows, DataOf, Add, AddArea, Remove, Pushable, SetInv;
    match op
    case PushOp(d, data) => r := PerformPush(mem, alloc, s, d, data, st);
    case TrampolineOp(strampoline) => r := PerformTrampoline(mem, alloc, s, strampoline, st);
    case UnmapOp(k) => r := PerformUnmap(mem, alloc, s, k, st);
    case CopyOp(k, bytes) => r := PerformCopy(mem, alloc, s, k, bytes, st);
  }

  lemma KeptTwice(w: Whole, w1: Whole, w2: Whole)
    requires Kept(w, w1) && Kept(w1, w2)
    ensures Kept(w, w2)
  {
    hide Others;
  }

  lemma KeptAtOnce(w: Whole)
    ensures Kept(w, w)
  {
  }

  // ---------------------------------------------------------------- what the abstract state tells

  /** Where every page leads: linear pages to the recorded entry, framed ones to the owner's own frame with
      its permissions, and no other page is mapped. */
  lemma PageLeads(w: Whole, st: SetState, v: nat)
    requires SetInv(w) && Shows(w, st)
    ensures v in w.pages <==> v in st.linear || v in st.owner
    ensures v in st.linear ==> w.pages[v] == st.linear[v]
    ensures v in st.owner ==>
              && st.owner[v] < |w.held| && v in w.held[st.owner[v]].data
              && w.pages[v] == PteNew(w.held[st.owner[v]].data[v], WithV(st.descs[st.owner[v]].perm))
  {
    hide TableInv, FramesInv, Live, PteNew, WithV, Contents, Apart;
    if v in st.owner {
      var h := w.held[st.owner[v]];
      assert v in Pages(h.d) && v in h.data;
      Euclid(v, 0x800_0000, 0, v);
      assert AreaInv(h.d, Live(w.pool), w.frames, w.pages, h.data);
    }
  }

  /** Every byte of a standing framed area, read through the table, is the one last pushed or copied there. */
  lemma ReadsBack(w: Whole, st: SetState, k: nat, i: nat)
    requires SetInv(w) && Shows(w, st) && k < |w.held| && k !in st.gone && w.held[k].d.mapType.Framed?
    requires i < |st.contents[k]|
    ensures AreaByte(st.descs[k], w.m, w.root, i) == Some(st.contents[k][i])
  {
    hide TableInv, FramesInv, Live, AreaInv, Apart, Linked, Counts, ReadByte, ReadVa;
    var h, c := w.held[k], st.contents[k];
    assert Stores(h, w.m, c) && AreaInv(h.d, Live(w.pool), w.frames, w.pages, h.data);
    var x, off := h.d.vpnStart + i / 4096, i % 4096;
    assert x in Pages(h.d) && StoredAt(h.d, h.data, w.m, c, x, off);
    ReadOwnPage(h.d, w.m, Live(w.pool), w.root, w.frames, w.tree, w.pages, h.data, x, off);
    assert x * 4096 + off == h.d.vpnStart * 4096 + i && (x - h.d.vpnStart) * 4096 + off == i;
  }

  /** Any run of calls goes through exactly when the abstract run does, ends in the abstract state, and
      leaves everybody else's frames as they were. */
  method Run(mem: PhysMem, alloc: FrameAllocator, s: MemorySet, ops: seq<SetOp>, ghost st: SetState) returns (r: Outcome)
    requires s.Valid(mem, alloc) && Shows(View(mem, alloc, s), st) && ProperRun(st, ops)
    modifies s, s.table, s.areas, mem, alloc
    ensures r.Done? <==> RunSet(st, ops).Some?
    ensures r.Done? ==>
              && s.Valid(mem, alloc) && Shows(View(mem, alloc, s), RunSet(st, ops).value)
              && Kept(old(View(mem, alloc, s)), View(mem, alloc, s))
    ensures r.Done? ==>
              |s.areas| >= old(|s.areas|) &&
              forall i :: 0 <= i < |s.areas| ==> if i < old(|s.areas|) then s.areas[i] == old(s.areas)[i] else fresh(s.areas[i])
  {
    hide TableInv, AreaInv, Apart, Live, FramesInv, Elements, Kept, Shows, Proper, StepSet, RunSet;
    ghost var w := View(mem, alloc, s);
    r := Done;
    KeptAtOnce(w);
    RunNothing(st);
    for n := 0 to |ops|
      invariant s.Valid(mem, alloc) && RunSet(st, ops[..n]).Some? && Shows(View(mem, alloc, s), RunSet(st, ops[..n]).value)
      invariant Kept(w, View(mem, alloc, s)) && r.Done?
      invariant |s.areas| >= old(|s.areas|)
      invariant forall i :: 0 <= i < |s.areas| ==> if i < old(|s.areas|) then s.areas[i] == old(s.areas)[i] else fresh(s.areas[i])
    {
      ghost var w1, st1 := View(mem, alloc, s), RunSet(st, ops[..n]).value;
      RunNext(st, ops, n);
      r := Perform(mem, alloc, s, ops[n], st1);
      if !r.Done? {
        RunStops(st, ops, n + 1);
        return;
      }
      KeptTwice(w, w1, View(mem, alloc, s));
    }
    assert ops[..|ops|] == ops;
  }

  lemma RunNothing(st: SetState)
    ensures RunSet(st, []) == Some(st)
  {
  }

  lemma RunNext(st: SetState, ops: seq<SetOp>, n: nat)
    requires n < |ops|
    ensures RunSet(st, ops[..n + 1]) ==
            match RunSet(st, ops[..n]) case None => None case Some(before) => StepSet(before, ops[n])
  {
    hide StepSet;
    assert ops[..n + 1][..n] == ops[..n];
  }

  lemma {:induction false} RunStops(st: SetState, ops: seq<SetOp>, n: nat)
    requires n <= |ops| && RunSet(st, ops[..n]).None?
    ensures RunSet(st, ops).None?
    decreases |ops|
  {
    hide StepSet;
    if n == |ops| {
      assert ops[..n] == ops;
    } else {
      assert ops[..|ops| - 1][..n] == ops[..n];
      RunStops(st, ops[..|ops| - 1], n);
    }
  }
}
