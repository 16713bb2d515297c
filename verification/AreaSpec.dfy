/** What a `MapArea` (src/mm/memory_set.rs) means: a range of pages mapped linearly or onto its own frames. */
module AreaSpecs {
  import opened Words
  import opened Frames
  import opened Memory
  import opened TableModel
  import opened PageTables

  datatype MapType = Framed | Linear

  /** The fixed part of an area: page range, physical range if it has one, kind and permissions. */
  datatype AreaDesc = AreaDesc(vpnStart: nat, vpnEnd: nat, ppns: Option<(nat, nat)>, mapType: MapType, perm: Flags)

  /** The range has a page hull: its end can be rounded up, to no page before that of its start. */
  predicate Hulls(start: nat, end: nat) {
    0 < end <= 0xffff_ffff_ffff_f000 && start - start % 4096 < end + 4096
  }

  /** `MapArea::new`: floor the start, round the end up; None is the panic of a checked operation or of
      an empty-backwards range. */
  function NewArea(startVa: nat, endVa: nat, pas: Option<(nat, nat)>, mapType: MapType, perm: Flags): (d: Option<AreaDesc>)
    ensures d.Some? <==> Hulls(startVa, endVa) && (pas.Some? ==> Hulls(pas.value.0, pas.value.1))
    ensures d.Some? ==>
              && d.value.vpnStart <= d.value.vpnEnd && d.value.mapType == mapType && d.value.perm == perm
              && d.value.vpnStart * 4096 <= startVa < (d.value.vpnStart + 1) * 4096
              && endVa <= d.value.vpnEnd * 4096 < endVa + 4096
              && (d.value.ppns.Some? <==> pas.Some?)
              && (pas.Some? ==>
                    && d.value.ppns.value.0 <= d.value.ppns.value.1
                    && d.value.ppns.value.0 * 4096 <= pas.value.0 < (d.value.ppns.value.0 + 1) * 4096
                    && pas.value.1 <= d.value.ppns.value.1 * 4096 < pas.value.1 + 4096)
  {
    var endVpn := Ceil(endVa);
    if endVpn.None? then None
    else if pas.Some? then
      var endPpn := Ceil(pas.value.1);
      if endPpn.None? || Floor(startVa) > endVpn.value || Floor(pas.value.0) > endPpn.value then None
      else Some(AreaDesc(Floor(startVa), endVpn.value, Some((Floor(pas.value.0), endPpn.value)), mapType, perm))
    else if Floor(startVa) > endVpn.value then None
    else Some(AreaDesc(Floor(startVa), endVpn.value, None, mapType, perm))
  }

  /** The pages of an area. */
  function Pages(d: AreaDesc): set<nat> {
    Range(d.vpnStart, d.vpnEnd)
  }

  // ---------------------------------------------------------------- what an area holds

  /** The area's frames are live, distinct, not the table's, and each maps its own page. */
  ghost predicate AreaInv(d: AreaDesc, live: set<nat>, frames: seq<nat>, pages: PageMap, data: map<nat, nat>) {
    && (d.mapType.Linear? ==> data == map[])
    && (forall v :: v in data ==> data[v] in live && data[v] !in frames && data[v] < 0x1000_0000_0000)
    && (forall v, w :: v in data && w in data && data[v] == data[w] ==> v == w)
    && (forall v :: v in data ==> Key(v) in pages && pages[Key(v)] == PteNew(data[v], WithV(d.perm)))
  }

  /** Table and area together took frames from the pool; nobody else's frames changed hands. */
  ghost predicate BothGrew(s: FrameState, s': FrameState, frames: seq<nat>, frames': seq<nat>,
                           data: map<nat, nat>, data': map<nat, nat>)
  {
    && Elements(frames) <= Elements(frames') && data.Values <= data'.Values
    && Live(s') - Elements(frames') - data'.Values == Live(s) - Elements(frames) - data.Values
    && FreeCount(s') + |frames'| + |data'| == FreeCount(s) + |frames| + |data|
    && s'.lo == s.lo && s'.end == s.end
  }

  lemma LinearGrew(d: AreaDesc, s: FrameState, s': FrameState, frames: seq<nat>, frames': seq<nat>, pages: PageMap,
                   data: map<nat, nat>, pages': PageMap)
    requires AreaInv(d, Live(s), frames, pages, data) && d.mapType.Linear? && Grew(s, s', frames, frames')
    ensures AreaInv(d, Live(s'), frames', pages', data) && BothGrew(s, s', frames, frames', data, data)
  {
  }

  /** A data frame f was taken (s to s1), then the table grew (s1 to s'). */
  lemma FramedGrew(d: AreaDesc, s: FrameState, s1: FrameState, s': FrameState, frames: seq<nat>, frames': seq<nat>,
                   data: map<nat, nat>, vpn: nat, f: nat)
    requires (forall v :: v in data ==> data[v] in Live(s)) && vpn !in data
    requires Elements(frames) <= Live(s) && f !in Live(s)
    requires Live(s1) == Live(s) + {f} && FreeCount(s1) == FreeCount(s) - 1 && s1.lo == s.lo && s1.end == s.end
    requires Grew(s1, s', frames, frames')
    ensures BothGrew(s, s', frames, frames', data, data[vpn := f])
    ensures f !in frames' && f in Live(s') && forall x :: x in Live(s) && x !in frames ==> x in Live(s') && x !in frames'
  {
    assert f in Live(s1) - Elements(frames);
    assert f in Live(s') - Elements(frames');
    ValuesAfterInsert(data, vpn, f);
    forall x | x in Live(s) && x !in frames ensures x in Live(s') && x !in frames' {
      assert x in Live(s1) - Elements(frames);
      assert x in Live(s') - Elements(frames');
    }
  }

  lemma ValuesAfterInsert(data: map<nat, nat>, vpn: nat, f: nat)
    requires vpn !in data
    ensures data[vpn := f].Values == data.Values + {f} && |data[vpn := f]| == |data| + 1
  {
    var data' := data[vpn := f];
    assert data'.Keys == data.Keys + {vpn};
    forall x | x in data.Values ensures x in data'.Values {
      var v :| v in data && data[v] == x;
      assert data'[v] == x;
    }
    assert data'[vpn] == f;
  }

  lemma FramedInv(d: AreaDesc, live: set<nat>, frames: seq<nat>, pages: PageMap, data: map<nat, nat>,
                  live': set<nat>, frames': seq<nat>, vpn: nat, f: nat)
    requires AreaInv(d, live, frames, pages, data) && d.mapType.Framed?
    requires Key(vpn) !in pages && f < 0x1000_0000_0000
    requires f !in live && f !in frames' && f in live'
    requires forall x :: x in live && x !in frames ==> x in live' && x !in frames'
    ensures AreaInv(d, live', frames', pages[Key(vpn) := PteNew(f, WithV(d.perm))], data[vpn := f])
  {
    hide PteNew, WithV, Key;
  }

  /** Data frames that n pages of the area need. */
  function DataNeed(d: AreaDesc, n: nat): nat {
    if d.mapType.Framed? then n else 0
  }

  // ---------------------------------------------------------------- how many tables a range needs

  /** The prefixes x / n of the pages x in [s, e). */
  function Prefixes(s: nat, e: nat, n: nat): set<nat>
    requires n > 0
  {
    if s >= e then {} else Prefixes(s, e - 1, n) + {(e - 1) / n}
  }

  /** One table per 1 GiB and per 2 MiB prefix that the tree lacks. */
  ghost function TableNeed(t: Tree, s: nat, e: nat): nat {
    |Prefixes(s, e, 0x4_0000) - t.mid.Keys| + |Prefixes(s, e, 512) - t.leaf.Keys|
  }

  lemma AddPrefix(have: set<nat>, p: set<nat>, x: nat)
    ensures |p + {x} - have| == |p - have| + if x in have + p then 0 else 1
  {
    if x in have + p {
      assert p + {x} - have == p - have;
    } else {
      assert p + {x} - have == (p - have) + {x};
    }
  }

  /** Mapping one more page costs what its path still lacks. */
  lemma NeedStep(t0: Tree, t: Tree, s: nat, v: nat)
    requires s <= v < 0x800_0000 && TablesAdded(t0, t, s, v)
    ensures TableNeed(t0, s, v + 1) == TableNeed(t0, s, v) + Missing(t, v)
  {
    Euclid(v, 0x800_0000, 0, v);
    AddPrefix(t0.mid.Keys, Prefixes(s, v, 0x4_0000), v / 0x4_0000);
    AddPrefix(t0.leaf.Keys, Prefixes(s, v, 512), v / 512);
  }

  lemma {:induction false} PrefixesGrow(s: nat, v: nat, e: nat, n: nat)
    requires v <= e && n > 0
    ensures Prefixes(s, v, n) <= Prefixes(s, e, n)
    decreases e - v
  {
    if v < e { PrefixesGrow(s, v, e - 1, n); }
  }

  lemma NeedGrows(t: Tree, s: nat, v: nat, e: nat)
    requires v <= e
    ensures TableNeed(t, s, v) <= TableNeed(t, s, e)
  {
    PrefixesGrow(s, v, e, 512);
    PrefixesGrow(s, v, e, 0x4_0000);
    hide Prefixes;
    SubsetSize(Prefixes(s, v, 512) - t.leaf.Keys, Prefixes(s, e, 512) - t.leaf.Keys);
    SubsetSize(Prefixes(s, v, 0x4_0000) - t.mid.Keys, Prefixes(s, e, 0x4_0000) - t.mid.Keys);
  }

  lemma DivStep(x: nat, n: nat)
    requires n > 0
    ensures x / n <= (x + 1) / n <= x / n + 1
  {
    var q, r := x / n, x % n;
    assert x == q * n + r;
    if r + 1 < n {
      Euclid(x + 1, n, q, r + 1);
    } else {
      assert x + 1 == (q + 1) * n;
      Euclid(x + 1, n, q + 1, 0);
    }
  }

  lemma {:induction false} PrefixesAreRange(s: nat, e: nat, n: nat)
    requires s < e && n > 0
    ensures s / n <= (e - 1) / n
    ensures Prefixes(s, e, n) == Range(s / n, (e - 1) / n + 1)
    decreases e
  {
    if s < e - 1 {
      PrefixesAreRange(s, e - 1, n);
      DivStep(e - 2, n);
    } else {
      assert Prefixes(s, s, n) == {};
    }
  }

  /** The bound in closed form: the number of 2 MiB and of 1 GiB prefixes that the range touches. */
  lemma NeedBound(t: Tree, s: nat, e: nat)
    requires s < e
    ensures TableNeed(t, s, e) <= ((e - 1) / 512 - s / 512 + 1) + ((e - 1) / 0x4_0000 - s / 0x4_0000 + 1)
    ensures t.mid == map[] && t.leaf == map[] ==>
              TableNeed(t, s, e) == ((e - 1) / 512 - s / 512 + 1) + ((e - 1) / 0x4_0000 - s / 0x4_0000 + 1)
  {
    PrefixCount(s, e, 512, t.leaf.Keys);
    PrefixCount(s, e, 0x4_0000, t.mid.Keys);
    hide Prefixes;
  }

  lemma PrefixCount(s: nat, e: nat, n: nat, have: set<nat>)
    requires s < e && n > 0
    ensures s / n <= (e - 1) / n
    ensures |Prefixes(s, e, n) - have| <= (e - 1) / n - s / n + 1
    ensures have == {} ==> |Prefixes(s, e, n) - have| == (e - 1) / n - s / n + 1
  {
    hide Prefixes, Range;
    PrefixesAreRange(s, e, n);
    CountWithout(Prefixes(s, e, n), s / n, (e - 1) / n, have);
  }

  lemma CountWithout(p: set<nat>, lo: nat, hi: nat, have: set<nat>)
    requires p == Range(lo, hi + 1) && lo <= hi
    ensures |p - have| <= hi - lo + 1
    ensures have == {} ==> |p - have| == hi - lo + 1
  {
    RangeSize(lo, hi + 1);
    hide Range;
    SubsetSize(p - have, p);
    assert have == {} ==> p - have == p;
  }

  lemma SubsetSize(a: set<nat>, b: set<nat>)
    requires a <= b
    ensures |a| <= |b|
  {
    assert b == a + (b - a);
  }

  // ---------------------------------------------------------------- a range mapped up to a page

  /** All that an area's operations read or change. */
  datatype Snap = Snap(m: Mem, pool: FrameState, frames: seq<nat>, tree: Tree, pages: PageMap, data: map<nat, nat>)

  /** Where page x of the area goes. */
  function Target(d: AreaDesc, data: map<nat, nat>, x: nat): nat {
    if d.mapType.Framed? then (if x in data then data[x] else 0)
    else if d.ppns.Some? && d.vpnStart <= x then d.ppns.value.0 + (x - d.vpnStart)
    else 0
  }

  /** The pages [vpnStart, v) were added to the map, each with its target, and nothing else changed. */
  ghost predicate PagesAdded(d: AreaDesc, pages0: PageMap, pages: PageMap, data: map<nat, nat>, v: nat) {
    && pages0.Keys !! Range(d.vpnStart, v) && pages.Keys == pages0.Keys + Range(d.vpnStart, v)
    && (forall x :: x in pages0 ==> pages[x] == pages0[x])
    && (forall x :: d.vpnStart <= x < v ==> pages[x] == PteNew(Target(d, data, x), WithV(d.perm)))
  }

  /** A framed area gained one cleared frame, free before, for each page of [vpnStart, v). */
  ghost predicate DataAdded(d: AreaDesc, o: Snap, n: Snap, v: nat) {
    if d.mapType.Linear? then n.data == o.data
    else
      && o.data.Keys !! Range(d.vpnStart, v) && n.data.Keys == o.data.Keys + Range(d.vpnStart, v)
      && (forall x :: x in o.data ==> n.data[x] == o.data[x])
      && (forall x :: d.vpnStart <= x < v ==> n.data[x] !in Live(o.pool) && ZeroFrame(n.m, n.data[x]))
  }

  ghost predicate TablesAdded(t0: Tree, t: Tree, s: nat, v: nat) {
    && t.mid.Keys == t0.mid.Keys + Prefixes(s, v, 0x4_0000) && t.leaf.Keys == t0.leaf.Keys + Prefixes(s, v, 512)
    && t.root == t0.root && t.spare == t0.spare
  }

  ghost predicate Progress(d: AreaDesc, o: Snap, n: Snap, v: nat) {
    && d.vpnStart <= v
    && PagesAdded(d, o.pages, n.pages, n.data, v)
    && DataAdded(d, o, n, v)
    && TablesAdded(o.tree, n.tree, d.vpnStart, v)
    && BothGrew(o.pool, n.pool, o.frames, n.frames, o.data, n.data)
    && |n.frames| == |o.frames| + TableNeed(o.tree, d.vpnStart, v)
    && |n.data| == |o.data| + DataNeed(d, v - d.vpnStart)
    && SameOutside(o.m, n.m, Elements(n.frames) + (n.data.Values - o.data.Values))
  }

  /** What one successful `map_one` does. */
  ghost predicate OnePage(d: AreaDesc, n: Snap, n': Snap, vpn: nat, ppn: Option<nat>) {
    && Key(vpn) !in n.pages
    && PathAdded(n.tree, n'.tree, vpn)
    && |n'.frames| == |n.frames| + Missing(n.tree, vpn)
    && BothGrew(n.pool, n'.pool, n.frames, n'.frames, n.data, n'.data)
    && (d.mapType.Linear? ==>
          && ppn.Some? && n'.data == n.data
          && n'.pages == n.pages[Key(vpn) := PteNew(ppn.value, WithV(d.perm))]
          && SameOutside(n.m, n'.m, Elements(n'.frames)))
    && (d.mapType.Framed? ==>
          && vpn !in n.data && vpn in n'.data && n'.data == n.data[vpn := n'.data[vpn]]
          && n'.pages == n.pages[Key(vpn) := PteNew(n'.data[vpn], WithV(d.perm))]
          && n'.data[vpn] !in Live(n.pool) && ZeroFrame(n'.m, n'.data[vpn])
          && SameOutside(n.m, n'.m, Elements(n'.frames) + {n'.data[vpn]}))
  }

  /** The area's invariant over a snapshot, with the frames of the table. */
  ghost predicate SnapInv(d: AreaDesc, n: Snap) {
    AreaInv(d, Live(n.pool), n.frames, n.pages, n.data) && Elements(n.frames) <= Live(n.pool)
  }

  lemma NoProgress(d: AreaDesc, o: Snap)
    ensures Progress(d, o, o, d.vpnStart)
  {
    hide PagesAdded, DataAdded, Prefixes, Live, TableNeed, Elements, FreeCount;
    NeedNothing(o.tree, d.vpnStart);
    NoPages(d, o);
  }

  lemma NoPages(d: AreaDesc, o: Snap)
    ensures PagesAdded(d, o.pages, o.pages, o.data, d.vpnStart) && DataAdded(d, o, o, d.vpnStart)
  {
    hide PteNew, WithV, Target, ZeroFrame, Live;
    assert Range(d.vpnStart, d.vpnStart) == {};
  }

  lemma NeedNothing(t: Tree, s: nat)
    ensures TableNeed(t, s, s) == 0 && Prefixes(s, s, 0x4_0000) == {} && Prefixes(s, s, 512) == {}
  {
    assert Prefixes(s, s, 0x4_0000) - t.mid.Keys == {} && Prefixes(s, s, 512) - t.leaf.Keys == {};
  }

  lemma RangeGrows(s: nat, v: nat)
    requires s <= v
    ensures Range(s, v + 1) == Range(s, v) + {v}
  {
  }

  lemma PagesStep(d: AreaDesc, pages0: PageMap, pages: PageMap, data: map<nat, nat>, v: nat, data': map<nat, nat>)
    requires PagesAdded(d, pages0, pages, data, v) && d.vpnStart <= v && v !in pages
    requires forall x :: d.vpnStart <= x < v ==> Target(d, data', x) == Target(d, data, x)
    ensures PagesAdded(d, pages0, pages[v := PteNew(Target(d, data', v), WithV(d.perm))], data', v + 1)
  {
    hide PteNew, Target, WithV, Range;
    RangeGrows(d.vpnStart, v);
  }

  lemma TablesStep(t0: Tree, t: Tree, t': Tree, s: nat, v: nat)
    requires TablesAdded(t0, t, s, v) && PathAdded(t, t', v) && s <= v < 0x800_0000
    ensures TablesAdded(t0, t', s, v + 1)
  {
    Euclid(v, 0x800_0000, 0, v);
  }

  lemma LiveOnlyGrew(d: AreaDesc, o: Snap, n: Snap)
    requires BothGrew(o.pool, n.pool, o.frames, n.frames, o.data, n.data) && SnapInv(d, n)
    ensures Live(o.pool) <= Live(n.pool)
  {
    hide PteNew, Live;
    forall x | x in Live(o.pool) ensures x in Live(n.pool) {
      if x in o.data.Values {
        assert x in n.data.Values;
      } else if x !in Elements(o.frames) {
        assert x in Live(n.pool) - Elements(n.frames) - n.data.Values;
      }
    }
  }

  lemma DataStep(d: AreaDesc, o: Snap, n: Snap, n': Snap, v: nat, ppn: Option<nat>)
    requires DataAdded(d, o, n, v) && d.vpnStart <= v && SnapInv(d, n) && SnapInv(d, n')
    requires OnePage(d, n, n', v, ppn) && d.mapType.Framed? && Live(o.pool) <= Live(n.pool)
    ensures DataAdded(d, o, n', v + 1)
  {
    hide PteNew, WithV, Range, PathAdded, Missing, BothGrew, Live, Key, SameOutside, ZeroFrame, Elements;
    RangeGrows(d.vpnStart, v);
    forall x | d.vpnStart <= x < v ensures ZeroFrame(n'.m, n'.data[x]) {
      assert n'.data[x] == n.data[x] && n.data[x] in Live(n.pool);
      ZeroStays(n.m, n'.m, n'.frames, n'.data[v], n'.data[x]);
    }
  }

  lemma ZeroStays(m: Mem, m': Mem, frames: seq<nat>, f: nat, p: nat)
    requires SameOutside(m, m', Elements(frames) + {f}) && p !in frames && p != f && ZeroFrame(m, p)
    ensures ZeroFrame(m', p)
  {
  }

  lemma OutsideStep(o: Snap, n: Snap, n': Snap, f: set<nat>)
    requires SameOutside(o.m, n.m, Elements(n.frames) + (n.data.Values - o.data.Values))
    requires SameOutside(n.m, n'.m, Elements(n'.frames) + f)
    requires Elements(n.frames) <= Elements(n'.frames) && n'.data.Values == n.data.Values + f && o.data.Values !! f
    ensures SameOutside(o.m, n'.m, Elements(n'.frames) + (n'.data.Values - o.data.Values))
  {
  }

  lemma BothGrewOnward(o: Snap, n: Snap, n': Snap)
    requires BothGrew(o.pool, n.pool, o.frames, n.frames, o.data, n.data)
    requires BothGrew(n.pool, n'.pool, n.frames, n'.frames, n.data, n'.data)
    ensures BothGrew(o.pool, n'.pool, o.frames, n'.frames, o.data, n'.data)
  {
    hide Live;
  }

  /** A successful `map_one` on the next page carries the range one page further. */
  lemma ProgressStep(d: AreaDesc, o: Snap, n: Snap, n': Snap, v: nat, ppn: Option<nat>)
    requires Progress(d, o, n, v) && v < 0x800_0000
    requires SnapInv(d, o) && SnapInv(d, n) && SnapInv(d, n')
    requires OnePage(d, n, n', v, ppn)
    requires d.mapType.Linear? ==> ppn == Some(Target(d, n.data, v))
    ensures Progress(d, o, n', v + 1)
  {
    hide PagesAdded, DataAdded, TablesAdded, BothGrew, PathAdded, SameOutside, ZeroFrame, PteNew, Live, TableNeed, Missing, AreaInv;
    LiveOnlyGrew(d, o, n);
    PagesProgress(d, o, n, n', v, ppn);
    DataProgress(d, o, n, n', v, ppn);
    NeedStep(o.tree, n.tree, d.vpnStart, v);
    TablesStep(o.tree, n.tree, n'.tree, d.vpnStart, v);
    BothGrewOnward(o, n, n');
  }

  lemma PagesProgress(d: AreaDesc, o: Snap, n: Snap, n': Snap, v: nat, ppn: Option<nat>)
    requires PagesAdded(d, o.pages, n.pages, n.data, v) && OnePage(d, n, n', v, ppn) && d.vpnStart <= v < 0x800_0000
    requires d.mapType.Linear? ==> ppn == Some(Target(d, n.data, v))
    ensures PagesAdded(d, o.pages, n'.pages, n'.data, v + 1)
  {
    hide PagesAdded, PathAdded, BothGrew, SameOutside, ZeroFrame, PteNew, WithV, Missing;
    Euclid(v, 0x800_0000, 0, v);
    PagesStep(d, o.pages, n.pages, n.data, v, n'.data);
  }

  lemma DataProgress(d: AreaDesc, o: Snap, n: Snap, n': Snap, v: nat, ppn: Option<nat>)
    requires Progress(d, o, n, v) && OnePage(d, n, n', v, ppn) && Live(o.pool) <= Live(n.pool)
    requires SnapInv(d, o) && SnapInv(d, n) && SnapInv(d, n')
    ensures DataAdded(d, o, n', v + 1)
    ensures |n'.data| == |o.data| + DataNeed(d, v + 1 - d.vpnStart)
    ensures SameOutside(o.m, n'.m, Elements(n'.frames) + (n'.data.Values - o.data.Values))
  {
    hide PagesAdded, PathAdded, TablesAdded, SameOutside, ZeroFrame, PteNew, WithV, Missing, TableNeed, Live;
    if d.mapType.Framed? {
      ValuesAfterInsert(n.data, v, n'.data[v]);
      DataStep(d, o, n, n', v, ppn);
      OutsideStep(o, n, n', {n'.data[v]});
    } else {
      assert Elements(n'.frames) + {} == Elements(n'.frames);
      OutsideStep(o, n, n', {});
    }
  }

  // ---------------------------------------------------------------- when a whole range can be mapped

  /** The exact condition under which `MapArea::map` returns. */
  ghost predicate Fits(d: AreaDesc, o: Snap) {
    && d.vpnStart <= d.vpnEnd
    && (d.ppns.Some? ==> d.vpnStart < d.vpnEnd && d.ppns.value.1 - d.ppns.value.0 == d.vpnEnd - d.vpnStart)
    && (d.ppns.None? ==> d.mapType.Framed? || d.vpnStart == d.vpnEnd)
    && (forall v :: d.vpnStart <= v < d.vpnEnd ==> v !in o.pages)
    && TableNeed(o.tree, d.vpnStart, d.vpnEnd) + DataNeed(d, d.vpnEnd - d.vpnStart) <= FreeCount(o.pool)
  }

  /** What a panic of `MapArea::map` says about the state it was called in. */
  ghost predicate Explains(d: AreaDesc, o: Snap, why: Reason) {
    match why
    case OutOfFrames =>
      d.vpnStart <= d.vpnEnd &&
      TableNeed(o.tree, d.vpnStart, d.vpnEnd) + DataNeed(d, d.vpnEnd - d.vpnStart) > FreeCount(o.pool)
    case AlreadyMapped => exists v :: d.vpnStart <= v < d.vpnEnd && v in o.pages
    case NoPhysicalRange => d.mapType.Linear? && d.ppns.None? && d.vpnStart < d.vpnEnd
    case RangeMismatch => d.ppns.Some? && d.ppns.value.1 - d.ppns.value.0 != d.vpnEnd - d.vpnStart
    case _ => false
  }

  /** What a panic of `map_one` says about the state it was called in. */
  ghost predicate Blocks(d: AreaDesc, n: Snap, vpn: nat, ppn: Option<nat>, why: Reason) {
    match why
    case OutOfFrames => Missing(n.tree, vpn) + DataNeed(d, 1) > FreeCount(n.pool)
    case AlreadyMapped => Key(vpn) in n.pages
    case NoPhysicalRange => d.mapType.Linear? && ppn.None?
    case _ => false
  }

  /** A page that blocks the range explains the range's panic. */
  lemma BlockedRange(d: AreaDesc, o: Snap, n: Snap, v: nat, ppn: Option<nat>, why: Reason)
    requires Progress(d, o, n, v) && v < d.vpnEnd <= 0x800_0000 && (ppn.Some? <==> d.ppns.Some?)
    requires Blocks(d, n, v, ppn, why)
    ensures Explains(d, o, why)
  {
    hide Progress, TableNeed, Missing, FreeCount;
    match why
    case OutOfFrames =>
      ShortNow(d, o, n, v);
      NeedGrows(o.tree, d.vpnStart, v + 1, d.vpnEnd);
    case AlreadyMapped => MappedBefore(d, o, n, v);
    case NoPhysicalRange => StartsBelow(d, o, n, v);
  }

  lemma StartsBelow(d: AreaDesc, o: Snap, n: Snap, v: nat)
    requires Progress(d, o, n, v)
    ensures d.vpnStart <= v
  {
  }

  /** What is short at the next page is short from the start. */
  lemma ShortNow(d: AreaDesc, o: Snap, n: Snap, v: nat)
    requires Progress(d, o, n, v) && v < 0x800_0000
    ensures d.vpnStart <= v
    ensures TableNeed(o.tree, d.vpnStart, v + 1) + DataNeed(d, v + 1 - d.vpnStart) - FreeCount(o.pool)
            == Missing(n.tree, v) + DataNeed(d, 1) - FreeCount(n.pool)
  {
    NeedStep(o.tree, n.tree, d.vpnStart, v);
    hide PagesAdded, DataAdded, SameOutside, TableNeed, Missing, Live, FreeCount, Elements, TablesAdded;
  }

  lemma MappedBefore(d: AreaDesc, o: Snap, n: Snap, v: nat)
    requires Progress(d, o, n, v) && v < 0x800_0000 && Key(v) in n.pages
    ensures d.vpnStart <= v && v in o.pages
  {
    hide PteNew, DataAdded, SameOutside, TableNeed, BothGrew, TablesAdded;
    Euclid(v, 0x800_0000, 0, v);
  }

  /** A mapped area's entries, in numbers. */
  lemma EntriesOf(d: AreaDesc, o: Snap, n: Snap, x: nat)
    requires Fits(d, o) && Progress(d, o, n, d.vpnEnd) && d.vpnStart <= x < d.vpnEnd
    ensures x in n.pages
    ensures d.mapType.Linear? ==>
              d.ppns.Some? && n.pages[x] == (d.ppns.value.0 + (x - d.vpnStart)) % 0x40_0000_0000_0000 * 1024 + d.perm / 2 * 2 + 1
    ensures d.mapType.Framed? ==>
              x in n.data && n.pages[x] == n.data[x] % 0x40_0000_0000_0000 * 1024 + d.perm / 2 * 2 + 1
  {
    hide PteNew, WithV, Progress, Fits;
    EntryAt(d, o, n, x);
    TargetAt(d, o, n, x);
    PteNumbers(Target(d, n.data, x), d.perm);
  }

  lemma EntryAt(d: AreaDesc, o: Snap, n: Snap, x: nat)
    requires Progress(d, o, n, d.vpnEnd) && d.vpnStart <= x < d.vpnEnd
    ensures x in n.pages && n.pages[x] == PteNew(Target(d, n.data, x), WithV(d.perm))
  {
    hide PteNew, WithV, TablesAdded, BothGrew, TableNeed, SameOutside, DataAdded, Target;
    assert x in Range(d.vpnStart, d.vpnEnd);
  }

  lemma TargetAt(d: AreaDesc, o: Snap, n: Snap, x: nat)
    requires Fits(d, o) && Progress(d, o, n, d.vpnEnd) && d.vpnStart <= x < d.vpnEnd
    ensures d.mapType.Linear? ==> d.ppns.Some?
    ensures d.mapType.Framed? ==> x in n.data
  {
    hide PagesAdded, TablesAdded, BothGrew, TableNeed, SameOutside;
    assert x in Range(d.vpnStart, d.vpnEnd);
  }

  /** What a pushed area adds, whatever its bytes: its pages, its frames, and the missing tables. */
  ghost predicate Extended(d: AreaDesc, o: Snap, n: Snap) {
    && d.vpnStart <= d.vpnEnd
    && PagesAdded(d, o.pages, n.pages, n.data, d.vpnEnd)
    && n.data.Keys == o.data.Keys + (if d.mapType.Framed? then Range(d.vpnStart, d.vpnEnd) else {})
    && TablesAdded(o.tree, n.tree, d.vpnStart, d.vpnEnd)
    && BothGrew(o.pool, n.pool, o.frames, n.frames, o.data, n.data)
    && FreeCount(n.pool) == FreeCount(o.pool) - TableNeed(o.tree, d.vpnStart, d.vpnEnd) - DataNeed(d, d.vpnEnd - d.vpnStart)
  }

  lemma ProgressExtends(d: AreaDesc, o: Snap, n: Snap)
    requires Progress(d, o, n, d.vpnEnd)
    ensures Extended(d, o, n)
  {
    hide PagesAdded, TablesAdded, TableNeed, SameOutside, FreeCount, Live;
  }

  /** The condition on one page, given what was mapped before it. */
  ghost predicate PageFits(d: AreaDesc, o: Snap, v: nat, ppn: Option<nat>) {
    && v !in o.pages && (d.mapType.Linear? ==> ppn.Some?)
    && d.vpnStart <= v
    && TableNeed(o.tree, d.vpnStart, v + 1) + DataNeed(d, v + 1 - d.vpnStart) <= FreeCount(o.pool)
  }

  lemma FitsEachPage(d: AreaDesc, o: Snap, v: nat, ppn: Option<nat>)
    requires d.vpnStart <= v < d.vpnEnd && !PageFits(d, o, v, ppn) && (ppn.Some? <==> d.ppns.Some?)
    ensures !Fits(d, o)
  {
    hide TableNeed, FreeCount;
    NeedGrows(o.tree, d.vpnStart, v + 1, d.vpnEnd);
  }
}
