/** The guest's stage-2 address space (`new_guest_without_load`, src/mm/memory_set.rs). */
module GuestSpaces {
  import opened Words
  import opened Frames
  import opened Memory
  import opened TableModel
  import opened PageTables
  import opened AreaSpecs
  import opened MapAreas
  import opened MemorySets

  datatype Device = Device(base: nat, size: nat)

  datatype MachineMeta = MachineMeta(memOffset: nat, memSize: nat, virtio: seq<Device>, test: Option<Device>,
                                     uart: Option<Device>, clint: Option<Device>, plic: Option<Device>, pci: Option<Device>)

  const RWU: Flags := 22
  const RWXU: Flags := 30

  // ---------------------------------------------------------------- the pushes, in order

  /** Guest memory, from 2 MiB below its offset; None is the panic of a checked operation. */
  function MemoryArea(g: MachineMeta): Option<AreaDesc> {
    if g.memOffset < 0x20_0000 || g.memOffset + g.memSize >= 0x1_0000_0000_0000_0000 then None
    else
      var s, e := g.memOffset - 0x20_0000, g.memOffset + g.memSize;
      NewArea(s, e, Some((s, e)), Linear, RWXU)
  }

  /** A device's registers, mapped onto themselves after the masks of the address types. */
  function DeviceArea(base: nat, length: nat, perm: Flags): Option<AreaDesc> {
    if base + length >= 0x1_0000_0000_0000_0000 then None
    else
      NewArea(VirtAddr(base), VirtAddr(base + length), Some((PhysAddr(base), PhysAddr(base + length))), Linear, perm)
  }

  function TrampolinePlan(strampoline: nat): Option<AreaDesc> {
    if PhysAddr(strampoline) % 4096 != 0 then None else Some(TrampolineArea(strampoline))
  }

  type Plan = seq<Option<AreaDesc>>

  function OptionalDevice(dev: Option<Device>, length: Device -> nat, perm: Flags): Plan {
    if dev.None? then [] else [DeviceArea(dev.value.base, length(dev.value), perm)]
  }

  function VirtioPlan(devs: seq<Device>): Plan {
    if devs == [] then [] else [DeviceArea(devs[0].base, devs[0].size, RWU)] + VirtioPlan(devs[1..])
  }

  function PlanFromPci(g: MachineMeta): Plan {
    OptionalDevice(g.pci, (d: Device) => 0x20_0000, RWU)
  }

  function PlanFromPlic(g: MachineMeta): Plan {
    OptionalDevice(g.plic, (d: Device) => 0x20_0000, RWU) + PlanFromPci(g)
  }

  function PlanFromClint(g: MachineMeta): Plan {
    OptionalDevice(g.clint, (d: Device) => d.size, RWU) + PlanFromPlic(g)
  }

  function PlanFromUart(g: MachineMeta): Plan {
    OptionalDevice(g.uart, (d: Device) => d.size, RWU) + PlanFromClint(g)
  }

  function PlanFromTest(g: MachineMeta): Plan {
    OptionalDevice(g.test, (d: Device) => d.size + 0x1000, RWXU) + (VirtioPlan(g.virtio) + PlanFromUart(g))
  }

  /** All the areas of `new_guest_without_load`, in the order of its pushes. */
  function GuestPlan(g: MachineMeta, strampoline: nat): Plan {
    [MemoryArea(g)] + ([TrampolinePlan(strampoline)] + PlanFromTest(g))
  }

  // ---------------------------------------------------------------- what a list of pushed areas means

  function Covered(ds: seq<AreaDesc>): set<nat> {
    if ds == [] then {} else Covered(ds[..|ds| - 1]) + Pages(ds[|ds| - 1])
  }

  function AllPrefixes(ds: seq<AreaDesc>, n: nat): set<nat>
    requires n > 0
  {
    if ds == [] then {} else AllPrefixes(ds[..|ds| - 1], n) + Prefixes(ds[|ds| - 1].vpnStart, ds[|ds| - 1].vpnEnd, n)
  }

  /** The tables that a list of areas needs, over an empty tree. */
  function ListNeed(ds: seq<AreaDesc>): nat {
    |AllPrefixes(ds, 0x4_0000)| + |AllPrefixes(ds, 512)|
  }

  /** A non-empty linear range whose two sides have the same length. */
  predicate Sound(d: AreaDesc) {
    && d.mapType.Linear? && d.ppns.Some? && d.vpnStart < d.vpnEnd
    && d.ppns.value.1 - d.ppns.value.0 == d.vpnEnd - d.vpnStart
  }

  ghost predicate Disjoint(ds: seq<AreaDesc>) {
    forall i, j :: 0 <= i < j < |ds| ==> Pages(ds[i]) !! Pages(ds[j])
  }

  /** The map holds exactly the pages of the list, each with its area's target and permissions. */
  ghost predicate LaidPages(ds: seq<AreaDesc>, pages: PageMap) {
    && pages.Keys == Covered(ds)
    && (forall j, v :: 0 <= j < |ds| && ds[j].vpnStart <= v < ds[j].vpnEnd ==>
          v in pages && pages[v] == PteNew(Target(ds[j], map[], v), WithV(ds[j].perm)))
  }

  /** The whole state after the list was pushed into a table that was empty with `free` frames left. */
  ghost predicate Laid(ds: seq<AreaDesc>, free: int, n: Snap) {
    && (forall j :: 0 <= j < |ds| ==> Sound(ds[j]))
    && Disjoint(ds) && LaidPages(ds, n.pages)
    && n.tree.mid.Keys == AllPrefixes(ds, 0x4_0000) && n.tree.leaf.Keys == AllPrefixes(ds, 512)
    && FreeCount(n.pool) == free - ListNeed(ds)
  }

  /** The list can be pushed: sound, pairwise disjoint, and with enough frames for its tables. */
  ghost predicate GoodList(ds: seq<AreaDesc>, free: int) {
    (forall j :: 0 <= j < |ds| ==> Sound(ds[j])) && Disjoint(ds) && ListNeed(ds) <= free
  }

  // ---------------------------------------------------------------- one push

  lemma {:induction false} CoveredBy(ds: seq<AreaDesc>, v: nat)
    ensures v in Covered(ds) <==> exists j :: 0 <= j < |ds| && v in Pages(ds[j])
  {
    if ds != [] {
      var n := |ds| - 1;
      CoveredBy(ds[..n], v);
      if v in Covered(ds[..n]) {
        var j :| 0 <= j < n && v in Pages(ds[..n][j]);
        assert v in Pages(ds[j]);
      }
      if exists j :: 0 <= j < |ds| && v in Pages(ds[j]) {
        var j :| 0 <= j < |ds| && v in Pages(ds[j]);
        if j < n { assert v in Pages(ds[..n][j]); }
      }
    }
  }

  lemma {:induction false} AllPrefixesGrow(ds: seq<AreaDesc>, k: nat, n: nat)
    requires k <= |ds| && n > 0
    ensures AllPrefixes(ds[..k], n) <= AllPrefixes(ds, n)
    decreases |ds|
  {
    if k == |ds| {
      assert ds[..k] == ds;
    } else {
      var m := |ds| - 1;
      AllPrefixesGrow(ds[..m], k, n);
      assert ds[..m][..k] == ds[..k];
    }
  }

  lemma NeedOfPrefix(ds: seq<AreaDesc>, k: nat)
    requires k <= |ds|
    ensures ListNeed(ds[..k]) <= ListNeed(ds)
  {
    hide AllPrefixes;
    AllPrefixesGrow(ds, k, 512);
    AllPrefixesGrow(ds, k, 0x4_0000);
    SubsetSize(AllPrefixes(ds[..k], 512), AllPrefixes(ds, 512));
    SubsetSize(AllPrefixes(ds[..k], 0x4_0000), AllPrefixes(ds, 0x4_0000));
  }

  /** Pushing one more area costs exactly what `ListNeed` grows by. */
  lemma NeedOfOneMore(ds: seq<AreaDesc>, d: AreaDesc, t: Tree)
    requires t.mid.Keys == AllPrefixes(ds, 0x4_0000) && t.leaf.Keys == AllPrefixes(ds, 512)
    ensures ListNeed(ds + [d]) == ListNeed(ds) + TableNeed(t, d.vpnStart, d.vpnEnd)
    ensures AllPrefixes(ds + [d], 0x4_0000) == t.mid.Keys + Prefixes(d.vpnStart, d.vpnEnd, 0x4_0000)
    ensures AllPrefixes(ds + [d], 512) == t.leaf.Keys + Prefixes(d.vpnStart, d.vpnEnd, 512)
  {
    assert (ds + [d])[..|ds|] == ds;
    assert AllPrefixes(ds + [d], 0x4_0000) == t.mid.Keys + Prefixes(d.vpnStart, d.vpnEnd, 0x4_0000);
    assert AllPrefixes(ds + [d], 512) == t.leaf.Keys + Prefixes(d.vpnStart, d.vpnEnd, 512);
    hide Prefixes, AllPrefixes;
    UnionSize(t.mid.Keys, Prefixes(d.vpnStart, d.vpnEnd, 0x4_0000));
    UnionSize(t.leaf.Keys, Prefixes(d.vpnStart, d.vpnEnd, 512));
  }

  lemma UnionSize(a: set<nat>, b: set<nat>)
    ensures |a + b| == |a| + |b - a|
  {
    assert a + b == a + (b - a);
  }

  lemma LaidStep(ds: seq<AreaDesc>, d: AreaDesc, free: int, o: Snap, n: Snap)
    requires Laid(ds, free, o) && Sound(d) && o.data == map[]
    requires Progress(d, o, n, d.vpnEnd)
    ensures Laid(ds + [d], free, n)
  {
    hide LaidPages, Disjoint, ListNeed, AllPrefixes, Progress, PagesAdded, Covered, Sound;
    LaidCounts(ds, d, free, o, n);
    ProgressParts(d, o, n);
    LaidWords(ds, d, o.pages, n.pages, n.data);
    DisjointStep(ds, d, o.pages, n.pages, n.data);
  }

  lemma LaidCounts(ds: seq<AreaDesc>, d: AreaDesc, free: int, o: Snap, n: Snap)
    requires Laid(ds, free, o) && Sound(d) && o.data == map[] && Progress(d, o, n, d.vpnEnd)
    ensures n.tree.mid.Keys == AllPrefixes(ds + [d], 0x4_0000) && n.tree.leaf.Keys == AllPrefixes(ds + [d], 512)
    ensures FreeCount(n.pool) == free - ListNeed(ds + [d])
  {
    hide LaidPages, PagesAdded, SameOutside, TableNeed, ListNeed, AllPrefixes, Prefixes, Live;
    NeedOfOneMore(ds, d, o.tree);
  }

  lemma LaidWords(ds: seq<AreaDesc>, d: AreaDesc, pages0: PageMap, pages: PageMap, data: map<nat, nat>)
    requires LaidPages(ds, pages0) && Sound(d) && PagesAdded(d, pages0, pages, data, d.vpnEnd)
    ensures LaidPages(ds + [d], pages)
  {
    hide PteNew, WithV, Target;
    var all := ds + [d];
    assert all[..|ds|] == ds;
    forall j, v | 0 <= j < |all| && all[j].vpnStart <= v < all[j].vpnEnd
      ensures v in pages && pages[v] == PteNew(Target(all[j], map[], v), WithV(all[j].perm))
    {
      if j < |ds| {
        assert v in pages0 && pages[v] == pages0[v];
      } else {
        SoundTarget(d, data, v);
      }
    }
  }

  lemma SoundTarget(d: AreaDesc, data: map<nat, nat>, v: nat)
    requires Sound(d)
    ensures Target(d, data, v) == Target(d, map[], v)
  {
  }

  lemma DisjointStep(ds: seq<AreaDesc>, d: AreaDesc, pages0: PageMap, pages: PageMap, data: map<nat, nat>)
    requires LaidPages(ds, pages0) && Disjoint(ds) && PagesAdded(d, pages0, pages, data, d.vpnEnd)
    ensures Disjoint(ds + [d])
  {
    hide PteNew, WithV, Target;
    var all := ds + [d];
    forall i, j | 0 <= i < j < |all| ensures Pages(all[i]) !! Pages(all[j]) {
      if j == |ds| {
        InsideCovered(ds, i);
      }
    }
  }

  lemma InsideCovered(ds: seq<AreaDesc>, i: nat)
    requires i < |ds|
    ensures Pages(ds[i]) <= Covered(ds)
  {
    forall v | v in Pages(ds[i]) ensures v in Covered(ds) { CoveredBy(ds, v); }
  }

  // ---------------------------------------------------------------- carrying out a plan

  function Somes(ds: seq<AreaDesc>): Plan {
    seq(|ds|, i requires 0 <= i < |ds| => Some(ds[i]))
  }

  /** Every area of the plan can be built, and the list can be pushed. */
  ghost predicate PlanOk(plan: Plan, free: int) {
    exists ds :: plan == Somes(ds) && GoodList(ds, free)
  }

  lemma SomesNext(plan: Plan, ds: seq<AreaDesc>, d: AreaDesc, rest: Plan)
    requires plan == Somes(ds) + ([Some(d)] + rest)
    ensures plan == Somes(ds + [d]) + rest
  {
    assert Somes(ds + [d]) == Somes(ds) + [Some(d)];
  }

  /** In a plan that can be carried out, the next area can be built and fits. */
  lemma NextFits(plan: Plan, ds: seq<AreaDesc>, area: Option<AreaDesc>, rest: Plan, free: int, o: Snap)
    requires PlanOk(plan, free) && plan == Somes(ds) + ([area] + rest) && Laid(ds, free, o)
    ensures area.Some? && Fits(area.value, o)
  {
    hide AllPrefixes, ListNeed, LaidPages, Disjoint, Fits;
    var all :| plan == Somes(all) && GoodList(all, free);
    PlanPrefix(plan, ds, area, rest, all);
    GoodNext(all, |ds|, free, o);
  }

  lemma PlanPrefix(plan: Plan, ds: seq<AreaDesc>, area: Option<AreaDesc>, rest: Plan, all: seq<AreaDesc>)
    requires plan == Somes(ds) + ([area] + rest) && plan == Somes(all)
    ensures |ds| < |all| && area == Some(all[|ds|]) && all[..|ds|] == ds
  {
    assert plan[|ds|] == area;
    forall j | 0 <= j < |ds| ensures all[j] == ds[j] {
      assert plan[j] == Some(ds[j]);
    }
  }

  lemma GoodNext(all: seq<AreaDesc>, k: nat, free: int, o: Snap)
    requires GoodList(all, free) && k < |all| && Laid(all[..k], free, o)
    ensures Fits(all[k], o)
  {
    hide AllPrefixes, ListNeed, TableNeed, Covered, Disjoint, LaidPages, Pages;
    GoodNeed(all, k, free, o.tree);
    LaidCovers(all[..k], o.pages);
    forall v | all[k].vpnStart <= v < all[k].vpnEnd ensures v !in o.pages {
      InPages(all[k], v);
      NotCoveredBefore(all, k, v);
    }
    assert Sound(all[k]);
  }

  lemma InPages(d: AreaDesc, v: nat)
    requires d.vpnStart <= v < d.vpnEnd
    ensures v in Pages(d)
  {
  }

  lemma LaidCovers(ds: seq<AreaDesc>, pages: PageMap)
    requires LaidPages(ds, pages)
    ensures pages.Keys == Covered(ds)
  {
  }

  lemma GoodNeed(all: seq<AreaDesc>, k: nat, free: int, t: Tree)
    requires ListNeed(all) <= free && k < |all|
    requires t.mid.Keys == AllPrefixes(all[..k], 0x4_0000) && t.leaf.Keys == AllPrefixes(all[..k], 512)
    ensures TableNeed(t, all[k].vpnStart, all[k].vpnEnd) <= free - ListNeed(all[..k])
  {
    assert all[..k] + [all[k]] == all[..k + 1];
    hide AllPrefixes, ListNeed, TableNeed;
    NeedOfOneMore(all[..k], all[k], t);
    NeedOfPrefix(all, k + 1);
  }

  lemma NotCoveredBefore(all: seq<AreaDesc>, k: nat, v: nat)
    requires Disjoint(all) && k < |all| && v in Pages(all[k])
    ensures v !in Covered(all[..k])
  {
    hide Covered;
    forall j | 0 <= j < k ensures v !in Pages(all[..k][j]) {
      assert Pages(all[j]) !! Pages(all[k]);
    }
    CoveredBy(all[..k], v);
  }

  /** The state of the construction: the areas of the plan up to `rest` are in place. */
  ghost predicate OnPlan(plan: Plan, ds: seq<AreaDesc>, rest: Plan, free: int, n: Snap) {
    plan == Somes(ds) + rest && Laid(ds, free, n)
  }

  predicate PlannedArea(area: Option<AreaDesc>) {
    area.Some? ==>
      && area.value.mapType.Linear? && area.value.ppns.Some?
      && area.value.ppns.value.0 <= area.value.ppns.value.1
      && area.value.vpnStart <= area.value.vpnEnd <= 0x800_0000
  }

  lemma DeviceAreaPlanned(base: nat, length: nat, perm: Flags)
    ensures PlannedArea(DeviceArea(base, length, perm))
  {
    var a := DeviceArea(base, length, perm);
    if a.Some? {
      assert VirtAddr(base + length) < 0x80_0000_0000;
    }
  }

  lemma MemoryAreaPlanned(g: MachineMeta)
    requires g.memOffset + g.memSize <= 0x80_0000_0000
    ensures PlannedArea(MemoryArea(g))
  {
  }

  /** One `push` of the construction: it goes through and keeps the plan, or the plan cannot be carried out. */
  method PushPlanned(mem: PhysMem, alloc: FrameAllocator, gpm: MemorySet, area: Option<AreaDesc>,
                     ghost plan: Plan, ghost ds: seq<AreaDesc>, ghost rest: Plan, ghost free: int)
    returns (r: Outcome, ghost ds': seq<AreaDesc>)
    requires gpm.Valid(mem, alloc) && PlannedArea(area)
    requires OnPlan(plan, ds, [area] + rest, free, BareSnap(mem, alloc, gpm.table))
    modifies gpm, gpm.table, mem, alloc
    ensures r.Done? ==>
              && gpm.Valid(mem, alloc) && OnPlan(plan, ds', rest, free, BareSnap(mem, alloc, gpm.table))
              && gpm.table.tree.root == old(gpm.table.tree.root) && gpm.table.tree.spare == old(gpm.table.tree.spare)
    ensures !r.Done? ==> !PlanOk(plan, free)
  {
    hide TableInv, AreaInv, Progress, Fits, Apart, Live, PagesAdded, Filled, FramesInv, Elements, Laid, PlanOk, Somes;
    ghost var o := BareSnap(mem, alloc, gpm.table);
    ds' := ds;
    if PlanOk(plan, free) { NextFits(plan, ds, area, rest, free, o); }
    if area.None? {
      return Panicked(BadRange), ds';
    }
    var a := new MapArea(area.value);
    r := gpm.Push(mem, alloc, a, None);
    if r.Done? {
      ghost var n := a.Snapshot(mem, alloc, gpm.table);
      FitsIsSound(area.value, o);
      LinearKeepsNoData(area.value, o, n);
      LaidStep(ds, area.value, free, o, n);
      SomesNext(plan, ds, area.value, rest);
      ds' := ds + [area.value];
    }
  }

  lemma FitsIsSound(d: AreaDesc, o: Snap)
    requires Fits(d, o) && d.mapType.Linear? && d.ppns.Some?
    ensures Sound(d)
  {
  }

  lemma LinearKeepsNoData(d: AreaDesc, o: Snap, n: Snap)
    requires Progress(d, o, n, d.vpnEnd) && d.mapType.Linear?
    ensures n.data == o.data && n.tree.root == o.tree.root && n.tree.spare == o.tree.spare
  {
    hide PagesAdded, BothGrew, TableNeed, SameOutside;
  }

  method TrampolinePlanned(mem: PhysMem, alloc: FrameAllocator, gpm: MemorySet, strampoline: nat,
                           ghost plan: Plan, ghost ds: seq<AreaDesc>, ghost rest: Plan, ghost free: int)
    returns (r: Outcome, ghost ds': seq<AreaDesc>)
    requires gpm.Valid(mem, alloc)
    requires OnPlan(plan, ds, [TrampolinePlan(strampoline)] + rest, free, BareSnap(mem, alloc, gpm.table))
    modifies gpm.table, mem, alloc
    ensures r.Done? ==>
              && gpm.Valid(mem, alloc) && OnPlan(plan, ds', rest, free, BareSnap(mem, alloc, gpm.table))
              && gpm.table.tree.root == old(gpm.table.tree.root) && gpm.table.tree.spare == old(gpm.table.tree.spare)
    ensures !r.Done? ==> !PlanOk(plan, free)
  {
    hide TableInv, AreaInv, Progress, Fits, Apart, Live, FramesInv, Laid, PlanOk, Somes;
    ghost var o, d := BareSnap(mem, alloc, gpm.table), TrampolineArea(strampoline);
    ds' := ds;
    if PlanOk(plan, free) { NextFits(plan, ds, TrampolinePlan(strampoline), rest, free, o); }
    r := gpm.MapTrampoline(mem, alloc, strampoline);
    if r.Done? {
      ghost var n := BareSnap(mem, alloc, gpm.table);
      FitsIsSound(d, o);
      LinearKeepsNoData(d, o, n);
      LaidStep(ds, d, free, o, n);
      SomesNext(plan, ds, d, rest);
      ds' := ds + [d];
    }
  }

  /** An `if let Some(dev)` push. */
  method PushOptional(mem: PhysMem, alloc: FrameAllocator, gpm: MemorySet, dev: Option<Device>, length: Device -> nat,
                      perm: Flags, ghost plan: Plan, ghost ds: seq<AreaDesc>, ghost rest: Plan, ghost free: int)
    returns (r: Outcome, ghost ds': seq<AreaDesc>)
    requires gpm.Valid(mem, alloc)
    requires OnPlan(plan, ds, OptionalDevice(dev, length, perm) + rest, free, BareSnap(mem, alloc, gpm.table))
    modifies gpm, gpm.table, mem, alloc
    ensures r.Done? ==>
              && gpm.Valid(mem, alloc) && OnPlan(plan, ds', rest, free, BareSnap(mem, alloc, gpm.table))
              && gpm.table.tree.root == old(gpm.table.tree.root) && gpm.table.tree.spare == old(gpm.table.tree.spare)
    ensures !r.Done? ==> !PlanOk(plan, free)
  {
    hide TableInv, Laid, PlanOk, Somes, DeviceArea;
    if dev.Some? {
      DeviceAreaPlanned(dev.value.base, length(dev.value), perm);
      r, ds' := PushPlanned(mem, alloc, gpm, DeviceArea(dev.value.base, length(dev.value), perm), plan, ds, rest, free);
    } else {
      assert [] + rest == rest;
      r, ds' := Done, ds;
    }
  }

  method PushVirtio(mem: PhysMem, alloc: FrameAllocator, gpm: MemorySet, devs: seq<Device>,
                    ghost plan: Plan, ghost ds: seq<AreaDesc>, ghost rest: Plan, ghost free: int)
    returns (r: Outcome, ghost ds': seq<AreaDesc>)
    requires gpm.Valid(mem, alloc)
    requires OnPlan(plan, ds, VirtioPlan(devs) + rest, free, BareSnap(mem, alloc, gpm.table))
    modifies gpm, gpm.table, mem, alloc
    ensures r.Done? ==>
              && gpm.Valid(mem, alloc) && OnPlan(plan, ds', rest, free, BareSnap(mem, alloc, gpm.table))
              && gpm.table.tree.root == old(gpm.table.tree.root) && gpm.table.tree.spare == old(gpm.table.tree.spare)
    ensures !r.Done? ==> !PlanOk(plan, free)
  {
    hide TableInv, Laid, PlanOk, Somes, DeviceArea;
    r, ds' := Done, ds;
    assert devs[0..] == devs;
    for i := 0 to |devs|
      invariant r.Done? && gpm.Valid(mem, alloc)
      invariant OnPlan(plan, ds', VirtioPlan(devs[i..]) + rest, free, BareSnap(mem, alloc, gpm.table))
      invariant gpm.table.tree.root == old(gpm.table.tree.root) && gpm.table.tree.spare == old(gpm.table.tree.spare)
    {
      DeviceAreaPlanned(devs[i].base, devs[i].size, RWU);
      VirtioNext(devs, i, rest);
      r, ds' := PushPlanned(mem, alloc, gpm, DeviceArea(devs[i].base, devs[i].size, RWU), plan, ds',
                            VirtioPlan(devs[i + 1..]) + rest, free);
      if !r.Done? {
        return;
      }
    }
    assert VirtioPlan(devs[|devs|..]) + rest == rest;
  }

  lemma VirtioNext(devs: seq<Device>, i: nat, rest: Plan)
    requires i < |devs|
    ensures VirtioPlan(devs[i..]) + rest == [DeviceArea(devs[i].base, devs[i].size, RWU)] + (VirtioPlan(devs[i + 1..]) + rest)
  {
    assert devs[i..][1..] == devs[i + 1..];
  }

  /** `new_guest_without_load`.  It returns exactly when the pool yields a root and the plan can be carried
      out with the frames left; then the table maps exactly the pages of the planned areas. */
  method NewGuestWithoutLoad(mem: PhysMem, alloc: FrameAllocator, g: MachineMeta, strampoline: nat)
    returns (gpm: MemorySet?, ghost ds: seq<AreaDesc>)
    requires alloc.Valid() && g.memOffset + g.memSize <= 0x80_0000_0000
    modifies mem, alloc
    ensures var order := old(AllocOrder(alloc.State())); var k := Unaligned(order);
            gpm != null <==> k + 4 <= |order| && PlanOk(GuestPlan(g, strampoline), |order| - (k + 4))
    ensures gpm != null ==>
              && fresh(gpm) && gpm.Valid(mem, alloc)
              && GuestPlan(g, strampoline) == Somes(ds) && LaidPages(ds, gpm.table.pages)
    ensures gpm != null ==>
              var order := old(AllocOrder(alloc.State())); var k := Unaligned(order);
              && gpm.table.tree.root == order[k] && gpm.table.tree.spare == Elements(order[..k + 4]) - {order[k]}
    ensures gpm != null ==>
              && Translate(mem.words, gpm.table.rootPpn, 0x7ff_ffff) == Some(strampoline % 0x100_0000_0000_0000 / 4096 * 1024 + 11)
              && (forall va: nat :: 0x7f_ffff_f000 <= va < 0x80_0000_0000 ==>
                    TranslateVa(mem.words, gpm.table.rootPpn, va)
                    == Some(strampoline % 0x100_0000_0000_0000 + (va - 0x7f_ffff_f000)))
  {
    hide TableInv, PlanOk, Somes, LaidPages, AllocOrder, Unaligned, GuestPlan, Elements, Apart, AreaInv;
    ds := [];
    gpm := NewGuestBare(mem, alloc);
    if gpm != null {
      var r;
      r, ds := PushGuest(mem, alloc, gpm, g, strampoline);
      if !r.Done? {
        gpm := null;
      } else {
        TrampolineEntry(g, strampoline, ds, gpm.table.pages);
        TrampolineReads(mem.words, Live(alloc.State()), gpm.table.rootPpn, gpm.table.frames, gpm.table.tree, gpm.table.pages,
                        strampoline);
      }
    }
  }

  lemma TrampolineIsSecond(g: MachineMeta, strampoline: nat, ds: seq<AreaDesc>)
    requires GuestPlan(g, strampoline) == Somes(ds)
    ensures |ds| >= 2 && ds[1] == TrampolineArea(strampoline) && PhysAddr(strampoline) % 4096 == 0
  {
    hide PlanFromTest, MemoryArea;
    var plan := GuestPlan(g, strampoline);
    assert plan[1] == TrampolinePlan(strampoline) == Some(ds[1]);
  }

  /** The trampoline's entry in a guest's table: the trampoline's frame, with V, R and X. */
  lemma TrampolineEntry(g: MachineMeta, strampoline: nat, ds: seq<AreaDesc>, pages: PageMap)
    requires GuestPlan(g, strampoline) == Somes(ds) && LaidPages(ds, pages)
    ensures strampoline % 0x100_0000_0000_0000 % 4096 == 0
    ensures 0x7ff_ffff in pages && pages[0x7ff_ffff] == strampoline % 0x100_0000_0000_0000 / 4096 * 1024 + 11
  {
    hide GuestPlan, Somes, PteNew, WithV;
    TrampolineIsSecond(g, strampoline, ds);
    var p := strampoline % 0x100_0000_0000_0000 / 4096;
    assert pages[0x7ff_ffff] == PteNew(p, WithV(10));
    PteNumbers(p, 10);
    Euclid(p, 0x40_0000_0000_0000, 0, p);
  }

  /** All the pushes, into an empty set. */
  method PushGuest(mem: PhysMem, alloc: FrameAllocator, gpm: MemorySet, g: MachineMeta, strampoline: nat)
    returns (r: Outcome, ghost ds: seq<AreaDesc>)
    requires gpm.Valid(mem, alloc) && g.memOffset + g.memSize <= 0x80_0000_0000
    requires gpm.table.pages == map[] && gpm.table.tree.mid == map[] && gpm.table.tree.leaf == map[]
    modifies gpm, gpm.table, mem, alloc
    ensures r.Done? <==> PlanOk(GuestPlan(g, strampoline), old(FreeCount(alloc.State())))
    ensures r.Done? ==>
              && gpm.Valid(mem, alloc)
              && GuestPlan(g, strampoline) == Somes(ds) && LaidPages(ds, gpm.table.pages)
              && gpm.table.tree.root == old(gpm.table.tree.root) && gpm.table.tree.spare == old(gpm.table.tree.spare)
  {
    hide TableInv, PlanOk, Somes, LaidPages, OnPlan, PlanFromTest, MemoryArea, Apart, AreaInv;
    ghost var plan, free := GuestPlan(g, strampoline), FreeCount(alloc.State());
    ds := [];
    StartPlan(plan, free, BareSnap(mem, alloc, gpm.table));
    MemoryAreaPlanned(g);
    r, ds := PushPlanned(mem, alloc, gpm, MemoryArea(g), plan, ds, [TrampolinePlan(strampoline)] + PlanFromTest(g), free);
    if !r.Done? { return; }
    r, ds := TrampolinePlanned(mem, alloc, gpm, strampoline, plan, ds, PlanFromTest(g), free);
    if !r.Done? { return; }
    r, ds := PushDevices(mem, alloc, gpm, g, plan, ds, free);
    if !r.Done? { return; }
    FinishPlan(plan, ds, free, BareSnap(mem, alloc, gpm.table));
  }

  /** The pushes from the test device on. */
  method PushDevices(mem: PhysMem, alloc: FrameAllocator, gpm: MemorySet, g: MachineMeta,
                     ghost plan: Plan, ghost ds: seq<AreaDesc>, ghost free: int)
    returns (r: Outcome, ghost ds': seq<AreaDesc>)
    requires gpm.Valid(mem, alloc)
    requires OnPlan(plan, ds, PlanFromTest(g), free, BareSnap(mem, alloc, gpm.table))
    modifies gpm, gpm.table, mem, alloc
    ensures r.Done? ==>
              && gpm.Valid(mem, alloc) && OnPlan(plan, ds', [], free, BareSnap(mem, alloc, gpm.table))
              && gpm.table.tree.root == old(gpm.table.tree.root) && gpm.table.tree.spare == old(gpm.table.tree.spare)
    ensures !r.Done? ==> !PlanOk(plan, free)
  {
    hide TableInv, PlanOk, OnPlan, OptionalDevice, Apart, AreaInv;
    r, ds' := PushOptional(mem, alloc, gpm, g.test, (d: Device) => d.size + 0x1000, RWXU, plan, ds,
                           VirtioPlan(g.virtio) + PlanFromUart(g), free);
    if !r.Done? { return; }
    r, ds' := PushVirtio(mem, alloc, gpm, g.virtio, plan, ds', PlanFromUart(g), free);
    if !r.Done? { return; }
    r, ds' := PushOptional(mem, alloc, gpm, g.uart, (d: Device) => d.size, RWU, plan, ds', PlanFromClint(g), free);
    if !r.Done? { return; }
    r, ds' := PushOptional(mem, alloc, gpm, g.clint, (d: Device) => d.size, RWU, plan, ds', PlanFromPlic(g), free);
    if !r.Done? { return; }
    r, ds' := PushOptional(mem, alloc, gpm, g.plic, (d: Device) => 0x20_0000, RWU, plan, ds', PlanFromPci(g), free);
    if !r.Done? { return; }
    assert PlanFromPci(g) + [] == PlanFromPci(g);
    r, ds' := PushOptional(mem, alloc, gpm, g.pci, (d: Device) => 0x20_0000, RWU, plan, ds', [], free);
  }

  lemma StartPlan(plan: Plan, free: int, n: Snap)
    requires n.pages == map[] && n.tree.mid == map[] && n.tree.leaf == map[] && FreeCount(n.pool) == free
    ensures OnPlan(plan, [], plan, free, n)
  {
    assert Somes([]) == [];
  }

  lemma FinishPlan(plan: Plan, ds: seq<AreaDesc>, free: int, n: Snap)
    requires OnPlan(plan, ds, [], free, n) && FramesInv(n.pool)
    ensures PlanOk(plan, free) && plan == Somes(ds) && LaidPages(ds, n.pages)
  {
    hide LaidPages, ListNeed;
    assert plan == Somes(ds);
    assert GoodList(ds, free);
  }
}
