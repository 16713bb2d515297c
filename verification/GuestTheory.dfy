/** What the guest's stage-2 space guarantees, for every machine description (src/mm/memory_set.rs,
    src/guest/mod.rs). */
module GuestTheory {
  import opened Words
  import opened Frames
  import opened Memory
  import opened TableModel
  import opened PageTables
  import opened PageWalks
  import opened WalkTheory
  import opened Translation
  import opened TwoStage
  import opened AreaSpecs
  import opened MemorySets
  import opened GuestSpaces

  /** A page is valid exactly when some planned area covers it. */
  lemma ValidIffCovered(ds: seq<AreaDesc>, pages: PageMap, v: nat)
    requires LaidPages(ds, pages)
    ensures v in pages <==> exists j :: 0 <= j < |ds| && ds[j].vpnStart <= v < ds[j].vpnEnd
  {
    hide PteNew, WithV, Target;
    CoveredBy(ds, v);
    if v in pages {
      var j :| 0 <= j < |ds| && v in Pages(ds[j]);
      assert ds[j].vpnStart <= v < ds[j].vpnEnd;
    }
    if exists j :: 0 <= j < |ds| && ds[j].vpnStart <= v < ds[j].vpnEnd {
      var j :| 0 <= j < |ds| && ds[j].vpnStart <= v < ds[j].vpnEnd;
      assert v in Pages(ds[j]);
    }
  }

  /** An area that maps its pages onto themselves, readable and writable for the guest. */
  predicate SelfMapped(a: Option<AreaDesc>) {
    a.Some? ==>
      && a.value.mapType.Linear? && a.value.ppns == Some((a.value.vpnStart, a.value.vpnEnd))
      && a.value.vpnEnd <= 0x800_0000 && (a.value.perm == RWU || a.value.perm == RWXU)
  }

  /** Every region of the machine ends below 2^39, where the address types' masks change nothing. */
  ghost predicate LowMachine(g: MachineMeta) {
    && g.memOffset + g.memSize <= 0x80_0000_0000
    && (g.test.Some? ==> g.test.value.base + g.test.value.size + 0x1000 < 0x80_0000_0000)
    && (forall i :: 0 <= i < |g.virtio| ==> g.virtio[i].base + g.virtio[i].size < 0x80_0000_0000)
    && (g.uart.Some? ==> g.uart.value.base + g.uart.value.size < 0x80_0000_0000)
    && (g.clint.Some? ==> g.clint.value.base + g.clint.value.size < 0x80_0000_0000)
    && (g.plic.Some? ==> g.plic.value.base + 0x20_0000 < 0x80_0000_0000)
    && (g.pci.Some? ==> g.pci.value.base + 0x20_0000 < 0x80_0000_0000)
  }

  lemma DeviceSelfMapped(base: nat, length: nat, perm: Flags)
    requires base + length < 0x80_0000_0000 && (perm == RWU || perm == RWXU)
    ensures SelfMapped(DeviceArea(base, length, perm))
    ensures var a := DeviceArea(base, length, perm);
            a.Some? ==> a.value.vpnStart == base / 4096 && a.value.vpnEnd == (base + length - 1 + 4096) / 4096
  {
    Euclid(base, 0x80_0000_0000, 0, base);
    Euclid(base + length, 0x80_0000_0000, 0, base + length);
    Euclid(base, 0x100_0000_0000_0000, 0, base);
    Euclid(base + length, 0x100_0000_0000_0000, 0, base + length);
  }

  lemma MemorySelfMapped(g: MachineMeta)
    requires g.memOffset + g.memSize <= 0x80_0000_0000
    ensures SelfMapped(MemoryArea(g))
  {
  }

  ghost predicate AllSelfMapped(plan: Plan) {
    forall a :: a in plan ==> SelfMapped(a)
  }

  lemma OptionalSelfMapped(dev: Option<Device>, length: Device -> nat, perm: Flags)
    requires dev.Some? ==> dev.value.base + length(dev.value) < 0x80_0000_0000
    requires perm == RWU || perm == RWXU
    ensures AllSelfMapped(OptionalDevice(dev, length, perm))
  {
    hide DeviceArea, SelfMapped;
    if dev.Some? { DeviceSelfMapped(dev.value.base, length(dev.value), perm); }
  }

  lemma {:induction false} VirtioSelfMapped(devs: seq<Device>)
    requires forall i :: 0 <= i < |devs| ==> devs[i].base + devs[i].size < 0x80_0000_0000
    ensures AllSelfMapped(VirtioPlan(devs))
  {
    hide DeviceArea, SelfMapped;
    if devs != [] {
      DeviceSelfMapped(devs[0].base, devs[0].size, RWU);
      VirtioSelfMapped(devs[1..]);
    }
  }

  /** Apart from the trampoline, every planned area maps its pages onto themselves. */
  lemma DevicesSelfMapped(g: MachineMeta)
    requires LowMachine(g)
    ensures AllSelfMapped(PlanFromTest(g))
  {
    hide OptionalDevice, VirtioPlan, SelfMapped;
    OptionalSelfMapped(g.test, (d: Device) => d.size + 0x1000, RWXU);
    VirtioSelfMapped(g.virtio);
    OptionalSelfMapped(g.uart, (d: Device) => d.size, RWU);
    OptionalSelfMapped(g.clint, (d: Device) => d.size, RWU);
    OptionalSelfMapped(g.plic, (d: Device) => 0x20_0000, RWU);
    OptionalSelfMapped(g.pci, (d: Device) => 0x20_0000, RWU);
  }

  lemma PlanSelfMapped(g: MachineMeta, strampoline: nat, ds: seq<AreaDesc>, j: nat)
    requires LowMachine(g) && GuestPlan(g, strampoline) == Somes(ds) && j < |ds| && j != 1
    ensures SelfMapped(Some(ds[j]))
  {
    hide PlanFromTest, MemoryArea, SelfMapped;
    MemorySelfMapped(g);
    DevicesSelfMapped(g);
    var plan := GuestPlan(g, strampoline);
    assert plan[j] == Some(ds[j]);
    if j > 1 { assert plan[j] == PlanFromTest(g)[j - 2]; }
  }

  /** For every machine description below 2^39: each valid page of the guest's space is either the
      trampoline page or maps onto itself, as a usable leaf. */
  lemma GuestIsIdentity(g: MachineMeta, strampoline: nat, ds: seq<AreaDesc>, pages: PageMap, v: nat)
    requires LowMachine(g) && GuestPlan(g, strampoline) == Somes(ds) && LaidPages(ds, pages)
    requires v in pages && v != TRAMPOLINE_VPN
    ensures v < 0x800_0000 && IdentityMapped(pages, v) && GoodLeaf(pages[v])
  {
    hide GuestPlan, Somes, PteNew, WithV, IdentityMapped, GoodLeaf, LowMachine;
    ValidIffCovered(ds, pages, v);
    var j :| 0 <= j < |ds| && ds[j].vpnStart <= v < ds[j].vpnEnd;
    if j == 1 {
      TrampolineIsSecond(g, strampoline, ds);
    } else {
      PlanSelfMapped(g, strampoline, ds, j);
      assert pages[v] == PteNew(v, WithV(ds[j].perm));
      SelfMappedEntry(v, ds[j].perm);
      IdentityFrom(pages, v);
    }
  }

  lemma IdentityFrom(pages: PageMap, v: nat)
    requires v in pages && PtePpn(pages[v]) == v
    ensures IdentityMapped(pages, v)
  {
  }

  lemma SelfMappedEntry(v: nat, perm: Flags)
    requires v < 0x800_0000 && (perm == RWU || perm == RWXU)
    ensures PteNew(v, WithV(perm)) == v * 1024 + if perm == RWXU then 31 else 23
    ensures PtePpn(PteNew(v, WithV(perm))) == v && GoodLeaf(PteNew(v, WithV(perm)))
  {
    hide PteNew, WithV, PtePpn, GoodLeaf;
    PteNumbers(v, perm);
    Euclid(v, 0x40_0000_0000_0000, 0, v);
    SelfMappedLeaf(v, if perm == RWXU then 31 else 23);
  }

  /** V, R, W and U, with or without X. */
  lemma SelfMappedLeaf(v: nat, f: nat)
    requires v < 0x800_0000 && (f == 23 || f == 31)
    ensures PtePpn(v * 1024 + f) == v && GoodLeaf(v * 1024 + f)
  {
    Euclid(v * 1024 + f, 1024, v, f);
    LowBits(v, f);
    hide PtePpn;
  }

  lemma LowBits(v: nat, f: nat)
    requires f == 23 || f == 31
    ensures var w := v * 1024 + f; w % 2 == 1 && w / 2 % 2 == 1 && w / 4 % 2 == 1 && w / 16 % 2 == 1
  {
    Euclid(v * 1024 + f, 2, v * 512 + f / 2, 1);
    Euclid(v * 512 + f / 2, 2, v * 256 + f / 4, 1);
    Euclid(v * 1024 + f, 4, v * 256 + f / 4, 3);
    Euclid(v * 256 + f / 4, 2, v * 128 + f / 8, 1);
    Euclid(v * 1024 + f, 16, v * 64 + 1, f - 16);
    Euclid(v * 64 + 1, 2, v * 32, 1);
  }

  // ---------------------------------------------------------------- which pages are valid

  /** Page v is in the page hull of [base, base + length): it has a byte in common with the region, or the
      region is empty, off a page boundary, and v the page around it. */
  predicate Overlaps(base: int, length: nat, v: nat) {
    base < (v + 1) * 4096 && v * 4096 < base + length
  }

  predicate DeviceOverlaps(dev: Option<Device>, length: Device -> nat, v: nat) {
    dev.Some? && Overlaps(dev.value.base, length(dev.value), v)
  }

  /** Page v meets guest memory, taken from 2 MiB below its offset, or the test device and the page after it. */
  predicate InExecutable(g: MachineMeta, v: nat) {
    || Overlaps(g.memOffset - 0x20_0000, g.memSize + 0x20_0000, v)
    || DeviceOverlaps(g.test, (d: Device) => d.size + 0x1000, v)
  }

  /** Page v meets another device; of the PLIC and of PCI the guest gets 2 MiB. */
  predicate InDevices(g: MachineMeta, v: nat) {
    || (exists i :: 0 <= i < |g.virtio| && Overlaps(g.virtio[i].base, g.virtio[i].size, v))
    || DeviceOverlaps(g.uart, (d: Device) => d.size, v)
    || DeviceOverlaps(g.clint, (d: Device) => d.size, v)
    || DeviceOverlaps(g.plic, (d: Device) => 0x20_0000, v)
    || DeviceOverlaps(g.pci, (d: Device) => 0x20_0000, v)
  }

  /** The area contains page v, with one of the wanted permissions. */
  predicate Covers(a: Option<AreaDesc>, v: nat, want: set<Flags>) {
    a.Some? && a.value.vpnStart <= v < a.value.vpnEnd && a.value.perm in want
  }

  ghost predicate PlanCovers(plan: Plan, v: nat, want: set<Flags>) {
    exists a :: a in plan && Covers(a, v, want)
  }

  /** A range [base, base + length) rounded out to pages covers exactly the pages it meets. */
  lemma HullIsOverlap(base: nat, length: nat, v: nat)
    requires base + length >= 1
    ensures base / 4096 <= v < (base + length - 1 + 4096) / 4096 <==> Overlaps(base, length, v)
  {
  }

  lemma CoversConcat(p: Plan, q: Plan, v: nat, want: set<Flags>)
    ensures PlanCovers(p + q, v, want) <==> PlanCovers(p, v, want) || PlanCovers(q, v, want)
  {
    hide Covers;
    if PlanCovers(p, v, want) {
      var a :| a in p && Covers(a, v, want);
      assert a in p + q;
    }
    if PlanCovers(q, v, want) {
      var a :| a in q && Covers(a, v, want);
      assert a in p + q;
    }
  }

  lemma CoversOne(a: Option<AreaDesc>, v: nat, want: set<Flags>)
    ensures PlanCovers([a], v, want) <==> Covers(a, v, want)
  {
    hide Covers;
    assert a in [a];
  }

  lemma DeviceCovers(base: nat, length: nat, perm: Flags, v: nat, want: set<Flags>)
    requires base + length < 0x80_0000_0000 && (perm == RWU || perm == RWXU) && DeviceArea(base, length, perm).Some?
    ensures Covers(DeviceArea(base, length, perm), v, want) <==> Overlaps(base, length, v) && perm in want
  {
    DeviceSelfMapped(base, length, perm);
    Euclid(base + length, 0x80_0000_0000, 0, base + length);
    assert base + length >= 1 && DeviceArea(base, length, perm).value.perm == perm;
    hide DeviceArea;
    HullIsOverlap(base, length, v);
  }

  lemma OptionalCovers(dev: Option<Device>, length: Device -> nat, perm: Flags, v: nat, want: set<Flags>)
    requires dev.Some? ==> dev.value.base + length(dev.value) < 0x80_0000_0000
    requires perm == RWU || perm == RWXU
    requires forall a :: a in OptionalDevice(dev, length, perm) ==> a.Some?
    ensures PlanCovers(OptionalDevice(dev, length, perm), v, want) <==> DeviceOverlaps(dev, length, v) && perm in want
  {
    hide DeviceArea, Covers, Overlaps;
    if dev.Some? {
      var a := DeviceArea(dev.value.base, length(dev.value), perm);
      assert a in OptionalDevice(dev, length, perm);
      DeviceCovers(dev.value.base, length(dev.value), perm, v, want);
      CoversOne(a, v, want);
    }
  }

  lemma {:induction false} VirtioCovers(devs: seq<Device>, v: nat, want: set<Flags>)
    requires forall i :: 0 <= i < |devs| ==> devs[i].base + devs[i].size < 0x80_0000_0000
    requires forall a :: a in VirtioPlan(devs) ==> a.Some?
    ensures PlanCovers(VirtioPlan(devs), v, want) <==>
              RWU in want && exists i :: 0 <= i < |devs| && Overlaps(devs[i].base, devs[i].size, v)
  {
    hide DeviceArea, Covers, Overlaps;
    if devs != [] {
      var a, tail := DeviceArea(devs[0].base, devs[0].size, RWU), devs[1..];
      assert a in VirtioPlan(devs);
      DeviceCovers(devs[0].base, devs[0].size, RWU, v, want);
      CoversOne(a, v, want);
      CoversConcat([a], VirtioPlan(tail), v, want);
      VirtioCovers(tail, v, want);
      if exists i :: 0 <= i < |devs| && Overlaps(devs[i].base, devs[i].size, v) {
        var i :| 0 <= i < |devs| && Overlaps(devs[i].base, devs[i].size, v);
        if i > 0 { assert tail[i - 1] == devs[i]; }
      }
      if exists i :: 0 <= i < |tail| && Overlaps(tail[i].base, tail[i].size, v) {
        var i :| 0 <= i < |tail| && Overlaps(tail[i].base, tail[i].size, v);
        assert devs[i + 1] == tail[i];
      }
    }
  }

  lemma MemoryCovers(g: MachineMeta, v: nat, want: set<Flags>)
    requires g.memOffset + g.memSize <= 0x80_0000_0000 && MemoryArea(g).Some?
    ensures Covers(MemoryArea(g), v, want) <==> RWXU in want && Overlaps(g.memOffset - 0x20_0000, g.memSize + 0x20_0000, v)
  {
    HullIsOverlap(g.memOffset - 0x20_0000, g.memSize + 0x20_0000, v);
  }

  lemma SomesAreSome(plan: Plan, ds: seq<AreaDesc>)
    requires plan == Somes(ds)
    ensures forall a :: a in plan ==> a.Some?
  {
  }

  lemma DevicesCover(g: MachineMeta, v: nat, want: set<Flags>)
    requires LowMachine(g) && forall a :: a in PlanFromTest(g) ==> a.Some?
    ensures PlanCovers(PlanFromTest(g), v, want) <==>
              || (RWXU in want && DeviceOverlaps(g.test, (d: Device) => d.size + 0x1000, v))
              || (RWU in want && InDevices(g, v))
  {
    hide OptionalDevice, VirtioPlan, PlanCovers, Overlaps, DeviceOverlaps;
    var test := OptionalDevice(g.test, (d: Device) => d.size + 0x1000, RWXU);
    var uart := OptionalDevice(g.uart, (d: Device) => d.size, RWU);
    var clint := OptionalDevice(g.clint, (d: Device) => d.size, RWU);
    var plic := OptionalDevice(g.plic, (d: Device) => 0x20_0000, RWU);
    OptionalCovers(g.test, (d: Device) => d.size + 0x1000, RWXU, v, want);
    VirtioCovers(g.virtio, v, want);
    OptionalCovers(g.uart, (d: Device) => d.size, RWU, v, want);
    OptionalCovers(g.clint, (d: Device) => d.size, RWU, v, want);
    OptionalCovers(g.plic, (d: Device) => 0x20_0000, RWU, v, want);
    OptionalCovers(g.pci, (d: Device) => 0x20_0000, RWU, v, want);
    CoversConcat(plic, PlanFromPci(g), v, want);
    CoversConcat(clint, PlanFromPlic(g), v, want);
    CoversConcat(uart, PlanFromClint(g), v, want);
    CoversConcat(VirtioPlan(g.virtio), PlanFromUart(g), v, want);
    CoversConcat(test, VirtioPlan(g.virtio) + PlanFromUart(g), v, want);
  }

  lemma LowMemory(g: MachineMeta)
    requires LowMachine(g)
    ensures g.memOffset + g.memSize <= 0x80_0000_0000
  {
  }

  lemma TrampolineCovers(g: MachineMeta, strampoline: nat, ds: seq<AreaDesc>, v: nat, want: set<Flags>)
    requires GuestPlan(g, strampoline) == Somes(ds)
    ensures Covers(TrampolinePlan(strampoline), v, want) <==> v == TRAMPOLINE_VPN && TRAMPOLINE_PERM in want
  {
    hide PlanFromTest, MemoryArea;
    assert GuestPlan(g, strampoline)[1] == TrampolinePlan(strampoline);
  }

  /** The plan covers a page with a wanted permission exactly when the machine or the trampoline does. */
  lemma GuestPlanCovers(g: MachineMeta, strampoline: nat, ds: seq<AreaDesc>, v: nat, want: set<Flags>)
    requires LowMachine(g) && GuestPlan(g, strampoline) == Somes(ds)
    ensures PlanCovers(GuestPlan(g, strampoline), v, want) <==>
              || (v == TRAMPOLINE_VPN && TRAMPOLINE_PERM in want)
              || (RWXU in want && InExecutable(g, v))
              || (RWU in want && InDevices(g, v))
  {
    hide PlanFromTest, MemoryArea, Overlaps, DeviceOverlaps, PlanCovers, LowMachine, InDevices;
    var plan := GuestPlan(g, strampoline);
    SomesAreSome(plan, ds);
    assert MemoryArea(g) in plan;
    LowMemory(g);
    MemoryCovers(g, v, want);
    DevicesCover(g, v, want);
    CoversOne(MemoryArea(g), v, want);
    CoversOne(TrampolinePlan(strampoline), v, want);
    CoversConcat([TrampolinePlan(strampoline)], PlanFromTest(g), v, want);
    CoversConcat([MemoryArea(g)], [TrampolinePlan(strampoline)] + PlanFromTest(g), v, want);
    TrampolineCovers(g, strampoline, ds, v, want);
  }

  lemma CoveringArea(plan: Plan, ds: seq<AreaDesc>, v: nat, want: set<Flags>)
    requires plan == Somes(ds)
    ensures PlanCovers(plan, v, want) <==> exists j :: 0 <= j < |ds| && ds[j].vpnStart <= v < ds[j].vpnEnd && ds[j].perm in want
  {
    if PlanCovers(plan, v, want) {
      var a :| a in plan && Covers(a, v, want);
      var j :| 0 <= j < |plan| && plan[j] == a;
      assert ds[j].vpnStart <= v < ds[j].vpnEnd;
    }
    if exists j :: 0 <= j < |ds| && ds[j].vpnStart <= v < ds[j].vpnEnd && ds[j].perm in want {
      var j :| 0 <= j < |ds| && ds[j].vpnStart <= v < ds[j].vpnEnd && ds[j].perm in want;
      assert plan[j] == Some(ds[j]) && Covers(plan[j], v, want);
    }
  }

  lemma PlanPermission(g: MachineMeta, strampoline: nat, ds: seq<AreaDesc>, j: nat)
    requires LowMachine(g) && GuestPlan(g, strampoline) == Somes(ds) && j < |ds|
    ensures ds[j].perm == RWU || ds[j].perm == RWXU || (j == 1 && ds[j] == TrampolineArea(strampoline))
  {
    hide GuestPlan, Somes, LowMachine;
    if j == 1 { TrampolineIsSecond(g, strampoline, ds); } else { PlanSelfMapped(g, strampoline, ds, j); }
  }

  /** For every machine description below 2^39: a page of the guest's space is valid exactly when it is in the
      page hull of one of the machine's regions or is the trampoline page. */
  lemma GuestPagesExactly(g: MachineMeta, strampoline: nat, ds: seq<AreaDesc>, pages: PageMap, v: nat)
    requires LowMachine(g) && GuestPlan(g, strampoline) == Somes(ds) && LaidPages(ds, pages)
    ensures v in pages <==> v == TRAMPOLINE_VPN || InExecutable(g, v) || InDevices(g, v)
  {
    hide GuestPlan, Somes, LaidPages, LowMachine, InExecutable, InDevices, PlanCovers;
    var want: set<Flags> := {RWU, RWXU, TRAMPOLINE_PERM};
    GuestPlanCovers(g, strampoline, ds, v, want);
    CoveringArea(GuestPlan(g, strampoline), ds, v, want);
    ValidIffCovered(ds, pages, v);
    forall j | 0 <= j < |ds| ensures ds[j].perm in want {
      PlanPermission(g, strampoline, ds, j);
    }
  }

  /** ... and, apart from the trampoline, it is executable exactly when it meets guest memory or the test
      device; the pages of all other devices are not. */
  lemma GuestExecutableExactly(g: MachineMeta, strampoline: nat, ds: seq<AreaDesc>, pages: PageMap, v: nat)
    requires LowMachine(g) && GuestPlan(g, strampoline) == Somes(ds) && LaidPages(ds, pages)
    requires v in pages && v != TRAMPOLINE_VPN
    ensures Executable(pages[v]) <==> InExecutable(g, v)
  {
    hide GuestPlan, Somes, LowMachine, InExecutable, InDevices, PlanCovers, PteNew, Executable, Target;
    GuestPlanCovers(g, strampoline, ds, v, {RWXU});
    CoveringArea(GuestPlan(g, strampoline), ds, v, {RWXU});
    ValidIffCovered(ds, pages, v);
    forall j | 0 <= j < |ds| && ds[j].vpnStart <= v < ds[j].vpnEnd
      ensures Executable(pages[v]) <==> ds[j].perm == RWXU
    {
      PlanPermission(g, strampoline, ds, j);
      ExecutableBit(Target(ds[j], map[], v));
    }
  }

  /** ... with R, W and U: each entry of the guest's table, in numbers.  Guest memory and the test device get
      V, R, W, X and U, the other devices V, R, W and U, both at their own address, and the trampoline's
      frame V, R and X. */
  lemma GuestEntriesExactly(g: MachineMeta, strampoline: nat, ds: seq<AreaDesc>, pages: PageMap, v: nat)
    requires LowMachine(g) && GuestPlan(g, strampoline) == Somes(ds) && LaidPages(ds, pages) && v in pages
    ensures pages[v] ==
            if v == 0x7ff_ffff then strampoline % 0x100_0000_0000_0000 / 4096 * 1024 + 11
            else if InExecutable(g, v) then v * 1024 + 31
            else v * 1024 + 23
  {
    hide GuestPlan, Somes, LowMachine, InExecutable, InDevices, PlanCovers, PteNew, WithV, GoodLeaf, PtePpn;
    GuestPlanCovers(g, strampoline, ds, v, {RWXU});
    CoveringArea(GuestPlan(g, strampoline), ds, v, {RWXU});
    ValidIffCovered(ds, pages, v);
    TrampolineEntry(g, strampoline, ds, pages);
    TrampolineIsSecond(g, strampoline, ds);
    forall j | 0 <= j < |ds| && ds[j].vpnStart <= v < ds[j].vpnEnd && v != 0x7ff_ffff
      ensures pages[v] == v * 1024 + if ds[j].perm == RWXU then 31 else 23
    {
      PlanSelfMapped(g, strampoline, ds, j);
      assert pages[v] == PteNew(v, WithV(ds[j].perm));
      SelfMappedEntry(v, ds[j].perm);
    }
  }

  lemma ExecutableBit(p: nat)
    ensures Executable(PteNew(p, WithV(RWXU))) && !Executable(PteNew(p, WithV(RWU)))
  {
    PteRoundTrip(p, WithV(RWXU));
    PteRoundTrip(p, WithV(RWU));
    hide PteNew, PteFlags;
  }

  /** The PLIC's context registers, from 2 MiB above a page-aligned base on, are in the guest's space only
      where another region or the trampoline brings them in: the guest's accesses to them trap. */
  lemma PlicContextsTrap(g: MachineMeta, strampoline: nat, ds: seq<AreaDesc>, pages: PageMap, v: nat)
    requires LowMachine(g) && GuestPlan(g, strampoline) == Somes(ds) && LaidPages(ds, pages)
    requires g.plic.Some? && g.plic.value.base % 4096 == 0 && g.plic.value.base + 0x20_0000 <= v * 4096
    ensures v in pages <==> v == TRAMPOLINE_VPN || InExecutable(g, v) || InDevices(g.(plic := None), v)
  {
    hide GuestPlan, LaidPages, Somes, LowMachine;
    GuestPagesExactly(g, strampoline, ds, pages, v);
  }

  /** `new_guest` pushes the PLIC as an empty range at its base.  That push never returns for a page-aligned
      base, whatever the pool and the table; for any other base it takes the one page around it, if that
      page is free and the pool can supply its tables. */
  lemma EmptyPlicRangeNeverFits(base: nat, o: Snap)
    requires 0 < base < 0x80_0000_0000
    ensures DeviceArea(base, 0, RWU).Some?
    ensures Fits(DeviceArea(base, 0, RWU).value, o) <==>
              && base % 4096 != 0 && base / 4096 !in o.pages
              && Missing(o.tree, base / 4096) <= FreeCount(o.pool)
  {
    hide DeviceArea, Fits, FreeCount, Missing;
    EmptyRange(base);
    OnePageFits(base / 4096, o);
  }

  lemma OnePageFits(q: nat, o: Snap)
    requires q < 0x800_0000
    ensures !Fits(AreaDesc(q, q, Some((q, q)), Linear, RWU), o)
    ensures Fits(AreaDesc(q, q + 1, Some((q, q + 1)), Linear, RWU), o) <==>
              q !in o.pages && Missing(o.tree, q) <= FreeCount(o.pool)
  {
    hide TableNeed, FreeCount, Missing;
    OnePageNeed(o.tree, q);
  }

  /** Rounded out to pages, an empty range is empty on a page boundary and one page elsewhere. */
  lemma EmptyRange(base: nat)
    requires 0 < base < 0x80_0000_0000
    ensures var e := base / 4096 + if base % 4096 == 0 then 0 else 1;
            DeviceArea(base, 0, RWU) == Some(AreaDesc(base / 4096, e, Some((base / 4096, e)), Linear, RWU))
  {
    Euclid(base, 0x80_0000_0000, 0, base);
    Euclid(base, 0x100_0000_0000_0000, 0, base);
    var q, r := base / 4096, base % 4096;
    if r == 0 {
      Euclid(base - 1 + 4096, 4096, q, 4095);
    } else {
      Euclid(base - 1 + 4096, 4096, q + 1, r - 1);
    }
  }

  // ---------------------------------------------------------------- translation over the guest's space

  lemma UserFlag(w: Word)
    ensures IsUser(w) <==> PteFlags(w) / 16 % 2 == 1
  {
    var q, f := w / 256, w % 256;
    Euclid(w, 16, q * 16 + f / 16, f % 16);
    Euclid(q * 16 + f / 16, 2, q * 8 + f / 16 / 2, f / 16 % 2);
  }

  /** The trampoline's entry lacks the U bit that the G-stage asks for. */
  lemma TrampolineIsNotTheGuests(g: MachineMeta, strampoline: nat, ds: seq<AreaDesc>, pages: PageMap)
    requires GuestPlan(g, strampoline) == Somes(ds) && LaidPages(ds, pages)
    ensures TRAMPOLINE_VPN in pages && !GoodLeaf(pages[TRAMPOLINE_VPN])
  {
    hide GuestPlan, Somes, PteNew, IsUser, PteFlags;
    TrampolineIsSecond(g, strampoline, ds);
    var p := Target(ds[1], map[], TRAMPOLINE_VPN);
    assert pages[TRAMPOLINE_VPN] == PteNew(p, WithV(TRAMPOLINE_PERM));
    PteRoundTrip(p, WithV(TRAMPOLINE_PERM));
    UserFlag(pages[TRAMPOLINE_VPN]);
  }

  /** The address lies in a valid page of the guest other than the trampoline. */
  ghost predicate InGuest(pages: PageMap, a: nat) {
    a / 4096 in pages && a / 4096 != TRAMPOLINE_VPN
  }

  /** The G-stage accepts exactly the valid pages but the trampoline, and passes them as they are. */
  lemma GuestPasses(g: MachineMeta, strampoline: nat, ds: seq<AreaDesc>, pages: PageMap, a: nat)
    requires LowMachine(g) && GuestPlan(g, strampoline) == Somes(ds) && LaidPages(ds, pages)
    ensures PassesThrough(pages, a) <==> InGuest(pages, a)
    ensures a / 4096 in pages && GoodLeaf(pages[a / 4096]) <==> InGuest(pages, a)
  {
    hide GuestPlan, Somes, LaidPages, LowMachine, GoodLeaf;
    TrampolineIsNotTheGuests(g, strampoline, ds, pages);
    if InGuest(pages, a) {
      GuestIsIdentity(g, strampoline, ds, pages, a / 4096);
    }
  }

  lemma GuestOnlyIdentity(g: MachineMeta, strampoline: nat, ds: seq<AreaDesc>, pages: PageMap)
    requires LowMachine(g) && GuestPlan(g, strampoline) == Somes(ds) && LaidPages(ds, pages)
    ensures OnlyIdentity(pages)
  {
    hide GuestPlan, Somes, LaidPages, LowMachine, GoodLeaf, IdentityMapped;
    TrampolineIsNotTheGuests(g, strampoline, ds, pages);
    forall v | v in pages && GoodLeaf(pages[v]) ensures IdentityMapped(pages, v) {
      GuestIsIdentity(g, strampoline, ds, pages, v);
    }
  }

  /** What hardware asks of the first stage of such a guest: the mode is Sv39, the address is canonical, and
      the walk goes through well-formed entries only, all of them in the guest's own pages. */
  ghost predicate GuestWalks(pages: PageMap, read: Reader, vsatp: Word, va: Word) {
    && Mode(vsatp) == MODE_SV39 && Canonical(va)
    && WellFormedWalk(Walk(read, HardwareRoot(vsatp), va))
    && forall a :: a in Reads(read, HardwareRoot(vsatp), va, 0) ==> InGuest(pages, a)
  }

  lemma GuestAccepted(g: MachineMeta, strampoline: nat, ds: seq<AreaDesc>, pages: PageMap, read: Reader, vsatp: Word, va: Word)
    requires LowMachine(g) && GuestPlan(g, strampoline) == Somes(ds) && LaidPages(ds, pages)
    ensures Accepted(pages, read, vsatp, va) <==> GuestWalks(pages, read, vsatp, va)
  {
    hide LowMachine, GuestPlan, Somes, LaidPages, Reads, WellFormedWalk, Walk, Canonical, PassesThrough, InGuest;
    forall a: nat ensures PassesThrough(pages, a) <==> InGuest(pages, a) {
      GuestPasses(g, strampoline, ds, pages, a);
    }
  }

  /** For every guest so built that uses paging, whatever its root, its page tables and the address.  With a
      root that the mask keeps, fast form and hardware agree exactly when the fast form fails, or the walk
      keeps to the guest's own pages as hardware asks and ends in one; from 2^42 on hardware always faults;
      root zero is taken for a guest without paging.  Where the target is the guest's, the full form is the
      fast one. */
  lemma GuestTranslationsAgree(m: Mem, live: set<nat>, frames: seq<nat>, t: Tree, pages: PageMap, g: MachineMeta,
                               strampoline: nat, ds: seq<AreaDesc>, va: Word, vsatp: Word)
    requires TableInv(m, live, t.root, frames, t, pages) && FullGuestRoot(t)
    requires LowMachine(g) && GuestPlan(g, strampoline) == Somes(ds) && LaidPages(ds, pages)
    requires Mode(vsatp) != MODE_BARE
    ensures var direct, ppn := GuestReader(ReaderOf(m), 0), vsatp % 0x1000_0000_0000;
            var fast := FastTwoStageTranslation(ReaderOf(m), 0, va, vsatp);
            var nested := NestedTranslation(ReaderOf(m), t.root, vsatp, va);
            var walk := Walk(direct, HardwareRoot(vsatp), va);
            && (0 < ppn < 0x400_0000_0000 ==>
                  && (fast.Some? <==> walk.Some?)
                  && (nested.Some? <==> GuestWalks(pages, direct, vsatp, va) && InGuest(pages, fast.value))
                  && (nested == fast <==> (fast.Some? ==> GuestWalks(pages, direct, vsatp, va) && InGuest(pages, fast.value))))
            && (ppn >= 0x400_0000_0000 ==> nested.None?)
            && (ppn == 0 ==>
                  && fast == Some(va)
                  && (nested == fast <==> GuestWalks(pages, direct, vsatp, va) && walk.value.pa == va && InGuest(pages, va)))
            && (fast.Some? && InGuest(pages, fast.value) ==>
                  TwoStageTranslation(ReaderOf(m), 0, va, vsatp, m, t.root) == fast)
  {
    hide TableInv, LowMachine, GuestPlan, Somes, LaidPages, Reads, FastTwoStageTranslation, TwoStageTranslation, Accepted,
         NestedTranslation, FullGuestRoot, HardwareRoot, Walk, GoodLeaf, PassesThrough, InGuest, OnlyIdentity;
    GuestOnlyIdentity(g, strampoline, ds, pages);
    GuestAccepted(g, strampoline, ds, pages, GuestReader(ReaderOf(m), 0), vsatp, va);
    SoftwareMeetsHardware(m, live, frames, t, pages, va, vsatp);
    GuestPasses(g, strampoline, ds, pages, va);
    var fast := FastTwoStageTranslation(ReaderOf(m), 0, va, vsatp);
    if fast.Some? { GuestPasses(g, strampoline, ds, pages, fast.value); }
  }

  /** For every guest so built that does not use paging: hardware translates exactly the addresses in the
      guest's pages, to themselves.  With a zero root, as each guest starts, both software forms do so there,
      and the fast form everywhere. */
  lemma BareGuestTranslates(m: Mem, live: set<nat>, frames: seq<nat>, t: Tree, pages: PageMap, g: MachineMeta,
                            strampoline: nat, ds: seq<AreaDesc>, va: Word, vsatp: Word)
    requires TableInv(m, live, t.root, frames, t, pages) && FullGuestRoot(t)
    requires LowMachine(g) && GuestPlan(g, strampoline) == Somes(ds) && LaidPages(ds, pages)
    requires Mode(vsatp) == MODE_BARE
    ensures NestedTranslation(ReaderOf(m), t.root, vsatp, va) == if InGuest(pages, va) then Some(va) else None
    ensures GuestRoot(vsatp) == 0 ==> FastTwoStageTranslation(ReaderOf(m), 0, va, vsatp) == Some(va)
    ensures GuestRoot(vsatp) == 0 && InGuest(pages, va) ==>
              TwoStageTranslation(ReaderOf(m), 0, va, vsatp, m, t.root) == Some(va)
  {
    hide TableInv, LowMachine, GuestPlan, Somes, LaidPages, FastTwoStageTranslation, TwoStageTranslation,
         NestedTranslation, FullGuestRoot, GuestRoot, GoodLeaf, PassesThrough, InGuest;
    GuestPasses(g, strampoline, ds, pages, va);
    BareMeetsHardware(m, live, frames, t, pages, va, vsatp);
  }

  // ---------------------------------------------------------------- the guest is confined

  /** No region of the machine meets the frame pool. */
  ghost predicate PoolApart(g: MachineMeta, s: FrameState) {
    forall v :: s.lo <= v < s.end ==> !InExecutable(g, v) && !InDevices(g, v)
  }

  /** What the guest can address is the machine's: hardware never leads it into the frame pool, where its
      own tables, the other tables and all areas' frames are. */
  lemma GuestStaysOutside(m: Mem, s: FrameState, frames: seq<nat>, t: Tree, pages: PageMap, g: MachineMeta,
                          strampoline: nat, ds: seq<AreaDesc>, gpa: nat)
    requires TableInv(m, Live(s), t.root, frames, t, pages) && FullGuestRoot(t)
    requires LowMachine(g) && GuestPlan(g, strampoline) == Somes(ds) && LaidPages(ds, pages) && PoolApart(g, s)
    ensures var pa := GStageWalk(ReaderOf(m), t.root, gpa);
            pa.Some? ==> pa == Some(gpa) && (gpa / 4096 < s.lo || s.end <= gpa / 4096)
  {
    hide TableInv, LowMachine, GuestPlan, Somes, LaidPages, FullGuestRoot, GStageWalk, InExecutable, InDevices,
         GoodLeaf, PassesThrough;
    GStagePasses(m, Live(s), frames, t, pages, gpa);
    GuestPasses(g, strampoline, ds, pages, gpa);
    GuestPagesExactly(g, strampoline, ds, pages, gpa / 4096);
  }

  /** Frame f can be written through the G-stage. */
  ghost predicate Reachable(m: Mem, root: nat, f: nat) {
    exists gpa: nat :: GStageWalk(ReaderOf(m), root, gpa).Some? && GStageWalk(ReaderOf(m), root, gpa).value / 4096 == f
  }

  /** Whatever the guest stores, its second-stage table keeps its invariant and its meaning, and the
      hardware goes on translating every address as before. */
  lemma GuestStoresHarmless(m: Mem, m': Mem, s: FrameState, frames: seq<nat>, t: Tree, pages: PageMap, g: MachineMeta,
                            strampoline: nat, ds: seq<AreaDesc>, stored: set<nat>)
    requires FramesInv(s) && TableInv(m, Live(s), t.root, frames, t, pages) && FullGuestRoot(t)
    requires LowMachine(g) && GuestPlan(g, strampoline) == Somes(ds) && LaidPages(ds, pages) && PoolApart(g, s)
    requires SameOutside(m, m', stored) && forall f :: f in stored ==> Reachable(m, t.root, f)
    ensures TableInv(m', Live(s), t.root, frames, t, pages)
    ensures forall gpa: nat :: GStageWalk(ReaderOf(m'), t.root, gpa) == GStageWalk(ReaderOf(m), t.root, gpa)
    ensures stored !! Live(s)
  {
    hide TableInv, LowMachine, GuestPlan, Somes, LaidPages, FullGuestRoot, GStageWalk, PoolApart, SameOutside, GoodLeaf;
    forall f | f in stored ensures f !in Live(s) {
      var gpa: nat :| GStageWalk(ReaderOf(m), t.root, gpa).Some? && GStageWalk(ReaderOf(m), t.root, gpa).value / 4096 == f;
      GuestStaysOutside(m, s, frames, t, pages, g, strampoline, ds, gpa);
    }
    TableFramesLive(m, Live(s), t.root, frames, t, pages);
    TableInvFrame(m, m', Live(s), Live(s), t.root, frames, t, pages, stored);
    forall gpa: nat ensures GStageWalk(ReaderOf(m'), t.root, gpa) == GStageWalk(ReaderOf(m), t.root, gpa) {
      GStageOfTable(m, Live(s), frames, t, pages, gpa);
      GStageOfTable(m', Live(s), frames, t, pages, gpa);
    }
  }

  // ---------------------------------------------------------------- where the software forms leave the hardware

  /** V, R, W and X: a 1 GiB leaf onto address zero. */
  const POOL_LEAF: Word := 15

  /** A first-stage root outside the guest's pages separates the two: the software reads page tables without
      the second stage.  With the root in a frame f of the pool that the guest's table does not hold, and a
      leaf there, the fast form answers and hardware faults, for every guest and every canonical address. */
  lemma RootInPoolDisagrees(m: Mem, s: FrameState, frames: seq<nat>, t: Tree, pages: PageMap, g: MachineMeta,
                            strampoline: nat, ds: seq<AreaDesc>, f: nat, va: Word)
    requires TableInv(m, Live(s), t.root, frames, t, pages) && FullGuestRoot(t)
    requires LowMachine(g) && GuestPlan(g, strampoline) == Somes(ds) && LaidPages(ds, pages) && PoolApart(g, s)
    requires s.lo <= f < s.end && 0 < f < 0x400_0000_0000 && f !in frames && Canonical(va)
    ensures var m', vsatp: Word := Wr(m, f, VaIndex(va, 0), POOL_LEAF), 0x8000_0000_0000_0000 + f;
            && TableInv(m', Live(s), t.root, frames, t, pages)
            && FastTwoStageTranslation(ReaderOf(m'), 0, va, vsatp) == Some(va % 0x4000_0000)
            && NestedTranslation(ReaderOf(m'), t.root, vsatp, va) == None
  {
    hide TableInv, LowMachine, GuestPlan, Somes, LaidPages, PoolApart, FullGuestRoot, NestedTranslation, ReaderOf, Canonical,
         FastTwoStageTranslation, VaIndex, WellFormedWalk;
    var m', vsatp: Word := Wr(m, f, VaIndex(va, 0), POOL_LEAF), 0x8000_0000_0000_0000 + f;
    assert SameOutside(m, m', {f});
    TableFramesLive(m, Live(s), t.root, frames, t, pages);
    TableInvFrame(m, m', Live(s), Live(s), t.root, frames, t, pages, {f});
    Euclid(vsatp, 0x1000_0000_0000, 0x8_0000, f);
    Euclid(vsatp, 0x400_0000_0000, 0x20_0000, f);
    Euclid(vsatp, 0x1000_0000_0000_0000, 8, f);
    var direct := GuestReader(ReaderOf(m'), 0);
    LeafInPool(m', f, va);
    FastIsFirstStage(ReaderOf(m'), va, vsatp);
    NotInPool(s, pages, g, strampoline, ds, f, VaIndex(va, 0) * 8);
    assert f * 4096 + VaIndex(va, 0) * 8 in Reads(direct, HardwareRoot(vsatp), va, 0);
    hide Reads, Walk, InGuest, HardwareRoot;
    assert !GuestWalks(pages, direct, vsatp, va);
    GuestTranslationsAgree(m', Live(s), frames, t, pages, g, strampoline, ds, va, vsatp);
  }

  lemma LeafInPool(m: Mem, f: nat, va: nat)
    requires Rd(m, f, VaIndex(va, 0)) == POOL_LEAF
    ensures var direct := GuestReader(ReaderOf(m), 0);
            && PaOf(Walk(direct, f * 4096, va)) == Some(va % 0x4000_0000)
            && Reads(direct, f * 4096, va, 0) == [f * 4096 + VaIndex(va, 0) * 8]
  {
    hide ReaderOf, VaIndex;
    ReadSlot(m, f, VaIndex(va, 0));
    assert Gpa2Hpa(f * 4096 + VaIndex(va, 0) * 8, 0) == f * 4096 + VaIndex(va, 0) * 8;
  }

  lemma NotInPool(s: FrameState, pages: PageMap, g: MachineMeta, strampoline: nat, ds: seq<AreaDesc>, f: nat, off: nat)
    requires LowMachine(g) && GuestPlan(g, strampoline) == Somes(ds) && LaidPages(ds, pages) && PoolApart(g, s)
    requires s.lo <= f < s.end && off < 4096
    ensures !InGuest(pages, f * 4096 + off)
  {
    hide LowMachine, GuestPlan, Somes, LaidPages, InExecutable, InDevices;
    Euclid(f * 4096 + off, 4096, f, off);
    GuestPagesExactly(g, strampoline, ds, pages, f);
  }
}
