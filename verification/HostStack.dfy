/** Hypervisor stacks (`stack` of src/hypervisor.rs): one framed area per guest below the trap context. */
module HostStacks {
  import opened Words
  import opened Frames
  import opened Memory
  import opened TableModel
  import opened PageTables
  import opened AreaSpecs
  import opened MemorySets

  /** The trap context's address: two pages below 2^64. */
  const TRAP_CONTEXT: nat := 0xffff_ffff_ffff_e000

  const KERNEL_STACK_SIZE: nat := 0x4000

  /** R and W. */
  const STACK_PERM: Flags := 6

  /** `hstack_position`: (bottom, top); None is the panic of a checked subtraction. */
  function StackPosition(id: nat): (r: Option<(nat, nat)>)
    ensures r.Some? ==> r.value.1 - r.value.0 == KERNEL_STACK_SIZE && r.value.1 <= TRAP_CONTEXT
  {
    if id * (KERNEL_STACK_SIZE + 4096) + KERNEL_STACK_SIZE > TRAP_CONTEXT then None
    else
      var top := TRAP_CONTEXT - id * (KERNEL_STACK_SIZE + 4096);
      Some((top - KERNEL_STACK_SIZE, top))
  }

  /** The page after a stack's last one: five pages further down for each guest. */
  function StackEnd(id: nat): int {
    0x7ff_fffe - 5 * id
  }

  /** The guest's stack lies in the 39-bit space, with room for a guard page below it. */
  predicate StackFits(id: nat) {
    5 * id + 7 <= 0x800_0000
  }

  function StackArea(id: nat): AreaDesc
    requires StackFits(id)
  {
    AreaDesc(StackEnd(id) - 4, StackEnd(id), None, Framed, STACK_PERM)
  }

  /** Masked to 39 bits, a guest's stack is the four pages below its end, and the top half keeps its sign. */
  lemma StackAreaIs(id: nat)
    requires StackFits(id)
    ensures StackPosition(id) == Some((0xffff_ffff_ffff_a000 - id * 0x5000, 0xffff_ffff_ffff_e000 - id * 0x5000))
    ensures StackArea(id) == AreaDesc(0x7ff_fffa - 5 * id, 0x7ff_fffe - 5 * id, None, Framed, 6)
    ensures var (bottom, top) := StackPosition(id).value;
            && NewArea(VirtAddr(bottom), VirtAddr(top), None, Framed, STACK_PERM) == Some(StackArea(id))
            && VirtAddr(top) == StackEnd(id) * 4096 && VirtAddr(bottom) == (StackEnd(id) - 4) * 4096
  {
    var (bottom, top) := StackPosition(id).value;
    Euclid(top, 0x80_0000_0000, 0x1ff_ffff, StackEnd(id) * 4096);
    Euclid(bottom, 0x80_0000_0000, 0x1ff_ffff, (StackEnd(id) - 4) * 4096);
    Euclid(StackEnd(id) * 4096 - 1 + 4096, 4096, StackEnd(id), 4095);
    Euclid((StackEnd(id) - 4) * 4096, 4096, StackEnd(id) - 4, 0);
  }

  /** `usize::from(VirtAddr)`: sign extension from bit 38. */
  function SignExtend(va: nat): nat {
    if va >= 0x40_0000_0000 then va + 0xffff_ff80_0000_0000 else va
  }

  /** The address a stack is used at is the address it is mapped at exactly in the upper half. */
  lemma StackIsCanonical(id: nat)
    requires StackFits(id)
    ensures StackPosition(id).Some?
    ensures SignExtend(VirtAddr(StackPosition(id).value.0)) == StackPosition(id).value.0 <==> (StackEnd(id) - 4) * 4096 >= 0x40_0000_0000
  {
    StackAreaIs(id);
  }

  /** Stacks of different guests share no page, avoid the trap-context and trampoline pages, and leave
      exactly one page between neighbours, which belongs to no stack. */
  lemma StacksApart(i: nat, j: nat)
    requires i < j && StackFits(j)
    ensures StackArea(j).vpnEnd < StackArea(i).vpnStart
    ensures StackArea(i).vpnEnd <= 0x7ff_fffe
    ensures j == i + 1 ==> StackArea(i).vpnStart == StackArea(j).vpnEnd + 1
  {
  }

  /** The page below a stack. */
  function Guard(id: nat): nat
    requires StackFits(id)
  {
    StackEnd(id) - 5
  }

  /** All stack pages of a list of guests. */
  function StackPages(ids: seq<nat>): set<nat>
    requires forall i :: 0 <= i < |ids| ==> StackFits(ids[i])
  {
    if ids == [] then {}
    else StackPages(ids[..|ids| - 1]) + Range(StackArea(ids[|ids| - 1]).vpnStart, StackArea(ids[|ids| - 1]).vpnEnd)
  }

  lemma {:induction false} StackPagesApart(ids: seq<nat>, id: nat, v: nat)
    requires forall i :: 0 <= i < |ids| ==> StackFits(ids[i])
    requires id !in ids && StackFits(id) && StackArea(id).vpnStart - 1 <= v < StackArea(id).vpnEnd
    ensures v !in StackPages(ids)
  {
    if ids != [] {
      var last := ids[|ids| - 1];
      StackPagesApart(ids[..|ids| - 1], id, v);
      assert last != id;
      if last < id { StacksApart(last, id); } else { StacksApart(id, last); }
    }
  }

  lemma {:induction false} GuardInNoStack(ids: seq<nat>, id: nat)
    requires forall i :: 0 <= i < |ids| ==> StackFits(ids[i])
    requires StackFits(id)
    ensures Guard(id) !in StackPages(ids)
  {
    if ids != [] {
      GuardInNoStack(ids[..|ids| - 1], id);
    }
  }

  lemma {:induction false} StackPagesGrow(ids: seq<nat>, n: nat)
    requires forall i :: 0 <= i < |ids| ==> StackFits(ids[i])
    requires n <= |ids|
    ensures StackPages(ids[..n]) <= StackPages(ids)
  {
    if n == |ids| {
      assert ids[..n] == ids;
    } else {
      StackPagesGrow(ids[..|ids| - 1], n);
      assert ids[..|ids| - 1][..n] == ids[..n];
    }
  }

  lemma StackPagesNext(ids: seq<nat>, n: nat)
    requires forall i :: 0 <= i < |ids| ==> StackFits(ids[i])
    requires n < |ids|
    ensures StackPages(ids[..n + 1]) == StackPages(ids[..n]) + Range(StackArea(ids[n]).vpnStart, StackArea(ids[n]).vpnEnd)
  {
    assert ids[..n + 1][..n] == ids[..n];
  }

  /** The next stack's pages are unmapped, so only the pool can be in its way. */
  lemma OnlyFramesLack(ids: seq<nat>, n: nat, pages0: set<nat>, o: Snap)
    requires forall i :: 0 <= i < |ids| ==> StackFits(ids[i])
    requires n < |ids| && NoDuplicates(ids) && pages0 !! StackPages(ids)
    requires o.pages.Keys == pages0 + StackPages(ids[..n])
    ensures Fits(StackArea(ids[n]), o) <==>
              TableNeed(o.tree, StackArea(ids[n]).vpnStart, StackArea(ids[n]).vpnEnd) + 4 <= FreeCount(o.pool)
    ensures forall why :: Explains(StackArea(ids[n]), o, why) ==> why == OutOfFrames
  {
    hide TableNeed, StackPages, FreeCount;
    var d := StackArea(ids[n]);
    StackPagesGrow(ids, n + 1);
    StackPagesNext(ids, n);
    forall v | d.vpnStart <= v < d.vpnEnd ensures v !in o.pages {
      assert v in Range(d.vpnStart, d.vpnEnd);
      StackPagesApart(ids[..n], ids[n], v);
    }
  }

  /** `hstack_alloc`. */
  method StackAlloc(mem: PhysMem, alloc: FrameAllocator, hpm: MemorySet, id: nat) returns (r: Outcome)
    requires hpm.Valid(mem, alloc) && StackFits(id)
    modifies hpm, hpm.table, mem, alloc
    ensures r.Done? <==> Fits(StackArea(id), old(BareSnap(mem, alloc, hpm.table)))
    ensures !r.Done? ==> Explains(StackArea(id), old(BareSnap(mem, alloc, hpm.table)), r.why)
    ensures r.Done? ==>
              && hpm.Valid(mem, alloc) && |hpm.areas| == old(|hpm.areas|) + 1
              && Extended(StackArea(id), old(BareSnap(mem, alloc, hpm.table)),
                          hpm.areas[old(|hpm.areas|)].Snapshot(mem, alloc, hpm.table))
  {
    hide TableInv, Fits, FramesInv, AreaInv, Apart, NewArea, Extended, Explains, Live;
    StackAreaIs(id);
    var (bottom, top) := StackPosition(id).value;
    r := hpm.InsertFramedArea(mem, alloc, VirtAddr(bottom), VirtAddr(top), STACK_PERM);
  }

  // ---------------------------------------------------------------- what the stacks cost

  /** The prefixes of all stack pages of a list of guests. */
  function StackPrefixes(ids: seq<nat>, n: nat): set<nat>
    requires n > 0 && forall i :: 0 <= i < |ids| ==> StackFits(ids[i])
  {
    if ids == [] then {}
    else
      StackPrefixes(ids[..|ids| - 1], n)
      + Prefixes(StackArea(ids[|ids| - 1]).vpnStart, StackArea(ids[|ids| - 1]).vpnEnd, n)
  }

  /** Frames that the stacks take over a tree with these tables: four each, and the missing tables. */
  function StacksCost(mid: set<nat>, leaf: set<nat>, ids: seq<nat>): nat
    requires forall i :: 0 <= i < |ids| ==> StackFits(ids[i])
  {
    |StackPrefixes(ids, 0x4_0000) - mid| + |StackPrefixes(ids, 512) - leaf| + 4 * |ids|
  }

  lemma OneMoreStack(mid: set<nat>, leaf: set<nat>, t: Tree, ids: seq<nat>, n: nat)
    requires n < |ids| && forall i :: 0 <= i < |ids| ==> StackFits(ids[i])
    requires t.mid.Keys == mid + StackPrefixes(ids[..n], 0x4_0000) && t.leaf.Keys == leaf + StackPrefixes(ids[..n], 512)
    ensures var d := StackArea(ids[n]);
            && StacksCost(mid, leaf, ids[..n + 1]) == StacksCost(mid, leaf, ids[..n]) + TableNeed(t, d.vpnStart, d.vpnEnd) + 4
            && mid + StackPrefixes(ids[..n + 1], 0x4_0000) == t.mid.Keys + Prefixes(d.vpnStart, d.vpnEnd, 0x4_0000)
            && leaf + StackPrefixes(ids[..n + 1], 512) == t.leaf.Keys + Prefixes(d.vpnStart, d.vpnEnd, 512)
  {
    assert ids[..n + 1][..n] == ids[..n];
    var d := StackArea(ids[n]);
    hide StackArea, Prefixes;
    MoreSize(mid, StackPrefixes(ids[..n], 0x4_0000), Prefixes(d.vpnStart, d.vpnEnd, 0x4_0000));
    MoreSize(leaf, StackPrefixes(ids[..n], 512), Prefixes(d.vpnStart, d.vpnEnd, 512));
  }

  lemma MoreSize(have: set<nat>, p: set<nat>, q: set<nat>)
    ensures |(p + q) - have| == |p - have| + |q - (have + p)|
    ensures have + (p + q) == have + p + q
  {
    assert (p + q) - have == (p - have) + (q - (have + p));
  }

  /** Stacks for any distinct guests, over a space that maps none of their pages.  As many are allocated as
      the pool can supply, with their tables; allocation never finds a page mapped already.  Exactly the
      stacks' pages are added, so every unmapped guard page stays unmapped. */
  method AllocStacks(mem: PhysMem, alloc: FrameAllocator, hpm: MemorySet, ids: seq<nat>) returns (n: nat, r: Outcome)
    requires hpm.Valid(mem, alloc) && NoDuplicates(ids)
    requires forall i :: 0 <= i < |ids| ==> StackFits(ids[i])
    requires hpm.table.pages.Keys !! StackPages(ids)
    modifies hpm, hpm.table, mem, alloc
    ensures n <= |ids| && (r.Done? <==> n == |ids|)
    ensures old(StacksCost(hpm.table.tree.mid.Keys, hpm.table.tree.leaf.Keys, ids[..n])) <= old(FreeCount(alloc.State()))
    ensures !r.Done? ==>
              && r == Panicked(OutOfFrames)
              && old(FreeCount(alloc.State())) < old(StacksCost(hpm.table.tree.mid.Keys, hpm.table.tree.leaf.Keys, ids[..n + 1]))
    ensures r.Done? ==> hpm.Valid(mem, alloc) && hpm.table.pages.Keys == old(hpm.table.pages.Keys) + StackPages(ids)
    ensures r.Done? ==>
              && (forall v :: v in old(hpm.table.pages) ==> hpm.table.pages[v] == old(hpm.table.pages)[v])
              && (forall v :: v in StackPages(ids) ==> hpm.table.pages[v] % 256 == 7)
    ensures r.Done? ==> forall i :: 0 <= i < |ids| && Guard(ids[i]) !in old(hpm.table.pages) ==> Guard(ids[i]) !in hpm.table.pages
  {
    hide TableInv, Fits, FramesInv, AreaInv, Apart, TableNeed, StackPages, StackArea, Range, StackPrefixes, StacksCost, Extended,
         Explains, Live, FreeCount;
    ghost var mid, leaf, free := hpm.table.tree.mid.Keys, hpm.table.tree.leaf.Keys, FreeCount(alloc.State());
    n, r := 0, Done;
    NoStacks(ids, mid, leaf);
    FreeIsNat(alloc);
    while n < |ids|
      invariant n <= |ids| && r.Done? && hpm.Valid(mem, alloc)
      invariant hpm.table.pages.Keys == old(hpm.table.pages.Keys) + StackPages(ids[..n])
      invariant forall v :: v in old(hpm.table.pages) ==> hpm.table.pages[v] == old(hpm.table.pages)[v]
      invariant forall v :: v in StackPages(ids[..n]) ==> hpm.table.pages[v] % 256 == 7
      invariant hpm.table.tree.mid.Keys == mid + StackPrefixes(ids[..n], 0x4_0000)
      invariant hpm.table.tree.leaf.Keys == leaf + StackPrefixes(ids[..n], 512)
      invariant FreeCount(alloc.State()) == free - StacksCost(mid, leaf, ids[..n]) >= 0
    {
      ghost var o := BareSnap(mem, alloc, hpm.table);
      OnlyFramesLack(ids, n, old(hpm.table.pages.Keys), o);
      OneMoreStack(mid, leaf, o.tree, ids, n);
      r := StackAlloc(mem, alloc, hpm, ids[n]);
      if !r.Done? {
        return;
      }
      StackAdded(StackArea(ids[n]), o, hpm.areas[|hpm.areas| - 1].Snapshot(mem, alloc, hpm.table), ids[n]);
      StackPagesNext(ids, n);
      n := n + 1;
    }
    assert ids[..n] == ids;
    forall i | 0 <= i < |ids| ensures Guard(ids[i]) !in StackPages(ids) {
      GuardInNoStack(ids, ids[i]);
    }
  }

  lemma StackAdded(d: AreaDesc, o: Snap, n: Snap, id: nat)
    requires StackFits(id) && d == StackArea(id) && Extended(d, o, n)
    ensures n.pages.Keys == o.pages.Keys + Range(d.vpnStart, d.vpnEnd)
    ensures forall v :: v in o.pages ==> n.pages[v] == o.pages[v]
    ensures forall v :: v in Range(d.vpnStart, d.vpnEnd) ==> n.pages[v] % 256 == 7
    ensures n.tree.mid.Keys == o.tree.mid.Keys + Prefixes(d.vpnStart, d.vpnEnd, 0x4_0000)
    ensures n.tree.leaf.Keys == o.tree.leaf.Keys + Prefixes(d.vpnStart, d.vpnEnd, 512)
    ensures FreeCount(n.pool) == FreeCount(o.pool) - TableNeed(o.tree, d.vpnStart, d.vpnEnd) - 4
  {
    hide PteNew, WithV, TableNeed, Prefixes, Live, FreeCount, BothGrew;
    forall v | v in Range(d.vpnStart, d.vpnEnd) ensures n.pages[v] % 256 == 7 {
      StackFlags(Target(d, n.data, v));
    }
  }

  /** V, R and W. */
  lemma StackFlags(ppn: nat)
    ensures PteNew(ppn, WithV(STACK_PERM)) % 256 == 7
  {
    hide PteNew, WithV;
    PteNumbers(ppn, STACK_PERM);
    Euclid(PteNew(ppn, WithV(STACK_PERM)), 256, ppn % 0x40_0000_0000_0000 * 4, 7);
  }

  lemma NoStacks(ids: seq<nat>, mid: set<nat>, leaf: set<nat>)
    requires forall i :: 0 <= i < |ids| ==> StackFits(ids[i])
    ensures StackPages(ids[..0]) == {} && StacksCost(mid, leaf, ids[..0]) == 0
    ensures StackPrefixes(ids[..0], 0x4_0000) == {} && StackPrefixes(ids[..0], 512) == {}
  {
    var none: set<nat> := {};
    assert none - mid == {} && none - leaf == {};
  }
}
