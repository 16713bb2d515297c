/** `PageTableSv39` (src/page_table/sv39.rs): a table of page tables over the frame allocator. */
module PageTables {
  import opened Words
  import opened Frames
  import opened Memory
  import opened TableModel

  // ---------------------------------------------------------------- the invariant of one table

  /** The table holds each of its frames once, all of them live: the tree's and the spare ones. */
  ghost predicate Holds(live: set<nat>, root: nat, frames: seq<nat>, t: Tree) {
    && t.root == root
    && NoDuplicates(frames) && Elements(frames) <= live
    && Elements(frames) == t.own.Keys + t.spare && t.own.Keys !! t.spare
  }

  ghost predicate SpareZero(m: Mem, t: Tree) {
    forall f :: f in t.spare ==> ZeroFrame(m, f)
  }

  ghost predicate TableInv(m: Mem, live: set<nat>, root: nat, frames: seq<nat>, t: Tree, pages: PageMap) {
    Shape(t) && Represents(m, t, pages) && Holds(live, root, frames, t) && SpareZero(m, t)
  }

  /** A table took frames from the pool: it lost none, nobody else's frames changed hands, and each
      frame it gained left the pool. */
  ghost predicate Grew(s: FrameState, s': FrameState, frames: seq<nat>, frames': seq<nat>) {
    && Elements(frames) <= Elements(frames')
    && Live(s') - Elements(frames') == Live(s) - Elements(frames)
    && FreeCount(s') + |frames'| == FreeCount(s) + |frames|
    && s'.lo == s.lo && s'.end == s.end
  }

  lemma GrewOne(s: FrameState, s': FrameState, frames: seq<nat>, f: nat)
    requires Elements(frames) <= Live(s) && f !in Live(s)
    requires Live(s') == Live(s) + {f} && FreeCount(s') == FreeCount(s) - 1 && s'.lo == s.lo && s'.end == s.end
    ensures Grew(s, s', frames, frames + [f])
  {
    assert Elements(frames + [f]) == Elements(frames) + {f};
  }

  /** A table survives changes to frames it does not hold, and growth of the live set. */
  lemma TableInvFrame(m: Mem, m': Mem, live: set<nat>, live': set<nat>, root: nat, frames: seq<nat>, t: Tree,
                      pages: PageMap, changed: set<nat>)
    requires TableInv(m, live, root, frames, t, pages)
    requires SameOutside(m, m', changed) && Elements(frames) !! changed
    requires Elements(frames) <= live'
    ensures TableInv(m', live', root, frames, t, pages)
  {
    RepresentsFrame(m, m', t, pages, changed);
  }

  lemma TableFramesLive(m: Mem, live: set<nat>, root: nat, frames: seq<nat>, t: Tree, pages: PageMap)
    requires TableInv(m, live, root, frames, t, pages)
    ensures Elements(frames) <= live
  {
  }

  // ---------------------------------------------------------------- descending one level

  ghost predicate HasNode(t: Tree, v: nat, level: nat) {
    level == 0 || (level == 1 && v / 0x4_0000 in t.mid) || (level == 2 && v / 512 in t.leaf)
  }

  ghost function NodeAt(t: Tree, v: nat, level: nat): nat
    requires HasNode(t, v, level)
  {
    if level == 0 then t.root else if level == 1 then t.mid[v / 0x4_0000] else t.leaf[v / 512]
  }

  ghost function Grown(t: Tree, v: nat, level: nat, f: nat): Tree {
    if level == 0 then WithMid(t, v / 0x4_0000, f) else WithLeaf(t, v / 512, f)
  }

  lemma GrownKeys(t: Tree, v: nat, level: nat, f: nat)
    requires level < 2
    ensures Grown(t, v, level, f).mid.Keys == t.mid.Keys + (if level == 0 then {v / 0x4_0000} else {})
    ensures Grown(t, v, level, f).leaf.Keys == t.leaf.Keys + (if level == 1 then {v / 512} else {})
    ensures Grown(t, v, level, f).spare == t.spare
  {
  }

  lemma KeysPresent(t: Tree, v: nat, level: nat)
    requires level < 2 && HasNode(t, v, level + 1)
    ensures t.mid.Keys == t.mid.Keys + (if level == 0 then {v / 0x4_0000} else {})
    ensures t.leaf.Keys == t.leaf.Keys + (if level == 1 then {v / 512} else {})
  {
  }

  lemma GrewNothing(s: FrameState, frames: seq<nat>)
    ensures Grew(s, s, frames, frames)
  {
  }

  /** The entry read at a level is valid exactly when the next table exists, and then names it. */
  lemma StepDown(m: Mem, t: Tree, pages: PageMap, vpn: nat, level: nat)
    requires Shape(t) && Represents(m, t, pages) && level < 2 && HasNode(t, Key(vpn), level)
    ensures var w := Rd(m, NodeAt(t, Key(vpn), level), Index(vpn, level));
            && (IsValid(w) <==> HasNode(t, Key(vpn), level + 1))
            && (IsValid(w) ==> PtePpn(w) == NodeAt(t, Key(vpn), level + 1))
  {
    KeySplits(vpn);
    var a, i := Index(vpn, 0), Index(vpn, 1);
    if level == 0 {
      PointerDecodes(t.mid, a);
      assert Rd(m, t.root, a) == Pointer(t.mid, a);
    } else {
      PointerDecodes(t.leaf, a * 512 + i);
      assert Rd(m, t.mid[a], i) == Pointer(t.leaf, a * 512 + i);
    }
  }

  lemma StepDownInv(m: Mem, live: set<nat>, root: nat, frames: seq<nat>, t: Tree, pages: PageMap, vpn: nat, level: nat)
    requires TableInv(m, live, root, frames, t, pages) && level < 2 && HasNode(t, Key(vpn), level)
    ensures var w := Rd(m, NodeAt(t, Key(vpn), level), Index(vpn, level));
            && (IsValid(w) <==> HasNode(t, Key(vpn), level + 1))
            && (IsValid(w) ==> PtePpn(w) == NodeAt(t, Key(vpn), level + 1))
  {
    StepDown(m, t, pages, vpn, level);
  }

  /** Linking a fresh cleared frame under the table reached at a level. */
  lemma GrowAt(m: Mem, t: Tree, pages: PageMap, vpn: nat, level: nat, f: nat)
    requires Shape(t) && Represents(m, t, pages)
    requires level < 2 && HasNode(t, Key(vpn), level) && !HasNode(t, Key(vpn), level + 1)
    requires f !in t.own && f < 0x1000_0000_0000 && ZeroFrame(m, f)
    ensures var t' := Grown(t, Key(vpn), level, f);
            && Shape(t') && t'.root == t.root && t'.own.Keys == t.own.Keys + {f} && t'.spare == t.spare
            && Represents(Wr(m, NodeAt(t, Key(vpn), level), Index(vpn, level), PteNew(f, 1)), t', pages)
            && HasNode(t', Key(vpn), level + 1) && NodeAt(t', Key(vpn), level + 1) == f
  {
    KeySplits(vpn);
    if level == 0 {
      GrowMid(m, t, pages, Index(vpn, 0), f);
    } else {
      var b := Key(vpn) / 512;
      Euclid(b, 512, Index(vpn, 0), Index(vpn, 1));
      GrowLeaf(m, t, pages, b, f);
    }
  }

  lemma GrowInv(m: Mem, m0: Mem, live: set<nat>, root: nat, frames: seq<nat>, t: Tree, pages: PageMap,
                vpn: nat, level: nat, f: nat)
    requires TableInv(m0, live, root, frames, t, pages) && SameOutside(m0, m, {f}) && ZeroFrame(m, f)
    requires level < 2 && HasNode(t, Key(vpn), level) && !HasNode(t, Key(vpn), level + 1)
    requires f !in live && f < 0x1000_0000_0000
    ensures TableInv(Wr(m, NodeAt(t, Key(vpn), level), Index(vpn, level), PteNew(f, 1)), live + {f}, root,
                     frames + [f], Grown(t, Key(vpn), level, f), pages)
    ensures Elements(frames + [f]) == Elements(frames) + {f}
    ensures NodeAt(t, Key(vpn), level) in Elements(frames)
    ensures HasNode(Grown(t, Key(vpn), level, f), Key(vpn), level + 1)
    ensures NodeAt(Grown(t, Key(vpn), level, f), Key(vpn), level + 1) == f
  {
    TableInvFrame(m0, m, live, live, root, frames, t, pages, {f});
    GrowAt(m, t, pages, vpn, level, f);
    NodeOwned(t, Key(vpn), level);
    HoldsOneMore(live, root, frames, t, Grown(t, Key(vpn), level, f), f);
    SpareStaysZero(m, t, NodeAt(t, Key(vpn), level), Index(vpn, level), PteNew(f, 1));
  }

  lemma HoldsOneMore(live: set<nat>, root: nat, frames: seq<nat>, t: Tree, t': Tree, f: nat)
    requires Holds(live, root, frames, t) && f !in live
    requires t'.root == t.root && t'.own.Keys == t.own.Keys + {f} && t'.spare == t.spare
    ensures Holds(live + {f}, root, frames + [f], t')
    ensures Elements(frames + [f]) == Elements(frames) + {f}
  {
    assert Elements(frames + [f]) == Elements(frames) + {f};
  }

  lemma SpareStaysZero(m: Mem, t: Tree, p: nat, i: nat, w: Word)
    requires SpareZero(m, t) && p !in t.spare
    ensures SpareZero(Wr(m, p, i, w), t)
  {
  }

  lemma NodeOwned(t: Tree, v: nat, level: nat)
    requires Shape(t) && HasNode(t, v, level)
    ensures NodeAt(t, v, level) in t.own
  {
  }

  /** How many tables the path to a page still lacks. */
  ghost function Missing(t: Tree, vpn: nat): nat {
    (if Key(vpn) / 0x4_0000 in t.mid then 0 else 1) + (if Key(vpn) / 512 in t.leaf then 0 else 1)
  }

  /** The tree gained exactly the tables of one page's path. */
  ghost predicate PathAdded(t: Tree, t': Tree, vpn: nat) {
    && t'.mid.Keys == t.mid.Keys + {Key(vpn) / 0x4_0000}
    && t'.leaf.Keys == t.leaf.Keys + {Key(vpn) / 512}
    && t'.root == t.root && t'.spare == t.spare
  }

  class PageTable {
    var rootPpn: nat
    var frames: seq<nat>
    ghost var tree: Tree
    ghost var pages: PageMap

    ghost predicate Valid(mem: PhysMem, alloc: FrameAllocator)
      reads this, mem, alloc
    {
      alloc.Valid() && TableInv(mem.words, Live(alloc.State()), rootPpn, frames, tree, pages)
    }

    /** The loop body of `find_pte_create`: make sure the next table exists; None is the panic of an
        empty pool. */
    method EnsureChild(mem: PhysMem, alloc: FrameAllocator, vpn: nat, level: nat, ppn: nat) returns (child: Option<nat>)
      requires Valid(mem, alloc)
      requires level < 2 && HasNode(tree, Key(vpn), level) && ppn == NodeAt(tree, Key(vpn), level)
      modifies this, mem, alloc
      ensures Valid(mem, alloc) && rootPpn == old(rootPpn) && pages == old(pages) && tree.spare == old(tree.spare)
      ensures Grew(old(alloc.State()), alloc.State(), old(frames), frames)
      ensures SameOutside(old(mem.words), mem.words, Elements(frames))
      ensures child.None? <==> !old(HasNode(tree, Key(vpn), level + 1)) && old(FreeCount(alloc.State())) == 0
      ensures child.None? ==> alloc.State() == old(alloc.State()) && tree == old(tree)
      ensures child.Some? ==> HasNode(tree, Key(vpn), level + 1) && child.value == NodeAt(tree, Key(vpn), level + 1)
      ensures |frames| == old(|frames|) + if old(HasNode(tree, Key(vpn), level + 1)) || child.None? then 0 else 1
      ensures child.Some? ==>
                && tree.mid.Keys == old(tree.mid.Keys) + (if level == 0 then {Key(vpn) / 0x4_0000} else {})
                && tree.leaf.Keys == old(tree.leaf.Keys) + (if level == 1 then {Key(vpn) / 512} else {})
    {
      hide TableInv, Grown, PteNew, Grew, Live, HasNode, NodeAt, ZeroFrame, FramesInv, IsValid, PtePpn;
      var i := Index(vpn, level);
      StepDownInv(mem.words, Live(alloc.State()), rootPpn, frames, tree, pages, vpn, level);
      GrewNothing(alloc.State(), frames);
      if HasNode(tree, Key(vpn), level + 1) { KeysPresent(tree, Key(vpn), level); }
      if !IsValid(Rd(mem.words, ppn, i)) {
        var f := FrameAlloc(mem, alloc);
        if f.None? {
          return None;
        }
        GrowInv(mem.words, old(mem.words), old(Live(alloc.State())), rootPpn, frames, tree, pages, vpn, level, f.value);
        TableFramesLive(old(mem.words), old(Live(alloc.State())), rootPpn, frames, tree, pages);
        GrewOne(old(alloc.State()), alloc.State(), frames, f.value);
        GrownKeys(tree, Key(vpn), level, f.value);
        mem.WriteWord(ppn, i, PteNew(f.value, 1));
        frames := frames + [f.value];
        tree := Grown(tree, Key(vpn), level, f.value);
        PteRoundTrip(f.value, 1);
      }
      child := Some(PtePpn(Rd(mem.words, ppn, i)));
    }

    /** `find_pte`: the slot of the leaf entry. */
    method FindPte(mem: PhysMem, vpn: nat) returns (slot: Option<(nat, nat)>)
      ensures slot == FindSlot(mem.words, rootPpn, vpn)
    {
      var idx := Indexes(vpn);
      var ppn := rootPpn;
      for i := 0 to 3
        invariant i < 3
        invariant Descend(mem.words, ppn, vpn, i) == FindSlot(mem.words, rootPpn, vpn)
      {
        var w := Rd(mem.words, ppn, idx[i]);
        if i == 2 {
          return Some((ppn, idx[i]));
        }
        if !IsValid(w) {
          return None;
        }
        ppn := PtePpn(w);
      }
      slot := None;
    }

    /** `find_pte_create`: builds the missing tables of the path; None is the panic of an empty pool,
        which happens exactly when the pool holds fewer frames than the path lacks. */
    method FindPteCreate(mem: PhysMem, alloc: FrameAllocator, vpn: nat) returns (slot: Option<(nat, nat)>)
      requires Valid(mem, alloc)
      modifies this, mem, alloc
      ensures Valid(mem, alloc) && rootPpn == old(rootPpn) && pages == old(pages) && tree.spare == old(tree.spare)
      ensures Grew(old(alloc.State()), alloc.State(), old(frames), frames)
      ensures SameOutside(old(mem.words), mem.words, Elements(frames))
      ensures slot.None? <==> old(FreeCount(alloc.State())) < old(Missing(tree, vpn))
      ensures slot.None? ==> FreeCount(alloc.State()) == 0 && Missing(tree, vpn) > 0
      ensures slot.Some? ==>
                && PathAdded(old(tree), tree, vpn)
                && slot == Some((tree.leaf[Key(vpn) / 512], Index(vpn, 2)))
                && |frames| == old(|frames|) + old(Missing(tree, vpn))
    {
      var idx := Indexes(vpn);
      var ppn := rootPpn;
      for i := 0 to 3
        invariant i < 3
        invariant Valid(mem, alloc) && rootPpn == old(rootPpn) && pages == old(pages) && tree.spare == old(tree.spare)
        invariant Grew(old(alloc.State()), alloc.State(), old(frames), frames)
        invariant SameOutside(old(mem.words), mem.words, Elements(frames))
        invariant HasNode(tree, Key(vpn), i) && ppn == NodeAt(tree, Key(vpn), i)
        invariant tree.mid.Keys == old(tree.mid.Keys) + (if i > 0 then {Key(vpn) / 0x4_0000} else {})
        invariant tree.leaf.Keys == old(tree.leaf.Keys) + (if i > 1 then {Key(vpn) / 512} else {})
        invariant |frames| == old(|frames|) + (if i > 0 && Key(vpn) / 0x4_0000 !in old(tree.mid) then 1 else 0)
                              + (if i > 1 && Key(vpn) / 512 !in old(tree.leaf) then 1 else 0)
      {
        if i == 2 {
          return Some((ppn, idx[i]));
        }
        var child := EnsureChild(mem, alloc, vpn, i, ppn);
        if child.None? {
          return None;
        }
        ppn := child.value;
      }
      slot := None;
    }

    /** `map`.  It panics exactly when the page is mapped already or the pool cannot supply the missing
        tables; otherwise it changes the map at its own page alone. */
    method Map(mem: PhysMem, alloc: FrameAllocator, vpn: nat, ppn: nat, flags: Flags) returns (r: Outcome)
      requires Valid(mem, alloc)
      modifies this, mem, alloc
      ensures Valid(mem, alloc) && rootPpn == old(rootPpn) && tree.spare == old(tree.spare)
      ensures Grew(old(alloc.State()), alloc.State(), old(frames), frames)
      ensures SameOutside(old(mem.words), mem.words, Elements(frames))
      ensures r.Done? <==>
                Key(vpn) !in old(pages) && old(Missing(tree, vpn)) <= old(FreeCount(alloc.State()))
      ensures r.Done? ==> pages == old(pages)[Key(vpn) := PteNew(ppn, WithV(flags))]
      ensures r.Done? ==>
                && vpn % 0x800_0000 in pages
                && pages[vpn % 0x800_0000] == ppn % 0x40_0000_0000_0000 * 1024 + flags / 2 * 2 + 1
      ensures r.Done? ==> PathAdded(old(tree), tree, vpn) && |frames| == old(|frames|) + old(Missing(tree, vpn))
      ensures !r.Done? ==> pages == old(pages)
      ensures Key(vpn) in old(pages) ==> r == Panicked(AlreadyMapped)
      ensures Key(vpn) !in old(pages) && !r.Done? ==>
                r == Panicked(OutOfFrames) && FreeCount(alloc.State()) == 0 && Missing(tree, vpn) > 0
    {
      MappedLacksNothing(mem.words, tree, pages, vpn);
      var slot := FindPteCreate(mem, alloc, vpn);
      if slot.None? {
        return Panicked(OutOfFrames);
      }
      var (p, i) := slot.value;
      SlotEntry(mem.words, tree, pages, vpn);
      if IsValid(Rd(mem.words, p, i)) {
        return Panicked(AlreadyMapped);
      }
      PteRoundTrip(ppn, flags);
      PteNumbers(ppn, flags);
      SetEntryInv(mem.words, Live(alloc.State()), rootPpn, frames, tree, pages, Key(vpn), PteNew(ppn, WithV(flags)));
      mem.WriteWord(p, i, PteNew(ppn, WithV(flags)));
      pages := pages[Key(vpn) := PteNew(ppn, WithV(flags))];
      r := Done;
    }

    /** `unmap`: panics exactly when the page is not mapped, and keeps every table. */
    method Unmap(mem: PhysMem, alloc: FrameAllocator, vpn: nat) returns (r: Outcome)
      requires Valid(mem, alloc)
      modifies this, mem
      ensures Valid(mem, alloc) && rootPpn == old(rootPpn) && frames == old(frames) && tree == old(tree)
      ensures SameOutside(old(mem.words), mem.words, Elements(frames))
      ensures r.Done? <==> Key(vpn) in old(pages)
      ensures r.Done? ==> pages == old(pages) - {Key(vpn)}
      ensures !r.Done? ==> r == Panicked(NotMapped) && mem.words == old(mem.words) && pages == old(pages)
    {
      var slot := FindPte(mem, vpn);
      SlotEntry(mem.words, tree, pages, vpn);
      if slot.None? {
        return Panicked(NotMapped);
      }
      var (p, i) := slot.value;
      if !IsValid(Rd(mem.words, p, i)) {
        return Panicked(NotMapped);
      }
      ClearEntryInv(mem.words, Live(alloc.State()), rootPpn, frames, tree, pages, Key(vpn));
      mem.WriteWord(p, i, PTE_EMPTY);
      pages := pages - {Key(vpn)};
      r := Done;
    }

    /** Drop: every tracker returns its frame; no return is rejected and nobody else's frame moves. */
    method Drop(mem: PhysMem, alloc: FrameAllocator) returns (r: Outcome)
      requires Valid(mem, alloc)
      modifies alloc
      ensures alloc.Valid() && alloc.lo == old(alloc.lo) && alloc.end == old(alloc.end)
      ensures r.Done?
      ensures Live(alloc.State()) == old(Live(alloc.State())) - Elements(frames)
      ensures FreeCount(alloc.State()) == old(FreeCount(alloc.State())) + |frames|
    {
      r := ReturnAll(alloc, frames);
    }

    constructor FromFrames(ghost m: Mem, ghost live: set<nat>, root: nat, owned: seq<nat>)
      requires root in owned && root < 0x1000_0000_0000
      requires NoDuplicates(owned) && Elements(owned) <= live && forall f :: f in owned ==> ZeroFrame(m, f)
      ensures rootPpn == root && frames == owned && pages == map[]
      ensures TableInv(m, live, rootPpn, frames, tree, pages)
      ensures tree.mid == map[] && tree.leaf == map[] && tree.spare == Elements(owned) - {root}
    {
      rootPpn, frames := root, owned;
      tree, pages := Tree(root, map[], map[], map[root := Root], Elements(owned) - {root}), map[];
    }

    /** `new`: one cleared frame; null is the panic of an empty pool. */
    static method New(mem: PhysMem, alloc: FrameAllocator) returns (t: PageTable?)
      requires alloc.Valid()
      modifies mem, alloc
      ensures alloc.Valid()
      ensures t == null <==> old(FreeCount(alloc.State())) == 0
      ensures t != null ==>
                && fresh(t) && t.Valid(mem, alloc) && t.pages == map[]
                && t.tree.mid == map[] && t.tree.leaf == map[]
                && Grew(old(alloc.State()), alloc.State(), [], t.frames) && |t.frames| == 1
                && SameOutside(old(mem.words), mem.words, Elements(t.frames))
    {
      var f := FrameAlloc(mem, alloc);
      if f.None? {
        return null;
      }
      t := new PageTable.FromFrames(mem.words, Live(alloc.State()), f.value, [f.value]);
      GrewOne(old(alloc.State()), alloc.State(), [], f.value);
      assert [] + [f.value] == t.frames;
    }

    /** `new_guest`: skip frames up to the first one on a 16 KiB boundary, which becomes the root, and
        take three more.  The frames taken are a prefix of the pool's order. */
    static method NewGuest(mem: PhysMem, alloc: FrameAllocator) returns (t: PageTable?)
      requires alloc.Valid()
      modifies mem, alloc
      ensures alloc.Valid()
      ensures var order := old(AllocOrder(alloc.State())); var k := Unaligned(order);
              && (t != null <==> k + 4 <= |order|)
              && (t != null ==> t.frames == order[..k + 4] && t.rootPpn == order[k])
      ensures t != null ==>
                && fresh(t) && t.Valid(mem, alloc) && t.pages == map[]
                && t.tree.mid == map[] && t.tree.leaf == map[] && t.tree.spare == Elements(t.frames) - {t.rootPpn}
                && Grew(old(alloc.State()), alloc.State(), [], t.frames)
                && SameOutside(old(mem.words), mem.words, Elements(t.frames))
    {
      ghost var m0, s0, order := mem.words, alloc.State(), AllocOrder(alloc.State());
      var frames, root := SkipToAligned(mem, alloc, order);
      if root.None? {
        return null;
      }
      frames := frames + [root.value];
      for i := 0 to 3
        invariant alloc.Valid() && Taken(order, m0, s0, mem.words, alloc.State(), frames)
        invariant |frames| == Unaligned(order) + 1 + i && frames[Unaligned(order)] == root.value
      {
        var f := TakeCleared(mem, alloc, order, m0, s0, frames);
        if f.None? {
          return null;
        }
        frames := frames + [f.value];
      }
      t := new PageTable.FromFrames(mem.words, Live(alloc.State()), root.value, frames);
    }
  }

  // ---------------------------------------------------------------- frames taken in the pool's order

  /** How many frames at the head of the order are off the 16 KiB grid. */
  function Unaligned(order: seq<nat>): (k: nat)
    ensures k <= |order| && (forall j :: 0 <= j < k ==> order[j] % 4 != 0)
    ensures k < |order| ==> order[k] % 4 == 0
  {
    if order == [] || order[0] % 4 == 0 then 0 else 1 + Unaligned(order[1..])
  }

  /** From state (m0, s0), exactly the first |taken| frames of the pool's order were taken and cleared. */
  ghost predicate Taken(order: seq<nat>, m0: Mem, s0: FrameState, m: Mem, s: FrameState, taken: seq<nat>) {
    && FramesInv(s)
    && |taken| <= |order| && taken == order[..|taken|] && AllocOrder(s) == order[|taken|..]
    && Grew(s0, s, [], taken)
    && NoDuplicates(taken) && Elements(taken) <= Live(s)
    && (forall f :: f in taken ==> ZeroFrame(m, f) && f < 0x1000_0000_0000)
    && SameOutside(m0, m, Elements(taken))
  }

  lemma NothingTaken(m: Mem, s: FrameState)
    requires FramesInv(s)
    ensures Taken(AllocOrder(s), m, s, m, s, [])
  {
  }

  lemma OneMoreTaken(order: seq<nat>, m0: Mem, s0: FrameState, m: Mem, s: FrameState, taken: seq<nat>, m': Mem,
                     s': FrameState, f: nat)
    requires Taken(order, m0, s0, m, s, taken) && FramesInv(s') && FreeCount(s) > 0
    requires (Some(f), s') == TakeFrame(s) && SameOutside(m, m', {f}) && ZeroFrame(m', f)
    ensures Taken(order, m0, s0, m', s', taken + [f])
    ensures |taken| < |order| && f == order[|taken|]
  {
    TakeFollowsOrder(s);
    AllocTakesFree(s);
    GrewOne(s, s', taken, f);
    assert Elements(taken + [f]) == Elements(taken) + {f};
  }

  method TakeCleared(mem: PhysMem, alloc: FrameAllocator, ghost order: seq<nat>, ghost m0: Mem, ghost s0: FrameState,
                     ghost taken: seq<nat>)
    returns (f: Option<nat>)
    requires alloc.Valid() && Taken(order, m0, s0, mem.words, alloc.State(), taken)
    modifies mem, alloc
    ensures alloc.Valid()
    ensures f.None? <==> |taken| == |order|
    ensures f.None? ==> Taken(order, m0, s0, mem.words, alloc.State(), taken)
    ensures f.Some? ==> f.value == order[|taken|] && Taken(order, m0, s0, mem.words, alloc.State(), taken + [f.value])
  {
    TakeFollowsOrder(alloc.State());
    f := FrameAlloc(mem, alloc);
    if f.Some? {
      OneMoreTaken(order, m0, s0, old(mem.words), old(alloc.State()), taken, mem.words, alloc.State(), f.value);
    }
  }

  /** The search loop of `new_guest`. */
  method SkipToAligned(mem: PhysMem, alloc: FrameAllocator, ghost order: seq<nat>)
    returns (frames: seq<nat>, root: Option<nat>)
    requires alloc.Valid() && order == AllocOrder(alloc.State())
    modifies mem, alloc
    ensures alloc.Valid()
    ensures root.None? <==> Unaligned(order) == |order|
    ensures root.Some? ==>
              && |frames| == Unaligned(order) && root.value == order[|frames|]
              && Taken(order, old(mem.words), old(alloc.State()), mem.words, alloc.State(), frames + [root.value])
  {
    ghost var m0, s0, k := mem.words, alloc.State(), Unaligned(order);
    frames := [];
    NothingTaken(m0, s0);
    root := TakeCleared(mem, alloc, order, m0, s0, frames);
    while root.Some? && root.value % 4 != 0
      invariant alloc.Valid() && |frames| <= k
      invariant root.None? ==> |frames| == |order|
      invariant root.Some? ==> |frames| < |order| && root.value == order[|frames|]
      invariant root.Some? ==> Taken(order, m0, s0, mem.words, alloc.State(), frames + [root.value])
      decreases |order| - |frames|, root.Some?
    {
      assert |frames| != k;
      frames := frames + [root.value];
      root := TakeCleared(mem, alloc, order, m0, s0, frames);
    }
  }

  lemma MappedLacksNothing(m: Mem, t: Tree, pages: PageMap, vpn: nat)
    requires Shape(t) && Represents(m, t, pages)
    ensures Key(vpn) in pages ==> Missing(t, vpn) == 0
  {
    KeySplits(vpn);
  }

  /** The slot a lookup ends in holds the entry of the page. */
  lemma SlotEntry(m: Mem, t: Tree, pages: PageMap, vpn: nat)
    requires Shape(t) && Represents(m, t, pages)
    ensures Key(vpn) < 0x800_0000 && Index(vpn, 2) == Key(vpn) % 512
    ensures FindSlot(m, t.root, vpn).Some? <==> Key(vpn) / 512 in t.leaf
    ensures Key(vpn) in pages ==> Key(vpn) / 512 in t.leaf
    ensures Key(vpn) / 512 in t.leaf ==>
              && FindSlot(m, t.root, vpn) == Some((t.leaf[Key(vpn) / 512], Index(vpn, 2)))
              && (IsValid(Rd(m, t.leaf[Key(vpn) / 512], Index(vpn, 2))) <==> Key(vpn) in pages)
  {
    KeySplits(vpn);
    SlotOf(m, t, pages, vpn);
    LookupIsMap(m, t, pages, vpn);
  }

  lemma SetEntryInv(m: Mem, live: set<nat>, root: nat, frames: seq<nat>, t: Tree, pages: PageMap, v: nat, w: Word)
    requires TableInv(m, live, root, frames, t, pages)
    requires v < 0x800_0000 && v / 512 in t.leaf && IsValid(w)
    ensures TableInv(Wr(m, t.leaf[v / 512], v % 512, w), live, root, frames, t, pages[v := w])
    ensures t.leaf[v / 512] in Elements(frames)
  {
    hide Represents;
    WriteEntry(m, t, pages, v, w);
    assert t.leaf[v / 512] in t.own.Keys;
  }

  lemma ClearEntryInv(m: Mem, live: set<nat>, root: nat, frames: seq<nat>, t: Tree, pages: PageMap, v: nat)
    requires TableInv(m, live, root, frames, t, pages)
    requires v < 0x800_0000 && v / 512 in t.leaf
    ensures TableInv(Wr(m, t.leaf[v / 512], v % 512, PTE_EMPTY), live, root, frames, t, pages - {v})
    ensures t.leaf[v / 512] in Elements(frames)
  {
    assert !IsValid(PTE_EMPTY);
    hide Represents;
    WriteEntry(m, t, pages, v, PTE_EMPTY);
    assert t.leaf[v / 512] in t.own.Keys;
  }
}
