/** Whole runs of `map` and `unmap`, and two tables over one pool (src/page_table/sv39.rs). */
module TableRuns {
  import opened Words
  import opened Frames
  import opened Memory
  import opened TableModel
  import opened PageTables

  datatype TableOp = MapOp(vpn: nat, ppn: nat, flags: Flags) | UnmapOp(vpn: nat)

  /** What one call does to the abstract map; None is its assertion failing. */
  function AbstractStep(pages: PageMap, op: TableOp): Option<PageMap> {
    match op
    case MapOp(vpn, ppn, flags) =>
      if Key(vpn) in pages then None else Some(pages[Key(vpn) := PteNew(ppn, WithV(flags))])
    case UnmapOp(vpn) =>
      if Key(vpn) in pages then Some(pages - {Key(vpn)}) else None
  }

  function AbstractRun(pages: PageMap, ops: seq<TableOp>): Option<PageMap>
    decreases |ops|
  {
    if ops == [] then Some(pages)
    else
      match AbstractRun(pages, ops[..|ops| - 1])
      case None => None
      case Some(before) => AbstractStep(before, ops[|ops| - 1])
  }

  /** The last call of a run that concerned page v. */
  function LastOn(ops: seq<TableOp>, v: nat): Option<TableOp>
    decreases |ops|
  {
    if ops == [] then None
    else if Key(ops[|ops| - 1].vpn) == v then Some(ops[|ops| - 1])
    else LastOn(ops[..|ops| - 1], v)
  }

  /** After any run from the empty map, a page is mapped iff the last call on it was a `map`, and its
      entry is then that call's page number and flags, with bit V set. */
  lemma {:induction false} LastCallDecides(ops: seq<TableOp>, v: nat)
    requires AbstractRun(map[], ops).Some?
    ensures var pages := AbstractRun(map[], ops).value; var last := LastOn(ops, v);
            && (v in pages <==> last.Some? && last.value.MapOp?)
            && (v in pages ==>
                  pages[v] == last.value.ppn % 0x40_0000_0000_0000 * 1024 + last.value.flags / 2 * 2 + 1)
    decreases |ops|
  {
    if ops != [] {
      LastCallDecides(ops[..|ops| - 1], v);
      var op := ops[|ops| - 1];
      if op.MapOp? {
        PteNumbers(op.ppn, op.flags);
      }
    }
  }

  /** Why a call panicked: its assertion fails on the abstract map, or the pool is empty and the path of
      the page to be mapped still lacks a table. */
  ghost predicate Stuck(pages: PageMap, tree: Tree, s: FrameState, op: TableOp, r: Outcome) {
    || (AbstractStep(pages, op).None? && r == Panicked(if op.MapOp? then AlreadyMapped else NotMapped))
    || (op.MapOp? && AbstractStep(pages, op).Some? && FreeCount(s) == 0 && Missing(tree, op.vpn) > 0
        && r == Panicked(OutOfFrames))
  }

  method Perform(mem: PhysMem, alloc: FrameAllocator, t: PageTable, op: TableOp) returns (r: Outcome)
    requires t.Valid(mem, alloc)
    modifies t, mem, alloc
    ensures t.Valid(mem, alloc) && t.rootPpn == old(t.rootPpn) && t.tree.spare == old(t.tree.spare)
    ensures Grew(old(alloc.State()), alloc.State(), old(t.frames), t.frames)
    ensures SameOutside(old(mem.words), mem.words, Elements(t.frames))
    ensures r.Done? ==> AbstractStep(old(t.pages), op) == Some(t.pages)
    ensures !r.Done? ==> t.pages == old(t.pages) && Stuck(t.pages, t.tree, alloc.State(), op, r)
  {
    match op
    case MapOp(vpn, ppn, flags) => r := t.Map(mem, alloc, vpn, ppn, flags);
    case UnmapOp(vpn) => r := t.Unmap(mem, alloc, vpn);
  }

  /** Any run of calls, up to its first panic: the tree in memory is exactly the abstract map, and a
      run stops early only where the abstract run does or where the pool is empty and a table is needed. */
  method Run(mem: PhysMem, alloc: FrameAllocator, t: PageTable, ops: seq<TableOp>) returns (n: nat, r: Outcome)
    requires t.Valid(mem, alloc)
    modifies t, mem, alloc
    ensures t.Valid(mem, alloc) && t.rootPpn == old(t.rootPpn) && t.tree.spare == old(t.tree.spare)
    ensures Grew(old(alloc.State()), alloc.State(), old(t.frames), t.frames)
    ensures SameOutside(old(mem.words), mem.words, Elements(t.frames))
    ensures n <= |ops| && AbstractRun(old(t.pages), ops[..n]) == Some(t.pages)
    ensures r.Done? <==> n == |ops|
    ensures n < |ops| ==> Stuck(t.pages, t.tree, alloc.State(), ops[n], r)
    ensures AnswersLike(mem.words, t.rootPpn, t.pages)
  {
    hide TableInv, AbstractStep, Translate, Stuck;
    n, r := 0, Done;
    while n < |ops| && r.Done?
      invariant n <= |ops|
      invariant t.Valid(mem, alloc) && t.rootPpn == old(t.rootPpn) && t.tree.spare == old(t.tree.spare)
      invariant Grew(old(alloc.State()), alloc.State(), old(t.frames), t.frames)
      invariant SameOutside(old(mem.words), mem.words, Elements(t.frames))
      invariant AbstractRun(old(t.pages), ops[..n]) == Some(t.pages)
      invariant !r.Done? ==> n < |ops| && Stuck(t.pages, t.tree, alloc.State(), ops[n], r)
      decreases |ops| - n, r.Done?
    {
      r := Perform(mem, alloc, t, ops[n]);
      if r.Done? {
        assert ops[..n + 1][..n] == ops[..n];
        n := n + 1;
      }
    }
    LookupsAreMap(mem.words, Live(alloc.State()), t.rootPpn, t.frames, t.tree, t.pages);
  }

  /** `translate` yields a valid entry exactly for the mapped pages, and then the mapped entry. */
  ghost predicate AnswersLike(m: Mem, root: nat, pages: PageMap) {
    forall vpn: nat ::
      && (Key(vpn) in pages <==> Translate(m, root, vpn).Some? && IsValid(Translate(m, root, vpn).value))
      && (Key(vpn) in pages ==> Translate(m, root, vpn) == Some(pages[Key(vpn)]))
  }

  lemma LookupsAreMap(m: Mem, live: set<nat>, root: nat, frames: seq<nat>, t: Tree, pages: PageMap)
    requires TableInv(m, live, root, frames, t, pages)
    ensures AnswersLike(m, root, pages)
  {
    forall vpn: nat
      ensures Key(vpn) in pages <==> Translate(m, t.root, vpn).Some? && IsValid(Translate(m, t.root, vpn).value)
      ensures Key(vpn) in pages ==> Translate(m, t.root, vpn) == Some(pages[Key(vpn)])
    {
      LookupIsMap(m, t, pages, vpn);
    }
  }

  // ---------------------------------------------------------------- two tables, one pool

  /** A table answers as before after any change outside its own frames, such as copying data. */
  lemma UntouchedTable(m: Mem, m': Mem, live: set<nat>, root: nat, frames: seq<nat>, t: Tree, pages: PageMap, changed: set<nat>)
    requires TableInv(m, live, root, frames, t, pages)
    requires SameOutside(m, m', changed) && Elements(frames) !! changed
    ensures TableInv(m', live, root, frames, t, pages)
    ensures forall vpn :: Translate(m', root, vpn) == Translate(m, root, vpn)
  {
    TableInvFrame(m, m', live, live, root, frames, t, pages, changed);
    forall vpn: nat ensures Translate(m', root, vpn) == Translate(m, root, vpn) {
      LookupIsMap(m, t, pages, vpn);
      LookupIsMap(m', t, pages, vpn);
    }
  }

  /** Whatever one table does within its own and newly taken frames, another table over the same pool
      keeps its tree, its map and every answer, and the two still share no frame. */
  lemma Bystander(m: Mem, m': Mem, s: FrameState, s': FrameState, mine: seq<nat>, mine': seq<nat>,
                  root: nat, frames: seq<nat>, t: Tree, pages: PageMap)
    requires Grew(s, s', mine, mine') && SameOutside(m, m', Elements(mine'))
    requires Elements(mine') <= Live(s')
    requires TableInv(m, Live(s), root, frames, t, pages) && Elements(frames) !! Elements(mine)
    ensures Elements(frames) !! Elements(mine')
    ensures TableInv(m', Live(s'), root, frames, t, pages)
    ensures forall vpn :: Translate(m', root, vpn) == Translate(m, root, vpn)
  {
    assert Elements(frames) <= Live(s) - Elements(mine);
    UntouchedTable(m, m', Live(s), root, frames, t, pages, Elements(mine'));
    TableInvFrame(m, m', Live(s), Live(s'), root, frames, t, pages, Elements(mine'));
  }

  /** Two tables over one pool: a run on one leaves every translation of the other unchanged. */
  method RunBeside(mem: PhysMem, alloc: FrameAllocator, a: PageTable, b: PageTable, ops: seq<TableOp>) returns (n: nat, r: Outcome)
    requires a != b && a.Valid(mem, alloc) && b.Valid(mem, alloc)
    requires Elements(a.frames) !! Elements(b.frames)
    modifies a, mem, alloc
    ensures a.Valid(mem, alloc) && b.Valid(mem, alloc)
    ensures Elements(a.frames) !! Elements(b.frames)
    ensures n <= |ops| && AbstractRun(old(a.pages), ops[..n]) == Some(a.pages)
    ensures n < |ops| ==> Stuck(a.pages, a.tree, alloc.State(), ops[n], r)
    ensures forall vpn :: Translate(mem.words, b.rootPpn, vpn) == Translate(old(mem.words), b.rootPpn, vpn)
  {
    n, r := Run(mem, alloc, a, ops);
    Bystander(old(mem.words), mem.words, old(alloc.State()), alloc.State(), old(a.frames), a.frames,
              b.rootPpn, b.frames, b.tree, b.pages);
  }
}
