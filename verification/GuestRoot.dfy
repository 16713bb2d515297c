/** The 16 KiB root of a guest's page table (`new_guest` of src/page_table/sv39.rs): which pools give a root
    whose four frames are the table's own, and what hardware sees when they are not. */
module GuestRoots {
  import opened Words
  import opened Frames
  import opened Memory
  import opened TableModel
  import opened PageTables
  import opened PageWalks
  import opened WalkTheory
  import opened Translation

  // ---------------------------------------------------------------- where the root comes from

  /** The recycled frame on a 16 KiB boundary that will be handed out first. */
  function LastAligned(recycled: seq<nat>): (p: Option<nat>)
    ensures p.None? ==> forall j :: 0 <= j < |recycled| ==> recycled[j] % 4 != 0
    ensures p.Some? ==> p.value < |recycled| && recycled[p.value] % 4 == 0
    ensures p.Some? ==> forall j :: p.value < j < |recycled| ==> recycled[j] % 4 != 0
  {
    if recycled == [] then None
    else if recycled[|recycled| - 1] % 4 == 0 then Some(|recycled| - 1)
    else LastAligned(recycled[..|recycled| - 1])
  }

  /** Frames from the tail's start to its first 16 KiB boundary. */
  function Gap(current: nat): (c: nat)
    ensures c < 4 && (current + c) % 4 == 0
    ensures (c > 0 ==> current % 4 != 0) && (c > 1 ==> (current + 1) % 4 != 0) && (c > 2 ==> (current + 2) % 4 != 0)
  {
    if current % 4 == 0 then 0 else 4 - current % 4
  }

  lemma UnalignedIs(order: seq<nat>, k: nat)
    requires k <= |order| && (forall j :: 0 <= j < k ==> order[j] % 4 != 0) && (k < |order| ==> order[k] % 4 == 0)
    ensures Unaligned(order) == k
  {
  }

  /** Without a recycled frame on a 16 KiB boundary, the recycled frames and at most three of the tail are
      skipped, and the root and the three frames after it are consecutive: a 16 KiB table on a 16 KiB
      boundary, as Sv39x4 wants. */
  lemma GuestRootConsecutive(s: FrameState)
    requires FramesInv(s) && LastAligned(s.recycled).None?
    ensures var order := AllocOrder(s); var k := Unaligned(order);
            && (k + 4 <= |order| <==> s.end - s.current >= Gap(s.current) + 4)
            && (k + 4 <= |order| ==>
                  && k == |s.recycled| + Gap(s.current) && order[k] == s.current + Gap(s.current)
                  && forall j :: k <= j < k + 4 ==> order[j] == order[k] + (j - k))
  {
    var order, n, c := AllocOrder(s), |s.recycled|, Gap(s.current);
    assert forall j :: n <= j < |order| ==> order[j] == s.current + (j - n);
    if c <= s.end - s.current {
      UnalignedIs(order, n + c);
    } else {
      UnalignedIs(order, |order|);
    }
  }

  /** With one, the root is the last of these; before it go the frames recycled after it, and after it
      come the next three of the pool that is left. */
  lemma GuestRootRecycled(s: FrameState)
    requires FramesInv(s) && LastAligned(s.recycled).Some?
    ensures var p := LastAligned(s.recycled).value; var order := AllocOrder(s);
            && Unaligned(order) == |s.recycled| - 1 - p && order[Unaligned(order)] == s.recycled[p]
            && Elements(order[..Unaligned(order)]) == Elements(s.recycled[p + 1..])
            && order[Unaligned(order) + 1..] == AllocOrder(s.(recycled := s.recycled[..p]))
  {
    hide LastAligned, Unaligned, AllocOrder;
    var p := LastAligned(s.recycled).value;
    SkippedRecycled(s, p);
    ReversedPart(s, p);
    RestPart(s, p);
  }

  lemma SkippedRecycled(s: FrameState, p: nat)
    requires FramesInv(s) && p < |s.recycled| && s.recycled[p] % 4 == 0
    requires forall j :: p < j < |s.recycled| ==> s.recycled[j] % 4 != 0
    ensures Unaligned(AllocOrder(s)) == |s.recycled| - 1 - p
    ensures |AllocOrder(s)| == FreeCount(s) && AllocOrder(s)[|s.recycled| - 1 - p] == s.recycled[p]
  {
    hide Unaligned;
    var n, order := |s.recycled|, AllocOrder(s);
    forall j | 0 <= j < n - 1 - p ensures order[j] % 4 != 0 {
      assert order[j] == s.recycled[n - 1 - j];
    }
    assert order[n - 1 - p] == s.recycled[p];
    hide AllocOrder;
    UnalignedIs(order, n - 1 - p);
  }

  lemma RestPart(s: FrameState, p: nat)
    requires FramesInv(s) && p < |s.recycled|
    ensures AllocOrder(s)[|s.recycled| - p..] == AllocOrder(s.(recycled := s.recycled[..p]))
  {
  }

  lemma ReversedPart(s: FrameState, p: nat)
    requires FramesInv(s) && p < |s.recycled|
    ensures Elements(AllocOrder(s)[..|s.recycled| - 1 - p]) == Elements(s.recycled[p + 1..])
  {
    var n, order := |s.recycled|, AllocOrder(s);
    var a, b := order[..n - 1 - p], s.recycled[p + 1..];
    assert forall j :: 0 <= j < |a| ==> a[j] == b[|b| - 1 - j];
    hide AllocOrder;
    SameElements(a, b);
  }

  lemma SameElements(a: seq<nat>, b: seq<nat>)
    requires |a| == |b| && forall j :: 0 <= j < |a| ==> a[j] == b[|b| - 1 - j]
    ensures Elements(a) == Elements(b)
  {
    forall x | x in b ensures x in a {
      var j :| 0 <= j < |b| && b[j] == x;
      assert a[|b| - 1 - j] == x;
    }
  }

  // ---------------------------------------------------------------- when the root is full

  predicate Following(r: nat, taken: set<nat>) {
    r + 1 in taken && r + 2 in taken && r + 3 in taken
  }

  /** What the pool must be like: no recycled frame is on a 16 KiB boundary, or the three frames after the
      last such one are among those recycled after it and the next three. */
  ghost predicate FullRootAhead(s: FrameState)
    requires s.current <= s.end
  {
    match LastAligned(s.recycled)
    case None => true
    case Some(p) =>
      var after, next := s.recycled[p + 1..], AllocOrder(s.(recycled := s.recycled[..p]));
      |next| >= 3 ==> Following(s.recycled[p], Elements(after) + {next[0], next[1], next[2]})
  }

  /** The table that `new_guest` builds from the pool. */
  ghost predicate BuiltFrom(s: FrameState, t: Tree)
    requires s.current <= s.end
  {
    var order := AllocOrder(s); var k := Unaligned(order);
    k + 4 <= |order| && t.root == order[k] && t.spare == Elements(order[..k + 4]) - {order[k]}
  }

  /** `new_guest` yields a full root exactly from such a pool. */
  lemma GuestRootFull(s: FrameState, t: Tree)
    requires FramesInv(s) && BuiltFrom(s, t)
    ensures FullGuestRoot(t) <==> FullRootAhead(s)
  {
    hide AllocOrder, Unaligned, LastAligned, Elements, Following;
    var order := AllocOrder(s);
    var k := Unaligned(order);
    TakenFrames(order, k);
    WithoutRoot(t.root, Elements(order[..k]), order[k + 1], order[k + 2], order[k + 3]);
    FullIsFollowing(t);
    if LastAligned(s.recycled).None? {
      GuestRootConsecutive(s);
      assert order[k + 1] == t.root + 1 && order[k + 2] == t.root + 2 && order[k + 3] == t.root + 3;
      Consecutive(t.root, Elements(order[..k]));
    } else {
      GuestRootRecycled(s);
      var next := AllocOrder(s.(recycled := s.recycled[..LastAligned(s.recycled).value]));
      assert next[0] == order[k + 1] && next[1] == order[k + 2] && next[2] == order[k + 3];
    }
  }

  lemma FullIsFollowing(t: Tree)
    ensures FullGuestRoot(t) <==> t.root % 4 == 0 && Following(t.root, t.spare)
  {
  }

  lemma Consecutive(r: nat, skipped: set<nat>)
    ensures Following(r, skipped + {r + 1, r + 2, r + 3})
  {
  }

  lemma WithoutRoot(r: nat, skipped: set<nat>, a: nat, b: nat, c: nat)
    ensures Following(r, skipped + {r, a, b, c} - {r}) <==> Following(r, skipped + {a, b, c})
  {
  }

  lemma TakenFrames(order: seq<nat>, k: nat)
    requires k + 4 <= |order|
    ensures Elements(order[..k + 4]) == Elements(order[..k]) + {order[k], order[k + 1], order[k + 2], order[k + 3]}
  {
    assert order[..k + 4] == order[..k] + [order[k], order[k + 1], order[k + 2], order[k + 3]];
  }

  // ---------------------------------------------------------------- what a root that is not full costs

  const USER_LEAF: Word := 19

  /** The first of the three places after the root that the table does not hold. */
  ghost function Hole(t: Tree): (d: nat)
    requires t.root % 4 == 0 && !FullGuestRoot(t)
    ensures 1 <= d <= 3 && t.root + d !in t.spare
  {
    if t.root + 1 !in t.spare then 1 else if t.root + 2 !in t.spare then 2 else 3
  }

  /** A fresh table whose root is not full leaks: whoever holds the frame in the hole can, with a single
      word and without touching the table, make the hardware translate a guest physical address from 2^39
      up.  So a full root is needed, as well as enough, for `GStageOfTable`. */
  lemma ScatteredRootLeaks(m: Mem, live: set<nat>, frames: seq<nat>, t: Tree, pages: PageMap)
    requires TableInv(m, live, t.root, frames, t, pages) && t.own.Keys == {t.root}
    requires t.root % 4 == 0 && !FullGuestRoot(t)
    ensures var m' := Wr(m, t.root + Hole(t), 0, USER_LEAF); var gpa := Hole(t) * 0x80_0000_0000;
            && TableInv(m', live, t.root, frames, t, pages)
            && gpa >= 0x80_0000_0000 && GStageWalk(ReaderOf(m'), t.root, gpa) == Some(0)
  {
    hide FullGuestRoot, Represents, Shape, SpareZero, ReaderOf, SpecEntry, SpecPa;
    var d := Hole(t);
    var m' := Wr(m, t.root + d, 0, USER_LEAF);
    assert SameOutside(m, m', {t.root + d});
    TableInvFrame(m, m', live, live, t.root, frames, t, pages, {t.root + d});
    ReadSlot(m', t.root + d, 0);
    Euclid(d * 0x80_0000_0000, 0x4000_0000, d * 512, 0);
    LeafEntry(ReaderOf(m'), d * 0x80_0000_0000);
    LeafPaIsZero(d);
  }

  lemma LeafEntry(read: Reader, va: nat)
    ensures SpecEntry(read, USER_LEAF, va, 2, true) == Some(SpecPa(USER_LEAF, va, 2))
  {
    hide SpecPa, SpecWalk;
  }

  lemma LeafPaIsZero(d: nat)
    requires 1 <= d <= 3
    ensures SpecPa(USER_LEAF, d * 0x80_0000_0000, 2) == 0
  {
    if d == 1 {
      assert SpecPa(USER_LEAF, 0x80_0000_0000, 2) == 0;
    } else if d == 2 {
      assert SpecPa(USER_LEAF, 0x100_0000_0000, 2) == 0;
    } else {
      assert SpecPa(USER_LEAF, 0x180_0000_0000, 2) == 0;
    }
  }

  /** Three calls on a fresh pool bring it there: the next root would be frame 8 without frame 9. */
  lemma RecycledFramesScatterRoot(t: Tree)
    ensures var w := RunLedger(Ledger(Init(8, 100), {}, false), [AllocOp, AllocOp, DeallocOp(8)]);
            && !w.stopped && FramesInv(w.pool) && w.held == {9}
            && !FullRootAhead(w.pool) && (BuiltFrom(w.pool, t) ==> t.root == 8 && !FullGuestRoot(t))
  {
    hide RunLedger, AllocOrder, Unaligned, LastAligned, FullGuestRoot;
    ScatterRun();
    var s := FrameState(8, 10, 100, [8]);
    ScatterPool(s);
    if BuiltFrom(s, t) {
      GuestRootFull(s, t);
      GuestRootRecycled(s);
    }
  }

  lemma ScatterRun()
    ensures RunLedger(Ledger(Init(8, 100), {}, false), [AllocOp, AllocOp, DeallocOp(8)])
            == Ledger(FrameState(8, 10, 100, [8]), {9}, false)
  {
    var w0 := Ledger(Init(8, 100), {}, false);
    var ops := [AllocOp, AllocOp, DeallocOp(8)];
    assert ops[..2] == [AllocOp, AllocOp] && ops[..2][..1] == [AllocOp] && [AllocOp][..0] == [];
    assert RunLedger(w0, []) == w0;
    assert RunLedger(w0, [AllocOp]) == Ledger(FrameState(8, 9, 100, []), {8}, false);
    assert RunLedger(w0, ops[..2]) == Ledger(FrameState(8, 10, 100, []), {8, 9}, false);
  }

  lemma ScatterPool(s: FrameState)
    requires s == FrameState(8, 10, 100, [8])
    ensures FramesInv(s) && LastAligned(s.recycled) == Some(0) && s.recycled[0] == 8 && !FullRootAhead(s)
  {
    assert s.recycled[1..] == [] && s.recycled[..0] == [];
    var next := AllocOrder(s.(recycled := []));
    assert next[0] == 10 && next[1] == 11 && next[2] == 12;
  }
}
