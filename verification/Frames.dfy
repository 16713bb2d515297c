/** The frame allocator (src/hyp_alloc/frame_allocator.rs): a bump pointer plus a stack of recycled frames. */
module Frames {
  import opened Words

  /** `StackFrameAllocator`, with the lower bound that `init` was given and the source forgets. */
  datatype FrameState = FrameState(lo: nat, current: nat, end: nat, recycled: seq<nat>)

  ghost predicate NoDuplicates<T>(s: seq<T>) {
    forall i, j :: 0 <= i < j < |s| ==> s[i] != s[j]
  }

  ghost predicate FramesInv(s: FrameState) {
    && s.lo <= s.current <= s.end <= 0x1000_0000_0000
    && NoDuplicates(s.recycled)
    && forall x :: x in s.recycled ==> s.lo <= x < s.current
  }

  function Range(l: nat, r: nat): (s: set<nat>)
    ensures forall x :: x in s <==> l <= x < r
  {
    if l >= r then {} else Range(l, r - 1) + {r - 1}
  }

  function Elements(s: seq<nat>): set<nat> {
    set x | x in s
  }

  /** Frames handed out and not yet returned. */
  function Live(s: FrameState): set<nat> {
    Range(s.lo, s.current) - Elements(s.recycled)
  }

  /** Frames that can still be handed out. */
  function FreeFrames(s: FrameState): set<nat> {
    Elements(s.recycled) + Range(s.current, s.end)
  }

  function FreeCount(s: FrameState): (n: int) {
    |s.recycled| + s.end - s.current
  }

  /** The order in which the free frames will be handed out when nothing is returned meanwhile. */
  function AllocOrder(s: FrameState): seq<nat>
    requires s.current <= s.end
  {
    seq(|s.recycled|, i requires 0 <= i < |s.recycled| => s.recycled[|s.recycled| - 1 - i]) +
    seq(s.end - s.current, i requires 0 <= i => s.current + i)
  }

  // ---------------------------------------------------------------- one operation

  function Init(l: nat, r: nat): FrameState {
    FrameState(l, l, r, [])
  }

  function TakeFrame(s: FrameState): (Option<nat>, FrameState) {
    if |s.recycled| > 0 then
      (Some(s.recycled[|s.recycled| - 1]), s.(recycled := s.recycled[..|s.recycled| - 1]))
    else if s.current == s.end then (None, s)
    else (Some(s.current), s.(current := s.current + 1))
  }

  /** `dealloc`; None is the panic of its validity check. */
  function ReturnFrame(s: FrameState, ppn: nat): Option<FrameState> {
    if ppn >= s.current || ppn in s.recycled then None else Some(s.(recycled := s.recycled + [ppn]))
  }

  class FrameAllocator {
    var current: nat
    var end: nat
    var recycled: seq<nat>
    ghost var lo: nat

    ghost function State(): FrameState
      reads this
    {
      FrameState(lo, current, end, recycled)
    }

    ghost predicate Valid()
      reads this
    {
      FramesInv(State())
    }

    /** `new` followed by `init(l, r)`, as `init_frame_allocator` does once; the bounds are not checked. */
    constructor (l: nat, r: nat)
      ensures State() == Init(l, r)
      ensures Valid() <==> l <= r <= 0x1000_0000_0000
      ensures Live(State()) == {} && FreeCount(State()) == r - l
    {
      current, end, recycled, lo := l, r, [], l;
    }

    method Alloc() returns (ppn: Option<nat>)
      requires Valid()
      modifies this
      ensures Valid() && lo == old(lo) && end == old(end)
      ensures ppn.None? <==> old(FreeCount(State())) == 0
      ensures ppn.None? ==> State() == old(State())
      ensures ppn.Some? ==>
                && ppn.value !in old(Live(State())) && ppn.value in old(FreeFrames(State()))
                && Live(State()) == old(Live(State())) + {ppn.value}
                && FreeCount(State()) == old(FreeCount(State())) - 1
                && lo <= ppn.value < end
      ensures (ppn, State()) == TakeFrame(old(State()))
    {
      AllocTakesFree(State());
      if |recycled| > 0 {
        ppn := Some(recycled[|recycled| - 1]);
        recycled := recycled[..|recycled| - 1];
      } else if current == end {
        ppn := None;
      } else {
        current := current + 1;
        ppn := Some(current - 1);
      }
    }

    /** `dealloc`, with no test against the pool's base: an accepted frame below it breaks the pool. */
    method Dealloc(ppn: nat) returns (r: Outcome)
      requires Valid()
      modifies this
      ensures lo == old(lo) && end == old(end) && (Valid() <==> (r.Done? ==> lo <= ppn))
      ensures lo <= ppn ==> (r.Done? <==> ppn in old(Live(State())))
      ensures r.Done? && lo <= ppn ==> Live(State()) == old(Live(State())) - {ppn}
      ensures r.Done? ==> FreeCount(State()) == old(FreeCount(State())) + 1
      ensures !r.Done? ==> r == Panicked(NotAllocated) && State() == old(State())
      ensures var d := ReturnFrame(old(State()), ppn); d.Some? == r.Done? && (r.Done? ==> State() == d.value)
    {
      DeallocReturns(State(), ppn);
      if ppn >= current || ppn in recycled {
        return Panicked(NotAllocated);
      }
      recycled := recycled + [ppn];
      r := Done;
    }
  }

  // ---------------------------------------------------------------- what one operation keeps

  /** Live frames, recycled frames and the untouched tail split the pool. */
  lemma Partition(s: FrameState)
    requires FramesInv(s)
    ensures Live(s) !! Elements(s.recycled) && Live(s) !! Range(s.current, s.end)
    ensures Elements(s.recycled) !! Range(s.current, s.end)
    ensures Live(s) + FreeFrames(s) == Range(s.lo, s.end)
  {
  }

  /** No frame is ever lost: live and free frames add up to the pool. */
  lemma PoolSize(s: FrameState)
    requires FramesInv(s)
    ensures |Live(s)| + FreeCount(s) == s.end - s.lo
  {
    ElementsSize(s.recycled);
    RangeSize(s.lo, s.current);
    var e := Elements(s.recycled);
    assert e <= Range(s.lo, s.current);
    assert Range(s.lo, s.current) == Live(s) + e;
  }

  lemma {:induction false} RangeSize(l: nat, r: nat)
    requires l <= r
    ensures |Range(l, r)| == r - l
    decreases r - l
  {
    if l < r {
      RangeSize(l, r - 1);
    }
  }

  lemma {:induction false} ElementsSize(s: seq<nat>)
    requires NoDuplicates(s)
    ensures |Elements(s)| == |s|
  {
    if s != [] {
      var t := s[..|s| - 1];
      ElementsSize(t);
      assert Elements(s) == Elements(t) + {s[|s| - 1]};
    }
  }

  lemma AllocTakesFree(s: FrameState)
    requires FramesInv(s)
    ensures var (f, s') := TakeFrame(s);
            && FramesInv(s')
            && (f.None? <==> FreeCount(s) == 0)
            && (f.Some? ==>
                  && f.value in FreeFrames(s) && f.value !in Live(s)
                  && Live(s') == Live(s) + {f.value}
                  && FreeCount(s') == FreeCount(s) - 1
                  && s.lo <= f.value < s.end)
  {
    var (f, s') := TakeFrame(s);
    if |s.recycled| > 0 {
      var n := |s.recycled| - 1;
      assert s.recycled[n] in s.recycled;
      assert forall x :: x in s.recycled <==> x in s'.recycled || x == s.recycled[n];
    }
  }

  /** `dealloc` accepts exactly the live frames among those at or above the pool's base.  Below the
      base it accepts frames that were never handed out; the pool stays intact exactly when the
      accepted frame is not below the base. */
  lemma DeallocReturns(s: FrameState, ppn: nat)
    requires FramesInv(s)
    ensures ppn >= s.lo ==> (ReturnFrame(s, ppn).Some? <==> ppn in Live(s))
    ensures ReturnFrame(s, ppn).Some? ==> (FramesInv(ReturnFrame(s, ppn).value) <==> ppn >= s.lo)
    ensures ppn >= s.lo && ReturnFrame(s, ppn).Some? ==>
              && Live(ReturnFrame(s, ppn).value) == Live(s) - {ppn}
              && FreeCount(ReturnFrame(s, ppn).value) == FreeCount(s) + 1
  {
    if ReturnFrame(s, ppn).Some? {
      var s' := ReturnFrame(s, ppn).value;
      assert s'.recycled[|s.recycled|] == ppn;
      assert forall x :: x in s'.recycled <==> x in s.recycled || x == ppn;
    }
  }

  /** Allocation follows `AllocOrder`: it takes the head and leaves the tail. */
  lemma TakeFollowsOrder(s: FrameState)
    requires FramesInv(s)
    ensures |AllocOrder(s)| == FreeCount(s)
    ensures FreeCount(s) > 0 ==>
              TakeFrame(s).0 == Some(AllocOrder(s)[0]) && AllocOrder(TakeFrame(s).1) == AllocOrder(s)[1..]
  {
  }

  // ---------------------------------------------------------------- whole runs

  datatype FrameOp = AllocOp | DeallocOp(ppn: nat)

  /** The allocator together with an account of who holds what, kept by its clients: a frame enters
      `held` when it is handed out and leaves when its return is accepted. */
  datatype Ledger = Ledger(pool: FrameState, held: set<nat>, stopped: bool)

  function StepLedger(w: Ledger, op: FrameOp): Ledger {
    if w.stopped then w else
    match op
    case AllocOp =>
      var (f, s') := TakeFrame(w.pool);
      if f.None? then w else Ledger(s', w.held + {f.value}, false)
    case DeallocOp(p) =>
      var d := ReturnFrame(w.pool, p);
      if d.None? then w.(stopped := true) else Ledger(d.value, w.held - {p}, false)
  }

  function RunLedger(w: Ledger, ops: seq<FrameOp>): Ledger
    decreases |ops|
  {
    if ops == [] then w else StepLedger(RunLedger(w, ops[..|ops| - 1]), ops[|ops| - 1])
  }

  /** Held, recycled and untouched frames partition the pool; the next allocation never hands out a
      held frame and fails only when every frame is held; a return is accepted exactly for held frames. */
  ghost predicate PoolIsExact(s: FrameState, held: set<nat>, l: nat, r: nat) {
    && NoDuplicates(s.recycled)
    && held !! Elements(s.recycled) && held !! Range(s.current, r)
    && Elements(s.recycled) !! Range(s.current, r)
    && held + Elements(s.recycled) + Range(s.current, r) == Range(l, r)
    && (TakeFrame(s).0.None? <==> held == Range(l, r))
    && (TakeFrame(s).0.Some? ==> TakeFrame(s).0.value in Range(l, r) - held)
    && (forall p :: l <= p ==> (ReturnFrame(s, p).Some? <==> p in held))
  }

  lemma NextAllocation(s: FrameState)
    requires FramesInv(s)
    ensures TakeFrame(s).0.None? <==> Live(s) == Range(s.lo, s.end)
    ensures TakeFrame(s).0.Some? ==> TakeFrame(s).0.value in Range(s.lo, s.end) - Live(s)
  {
    AllocTakesFree(s);
    if FreeCount(s) == 0 {
      assert s.recycled == [] && s.current == s.end;
    }
  }

  lemma InvMakesExact(s: FrameState)
    requires FramesInv(s)
    ensures PoolIsExact(s, Live(s), s.lo, s.end)
  {
    Partition(s);
    NextAllocation(s);
    forall p | s.lo <= p ensures ReturnFrame(s, p).Some? <==> p in Live(s) {
      DeallocReturns(s, p);
    }
    assert Live(s) + Elements(s.recycled) + Range(s.current, s.end) == Live(s) + FreeFrames(s);
  }

  /** Whether a run returns a frame below l before it stops. */
  ghost predicate ReturnsBelow(l: nat, r: nat, ops: seq<FrameOp>) {
    exists i :: 0 <= i < |ops| && BelowAt(l, r, ops, i)
  }

  /** Call i returns a frame below l, and the run has not stopped before it nor stops there. */
  predicate BelowAt(l: nat, r: nat, ops: seq<FrameOp>, i: nat)
    requires i < |ops|
  {
    ops[i].DeallocOp? && ops[i].ppn < l && !RunLedger(Ledger(Init(l, r), {}, false), ops[..i + 1]).stopped
  }

  ghost predicate ExactAt(l: nat, r: nat, ops: seq<FrameOp>, n: nat)
    requires n <= |ops|
  {
    var w := RunLedger(Ledger(Init(l, r), {}, false), ops[..n]);
    PoolIsExact(w.pool, w.held, l, r)
  }

  /** Over every run after `init(l, r)`, with no condition on its calls: the account describes the pool
      exactly, all the way, if and only if no frame below l is returned before the run stops. */
  lemma EveryRunExactIff(l: nat, r: nat, ops: seq<FrameOp>)
    requires l <= r <= 0x1000_0000_0000
    ensures (forall n :: 0 <= n <= |ops| ==> ExactAt(l, r, ops, n)) <==> !ReturnsBelow(l, r, ops)
  {
    if ReturnsBelow(l, r, ops) {
      var i :| 0 <= i < |ops| && BelowAt(l, r, ops, i);
      BelowBreaks(l, r, ops, i);
    } else {
      forall n | 0 <= n <= |ops| ensures ExactAt(l, r, ops, n) {
        AboveKeeps(l, r, ops, n);
        InvMakesExact(RunLedger(Ledger(Init(l, r), {}, false), ops[..n]).pool);
      }
    }
  }

  lemma LedgerNext(w: Ledger, ops: seq<FrameOp>, n: nat)
    requires n < |ops|
    ensures RunLedger(w, ops[..n + 1]) == StepLedger(RunLedger(w, ops[..n]), ops[n])
  {
    hide StepLedger;
    assert ops[..n + 1][..n] == ops[..n];
  }

  /** After an accepted return below l the recycled frames reach outside the pool. */
  lemma BelowBreaks(l: nat, r: nat, ops: seq<FrameOp>, i: nat)
    requires i < |ops| && BelowAt(l, r, ops, i)
    ensures !ExactAt(l, r, ops, i + 1)
  {
    var w0 := Ledger(Init(l, r), {}, false);
    LedgerNext(w0, ops, i);
    var w, w' := RunLedger(w0, ops[..i]), RunLedger(w0, ops[..i + 1]);
    hide RunLedger;
    assert w'.pool.recycled == w.pool.recycled + [ops[i].ppn];
    assert w'.pool.recycled[|w.pool.recycled|] == ops[i].ppn;
    assert ops[i].ppn in Elements(w'.pool.recycled) && ops[i].ppn !in Range(l, r);
    assert ExactAt(l, r, ops, i + 1) ==> Elements(w'.pool.recycled) <= Range(l, r);
  }

  lemma {:induction false} AboveKeeps(l: nat, r: nat, ops: seq<FrameOp>, n: nat)
    requires l <= r <= 0x1000_0000_0000 && n <= |ops| && !ReturnsBelow(l, r, ops)
    ensures var w := RunLedger(Ledger(Init(l, r), {}, false), ops[..n]);
            w.pool.lo == l && w.pool.end == r && FramesInv(w.pool) && w.held == Live(w.pool)
    decreases n
  {
    if n > 0 {
      AboveKeeps(l, r, ops, n - 1);
      var w0 := Ledger(Init(l, r), {}, false);
      LedgerNext(w0, ops, n - 1);
      assert !BelowAt(l, r, ops, n - 1);
      StepKeeps(RunLedger(w0, ops[..n - 1]), ops[n - 1]);
    }
  }

  lemma StepKeeps(w: Ledger, op: FrameOp)
    requires FramesInv(w.pool) && w.held == Live(w.pool)
    requires op.DeallocOp? && op.ppn < w.pool.lo ==> StepLedger(w, op).stopped
    ensures var w' := StepLedger(w, op);
            FramesInv(w'.pool) && w'.held == Live(w'.pool) && w'.pool.lo == w.pool.lo && w'.pool.end == w.pool.end
  {
    match op
    case AllocOp => AllocTakesFree(w.pool);
    case DeallocOp(p) => DeallocReturns(w.pool, p);
  }

  /** A frame just below the base is accepted by a fresh pool and handed out next. */
  lemma ReturnBelowBase(l: nat, r: nat)
    requires 0 < l <= r <= 0x1000_0000_0000
    ensures var w := RunLedger(Ledger(Init(l, r), {}, false), [DeallocOp(l - 1), AllocOp]);
            !w.stopped && w.held == {l - 1} && l - 1 !in Range(l, r)
  {
    var ops := [DeallocOp(l - 1), AllocOp];
    assert ops[..1] == [DeallocOp(l - 1)];
    assert ops[..1][..0] == [];
    var w0 := Ledger(Init(l, r), {}, false);
    assert RunLedger(w0, ops[..1][..0]) == w0;
    assert RunLedger(w0, ops[..1]) == StepLedger(w0, DeallocOp(l - 1));
  }
}

/** Physical memory as 512-word frames, and the frames that `frame_alloc` clears before handing out. */
module Memory {
  import opened Words
  import opened Frames

  /** Word i of frame p; words never written read as zero. */
  type Mem = map<(nat, nat), Word>

  function Rd(m: Mem, p: nat, i: nat): Word {
    if (p, i) in m then m[(p, i)] else 0
  }

  function Wr(m: Mem, p: nat, i: nat, w: Word): (m': Mem)
    ensures forall q: nat, j: nat :: Rd(m', q, j) == if q == p && j == i then w else Rd(m, q, j)
  {
    m[(p, i) := w]
  }

  function ReadByte(m: Mem, p: nat, off: nat): nat {
    ByteOf(Rd(m, p, off / 8), off % 8)
  }

  /** The word at a physical address, as `ptr::read` sees it. */
  function RdAddr(m: Mem, addr: nat): Word {
    Rd(m, addr / 4096, addr % 4096 / 8)
  }

  ghost predicate ZeroFrame(m: Mem, p: nat) {
    forall i :: 0 <= i < 512 ==> Rd(m, p, i) == 0
  }

  /** The memories agree on every frame outside `s`. */
  ghost predicate SameOutside(m: Mem, m': Mem, s: set<nat>) {
    forall p: nat, i: nat :: p !in s ==> Rd(m', p, i) == Rd(m, p, i)
  }

  class PhysMem {
    var words: Mem

    method WriteWord(p: nat, i: nat, w: Word)
      modifies this
      ensures words == Wr(old(words), p, i, w)
    {
      words := words[(p, i) := w];
    }

    method WriteByte(p: nat, off: nat, b: nat)
      requires b < 256
      modifies this
      ensures SameOutside(old(words), words, {p})
      ensures forall k: nat :: ReadByte(words, p, k) == if k == off then b else ReadByte(old(words), p, k)
    {
      var w := Rd(words, p, off / 8);
      WordIsEightBytes();
      SetByteReads(w, off % 8, b, 8, 0);
      words := words[(p, off / 8) := SetByte(w, off % 8, b)];
      forall k: nat ensures ReadByte(words, p, k) == if k == off then b else ReadByte(old(words), p, k) {
        if k / 8 == off / 8 {
          SetByteReads(w, off % 8, b, 8, k % 8);
          assert k == k / 8 * 8 + k % 8 && off == off / 8 * 8 + off % 8;
        }
      }
    }

    /** `FrameTracker::new`: clear the 4096 bytes of a frame. */
    method ClearFrame(p: nat)
      modifies this
      ensures ZeroFrame(words, p) && SameOutside(old(words), words, {p})
    {
      for off := 0 to 4096
        invariant forall k :: 0 <= k < off ==> ReadByte(words, p, k) == 0
        invariant SameOutside(old(words), words, {p})
      {
        WriteByte(p, off, 0);
      }
      ZeroBytesZeroFrame(words, p);
    }
  }

  lemma ZeroBytesZeroFrame(m: Mem, p: nat)
    requires forall k :: 0 <= k < 4096 ==> ReadByte(m, p, k) == 0
    ensures ZeroFrame(m, p)
  {
    forall i | 0 <= i < 512 ensures Rd(m, p, i) == 0 {
      WordIsZero(m, p, i);
    }
  }

  lemma WordIsZero(m: Mem, p: nat, i: nat)
    requires i < 512
    requires forall k :: 0 <= k < 4096 ==> ReadByte(m, p, k) == 0
    ensures Rd(m, p, i) == 0
  {
    WordIsEightBytes();
    forall k | 0 <= k < 8 ensures ByteOf(Rd(m, p, i), k) == 0 {
      assert ReadByte(m, p, i * 8 + k) == 0;
    }
    ZeroBytes(Rd(m, p, i), 8);
  }

  lemma BytesOfZeroFrame(m: Mem, p: nat, off: nat)
    requires ZeroFrame(m, p) && off < 4096
    ensures ReadByte(m, p, off) == 0
  {
    BytesOfZero(off % 8);
  }

  /** `frame_alloc`: take a frame and clear it. */
  method FrameAlloc(mem: PhysMem, alloc: FrameAllocator) returns (f: Option<nat>)
    requires alloc.Valid()
    modifies mem, alloc
    ensures alloc.Valid() && alloc.lo == old(alloc.lo) && alloc.end == old(alloc.end)
    ensures f.None? <==> old(FreeCount(alloc.State())) == 0
    ensures f.None? ==> alloc.State() == old(alloc.State()) && mem.words == old(mem.words)
    ensures f.Some? ==>
              && f.value < 0x1000_0000_0000
              && f.value !in old(Live(alloc.State()))
              && Live(alloc.State()) == old(Live(alloc.State())) + {f.value}
              && FreeCount(alloc.State()) == old(FreeCount(alloc.State())) - 1
              && ZeroFrame(mem.words, f.value)
              && SameOutside(old(mem.words), mem.words, {f.value})
    ensures (f, alloc.State()) == TakeFrame(old(alloc.State()))
  {
    f := alloc.Alloc();
    if f.Some? {
      mem.ClearFrame(f.value);
    }
  }

  /** Dropping a list of distinct live frames returns each of them, and only them. */
  method ReturnAll(alloc: FrameAllocator, frames: seq<nat>) returns (r: Outcome)
    requires alloc.Valid() && NoDuplicates(frames) && Elements(frames) <= Live(alloc.State())
    modifies alloc
    ensures alloc.Valid() && alloc.lo == old(alloc.lo) && alloc.end == old(alloc.end)
    ensures r.Done?
    ensures Live(alloc.State()) == old(Live(alloc.State())) - Elements(frames)
    ensures FreeCount(alloc.State()) == old(FreeCount(alloc.State())) + |frames|
  {
    for i := 0 to |frames|
      invariant alloc.Valid() && alloc.lo == old(alloc.lo) && alloc.end == old(alloc.end)
      invariant Live(alloc.State()) == old(Live(alloc.State())) - Elements(frames[..i])
      invariant FreeCount(alloc.State()) == old(FreeCount(alloc.State())) + i
    {
      assert frames[i] in Elements(frames) && frames[i] !in Elements(frames[..i]);
      r := alloc.Dealloc(frames[i]);
      if !r.Done? {
        return;
      }
      assert Elements(frames[..i + 1]) == Elements(frames[..i]) + {frames[i]};
    }
    assert frames[..|frames|] == frames;
    r := Done;
  }

  /** `copy_from_slice` into the first bytes of a frame. */
  method CopyInto(mem: PhysMem, p: nat, src: seq<Byte>)
    modifies mem
    ensures SameOutside(old(mem.words), mem.words, {p})
    ensures forall k: nat :: ReadByte(mem.words, p, k) == if k < |src| then src[k] else ReadByte(old(mem.words), p, k)
  {
    for i := 0 to |src|
      invariant SameOutside(old(mem.words), mem.words, {p})
      invariant forall k: nat :: ReadByte(mem.words, p, k) == if k < i then src[k] else ReadByte(old(mem.words), p, k)
    {
      mem.WriteByte(p, i, src[i]);
    }
  }
}
