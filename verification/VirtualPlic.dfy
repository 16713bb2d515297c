/** The emulated interrupt controller (`handle_irq`, src/guest/vmexit.rs; src/device_emu/plic.rs), as a state
    machine over one guest context and the hardware PLIC behind it. */
module VirtualPlic {
  import opened Words

  const MAX_CONTEXTS: nat := 32

  // ---------------------------------------------------------------- addresses

  /** The S-mode context of a guest. */
  function ContextOf(guestId: nat): nat {
    2 * guestId + 1
  }

  /** The claim/complete register that `handle_irq` reads. */
  function ClaimAddress(base: nat, context: nat): nat {
    base + 0x20_0004 + 0x1000 * context
  }

  /** How `handle_plic_access` reads an address: context and register index; None is its panic. */
  function DecodeAccess(base: Word, pa: Word): Option<(nat, nat)> {
    var offset := (pa - base) % 0x1_0000_0000_0000_0000;
    if 0x20_0000 <= offset < 0x20_0000 + 0x1000 * MAX_CONTEXTS then
      Some(((offset - 0x20_0000) / 0x1000, (offset - 0x20_0000) % 0x1000 / 4))
    else None
  }

  /** The register that `handle_irq` claims from is the one whose accesses are emulated with that
      context's slot; every other context's register decodes to another slot. */
  lemma ClaimAddressDecodes(base: Word, context: nat)
    requires context < MAX_CONTEXTS && ClaimAddress(base, context) < 0x1_0000_0000_0000_0000
    ensures DecodeAccess(base, ClaimAddress(base, context)) == Some((context, 1))
  {
    var offset := 0x20_0004 + 0x1000 * context;
    Euclid(offset, 0x1_0000_0000_0000_0000, 0, offset);
    Euclid(4 + 0x1000 * context, 0x1000, context, 4);
  }

  /** Exactly the four bytes of the register decode to it. */
  lemma DecodesToClaim(base: Word, context: nat, pa: Word)
    requires context < MAX_CONTEXTS && ClaimAddress(base, context) + 4 <= 0x1_0000_0000_0000_0000
    ensures DecodeAccess(base, pa) == Some((context, 1)) <==> ClaimAddress(base, context) <= pa < ClaimAddress(base, context) + 4
  {
    var offset := (pa - base) % 0x1_0000_0000_0000_0000;
    if pa >= base {
      Euclid(pa - base, 0x1_0000_0000_0000_0000, 0, pa - base);
    } else {
      Euclid(pa - base, 0x1_0000_0000_0000_0000, -1, pa - base + 0x1_0000_0000_0000_0000);
    }
    if 0x20_0000 + 0x1000 * context <= offset < 0x20_0000 + 0x1000 * context + 0x1000 {
      var within := offset - 0x20_0000 - 0x1000 * context;
      Euclid(offset - 0x20_0000, 0x1000, context, within);
    }
  }

  // ---------------------------------------------------------------- the state machine

  /** The slot `claim_complete` of the guest's context, the guest's pending bit (hvip.VSEIP), the hardware's
      pending and claimed sources, and how many claims and completions it has seen. */
  datatype Vplic = Vplic(slot: nat, vseip: bool, pending: set<nat>, claimed: set<nat>, claims: nat, completions: nat)

  const INITIAL := Vplic(0, false, {}, {}, 0, 0)

  datatype PlicEvent =
    | Raise(irq: nat)             // a device raises a source
    | ExternalTrap(irq: nat)      // `handle_irq`, whose claim returned irq
    | Idle                        // nothing that concerns the PLIC
    | GuestClaim                  // the guest reads its claim register
    | GuestComplete(value: nat)   // the guest writes its completion register
    | ForeignComplete(value: nat, enabled: bool)  // ... or another context's, where the source may be enabled too

  /** One step; None when the event cannot happen.  A claim returns a pending source, or zero when there is
      none; a gateway forwards no source that is already claimed; a completion of a source that is not
      claimed is ignored. */
  function Step(s: Vplic, e: PlicEvent): Option<Vplic> {
    match e
    case Raise(irq) => if irq == 0 || irq in s.claimed then None else Some(s.(pending := s.pending + {irq}))
    case ExternalTrap(irq) =>
      if irq == 0 then
        if s.pending == {} then Some(s.(slot := 0, vseip := true)) else None
      else if irq !in s.pending then None
      else
        Some(s.(slot := irq, vseip := true, pending := s.pending - {irq}, claimed := s.claimed + {irq}, claims := s.claims + 1))
    case Idle => Some(s)
    case GuestClaim => Some(s)
    case GuestComplete(value) =>
      Some(s.(slot := 0, vseip := false, claimed := s.claimed - {value},
              completions := s.completions + if value in s.claimed then 1 else 0))
    case ForeignComplete(value, enabled) =>
      if !enabled then Some(s.(vseip := false))
      else
        Some(s.(vseip := false, claimed := s.claimed - {value},
                completions := s.completions + if value in s.claimed then 1 else 0))
  }

  function Run(s: Vplic, es: seq<PlicEvent>): Option<Vplic>
    decreases |es|
  {
    if es == [] then Some(s)
    else
      match Run(s, es[..|es| - 1])
      case None => None
      case Some(t) => Step(t, es[|es| - 1])
  }

  /** What the hardware keeps in every run. */
  predicate HardwareOk(s: Vplic) {
    s.pending !! s.claimed && 0 !in s.pending && 0 !in s.claimed
  }

  /** The guest's view is the hardware's: the pending bit is set exactly while the slot is taken, and the
      one outstanding claim is the slot's. */
  predicate Coherent(s: Vplic) {
    && (s.vseip <==> s.slot != 0)
    && s.claimed == (if s.slot == 0 then {} else {s.slot})
    && s.claims - s.completions == |s.claimed|
  }

  /** What keeps it so: a claim is taken only into a free slot and is not spurious, and the guest completes
      the source it was given, on its own context. */
  predicate Disciplined(s: Vplic, e: PlicEvent) {
    match e
    case Raise(_) => true
    case ExternalTrap(irq) => s.slot == 0 && irq != 0
    case Idle => true
    case GuestClaim => true
    case GuestComplete(value) => s.slot == 0 || value == s.slot
    case ForeignComplete(_, _) => s.slot == 0
  }

  lemma HardwareStep(s: Vplic, e: PlicEvent)
    requires HardwareOk(s) && Step(s, e).Some?
    ensures HardwareOk(Step(s, e).value)
  {
  }

  /** One event keeps the views coherent exactly when it is disciplined. */
  lemma CoherentIffDisciplined(s: Vplic, e: PlicEvent)
    requires HardwareOk(s) && Coherent(s) && Step(s, e).Some?
    ensures Coherent(Step(s, e).value) <==> Disciplined(s, e)
  {
    match e
    case Raise(_) =>
    case Idle =>
    case GuestClaim =>
    case ExternalTrap(irq) => TrapCoherence(s, irq);
    case GuestComplete(value) => CompleteCoherence(s, value);
    case ForeignComplete(_, _) =>
  }

  lemma TrapCoherence(s: Vplic, irq: nat)
    requires HardwareOk(s) && Coherent(s) && Step(s, ExternalTrap(irq)).Some?
    ensures Coherent(Step(s, ExternalTrap(irq)).value) <==> s.slot == 0 && irq != 0
  {
    var t := Step(s, ExternalTrap(irq)).value;
    if irq == 0 {
      assert t.claimed == s.claimed;
    } else if s.slot == 0 {
      assert t.claimed == {irq};
    } else {
      assert s.slot in t.claimed && s.slot !in {irq};
    }
  }

  lemma CompleteCoherence(s: Vplic, value: nat)
    requires HardwareOk(s) && Coherent(s)
    ensures Coherent(Step(s, GuestComplete(value)).value) <==> s.slot == 0 || value == s.slot
  {
    var t := Step(s, GuestComplete(value)).value;
    if s.slot != 0 && value != s.slot {
      assert s.slot in t.claimed;
    } else {
      assert t.claimed == {};
    }
  }

  /** Every state of the run is coherent. */
  ghost predicate AlwaysCoherent(es: seq<PlicEvent>) {
    forall k :: 0 <= k <= |es| ==> Run(INITIAL, es[..k]).Some? && Coherent(Run(INITIAL, es[..k]).value)
  }

  /** Every event of the run is disciplined where it happens. */
  ghost predicate AlwaysDisciplined(es: seq<PlicEvent>) {
    forall k :: 0 <= k < |es| ==> DisciplinedAt(es, k)
  }

  predicate DisciplinedAt(es: seq<PlicEvent>, k: nat)
    requires k < |es|
  {
    Run(INITIAL, es[..k]).Some? && Disciplined(Run(INITIAL, es[..k]).value, es[k])
  }

  lemma {:induction false} HardwareRun(es: seq<PlicEvent>)
    requires Run(INITIAL, es).Some?
    ensures HardwareOk(Run(INITIAL, es).value)
    decreases |es|
  {
    if es != [] {
      HardwareRun(es[..|es| - 1]);
      HardwareStep(Run(INITIAL, es[..|es| - 1]).value, es[|es| - 1]);
    }
  }

  lemma RunNext(es: seq<PlicEvent>, k: nat)
    requires k < |es|
    ensures Run(INITIAL, es[..k + 1]) ==
            match Run(INITIAL, es[..k]) case None => None case Some(t) => Step(t, es[k])
  {
    assert es[..k + 1][..k] == es[..k];
  }

  /** Over every run: guest and hardware stay coherent throughout exactly when every event is disciplined. */
  lemma EveryPlicRun(es: seq<PlicEvent>)
    requires Run(INITIAL, es).Some?
    ensures AlwaysCoherent(es) <==> AlwaysDisciplined(es)
  {
    forall k | 0 <= k <= |es| ensures Run(INITIAL, es[..k]).Some? { PrefixRuns(es, k); }
    if AlwaysCoherent(es) {
      forall k | 0 <= k < |es| ensures DisciplinedAt(es, k) {
        PrefixRuns(es, k);
        HardwareRun(es[..k]);
        RunNext(es, k);
        assert Coherent(Run(INITIAL, es[..k + 1]).value);
        CoherentIffDisciplined(Run(INITIAL, es[..k]).value, es[k]);
      }
    }
    if AlwaysDisciplined(es) {
      forall k | 0 <= k <= |es| ensures Coherent(Run(INITIAL, es[..k]).value) {
        DisciplinedPrefix(es, k);
      }
    }
  }

  lemma {:induction false} PrefixRuns(es: seq<PlicEvent>, k: nat)
    requires k <= |es| && Run(INITIAL, es).Some?
    ensures Run(INITIAL, es[..k]).Some?
    decreases |es|
  {
    if k == |es| {
      assert es[..k] == es;
    } else {
      PrefixRuns(es[..|es| - 1], k);
      assert es[..|es| - 1][..k] == es[..k];
    }
  }

  lemma {:induction false} DisciplinedPrefix(es: seq<PlicEvent>, k: nat)
    requires k <= |es| && AlwaysDisciplined(es) && Run(INITIAL, es).Some?
    ensures Run(INITIAL, es[..k]).Some? && Coherent(Run(INITIAL, es[..k]).value)
    decreases k
  {
    PrefixRuns(es, k);
    if k > 0 {
      DisciplinedPrefix(es, k - 1);
      HardwareRun(es[..k - 1]);
      RunNext(es, k - 1);
      assert DisciplinedAt(es, k - 1);
      CoherentIffDisciplined(Run(INITIAL, es[..k - 1]).value, es[k - 1]);
    }
  }

  /** The discipline in terms of the events alone: the source that the guest still owes a completion, zero
      for none.  Broken, and None, when a trap comes while one is owed or brings nothing, or when a
      completion names another source or goes to another context. */
  function Owed(es: seq<PlicEvent>): Option<nat> {
    if es == [] then Some(0)
    else
      match Owed(es[..|es| - 1])
      case None => None
      case Some(x) =>
        match es[|es| - 1]
        case ExternalTrap(irq) => if x == 0 && irq != 0 then Some(irq) else None
        case GuestComplete(value) => if x == 0 || value == x then Some(0) else None
        case ForeignComplete(_, _) => if x == 0 then Some(0) else None
        case _ => Some(x)
  }

  /** A run is disciplined exactly when its events are, and then the slot holds what is owed. */
  lemma {:induction false} OwedIsSlot(es: seq<PlicEvent>)
    requires Run(INITIAL, es).Some?
    ensures AlwaysDisciplined(es) <==> Owed(es).Some?
    ensures Owed(es).Some? ==> Owed(es).value == Run(INITIAL, es).value.slot
    decreases |es|
  {
    if es != [] {
      var n := |es| - 1;
      OwedIsSlot(es[..n]);
      DisciplinedSplits(es);
      hide AlwaysDisciplined;
    }
  }

  lemma DisciplinedSplits(es: seq<PlicEvent>)
    requires es != [] && Run(INITIAL, es).Some?
    ensures AlwaysDisciplined(es) <==>
              AlwaysDisciplined(es[..|es| - 1]) && Disciplined(Run(INITIAL, es[..|es| - 1]).value, es[|es| - 1])
  {
    var n := |es| - 1;
    forall k: nat | k < n ensures DisciplinedAt(es[..n], k) <==> DisciplinedAt(es, k) {
      SamePrefix(es, n, k);
    }
    PrefixRuns(es, n);
    assert DisciplinedAt(es, n) <==> Disciplined(Run(INITIAL, es[..n]).value, es[n]);
    hide DisciplinedAt, Run, Disciplined;
  }

  lemma SamePrefix(es: seq<PlicEvent>, n: nat, k: nat)
    requires k < n <= |es|
    ensures DisciplinedAt(es[..n], k) <==> DisciplinedAt(es, k)
  {
    assert es[..n][..k] == es[..k];
  }

  // ---------------------------------------------------------------- an overwritten claim

  /** The guest completes only what it reads from the claim register, on its own context. */
  ghost predicate CompletesWhatItReads(s: Vplic, es: seq<PlicEvent>) {
    forall k :: 0 <= k < |es| && Run(s, es[..k]).Some? ==>
      && (es[k].GuestComplete? ==> es[k].value == Run(s, es[..k]).value.slot)
      && !es[k].ForeignComplete?
  }

  /** A claim that is outstanding but no longer in the slot is never completed and its source never raised
      again, whatever happens, by a guest that completes what it reads. */
  lemma {:induction false} LostClaimStaysLost(s: Vplic, x: nat, es: seq<PlicEvent>)
    requires HardwareOk(s) && x in s.claimed && x != s.slot && x != 0
    requires Run(s, es).Some? && CompletesWhatItReads(s, es)
    ensures var t := Run(s, es).value; HardwareOk(t) && x in t.claimed && x != t.slot && x !in t.pending
    decreases |es|
  {
    if es != [] {
      var n := |es| - 1;
      forall k | 0 <= k < n && Run(s, es[..n][..k]).Some?
        ensures es[..n][k].GuestComplete? ==> es[..n][k].value == Run(s, es[..n][..k]).value.slot
        ensures !es[..n][k].ForeignComplete?
      {
        assert es[..n][..k] == es[..k];
      }
      LostClaimStaysLost(s, x, es[..n]);
      HardwareStep(Run(s, es[..n]).value, es[n]);
    }
  }

  const RACE := [Raise(1), Raise(2), ExternalTrap(1), ExternalTrap(2), GuestClaim, GuestComplete(2)]

  const AFTER_BOTH_TRAPS := Vplic(2, true, {}, {1, 2}, 2, 0)

  lemma RaceRuns()
    ensures Run(INITIAL, RACE[..4]) == Some(AFTER_BOTH_TRAPS)
    ensures Run(INITIAL, RACE[..5]) == Some(AFTER_BOTH_TRAPS)
  {
    var s1 := Vplic(0, false, {1}, {}, 0, 0);
    var s2 := Vplic(0, false, {1, 2}, {}, 0, 0);
    var s3 := Vplic(1, true, {2}, {1}, 1, 0);
    assert RACE[..0] == [] && Run(INITIAL, RACE[..0]) == Some(INITIAL);
    hide Run;
    RunNext(RACE, 0);
    assert INITIAL.pending + {1} == s1.pending;
    RunNext(RACE, 1);
    assert s1.pending + {2} == s2.pending;
    RunNext(RACE, 2);
    assert s2.pending - {1} == s3.pending && s2.claimed + {1} == s3.claimed;
    RunNext(RACE, 3);
    assert s3.pending - {2} == AFTER_BOTH_TRAPS.pending && s3.claimed + {2} == AFTER_BOTH_TRAPS.claimed;
    RunNext(RACE, 4);
  }

  /** Two devices and a guest that does nothing wrong lose an interrupt: the second trap overwrites the
      slot before the guest has completed the first. */
  lemma SecondTrapLosesFirst()
    ensures Run(INITIAL, RACE).Some? && CompletesWhatItReads(INITIAL, RACE)
    ensures Run(INITIAL, RACE).value.claimed == {1} && Run(INITIAL, RACE).value.slot == 0
    ensures !AlwaysCoherent(RACE)
  {
    RaceRuns();
    hide Run;
    RunNext(RACE, 5);
    assert RACE[..6] == RACE;
    assert AFTER_BOTH_TRAPS.claimed - {2} == {1};
    assert !Coherent(Run(INITIAL, RACE[..4]).value);
    forall k | 0 <= k < |RACE| && Run(INITIAL, RACE[..k]).Some?
      ensures RACE[k].GuestComplete? ==> RACE[k].value == Run(INITIAL, RACE[..k]).value.slot
      ensures !RACE[k].ForeignComplete?
    {
      if RACE[k].GuestComplete? { assert k == 5; }
    }
  }
}
