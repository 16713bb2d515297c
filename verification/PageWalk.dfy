/** The software page walk (`walk_page_table`, src/page_table/sv39.rs; types of src/page_table/mod.rs). */
module PageWalks {
  import opened Words

  datatype Level = Level1GB | Level2MB | Level4KB

  datatype PteWrapper = PteWrapper(addr: nat, pte: Word, level: Level)

  datatype PageWalk = PageWalk(path: seq<PteWrapper>, pa: nat)

  /** Memory as the walk's closure reads it. */
  type Reader = nat -> Word

  function LevelAt(l: nat): Level
    requires l < 3
  {
    if l == 0 then Level1GB else if l == 1 then Level2MB else Level4KB
  }

  function VaIndex(va: nat, l: nat): (i: nat)
    requires l < 3
    ensures i < 512
  {
    if l == 0 then va / 0x4000_0000 % 512 else if l == 1 then va / 0x20_0000 % 512 else va / 0x1000 % 512
  }

  /** The address that a leaf entry gives: the entry's bits above the page offset, shifted into place
      without any mask, over the offset of the address. */
  function LeafPa(w: Word, va: nat, l: nat): nat
    requires l < 3
  {
    if l == 0 then w / 0x1000_0000 * 0x4000_0000 % 0x1_0000_0000_0000_0000 + va % 0x4000_0000
    else if l == 1 then w / 0x8_0000 * 0x20_0000 % 0x1_0000_0000_0000_0000 + va % 0x20_0000
    else w / 1024 * 4096 % 0x1_0000_0000_0000_0000 + va % 0x1000
  }

  function NextTable(w: Word): nat {
    w / 1024 * 4096 % 0x1_0000_0000_0000_0000
  }

  predicate Unusable(w: Word) {
    !IsValid(w) || (Writable(w) && !Readable(w))
  }

  predicate IsLeaf(w: Word) {
    Readable(w) || Executable(w)
  }

  function Prepend(path: seq<PteWrapper>, walk: Option<PageWalk>): Option<PageWalk> {
    match walk
    case None => None
    case Some(r) => Some(PageWalk(path + r.path, r.pa))
  }

  /** The rest of a walk from a table at a level. */
  function WalkFrom(read: Reader, table: nat, va: nat, l: nat): Option<PageWalk>
    requires l <= 3
    decreases 3 - l
  {
    if l == 3 then None
    else
      var addr := table + VaIndex(va, l) * 8;
      var w := read(addr);
      var here := [PteWrapper(addr, w, LevelAt(l))];
      if Unusable(w) then None
      else if IsLeaf(w) then Some(PageWalk(here, LeafPa(w, va, l)))
      else Prepend(here, WalkFrom(read, NextTable(w), va, l + 1))
  }

  function Walk(read: Reader, root: nat, va: nat): Option<PageWalk> {
    WalkFrom(read, root, va, 0)
  }

  /** `walk_page_table`, the loop of the source. */
  method WalkPageTable(read: Reader, root: nat, va: nat) returns (r: Option<PageWalk>)
    ensures r == Walk(read, root, va)
    ensures forall w :: r == Some(w) <==> IsWalk(read, root, va, 0, w)
  {
    forall w ensures Walk(read, root, va) == Some(w) <==> IsWalk(read, root, va, 0, w) {
      WalkIsChain(read, root, va, w);
    }
    hide IsWalk, Unusable, IsLeaf, LeafPa, NextTable, VaIndex, LevelAt, Prepend;
    var path: seq<PteWrapper> := [];
    var table: nat := root;
    PrependNothing(Walk(read, root, va));
    for l := 0 to 3
      invariant Prepend(path, WalkFrom(read, table, va, l)) == Walk(read, root, va)
    {
      var addr := table + VaIndex(va, l) * 8;
      var w := read(addr);
      ghost var before := path;
      path := path + [PteWrapper(addr, w, LevelAt(l))];
      if Unusable(w) {
        return None;
      } else if IsLeaf(w) {
        return Some(PageWalk(path, LeafPa(w, va, l)));
      }
      PrependTwice(before, [PteWrapper(addr, w, LevelAt(l))], WalkFrom(read, NextTable(w), va, l + 1));
      table := NextTable(w);
    }
    r := None;
  }

  lemma PrependNothing(walk: Option<PageWalk>)
    ensures Prepend([], walk) == walk
  {
    if walk.Some? {
      assert [] + walk.value.path == walk.value.path;
    }
  }

  lemma PrependTwice(a: seq<PteWrapper>, b: seq<PteWrapper>, walk: Option<PageWalk>)
    ensures Prepend(a, Prepend(b, walk)) == Prepend(a + b, walk)
  {
    if walk.Some? {
      assert a + (b + walk.value.path) == a + b + walk.value.path;
    }
  }

  // ---------------------------------------------------------------- entries and addresses, bit by bit

  /** V is clear, or W is set without R. */
  predicate InvalidBits(w: Word) {
    w % 2 == 0 || (w / 4 % 2 == 1 && w / 2 % 2 == 0)
  }

  /** R or X is set. */
  predicate LeafBits(w: Word) {
    w / 2 % 2 == 1 || w / 8 % 2 == 1
  }

  /** The nine bits of page number field i, counted from the least significant. */
  function VpnField(va: nat, i: nat): nat {
    if i == 0 then va / 0x1000 % 512 else if i == 1 then va / 0x20_0000 % 512 else va / 0x4000_0000 % 512
  }

  /** The page that an entry of a level maps, as a number of bits. */
  function PageBits(level: Level): nat {
    match level case Level4KB => 12 case Level2MB => 21 case Level1GB => 30
  }

  /** The address is in the page that the leaf names, cut to 64 bits, at the offset of `va`. */
  predicate LeafGives(w: Word, va: nat, l: nat, pa: nat) {
    if l == 0 then pa % 0x4000_0000 == va % 0x4000_0000 && pa / 0x4000_0000 == w / 0x1000_0000 % 0x4_0000_0000
    else if l == 1 then pa % 0x20_0000 == va % 0x20_0000 && pa / 0x20_0000 == w / 0x8_0000 % 0x800_0000_0000
    else pa % 0x1000 == va % 0x1000 && pa / 0x1000 == w / 1024 % 0x10_0000_0000_0000
  }

  lemma LeafPaIs(w: Word, va: nat, l: nat, pa: nat)
    requires l < 3
    ensures LeafGives(w, va, l, pa) <==> pa == LeafPa(w, va, l)
  {
    if l == 0 {
      Cut(w / 0x1000_0000, 0x4_0000_0000, 0x4000_0000, va, pa);
    } else if l == 1 {
      Cut(w / 0x8_0000, 0x800_0000_0000, 0x20_0000, va, pa);
    } else {
      Cut(w / 1024, 0x10_0000_0000_0000, 0x1000, va, pa);
    }
  }

  lemma Cut(q: nat, n: nat, size: nat, va: nat, pa: nat)
    requires n > 0 && size > 0 && n * size == 0x1_0000_0000_0000_0000
    ensures q * size % 0x1_0000_0000_0000_0000 == q % n * size
    ensures pa % size == va % size && pa / size == q % n <==> pa == q % n * size + va % size
  {
    Euclid(q * size, 0x1_0000_0000_0000_0000, q / n, q % n * size);
    if pa == q % n * size + va % size {
      Euclid(pa, size, q % n, va % size);
    }
  }

  lemma NextTableIs(w: Word)
    ensures NextTable(w) == w / 1024 % 0x10_0000_0000_0000 * 4096
  {
    Cut(w / 1024, 0x10_0000_0000_0000, 0x1000, 0, 0);
  }

  /** The tests of `walk_page_table` are those of the entry's bits. */
  lemma SameTests(w: Word)
    ensures Unusable(w) <==> InvalidBits(w)
    ensures IsLeaf(w) <==> LeafBits(w)
  {
    var q, f := w / 256, w % 256;
    SameBit(w, q, f, 1);
    SameBit(w, q, f, 2);
    SameBit(w, q, f, 4);
    SameBit(w, q, f, 8);
  }

  lemma SameBit(w: nat, q: nat, f: nat, b: nat)
    requires w == q * 256 + f && f < 256 && b in {1, 2, 4, 8}
    ensures w / b % 2 == f / b % 2
  {
    if b == 1 {
      Euclid(w, 2, q * 128 + f / 2, f % 2);
    } else if b == 2 {
      Euclid(w, 2, q * 128 + f / 2, f % 2);
      Euclid(q * 128 + f / 2, 2, q * 64 + f / 2 / 2, f / 2 % 2);
    } else if b == 4 {
      Euclid(w, 4, q * 64 + f / 4, f % 4);
      Euclid(q * 64 + f / 4, 2, q * 32 + f / 4 / 2, f / 4 % 2);
    } else {
      Euclid(w, 8, q * 32 + f / 8, f % 8);
      Euclid(q * 32 + f / 8, 2, q * 16 + f / 8 / 2, f / 8 % 2);
    }
  }

  lemma SameIndex(va: nat, l: nat)
    requires l < 3
    ensures VaIndex(va, l) == VpnField(va, 2 - l)
  {
  }

  // ---------------------------------------------------------------- what a successful walk is

  /** The table in which step k of a path looks. */
  ghost function TableAt(path: seq<PteWrapper>, root: nat, k: nat): nat
    requires k <= |path|
  {
    if k == 0 then root else path[k - 1].pte / 1024 % 0x10_0000_0000_0000 * 4096
  }

  /** A chain of at most three entries from level l on, each in the page named by the one before, whose
      only leaf is the last, which gives the address. */
  ghost predicate IsWalk(read: Reader, root: nat, va: nat, l: nat, r: PageWalk)
    requires l <= 3
  {
    && 1 <= |r.path| <= 3 - l
    && (forall k :: 0 <= k < |r.path| ==> StepOk(read, root, va, l, r.path, k))
    && LeafGives(r.path[|r.path| - 1].pte, va, l + |r.path| - 1, r.pa)
  }

  ghost predicate StepOk(read: Reader, root: nat, va: nat, l: nat, path: seq<PteWrapper>, k: nat)
    requires k < |path| <= 3 - l && l <= 3
  {
    && PageBits(path[k].level) == 30 - 9 * (l + k)
    && path[k].addr == TableAt(path, root, k) + VpnField(va, 2 - l - k) * 8
    && path[k].pte == read(path[k].addr)
    && !InvalidBits(path[k].pte)
    && (LeafBits(path[k].pte) <==> k == |path| - 1)
  }

  lemma StepShift(read: Reader, root: nat, va: nat, l: nat, path: seq<PteWrapper>, k: nat)
    requires l < 3 && 1 <= k < |path| <= 3 - l
    ensures StepOk(read, root, va, l, path, k)
            <==> StepOk(read, NextTable(path[0].pte), va, l + 1, path[1..], k - 1)
  {
    hide NextTable, InvalidBits, LeafBits, VpnField, PageBits;
    NextTableIs(path[0].pte);
  }

  /** The first entry of a chain is what the walk reads first. */
  lemma FirstOk(read: Reader, root: nat, va: nat, l: nat, path: seq<PteWrapper>)
    requires l < 3 && 1 <= |path| <= 3 - l
    ensures var addr := root + VaIndex(va, l) * 8; var w := read(addr);
            StepOk(read, root, va, l, path, 0) <==>
              path[0] == PteWrapper(addr, w, LevelAt(l)) && !Unusable(w) && (IsLeaf(w) <==> |path| == 1)
  {
    hide VaIndex, VpnField, Unusable, IsLeaf, InvalidBits, LeafBits;
    SameIndex(va, l);
    SameTests(read(root + VaIndex(va, l) * 8));
  }

  /** A chain of two or more entries is its first entry followed by a chain one level lower. */
  lemma ChainTail(read: Reader, root: nat, va: nat, l: nat, r: PageWalk)
    requires l < 3 && 2 <= |r.path| <= 3 - l
    ensures IsWalk(read, root, va, l, r)
            <==> StepOk(read, root, va, l, r.path, 0)
                 && IsWalk(read, NextTable(r.path[0].pte), va, l + 1, PageWalk(r.path[1..], r.pa))
  {
    var tail, next, below := PageWalk(r.path[1..], r.pa), NextTable(r.path[0].pte), l + 1;
    forall k | 1 <= k < |r.path|
      ensures StepOk(read, root, va, l, r.path, k) <==> StepOk(read, next, va, below, tail.path, k - 1)
    {
      StepShift(read, root, va, l, r.path, k);
    }
    if IsWalk(read, root, va, l, r) {
      forall k | 0 <= k < |tail.path| ensures StepOk(read, next, va, below, tail.path, k) {
        assert StepOk(read, root, va, l, r.path, k + 1);
      }
    }
  }

  lemma {:induction false} WalkGivesChain(read: Reader, table: nat, va: nat, l: nat)
    requires l <= 3 && WalkFrom(read, table, va, l).Some?
    ensures IsWalk(read, table, va, l, WalkFrom(read, table, va, l).value)
    decreases 3 - l
  {
    hide StepOk, LeafPa, LeafGives, NextTable, Unusable, IsLeaf, VaIndex, LevelAt;
    var addr: nat := table + VaIndex(va, l) * 8;
    var w := read(addr);
    FirstOk(read, table, va, l, WalkFrom(read, table, va, l).value.path);
    if IsLeaf(w) {
      LeafPaIs(w, va, l, LeafPa(w, va, l));
    } else {
      WalkGivesChain(read, NextTable(w), va, l + 1);
      var r, rest := WalkFrom(read, table, va, l).value, WalkFrom(read, NextTable(w), va, l + 1).value;
      assert r.path[1..] == rest.path;
      ChainTail(read, table, va, l, r);
    }
  }

  lemma {:induction false} ChainIsWalk(read: Reader, table: nat, va: nat, l: nat, r: PageWalk)
    requires l <= 3 && IsWalk(read, table, va, l, r)
    ensures WalkFrom(read, table, va, l) == Some(r)
    decreases 3 - l
  {
    hide StepOk, LeafPa, NextTable, WalkFrom;
    FirstStep(read, table, va, l, r);
    if |r.path| > 1 {
      ChainTail(read, table, va, l, r);
      ChainIsWalk(read, NextTable(r.path[0].pte), va, l + 1, PageWalk(r.path[1..], r.pa));
      assert r.path == [r.path[0]] + r.path[1..];
    }
  }

  lemma FirstStep(read: Reader, table: nat, va: nat, l: nat, r: PageWalk)
    requires l <= 3 && IsWalk(read, table, va, l, r)
    ensures l < 3
    ensures |r.path| == 1 ==> WalkFrom(read, table, va, l) == Some(r)
    ensures |r.path| > 1 ==>
              WalkFrom(read, table, va, l) == Prepend([r.path[0]], WalkFrom(read, NextTable(r.path[0].pte), va, l + 1))
  {
    hide StepOk, LeafPa, LeafGives, NextTable, Unusable, IsLeaf, VaIndex, LevelAt;
    assert StepOk(read, table, va, l, r.path, 0);
    FirstOk(read, table, va, l, r.path);
    LeafPaIs(r.path[0].pte, va, l, r.pa);
    assert |r.path| == 1 ==> r.path == [r.path[0]];
  }

  /** A walk succeeds with a result exactly when that result is such a chain; so a result's path is
      never empty, as `translate_guest_va` relies on. */
  lemma WalkIsChain(read: Reader, root: nat, va: nat, r: PageWalk)
    ensures Walk(read, root, va) == Some(r) <==> IsWalk(read, root, va, 0, r)
    ensures Walk(read, root, va) == Some(r) ==> 1 <= |r.path| <= 3
  {
    if Walk(read, root, va).Some? {
      WalkGivesChain(read, root, va, 0);
    }
    if IsWalk(read, root, va, 0, r) {
      ChainIsWalk(read, root, va, 0, r);
    }
  }
}
