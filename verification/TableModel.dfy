/** What a three-level page table in physical memory means (src/page_table/sv39.rs).

The tables of one address space form a tree: the root, one middle table per used 1 GiB prefix
(vpn / 2^18) and one leaf table per used 2 MiB prefix (vpn / 512).  `Represents` fixes every word of
every table of the tree from three maps; `own` names the place of each frame in the tree, so that no
frame can have two places.  `spare` holds the frames that the table took but never links.
*/
module TableModel {
  import opened Words
  import opened Memory

  datatype Node = Root | Mid(prefix: nat) | Leaf(prefix: nat)

  datatype Tree = Tree(root: nat, mid: map<nat, nat>, leaf: map<nat, nat>, own: map<nat, Node>,
                       spare: set<nat>)

  /** Mapped pages and the entry words that map them. */
  type PageMap = map<nat, Word>

  ghost predicate Shape(t: Tree) {
    && t.root in t.own && t.own[t.root] == Root
    && (forall p :: p in t.own ==> p < 0x1000_0000_0000 && PlaceExists(t, p))
    && (forall a :: a in t.mid ==> a < 512 && t.mid[a] in t.own && t.own[t.mid[a]] == Mid(a))
    && (forall b :: b in t.leaf ==>
          b < 0x4_0000 && b / 512 in t.mid && t.leaf[b] in t.own && t.own[t.leaf[b]] == Leaf(b))
  }

  /** The place recorded for a frame really holds that frame. */
  ghost predicate PlaceExists(t: Tree, p: nat)
    requires p in t.own
  {
    match t.own[p]
    case Root => p == t.root
    case Mid(a) => a in t.mid && t.mid[a] == p
    case Leaf(b) => b in t.leaf && t.leaf[b] == p
  }

  function Pointer(children: map<nat, nat>, k: nat): Word
    requires forall c :: c in children ==> children[c] < 0x1000_0000_0000
  {
    if k in children then PteNew(children[k], 1) else PTE_EMPTY
  }

  function Entry(pages: PageMap, v: nat): Word {
    if v in pages then pages[v] else PTE_EMPTY
  }

  ghost predicate PagesCovered(t: Tree, pages: PageMap) {
    forall v :: v in pages ==> v < 0x800_0000 && v / 512 in t.leaf && IsValid(pages[v])
  }

  ghost predicate RootWords(m: Mem, t: Tree)
    requires Shape(t)
  {
    forall i :: 0 <= i < 512 ==> Rd(m, t.root, i) == Pointer(t.mid, i)
  }

  ghost predicate MidWords(m: Mem, t: Tree)
    requires Shape(t)
  {
    forall a, i :: a in t.mid && 0 <= i < 512 ==> Rd(m, t.mid[a], i) == Pointer(t.leaf, a * 512 + i)
  }

  ghost predicate LeafWords(m: Mem, t: Tree, pages: PageMap) {
    forall b, i :: b in t.leaf && 0 <= i < 512 ==> Rd(m, t.leaf[b], i) == Entry(pages, b * 512 + i)
  }

  ghost predicate Represents(m: Mem, t: Tree, pages: PageMap)
    requires Shape(t)
  {
    RootWords(m, t) && MidWords(m, t) && LeafWords(m, t, pages) && PagesCovered(t, pages)
  }

  // ---------------------------------------------------------------- lookup

  /** `find_pte` from table p at a level: the slot of the leaf entry, without testing that entry. */
  function Descend(m: Mem, p: nat, vpn: nat, level: nat): Option<(nat, nat)>
    requires level < 3
    decreases 3 - level
  {
    if level == 2 then Some((p, Index(vpn, 2)))
    else
      var w := Rd(m, p, Index(vpn, level));
      if !IsValid(w) then None else Descend(m, PtePpn(w), vpn, level + 1)
  }

  function FindSlot(m: Mem, root: nat, vpn: nat): Option<(nat, nat)> {
    Descend(m, root, vpn, 0)
  }

  /** `translate`: the entry word, which may be an invalid one. */
  function Translate(m: Mem, root: nat, vpn: nat): Option<Word> {
    match FindSlot(m, root, vpn)
    case None => None
    case Some((p, i)) => Some(Rd(m, p, i))
  }

  /** `translate_va` on a table. */
  function TranslateVa(m: Mem, root: nat, va: nat): Option<nat> {
    match Translate(m, root, Key(va / 4096))
    case None => None
    case Some(w) => Some(PtePpn(w) * 4096 + va % 4096)
  }

  lemma PointerDecodes(children: map<nat, nat>, k: nat)
    requires forall c :: c in children ==> children[c] < 0x1000_0000_0000
    ensures IsValid(Pointer(children, k)) <==> k in children
    ensures k in children ==> PtePpn(Pointer(children, k)) == children[k]
  {
    if k in children { PteRoundTrip(children[k], 1); }
  }

  /** A lookup ends in the leaf table of the page's 2 MiB prefix, exactly when that table exists. */
  lemma SlotOf(m: Mem, t: Tree, pages: PageMap, vpn: nat)
    requires Shape(t) && Represents(m, t, pages)
    ensures FindSlot(m, t.root, vpn).Some? <==> Key(vpn) / 512 in t.leaf
    ensures Key(vpn) / 512 in t.leaf ==> FindSlot(m, t.root, vpn) == Some((t.leaf[Key(vpn) / 512], Index(vpn, 2)))
  {
    KeySplits(vpn);
    var a: nat, b: nat := Index(vpn, 0), Key(vpn) / 512;
    PointerDecodes(t.mid, a);
    assert Rd(m, t.root, a) == Pointer(t.mid, a);
    if a in t.mid {
      PointerDecodes(t.leaf, b);
      assert Rd(m, t.mid[a], Index(vpn, 1)) == Pointer(t.leaf, a * 512 + Index(vpn, 1));
    }
  }

  /** The tree in memory answers exactly like the abstract map: a lookup yields a valid entry iff the
      page is mapped, and then it is the mapped entry. */
  lemma LookupIsMap(m: Mem, t: Tree, pages: PageMap, vpn: nat)
    requires Shape(t) && Represents(m, t, pages)
    ensures Translate(m, t.root, vpn).Some? <==> Key(vpn) / 512 in t.leaf
    ensures Translate(m, t.root, vpn).Some? ==> Translate(m, t.root, vpn).value == Entry(pages, Key(vpn))
    ensures Key(vpn) in pages <==> Translate(m, t.root, vpn).Some? && IsValid(Translate(m, t.root, vpn).value)
  {
    SlotOf(m, t, pages, vpn);
    KeySplits(vpn);
    var b: nat := Key(vpn) / 512;
    if b in t.leaf {
      assert Rd(m, t.leaf[b], Index(vpn, 2)) == Entry(pages, b * 512 + Index(vpn, 2));
    }
  }

  // ---------------------------------------------------------------- the writes of find_pte_create, map and unmap

  function WithMid(t: Tree, a: nat, f: nat): Tree {
    t.(mid := t.mid[a := f], own := t.own[f := Mid(a)])
  }

  function WithLeaf(t: Tree, b: nat, f: nat): Tree {
    t.(leaf := t.leaf[b := f], own := t.own[f := Leaf(b)])
  }

  lemma GrowShapeMid(t: Tree, a: nat, f: nat)
    requires Shape(t) && a < 512 && a !in t.mid && f !in t.own && f < 0x1000_0000_0000
    ensures Shape(WithMid(t, a, f))
  {
    var t' := WithMid(t, a, f);
    forall p | p in t'.own ensures p < 0x1000_0000_0000 && PlaceExists(t', p) {
      if p != f { assert PlaceExists(t, p); }
    }
  }

  /** Linking a cleared, unowned frame as a middle table. */
  lemma GrowMid(m: Mem, t: Tree, pages: PageMap, a: nat, f: nat)
    requires Shape(t) && Represents(m, t, pages)
    requires a < 512 && a !in t.mid && f !in t.own && f < 0x1000_0000_0000 && ZeroFrame(m, f)
    ensures Shape(WithMid(t, a, f))
    ensures Represents(Wr(m, t.root, a, PteNew(f, 1)), WithMid(t, a, f), pages)
  {
    var m', t' := Wr(m, t.root, a, PteNew(f, 1)), WithMid(t, a, f);
    hide PteNew, MidWords;
    GrowShapeMid(t, a, f);
    GrowMidWords(m, t, a, f);
    assert LeafWords(m', t', pages) by { assert forall b :: b in t.leaf ==> t.own[t.leaf[b]] == Leaf(b); }
  }

  lemma GrowMidWords(m: Mem, t: Tree, a: nat, f: nat)
    requires Shape(t) && MidWords(m, t)
    requires a < 512 && a !in t.mid && f !in t.own && f < 0x1000_0000_0000 && ZeroFrame(m, f)
    requires Shape(WithMid(t, a, f))
    ensures MidWords(Wr(m, t.root, a, PteNew(f, 1)), WithMid(t, a, f))
  {
    hide PteNew;
    var m', t' := Wr(m, t.root, a, PteNew(f, 1)), WithMid(t, a, f);
    forall a', i | a' in t'.mid && 0 <= i < 512 ensures Rd(m', t'.mid[a'], i) == Pointer(t'.leaf, a' * 512 + i) {
      if a' == a {
        Euclid(a * 512 + i, 512, a, i);
        assert a * 512 + i !in t.leaf;
      } else {
        assert t.own[t.mid[a']] == Mid(a');
      }
    }
  }

  lemma GrowShapeLeaf(t: Tree, b: nat, f: nat)
    requires Shape(t) && b < 0x4_0000 && b / 512 in t.mid && b !in t.leaf && f !in t.own && f < 0x1000_0000_0000
    ensures Shape(WithLeaf(t, b, f))
  {
    var t' := WithLeaf(t, b, f);
    forall p | p in t'.own ensures p < 0x1000_0000_0000 && PlaceExists(t', p) {
      if p != f { assert PlaceExists(t, p); }
    }
  }

  /** Linking a cleared, unowned frame as a leaf table. */
  lemma GrowLeaf(m: Mem, t: Tree, pages: PageMap, b: nat, f: nat)
    requires Shape(t) && Represents(m, t, pages)
    requires b < 0x4_0000 && b / 512 in t.mid && b !in t.leaf
    requires f !in t.own && f < 0x1000_0000_0000 && ZeroFrame(m, f)
    ensures Shape(WithLeaf(t, b, f))
    ensures Represents(Wr(m, t.mid[b / 512], b % 512, PteNew(f, 1)), WithLeaf(t, b, f), pages)
  {
    var m', t' := Wr(m, t.mid[b / 512], b % 512, PteNew(f, 1)), WithLeaf(t, b, f);
    hide PteNew, MidWords, LeafWords;
    GrowShapeLeaf(t, b, f);
    GrowLeafMidWords(m, t, b, f);
    GrowLeafWords(m, t, pages, b, f);
    assert RootWords(m', t') by { assert t.own[t.mid[b / 512]] == Mid(b / 512); }
  }

  lemma PointerUpdate(children: map<nat, nat>, b: nat, f: nat, k: nat)
    requires forall c :: c in children ==> children[c] < 0x1000_0000_0000
    requires f < 0x1000_0000_0000
    ensures Pointer(children[b := f], k) == if k == b then PteNew(f, 1) else Pointer(children, k)
  {
    hide PteNew;
  }

  /** Different prefixes have different tables. */
  lemma MidDistinct(t: Tree, a: nat, a': nat)
    requires Shape(t) && a in t.mid && a' in t.mid && t.mid[a] == t.mid[a']
    ensures a == a'
  {
  }

  lemma GrowLeafMidWords(m: Mem, t: Tree, b: nat, f: nat)
    requires Shape(t) && MidWords(m, t)
    requires b < 0x4_0000 && b / 512 in t.mid && b !in t.leaf && f !in t.own && f < 0x1000_0000_0000
    requires Shape(WithLeaf(t, b, f))
    ensures MidWords(Wr(m, t.mid[b / 512], b % 512, PteNew(f, 1)), WithLeaf(t, b, f))
  {
    hide PteNew, Pointer, Wr;
    var m', t' := Wr(m, t.mid[b / 512], b % 512, PteNew(f, 1)), WithLeaf(t, b, f);
    forall a, i | a in t'.mid && 0 <= i < 512 ensures Rd(m', t'.mid[a], i) == Pointer(t'.leaf, a * 512 + i) {
      GrowLeafMidWord(m, t, b, f, a, i);
    }
  }

  lemma GrowLeafMidWord(m: Mem, t: Tree, b: nat, f: nat, a: nat, i: nat)
    requires Shape(t) && b / 512 in t.mid && f < 0x1000_0000_0000 && a in t.mid && i < 512
    requires Rd(m, t.mid[a], i) == Pointer(t.leaf, a * 512 + i)
    ensures Rd(Wr(m, t.mid[b / 512], b % 512, PteNew(f, 1)), t.mid[a], i) == Pointer(t.leaf[b := f], a * 512 + i)
  {
    hide PteNew, Pointer;
    PointerUpdate(t.leaf, b, f, a * 512 + i);
    if t.mid[a] == t.mid[b / 512] {
      MidDistinct(t, a, b / 512);
    }
    Euclid(a * 512 + i, 512, a, i);
  }

  lemma GrowLeafWords(m: Mem, t: Tree, pages: PageMap, b: nat, f: nat)
    requires Shape(t) && LeafWords(m, t, pages) && PagesCovered(t, pages)
    requires b < 0x4_0000 && b / 512 in t.mid && b !in t.leaf && f !in t.own && ZeroFrame(m, f)
    requires f < 0x1000_0000_0000
    ensures LeafWords(Wr(m, t.mid[b / 512], b % 512, PteNew(f, 1)), WithLeaf(t, b, f), pages)
  {
    hide PteNew;
    var m', t' := Wr(m, t.mid[b / 512], b % 512, PteNew(f, 1)), WithLeaf(t, b, f);
    assert t.own[t.mid[b / 512]] == Mid(b / 512);
    forall b', i | b' in t'.leaf && 0 <= i < 512 ensures Rd(m', t'.leaf[b'], i) == Entry(pages, b' * 512 + i) {
      if b' == b {
        Euclid(b * 512 + i, 512, b, i);
        assert b * 512 + i !in pages;
      } else {
        assert t.own[t.leaf[b']] == Leaf(b');
      }
    }
  }

  /** Writing one leaf entry changes the meaning at its page alone. */
  lemma WriteEntry(m: Mem, t: Tree, pages: PageMap, v: nat, w: Word)
    requires Shape(t) && Represents(m, t, pages)
    requires v < 0x800_0000 && v / 512 in t.leaf
    requires IsValid(w) || w == PTE_EMPTY
    ensures var pages' := if IsValid(w) then pages[v := w] else pages - {v};
            Represents(Wr(m, t.leaf[v / 512], v % 512, w), t, pages')
  {
    hide PteNew;
    var m' := Wr(m, t.leaf[v / 512], v % 512, w);
    var pages' := if IsValid(w) then pages[v := w] else pages - {v};
    forall b, i | b in t.leaf && 0 <= i < 512 ensures Rd(m', t.leaf[b], i) == Entry(pages', b * 512 + i) {
      if b * 512 + i == v {
        Euclid(v, 512, b, i);
      } else {
        assert t.own[t.leaf[b]] == Leaf(b);
        assert (t.leaf[b], i) != (t.leaf[v / 512], v % 512);
      }
    }
  }

  /** The meaning depends on the words of the tree's own frames alone. */
  lemma RepresentsFrame(m: Mem, m': Mem, t: Tree, pages: PageMap, changed: set<nat>)
    requires Shape(t) && Represents(m, t, pages)
    requires SameOutside(m, m', changed) && t.own.Keys !! changed
    ensures Represents(m', t, pages)
  {
  }

  // ---------------------------------------------------------------- the frames form a tree

  /** Entry (q, i) is a pointer entry of the tree that leads to frame p. */
  ghost predicate LinksTo(m: Mem, t: Tree, q: nat, i: nat, p: nat) {
    && q in t.own && !t.own[q].Leaf? && i < 512
    && IsValid(Rd(m, q, i)) && PtePpn(Rd(m, q, i)) == p
  }

  /** A pointer entry leads to the one table whose place it is. */
  lemma LinkTarget(m: Mem, t: Tree, pages: PageMap, q: nat, i: nat, p: nat)
    requires Shape(t) && Represents(m, t, pages)
    requires LinksTo(m, t, q, i, p)
    ensures p in t.own
    ensures t.own[q].Root? ==> q == t.root && t.own[p] == Mid(i)
    ensures t.own[q].Mid? ==> t.mid[t.own[q].prefix] == q && t.own[p] == Leaf(t.own[q].prefix * 512 + i)
  {
    assert PlaceExists(t, q);
    match t.own[q]
    case Root => PointerDecodes(t.mid, i);
    case Mid(a) => PointerDecodes(t.leaf, a * 512 + i);
  }

  /** Every table but the root hangs from exactly one entry, and the root from none: the frames
      reachable from the root form a tree. */
  lemma OneParent(m: Mem, t: Tree, pages: PageMap, p: nat)
    requires Shape(t) && Represents(m, t, pages) && p in t.own
    ensures p == t.root ==> forall q, i :: !LinksTo(m, t, q, i, p)
    ensures p != t.root ==> exists q, i :: LinksTo(m, t, q, i, p)
    ensures forall q, i, q', i' :: LinksTo(m, t, q, i, p) && LinksTo(m, t, q', i', p) ==> q == q' && i == i'
  {
    forall q, i | LinksTo(m, t, q, i, p) ensures p != t.root {
      LinkTarget(m, t, pages, q, i, p);
    }
    if p != t.root {
      var (q, i) := ParentOf(m, t, pages, p);
      assert LinksTo(m, t, q, i, p);
    }
    forall q, i, q', i' | LinksTo(m, t, q, i, p) && LinksTo(m, t, q', i', p) ensures q == q' && i == i' {
      SameParent(m, t, pages, p, q, i, q', i');
    }
  }

  lemma SameParent(m: Mem, t: Tree, pages: PageMap, p: nat, q: nat, i: nat, q': nat, i': nat)
    requires Shape(t) && Represents(m, t, pages)
    requires LinksTo(m, t, q, i, p) && LinksTo(m, t, q', i', p)
    ensures q == q' && i == i'
  {
    LinkTarget(m, t, pages, q, i, p);
    LinkTarget(m, t, pages, q', i', p);
    if t.own[p].Leaf? {
      Euclid(t.own[p].prefix, 512, t.own[q].prefix, i);
      Euclid(t.own[p].prefix, 512, t.own[q'].prefix, i');
    }
  }

  ghost function ParentOf(m: Mem, t: Tree, pages: PageMap, p: nat): (r: (nat, nat))
    requires Shape(t) && Represents(m, t, pages) && p in t.own && p != t.root
    ensures LinksTo(m, t, r.0, r.1, p)
  {
    assert PlaceExists(t, p);
    if t.own[p].Mid? then
      PointerDecodes(t.mid, t.own[p].prefix);
      (t.root, t.own[p].prefix)
    else
      var b := t.own[p].prefix;
      PointerDecodes(t.leaf, b);
      assert Rd(m, t.mid[b / 512], b % 512) == Pointer(t.leaf, b / 512 * 512 + b % 512);
      (t.mid[b / 512], b % 512)
  }
}
