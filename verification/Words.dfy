/** Machine words, page-table entries and addresses (src/page_table/pte.rs, src/page_table/address.rs).

A `usize` is a natural number below 2^64.  A right shift is a division and a mask of low bits is a
remainder by a power of two; a left shift drops the bits above 2^64, as in the source; an OR of
operands with no bit in common is a sum.
*/
module Words {

  type Word = w: nat | w < 0x1_0000_0000_0000_0000

  type Byte = b: nat | b < 256

  /** The eight PTE flag bits V R W X U G A D, as the byte that `bitflags` stores. */
  type Flags = f: nat | f < 256

  datatype Option<+T> = None | Some(value: T)

  /** Why a handler of the source stops: each is one `unwrap`, `assert!` or checked operation. */
  datatype Reason =
    | OutOfFrames
    | AlreadyMapped
    | NotMapped
    | NoPhysicalRange
    | RangeMismatch
    | BadRange
    | Misaligned
    | NotFramed
    | NotAllocated

  datatype Outcome = Done | Panicked(why: Reason)

  // ---------------------------------------------------------------- page-table entries

  function PteNew(ppn: nat, flags: Flags): (w: Word) {
    assert ppn * 1024 % 0x1_0000_0000_0000_0000 == ppn % 0x40_0000_0000_0000 * 1024 by {
      Euclid(ppn * 1024, 0x1_0000_0000_0000_0000, ppn / 0x40_0000_0000_0000, ppn % 0x40_0000_0000_0000 * 1024);
    }
    ppn * 1024 % 0x1_0000_0000_0000_0000 + flags
  }

  const PTE_EMPTY: Word := 0

  function PtePpn(w: Word): nat {
    w / 1024 % 0x1000_0000_0000
  }

  function PteFlags(w: Word): Flags {
    w % 256
  }

  predicate IsValid(w: Word) {
    PteFlags(w) % 2 == 1
  }

  predicate Readable(w: Word) {
    PteFlags(w) / 2 % 2 == 1
  }

  predicate Writable(w: Word) {
    PteFlags(w) / 4 % 2 == 1
  }

  predicate Executable(w: Word) {
    PteFlags(w) / 8 % 2 == 1
  }

  /** `flags | PTEFlags::V` */
  function WithV(flags: Flags): Flags {
    flags / 2 * 2 + 1
  }

  /** Decoding undoes encoding exactly on the 44-bit page numbers; the flags always survive, and an
      entry made by `map` is always valid. */
  lemma PteRoundTrip(ppn: nat, flags: Flags)
    ensures PteFlags(PteNew(ppn, flags)) == flags
    ensures PtePpn(PteNew(ppn, flags)) == ppn % 0x1000_0000_0000
    ensures PtePpn(PteNew(ppn, flags)) == ppn <==> ppn < 0x1000_0000_0000
    ensures IsValid(PteNew(ppn, WithV(flags)))
    ensures ppn < 0x1000_0000_0000 ==> PteNew(ppn, flags) == ppn * 1024 + flags
  {
    hide PteNew, PteFlags, PtePpn;
    PteEncodes(ppn, flags);
    PteEncodes(ppn, WithV(flags));
    Euclid(WithV(flags), 2, flags / 2, 1);
  }

  /** The entry that `map` writes, in numbers: the page number shifted by ten, the given flags, and bit 0. */
  lemma PteNumbers(ppn: nat, flags: Flags)
    ensures PteNew(ppn, WithV(flags)) == ppn % 0x40_0000_0000_0000 * 1024 + flags / 2 * 2 + 1
  {
    Euclid(ppn * 1024, 0x1_0000_0000_0000_0000, ppn / 0x40_0000_0000_0000, ppn % 0x40_0000_0000_0000 * 1024);
  }

  lemma PteEncodes(ppn: nat, flags: Flags)
    ensures PteFlags(PteNew(ppn, flags)) == flags
    ensures PtePpn(PteNew(ppn, flags)) == ppn % 0x1000_0000_0000
    ensures ppn < 0x1000_0000_0000 ==> PteNew(ppn, flags) == ppn * 1024 + flags
  {
    var q, s := ppn / 0x40_0000_0000_0000, ppn % 0x40_0000_0000_0000;
    Euclid(ppn * 1024, 0x1_0000_0000_0000_0000, q, s * 1024);
    assert PteNew(ppn, flags) == s * 1024 + flags;
    hide PteNew;
    Euclid(s * 1024 + flags, 1024, s, flags);
    Euclid(s * 1024 + flags, 256, s * 4, flags);
    var u, t := s / 0x1000_0000_0000, s % 0x1000_0000_0000;
    Euclid(ppn, 0x1000_0000_0000, q * 1024 + u, t);
  }

  /** Quotient and remainder are unique. */
  lemma Euclid(x: int, d: int, q: int, r: int)
    requires d > 0 && 0 <= r < d && x == q * d + r
    ensures x / d == q && x % d == r
  {
    var e := x / d - q;
    assert e * d == r - x % d;
    assert e >= 1 ==> e * d >= d;
    assert e <= -1 ==> e * d <= -d;
  }

  // ---------------------------------------------------------------- addresses

  /** The mask of `VirtAddr::from(usize)`. */
  function VirtAddr(a: nat): nat {
    a % 0x80_0000_0000
  }

  /** The mask of `PhysAddr::from(usize)`. */
  function PhysAddr(a: nat): nat {
    a % 0x100_0000_0000_0000
  }

  function Floor(a: nat): nat {
    a / 4096
  }

  /** `ceil`: the checked subtraction panics on address zero, the checked addition near 2^64. */
  function Ceil(a: nat): (r: Option<nat>)
    ensures r.Some? <==> 0 < a <= 0xffff_ffff_ffff_f000
    ensures r.Some? ==> a <= r.value * 4096 < a + 4096
  {
    if a == 0 || a - 1 + 4096 >= 0x1_0000_0000_0000_0000 then None else Some((a - 1 + 4096) / 4096)
  }

  /** The page number that a table lookup really uses: `indexes` keeps 27 bits. */
  function Key(vpn: nat): nat {
    vpn % 0x800_0000
  }

  function Index(vpn: nat, level: nat): (i: nat)
    requires level < 3
    ensures i < 512
  {
    if level == 0 then vpn / 0x4_0000 % 512 else if level == 1 then vpn / 512 % 512 else vpn % 512
  }

  /** `VirtPageNum::indexes`: most significant index first; together they are the low 27 bits. */
  method Indexes(vpn: nat) returns (idx: seq<nat>)
    ensures |idx| == 3
    ensures forall i :: 0 <= i < 3 ==> idx[i] == Index(vpn, i)
    ensures idx[0] == vpn / 0x4_0000 % 512 && idx[1] == vpn / 512 % 512 && idx[2] == vpn % 512
    ensures idx[0] * 0x4_0000 + idx[1] * 512 + idx[2] == Key(vpn)
  {
    idx := [0, 0, 0];
    var rest := vpn;
    for i := 3 downto 0
      invariant |idx| == 3
      invariant rest == if i == 3 then vpn else if i == 2 then vpn / 512 else if i == 1 then vpn / 0x4_0000 else vpn / 0x800_0000
      invariant forall k :: i <= k < 3 ==> idx[k] == Index(vpn, k)
    {
      idx := idx[i := rest % 512];
      rest := rest / 512;
    }
    KeySplits(vpn);
  }

  /** The three indexes of a page number, and the two prefixes that name its tables. */
  lemma KeySplits(vpn: nat)
    ensures Key(vpn) < 0x800_0000
    ensures Key(vpn) / 0x4_0000 == Index(vpn, 0)
    ensures Key(vpn) / 512 == Index(vpn, 0) * 512 + Index(vpn, 1)
    ensures Key(vpn) / 512 / 512 == Index(vpn, 0)
    ensures Key(vpn) / 512 < 0x4_0000
    ensures Key(vpn) == Key(vpn) / 512 * 512 + Index(vpn, 2)
    ensures Index(vpn, 0) * 0x4_0000 + Index(vpn, 1) * 512 + Index(vpn, 2) == Key(vpn)
  {
    var q, k := vpn / 0x800_0000, Key(vpn);
    var a, b, c := k / 0x4_0000, k / 512 % 512, k % 512;
    Euclid(k / 512, 512, a, b);
    Euclid(vpn, 512, q * 0x4_0000 + a * 512 + b, c);
    Euclid(vpn / 512, 512, q * 512 + a, b);
    Euclid(vpn, 0x4_0000, q * 512 + a, b * 512 + c);
    Euclid(q * 512 + a, 512, q, a);
  }

  // ---------------------------------------------------------------- bytes of a word

  function Pow256(n: nat): (p: nat)
    ensures p >= 1
  {
    if n == 0 then 1 else 256 * Pow256(n - 1)
  }

  /** Byte k of a word, least significant first (the machine is little-endian). */
  function ByteOf(w: nat, k: nat): nat {
    if k == 0 then w % 256 else ByteOf(w / 256, k - 1)
  }

  function SetByte(w: nat, k: nat, b: nat): nat
    requires b < 256
  {
    if k == 0 then w / 256 * 256 + b else SetByte(w / 256, k - 1, b) * 256 + w % 256
  }

  /** Writing byte k changes byte k alone and keeps the word in range. */
  lemma {:induction false} SetByteReads(w: nat, k: nat, b: nat, n: nat, j: nat)
    requires b < 256 && k < n && w < Pow256(n)
    ensures SetByte(w, k, b) < Pow256(n)
    ensures ByteOf(SetByte(w, k, b), j) == if j == k then b else ByteOf(w, j)
  {
    assert Pow256(n) == 256 * Pow256(n - 1);
    if k == 0 {
      assert (w / 256 * 256 + b) / 256 == w / 256;
    } else {
      var u := SetByte(w / 256, k - 1, b);
      SetByteReads(w / 256, k - 1, b, n - 1, if j == 0 then 0 else j - 1);
      assert (u * 256 + w % 256) / 256 == u;
    }
  }

  /** A word is determined by its bytes: it is zero when all of them are. */
  lemma {:induction false} ZeroBytes(w: nat, n: nat)
    requires w < Pow256(n)
    requires forall k :: 0 <= k < n ==> ByteOf(w, k) == 0
    ensures w == 0
  {
    if n > 0 {
      assert ByteOf(w, 0) == 0;
      forall k | 0 <= k < n - 1 ensures ByteOf(w / 256, k) == 0 {
        assert ByteOf(w, k + 1) == 0;
      }
      ZeroBytes(w / 256, n - 1);
    }
  }

  lemma {:induction false} BytesOfZero(k: nat)
    ensures ByteOf(0, k) == 0
  {
    if k > 0 { BytesOfZero(k - 1); }
  }

  lemma WordIsEightBytes()
    ensures Pow256(8) == 0x1_0000_0000_0000_0000
  {
    assert Pow256(2) == 0x1_0000;
    assert Pow256(4) == 256 * (256 * Pow256(2));
    assert Pow256(6) == 256 * (256 * Pow256(4));
    assert Pow256(8) == 256 * (256 * Pow256(6));
  }
}
