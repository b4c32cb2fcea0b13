/**
 The address and page-table-entry arithmetic of the kernel: the shift-and-mask macros that
 split a virtual address, the entry format, and the OR that assembles an entry.  Machine
 words are natural numbers; a mask of low bits is `%`, a shift is `/` or `*`.
 */
module Mmu {
  const BY2PG: nat := 4096
  const NPAGE: nat := 0x20000
  const ENTRIES: nat := 512
  const VPNS: nat := 0x1000_0000  // a 40-bit address has a 28-bit page number

  const PTE_V: nat := 0x3
  const ATTRIB_AP_RW_ALL: nat := 0x40
  const ATTRIB_AP_RO_ALL: nat := 0xC0
  const ATTRIB_SH_INNER_SHAREABLE: nat := 0x300
  const AF: nat := 0x400
  const UXN: nat := 0x40_0000_0000_0000

  // ---- the fields of a virtual address ----

  function PGX(va: nat): (i: nat)
    ensures i < 2
  {
    va / 0x80_0000_0000 % 2
  }

  function PDX(va: nat): (i: nat)
    ensures i < ENTRIES
  {
    va / 0x4000_0000 % 512
  }

  function PMX(va: nat): (i: nat)
    ensures i < ENTRIES
  {
    va / 0x20_0000 % 512
  }

  function PTX(va: nat): (i: nat)
    ensures i < ENTRIES
  {
    va / 0x1000 % 512
  }

  function VPN(va: nat): (n: nat)
    ensures n < VPNS
  {
    va % 0x100_0000_0000 / 0x1000
  }

  /** Dividing by a product is dividing twice. */
  lemma DivModSplit(a: nat, b: nat, p: nat)
    requires b >= 1 && p >= 1
    ensures b * p >= 1
    ensures a / (b * p) == a / b / p
    ensures a % (b * p) == b * (a / b % p) + a % b
  {
    MulAtLeast(b, 1, p);
    var h, x := a / b, a % b;
    TwoDivisions(a, b, p, h, x, h / p, h % p);
  }

  lemma TwoDivisions(a: nat, b: nat, p: nat, h: nat, x: nat, q: nat, r: nat)
    requires a == b * h + x && x < b && h == p * q + r && r < p && b * p >= 1
    ensures a / (b * p) == q && a % (b * p) == b * r + x
  {
    RemainderFits(b, p, r, x);
    Regroup(b, p, q, r);
    DivModUnique(a, b * p, q, b * r + x);
  }

  lemma RemainderFits(b: nat, p: nat, r: nat, x: nat)
    requires x < b && r < p
    ensures b * r + x < b * p
  {
    MulAtLeast(b, r + 1, p);
    MulAdds(b, r, 1);
  }

  lemma Regroup(b: nat, p: nat, q: nat, r: nat)
    ensures b * (p * q + r) == (b * p) * q + b * r
  {
    MulAdds(b, p * q, r);
    assert b * (p * q) == (b * p) * q;
  }

  lemma MulAdds(d: nat, x: nat, y: nat)
    ensures d * (x + y) == d * x + d * y
  {
  }

  lemma DivModUnique(a: nat, d: nat, q: nat, r: nat)
    requires a == d * q + r && r < d
    ensures a / d == q && a % d == r
  {
    var q', r' := a / d, a % d;
    assert a == d * q' + r';
    if q' < q {
      MulAtLeast(d, q' + 1, q);
    } else if q < q' {
      MulAtLeast(d, q + 1, q');
    }
  }

  lemma MulAtLeast(d: nat, x: nat, y: nat)
    requires x <= y
    ensures d * x <= d * y
  {
    assert d * y == d * x + d * (y - x);
  }

  /** The page number is the four indices read as one mixed-radix number. */
  lemma VpnIsItsIndices(va: nat)
    ensures VPN(va) == ((PGX(va) * 512 + PDX(va)) * 512 + PMX(va)) * 512 + PTX(va)
  {
    DivModSplit(va, 0x1000, 0x1000_0000);
    DivModSplit(va / 0x1000, 512, 0x8_0000);
    DivModSplit(va / 0x20_0000, 512, 0x400);
    DivModSplit(va / 0x4000_0000, 512, 2);
    DivModSplit(va, 0x1000, 512);
    DivModSplit(va, 0x20_0000, 512);
    DivModSplit(va, 0x4000_0000, 512);
  }

  /** So two addresses take the same path through the tables exactly when they lie in the same page. */
  lemma SamePathIffSamePage(a: nat, b: nat)
    ensures VPN(a) == VPN(b) <==> PGX(a) == PGX(b) && PDX(a) == PDX(b) && PMX(a) == PMX(b) && PTX(a) == PTX(b)
  {
    VpnIsItsIndices(a);
    VpnIsItsIndices(b);
  }

  lemma VpnOfPage(n: nat)
    requires n < VPNS
    ensures VPN(n * BY2PG) == n
  {
  }

  // ---- entries ----

  predicate Present(w: nat) {
    w % 4 != 0
  }

  /** `PTE_ADDR(w) >> PGSHIFT`: the frame an entry names. */
  function FrameOf(w: nat): nat {
    w / 0x1000 % 0x1000_0000
  }

  /** The bitwise OR of two words. */
  function BitOr(a: nat, b: nat): nat {
    if a == 0 then b
    else if b == 0 then a
    else 2 * BitOr(a / 2, b / 2) + (if a % 2 == 1 || b % 2 == 1 then 1 else 0)
  }

  lemma BitOrUnfold(a: nat, b: nat)
    ensures BitOr(a, b) / 2 == BitOr(a / 2, b / 2)
    ensures BitOr(a, b) % 2 == if a % 2 == 1 || b % 2 == 1 then 1 else 0
  {
  }

  function Pow2(k: nat): (p: nat)
    ensures p >= 1
  {
    if k == 0 then 1 else 2 * Pow2(k - 1)
  }

  /** OR works on the high bits and the low bits separately. */
  lemma {:induction false} BitOrHigh(k: nat, a: nat, b: nat, h: nat, g: nat)
    requires h == a / Pow2(k) && g == b / Pow2(k)
    ensures BitOr(a, b) / Pow2(k) == BitOr(h, g)
    decreases k
  {
    if k > 0 {
      var p, c, d := Pow2(k - 1), BitOr(a, b), BitOr(a / 2, b / 2);
      assert c / 2 == d by { BitOrUnfold(a, b); }
      DivTwice(a, p);
      DivTwice(b, p);
      assert d / p == BitOr(h, g) by { BitOrHigh(k - 1, a / 2, b / 2, h, g); }
      DivTwice(c, p);
    }
  }

  lemma {:induction false} BitOrLow(k: nat, a: nat, b: nat)
    ensures BitOr(a, b) % Pow2(k) == BitOr(a % Pow2(k), b % Pow2(k))
    decreases k
  {
    if k > 0 {
      var p := Pow2(k - 1);
      BitOrLow(k - 1, a / 2, b / 2);
      ModTwice(a, p);
      ModTwice(b, p);
      ModTwice(BitOr(a, b), p);
      BitOrUnfold(a, b);
      BitOrOfBits(a / 2 % p, a % 2, b / 2 % p, b % 2);
    }
  }

  /** Bit `k` of a word. */
  function Bit(w: nat, k: nat): nat {
    if k == 0 then w % 2 else Bit(w / 2, k - 1)
  }

  /** An entry is present if bit 0 or bit 1 is set. */
  lemma PresentIff(w: nat)
    ensures Present(w) <==> Bit(w, 0) == 1 || Bit(w, 1) == 1
  {
    assert Bit(w, 1) == w / 2 % 2;
  }

  /** Each bit of an OR is set exactly if it is set in one of the two words. */
  lemma {:induction false} BitOrIsBitwise(a: nat, b: nat, k: nat)
    ensures Bit(BitOr(a, b), k) == if Bit(a, k) == 1 || Bit(b, k) == 1 then 1 else 0
  {
    BitOrUnfold(a, b);
    if k > 0 {
      BitOrIsBitwise(a / 2, b / 2, k - 1);
    }
  }

  lemma DivTwice(a: nat, p: nat)
    requires p >= 1
    ensures a / (2 * p) == a / 2 / p
  {
    DivModSplit(a, 2, p);
  }

  lemma ModTwice(a: nat, p: nat)
    requires p >= 1
    ensures a % (2 * p) == 2 * (a / 2 % p) + a % 2
  {
    DivModSplit(a, 2, p);
  }

  lemma BitOrOfBits(h: nat, x: nat, g: nat, y: nat)
    requires x < 2 && y < 2
    ensures BitOr(2 * h + x, 2 * g + y) == 2 * BitOr(h, g) + (if x == 1 || y == 1 then 1 else 0)
  {
    BitOrUnfold(2 * h + x, 2 * g + y);
  }

  /** The flags `page_insert` adds to the caller's `perm`. */
  function LeafFlags(perm: nat): nat {
    BitOr(BitOr(BitOr(perm, PTE_V), ATTRIB_SH_INNER_SHAREABLE), AF)
  }

  /** The entry `page_insert` writes: `PTE_ADDR(page2pa(pp)) | PERM`. */
  function LeafEntry(pp: nat, perm: nat): nat {
    BitOr(pp % VPNS * BY2PG, LeafFlags(perm))
  }

  /** The entry `pgdir_walk` writes for a new table: `page2pa(pp) | PTE_V`. */
  function TableEntry(pp: nat): nat {
    BitOr(pp * BY2PG, PTE_V)
  }

  lemma Pow2Values()
    ensures Pow2(2) == 4 && Pow2(12) == BY2PG && Pow2(20) == 0x10_0000
  {
    assert Pow2(8) == 256;
    assert Pow2(16) == 65536;
  }

  /** OR acts on the frame field and the flag field of two entries separately. */
  lemma BitOrOfFrames(a: nat, b: nat, h: nat, g: nat)
    requires h == a / BY2PG && g == b / BY2PG
    ensures BitOr(a, b) / BY2PG == BitOr(h, g)
  {
    Pow2Values();
    BitOrHigh(12, a, b, h, g);
  }

  /** A flag below bit 12 leaves the frame field alone. */
  lemma LowFlagsKeepHigh(w: nat, flags: nat)
    requires flags < BY2PG
    ensures BitOr(w, flags) / BY2PG == w / BY2PG
  {
    BitOrOfFrames(w, flags, w / BY2PG, 0);
  }

  lemma OrKeepsPresent(a: nat, b: nat)
    requires Present(a) || Present(b)
    ensures Present(BitOr(a, b))
  {
    Pow2Values();
    BitOrLow(2, a, b);
  }

  lemma TableEntryNamesTable(pp: nat)
    requires pp < NPAGE
    ensures TableEntry(pp) == pp * BY2PG + 3
    ensures Present(TableEntry(pp)) && FrameOf(TableEntry(pp)) == pp
  {
    LowFlagsAdd(pp, PTE_V);
  }

  lemma LowFlagsAdd(pp: nat, flags: nat)
    requires flags < BY2PG
    ensures BitOr(pp * BY2PG, flags) == pp * BY2PG + flags
  {
    Pow2Values();
    BitOrOfFields(12, BY2PG, pp, 0, 0, flags);
  }

  lemma LeafFlagsAreLow(perm: nat)
    ensures Present(LeafFlags(perm))
    ensures LeafFlags(perm) / BY2PG == perm / BY2PG
  {
    var p0 := BitOr(perm, PTE_V);
    var p1 := BitOr(p0, ATTRIB_SH_INNER_SHAREABLE);
    assert Present(p0) && p0 / BY2PG == perm / BY2PG by {
      OrKeepsPresent(perm, PTE_V);
      LowFlagsKeepHigh(perm, PTE_V);
    }
    assert Present(p1) && p1 / BY2PG == p0 / BY2PG by {
      OrKeepsPresent(p0, ATTRIB_SH_INNER_SHAREABLE);
      LowFlagsKeepHigh(p0, ATTRIB_SH_INNER_SHAREABLE);
    }
    OrKeepsPresent(p1, AF);
    LowFlagsKeepHigh(p1, AF);
  }

  lemma LeafEntryHigh(pp: nat, perm: nat)
    requires pp < NPAGE
    ensures Present(LeafEntry(pp, perm))
    ensures LeafEntry(pp, perm) / BY2PG == BitOr(pp, perm / BY2PG)
  {
    LeafFlagsAreLow(perm);
    FrameAndFlags(pp, LeafFlags(perm));
  }

  lemma FrameAndFlags(pp: nat, flags: nat)
    requires pp < NPAGE && Present(flags)
    ensures Present(BitOr(pp % VPNS * BY2PG, flags))
    ensures BitOr(pp % VPNS * BY2PG, flags) / BY2PG == BitOr(pp, flags / BY2PG)
  {
    var w := pp * BY2PG;
    assert pp % VPNS * BY2PG == w;
    OrKeepsPresent(w, flags);
    BitOrOfFrames(w, flags, pp, flags / BY2PG);
  }

  /**
   A leaf entry is always present, and it names the frame it was made for exactly when
   `perm` has no bit above the flag field outside the frame number itself.
   */
  lemma LeafEntryNamesFrame(pp: nat, perm: nat)
    requires pp < NPAGE && perm < 0x1_0000_0000
    ensures Present(LeafEntry(pp, perm))
    ensures FrameOf(LeafEntry(pp, perm)) == pp <==> BitOr(pp, perm / BY2PG) == pp
    ensures perm < BY2PG ==> FrameOf(LeafEntry(pp, perm)) == pp
  {
    var high := perm / BY2PG;
    LeafEntryHigh(pp, perm);
    assert BitOr(pp, high) < VPNS by {
      Pow2Values();
      OrBelow(20, pp, high);
    }
  }

  /** OR is associative, so the flags can be gathered into one mask. */
  lemma {:induction false} BitOrAssoc(a: nat, b: nat, c: nat)
    ensures BitOr(BitOr(a, b), c) == BitOr(a, BitOr(b, c))
  {
    if a != 0 && b != 0 && c != 0 {
      BitOrAssoc(a / 2, b / 2, c / 2);
      BitOrUnfold(a, b);
      BitOrUnfold(b, c);
    }
  }

  /** OR of two words given by their fields above and below bit `k`. */
  lemma BitOrOfFields(k: nat, p: nat, h: nat, x: nat, g: nat, y: nat)
    requires p == Pow2(k) && x < p && y < p
    ensures BitOr(p * h + x, p * g + y) == p * BitOr(h, g) + BitOr(x, y)
  {
    var a, b := p * h + x, p * g + y;
    assert a / p == h && a % p == x by { DivModUnique(a, p, h, x); }
    assert b / p == g && b % p == y by { DivModUnique(b, p, g, y); }
    FieldsOfOr(k, p, a, b, h, x, g, y);
  }

  lemma FieldsOfOr(k: nat, p: nat, a: nat, b: nat, h: nat, x: nat, g: nat, y: nat)
    requires p == Pow2(k) && h == a / p && x == a % p && g == b / p && y == b % p
    ensures BitOr(a, b) == p * BitOr(h, g) + BitOr(x, y)
  {
    BitOrHigh(k, a, b, h, g);
    BitOrLow(k, a, b);
    DivModBack(BitOr(a, b), p, BitOr(h, g), BitOr(x, y));
  }

  lemma DivModBack(c: nat, p: nat, q: nat, r: nat)
    requires p >= 1 && c / p == q && c % p == r
    ensures c == p * q + r
  {
  }

  /** What `page_insert` adds to `perm` is 0x703: valid, inner shareable, accessed. */
  lemma LeafFlagsAdd(perm: nat)
    ensures LeafFlags(perm) == BitOr(perm, 0x703)
  {
    MaskOfLeaf(ATTRIB_SH_INNER_SHAREABLE, AF);
    assert BitOr(PTE_V, 0x700) == 0x703;
    BitOrAssoc(BitOr(perm, PTE_V), ATTRIB_SH_INNER_SHAREABLE, AF);
    BitOrAssoc(perm, PTE_V, 0x700);
  }

  lemma MaskOfLeaf(share: nat, accessed: nat)
    requires share == ATTRIB_SH_INNER_SHAREABLE && accessed == AF
    ensures BitOr(share, accessed) == 0x700
  {
    assert Pow2(8) == 0x100 && BitOr(3, 4) == 7;
    BitOrOfFields(8, 0x100, 3, 0, 4, 0);
  }

  /**
   Every bit of a leaf entry: from bit 12 up the frame and the caller's bits, below it the caller's bits
   and 0x703.
   */
  lemma LeafEntryFields(pp: nat, perm: nat)
    requires pp < NPAGE
    ensures LeafEntry(pp, perm) == BitOr(pp, perm / BY2PG) * BY2PG + BitOr(perm % BY2PG, 0x703)
  {
    LeafEntryHigh(pp, perm);
    LeafFlagsAdd(perm);
    LowBitsOfEntry(pp, BitOr(perm, 0x703));
    LowMask(perm);
  }

  lemma LowEntryFields(pp: nat, perm: nat)
    requires pp < NPAGE && perm < BY2PG
    ensures LeafEntry(pp, perm) == pp * BY2PG + BitOr(perm, 0x703)
  {
    LeafEntryFields(pp, perm);
  }

  lemma NoHighBits(pp: nat, perm: nat)
    requires perm < BY2PG
    ensures BitOr(pp, perm / BY2PG) == pp
  {
  }

  lemma LowMask(perm: nat)
    ensures BitOr(perm, 0x703) % BY2PG == BitOr(perm % BY2PG, 0x703)
  {
    Pow2Values();
    LowBits(12, BY2PG, perm, 0x703);
  }

  lemma LowBits(k: nat, p: nat, w: nat, mask: nat)
    requires p == Pow2(k) && mask < p
    ensures BitOr(w, mask) % p == BitOr(w % p, mask)
  {
    DivModUnique(mask, p, 0, mask);
    BitOrLow(k, w, mask);
  }

  lemma LowBitsOfEntry(pp: nat, flags: nat)
    ensures BitOr(pp % VPNS * BY2PG, flags) % BY2PG == flags % BY2PG
  {
    var w := pp % VPNS * BY2PG;
    assert w % BY2PG == 0;
    LowBitsOfOr(w, flags);
  }

  lemma LowBitsOfOr(w: nat, flags: nat)
    requires w % BY2PG == 0
    ensures BitOr(w, flags) % BY2PG == flags % BY2PG
  {
    Pow2Values();
    BitOrLow(12, w, flags);
  }

  /** The entries of user pages, as numbers. */
  lemma UserEntries(pp: nat)
    requires pp < NPAGE
    ensures LeafEntry(pp, ATTRIB_AP_RO_ALL) == pp * BY2PG + 0x7C3
    ensures LeafEntry(pp, ATTRIB_AP_RW_ALL) == pp * BY2PG + 0x743
  {
    LowEntryFields(pp, ATTRIB_AP_RO_ALL);
    LowEntryFields(pp, ATTRIB_AP_RW_ALL);
    AccessFlags();
  }

  lemma AccessFlags()
    ensures BitOr(ATTRIB_AP_RO_ALL, 0x703) == 0x7C3 && BitOr(ATTRIB_AP_RW_ALL, 0x703) == 0x743
  {
    BitOrOfFields(2, 4, 0x30, 0, 0, 3);
    BitOrOfFields(8, 0x100, 0, 0xC0, 7, 3);
    BitOrOfFields(2, 4, 0x10, 0, 0, 3);
    BitOrOfFields(8, 0x100, 0, 0x40, 7, 3);
  }

  /** OR stays within the width of its operands. */
  lemma OrBelow(k: nat, a: nat, b: nat)
    requires a < Pow2(k) && b < Pow2(k)
    ensures BitOr(a, b) < Pow2(k)
  {
    if k > 0 {
      BitOrUnfold(a, b);
      OrBelow(k - 1, a / 2, b / 2);
    }
  }

  lemma LowFlagOver(p: nat, flag: nat)
    requires p < BY2PG && flag < BY2PG
    ensures BitOr(p, flag) < BY2PG
  {
    Pow2Values();
    OrBelow(12, p, flag);
  }
}
