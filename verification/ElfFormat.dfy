/**
 The layout of an ELF-64 file (System V ABI, chapters 4 and 5): the fields of the file header and of a
 program header one after another, and that the loader reads each of them where it stands.
 */
module ElfFormat {
  import opened Mmu
  import opened Bytes
  import opened Elf

  /** A field of `size` bytes. */
  datatype Item = Item(value: nat, size: nat)

  /** The little-endian bytes of a number. */
  function Little(n: nat, size: nat): (s: seq<byte>)
    ensures |s| == size
  {
    if size == 0 then [] else [n % 256] + Little(n / 256, size - 1)
  }

  predicate Fits(n: nat, size: nat) {
    if size == 0 then n == 0 else Fits(n / 256, size - 1)
  }

  /** The items stand in the file one after another, from `at` on. */
  predicate Laid(file: seq<byte>, at: nat, items: seq<Item>)
    decreases |items|
  {
    items == [] ||
    (at + items[0].size <= |file| && Fits(items[0].value, items[0].size) &&
      file[at..at + items[0].size] == Little(items[0].value, items[0].size) &&
      Laid(file, at + items[0].size, items[1..]))
  }

  /** A field that holds the bytes of a number reads as that number. */
  lemma {:induction false} FieldOfLittle(file: seq<byte>, at: nat, n: nat, size: nat)
    requires at + size <= |file| && Fits(n, size) && file[at..at + size] == Little(n, size)
    ensures Field(file, at, size) == n
    decreases size
  {
    if size > 0 {
      assert file[at] == file[at..at + size][0] == n % 256;
      assert file[at + 1..at + size] == file[at..at + size][1..] == Little(n / 256, size - 1);
      FieldOfLittle(file, at + 1, n / 256, size - 1);
    }
  }

  /** The bytes before item `k`. */
  function OffsetOf(items: seq<Item>, k: nat): nat
    requires k <= |items|
  {
    if k == 0 then 0 else OffsetOf(items, k - 1) + items[k - 1].size
  }

  lemma {:induction false} LaidRest(file: seq<byte>, at: nat, items: seq<Item>, k: nat)
    requires Laid(file, at, items) && k <= |items|
    ensures Laid(file, at + OffsetOf(items, k), items[k..])
  {
    if k == 0 {
      assert items[0..] == items;
    } else {
      LaidRest(file, at, items, k - 1);
      assert items[k - 1..][1..] == items[k..];
    }
  }

  /** Item `k` read at its offset. */
  lemma ItemRead(file: seq<byte>, at: nat, items: seq<Item>, k: nat, offset: nat)
    requires Laid(file, at, items) && k < |items| && offset == OffsetOf(items, k)
    ensures at + offset + items[k].size <= |file| && Field(file, at + offset, items[k].size) == items[k].value
  {
    LaidRest(file, at, items, k);
    FieldOfLittle(file, at + offset, items[k].value, items[k].size);
  }

  /** An `Elf64_Phdr`. */
  function PhdrItems(ph: Phdr, flags: nat, paddr: nat, align: nat): seq<Item> {
    [Item(ph.ptype, 4), Item(flags, 4), Item(ph.offset, 8), Item(ph.vaddr, 8), Item(paddr, 8), Item(ph.filesz, 8),
     Item(ph.memsz, 8), Item(align, 8)]
  }

  lemma PhdrOffsets(items: seq<Item>, ph: Phdr, flags: nat, paddr: nat, align: nat)
    requires items == PhdrItems(ph, flags, paddr, align)
    ensures OffsetOf(items, 0) == 0 && OffsetOf(items, 2) == 8 && OffsetOf(items, 3) == 16
    ensures OffsetOf(items, 5) == 32 && OffsetOf(items, 6) == 40
  {
    assert OffsetOf(items, 1) == 4;
    assert OffsetOf(items, 2) == 8;
    assert OffsetOf(items, 3) == 16;
    assert OffsetOf(items, 4) == 24;
    assert OffsetOf(items, 5) == 32;
  }

  /** The loader reads a program header back as it was laid out. */
  lemma HeaderRoundTrip(file: seq<byte>, k: nat, ph: Phdr, flags: nat, paddr: nat, align: nat)
    requires Complete(file) && k < HeaderCount(file)
    requires Laid(file, HeaderAt(file, k), PhdrItems(ph, flags, paddr, align))
    ensures Header(file, k) == ph
  {
    var at, items := HeaderAt(file, k), PhdrItems(ph, flags, paddr, align);
    PhdrOffsets(items, ph, flags, paddr, align);
    ItemRead(file, at, items, 0, 0);
    ItemRead(file, at, items, 2, 8);
    ItemRead(file, at, items, 3, 16);
    ItemRead(file, at, items, 5, 32);
    ItemRead(file, at, items, 6, 40);
  }

  /** What the loader uses of an `Elf64_Ehdr`. */
  datatype Ehdr = Ehdr(entry: nat, phoff: nat, phentsize: nat, phnum: nat)

  /** An `Elf64_Ehdr`: the magic, and in `x` the fields that the loader does not read. */
  function EhdrItems(h: Ehdr, x: seq<nat>): (items: seq<Item>)
    requires |x| == 11
    ensures |items| == 16
  {
    [Item(0x464C_457F, 4), Item(x[0], 4), Item(x[1], 8), Item(x[2], 2), Item(x[3], 2), Item(x[4], 4),
     Item(h.entry, 8), Item(h.phoff, 8), Item(x[5], 8), Item(x[6], 4), Item(x[7], 2),
     Item(h.phentsize, 2), Item(h.phnum, 2), Item(x[8], 2), Item(x[9], 2), Item(x[10], 2)]
  }

  lemma EhdrOffsets(items: seq<Item>, h: Ehdr, x: seq<nat>)
    requires |x| == 11 && items == EhdrItems(h, x)
    ensures OffsetOf(items, 0) == 0 && OffsetOf(items, 6) == 24 && OffsetOf(items, 7) == 32
    ensures OffsetOf(items, 11) == 54 && OffsetOf(items, 12) == 56 && OffsetOf(items, 15) == 62
  {
    assert OffsetOf(items, 1) == 4;
    assert OffsetOf(items, 2) == 8;
    assert OffsetOf(items, 3) == 16;
    assert OffsetOf(items, 4) == 18;
    assert OffsetOf(items, 5) == 20;
    assert OffsetOf(items, 6) == 24;
    assert OffsetOf(items, 7) == 32;
    assert OffsetOf(items, 8) == 40;
    assert OffsetOf(items, 9) == 48;
    assert OffsetOf(items, 10) == 52;
    assert OffsetOf(items, 11) == 54;
    assert OffsetOf(items, 12) == 56;
    assert OffsetOf(items, 13) == 58;
    assert OffsetOf(items, 14) == 60;
  }

  lemma MagicRead(file: seq<byte>, n: nat)
    requires |file| >= 4 && n == 0x464C_457F && file[0..4] == Little(n, 4)
    ensures IsElf(file)
  {
    var a, b, c := n / 256, n / 256 / 256, n / 256 / 256 / 256;
    assert Little(n, 4) == [n % 256] + ([a % 256] + ([b % 256] + Little(c, 1)));
    assert Little(c, 1) == [c % 256] + Little(c / 256, 0);
    assert file[0] == file[0..4][0] && file[1] == file[0..4][1] && file[2] == file[0..4][2] && file[3] == file[0..4][3];
  }

  /** `is_elf_format` accepts exactly the files that begin with the magic, and `load_elf` none shorter than it. */
  lemma MagicIff(file: seq<byte>)
    ensures IsElf(file) <==> |file| >= 4 && file[0] == 127 && file[1] == 69 && file[2] == 76 && file[3] == 70
    ensures IsElf(file) <==> |file| >= 4 && Field(file, 0, 4) == 0x464C_457F
  {
    if |file| >= 4 {
      assert Field(file, 0, 4) == file[0] + 256 * Field(file, 1, 3);
      assert Field(file, 1, 3) == file[1] + 256 * Field(file, 2, 2);
      assert Field(file, 2, 2) == file[2] + 256 * Field(file, 3, 1);
      assert Field(file, 3, 1) == file[3];
    }
  }

  lemma {:induction false} HeaderAtIs(file: seq<byte>, k: nat)
    requires |file| >= EHDR_SIZE
    ensures HeaderAt(file, k) == Field(file, 32, 8) + k * Field(file, 54, 2)
  {
    if k > 0 {
      HeaderAtIs(file, k - 1);
      var size := Field(file, 54, 2);
      assert k * size == (k - 1) * size + size;
    }
  }

  lemma EhdrFields(file: seq<byte>, items: seq<Item>, h: Ehdr, x: seq<nat>)
    requires |x| == 11 && items == EhdrItems(h, x) && Laid(file, 0, items)
    ensures |file| >= 64 && Field(file, 24, 8) == h.entry && Field(file, 32, 8) == h.phoff
    ensures Field(file, 54, 2) == h.phentsize && Field(file, 56, 2) == h.phnum
  {
    EhdrOffsets(items, h, x);
    ItemRead(file, 0, items, 6, 24);
    ItemRead(file, 0, items, 7, 32);
    ItemRead(file, 0, items, 11, 54);
    ItemRead(file, 0, items, 12, 56);
    ItemRead(file, 0, items, 15, 62);
  }

  /** A file header read back: the magic, the entry point, and the table of program headers. */
  lemma FileHeaderRoundTrip(file: seq<byte>, h: Ehdr, x: seq<nat>, k: nat)
    requires |x| == 11 && Laid(file, 0, EhdrItems(h, x))
    ensures |file| >= EHDR_SIZE && IsElf(file) && Field(file, 24, 8) == h.entry
    ensures HeaderCount(file) == h.phnum && HeaderAt(file, k) == h.phoff + k * h.phentsize
  {
    EhdrFields(file, EhdrItems(h, x), h, x);
    MagicRead(file, 0x464C_457F);
    HeaderAtIs(file, k);
  }
}
