/** Bytes of machine words and pages, and the kernel's block copy. */
module Bytes {
  import opened Mmu
  import opened PageTable

  type byte = b: int | 0 <= b < 256

  /** The little-endian number a sequence of bytes spells. */
  function Number(bs: seq<byte>): nat {
    if bs == [] then 0 else bs[0] + 256 * Number(bs[1..])
  }

  /** Byte `j` of a word. */
  function ByteOf(w: nat, j: nat): byte {
    if j == 0 then w % 256 else ByteOf(w / 256, j - 1)
  }

  lemma {:induction false} ByteOfNumber(bs: seq<byte>, j: nat)
    requires j < |bs|
    ensures ByteOf(Number(bs), j) == bs[j]
  {
    assert Number(bs) % 256 == bs[0] && Number(bs) / 256 == Number(bs[1..]);
    if j > 0 {
      ByteOfNumber(bs[1..], j - 1);
    }
  }

  /** Byte `k` of a page. */
  function PageByte(f: Frame, k: nat): byte
    requires k < BY2PG
  {
    ByteOf(f[k / 8], k % 8)
  }

  /** Byte `k` of `bs` padded with zeros. */
  function Padded(bs: seq<byte>, k: nat): byte {
    if k < |bs| then bs[k] else 0
  }

  /** The bytes of word `i` of `bs` padded with zeros. */
  function WordBytes(bs: seq<byte>, i: nat): (w: seq<byte>)
    ensures |w| == 8 && forall j :: 0 <= j < 8 ==> w[j] == Padded(bs, 8 * i + j)
  {
    seq<byte>(8, j requires 0 <= j => Padded(bs, 8 * i + j))
  }

  function PaddedWord(bs: seq<byte>, i: nat): nat {
    Number(WordBytes(bs, i))
  }

  /** The page that starts with `bs` and is zero after it. */
  function PageOf(bs: seq<byte>): Frame {
    seq(ENTRIES, i requires 0 <= i => PaddedWord(bs, i))
  }

  lemma PageOfBytes(bs: seq<byte>, k: nat)
    requires k < BY2PG
    ensures PageByte(PageOf(bs), k) == Padded(bs, k)
  {
    var i, j := k / 8, k % 8;
    ByteOfNumber(WordBytes(bs, i), j);
    assert 8 * i + j == k;
  }

  /** A word beyond the given bytes is zero. */
  lemma PaddedWordBeyond(bs: seq<byte>, i: nat)
    requires |bs| <= 8 * i
    ensures PaddedWord(bs, i) == 0
  {
    NumberOfZeros(WordBytes(bs, i));
  }

  lemma {:induction false} NumberOfZeros(bs: seq<byte>)
    requires forall j :: 0 <= j < |bs| ==> bs[j] == 0
    ensures Number(bs) == 0
  {
    if bs != [] {
      NumberOfZeros(bs[1..]);
    }
  }

  /** `bcopy` and `user_bcopy` between separate buffers: four bytes at a time, then one by one. */
  method Bcopy(src: array<byte>, from: nat, dst: array<byte>, to: nat, len: nat)
    requires src != dst && from + len <= src.Length && to + len <= dst.Length
    modifies dst
    ensures dst[to..to + len] == src[from..from + len]
    ensures forall k :: 0 <= k < dst.Length && !(to <= k < to + len) ==> dst[k] == old(dst[k])
  {
    var i := 0;
    while i + 3 < len
      invariant i <= len
      invariant forall k :: to <= k < to + i ==> dst[k] == src[from + (k - to)]
      invariant forall k :: 0 <= k < dst.Length && !(to <= k < to + i) ==> dst[k] == old(dst[k])
    {
      dst[to + i], dst[to + i + 1], dst[to + i + 2], dst[to + i + 3] :=
        src[from + i], src[from + i + 1], src[from + i + 2], src[from + i + 3];
      i := i + 4;
    }
    while i < len
      invariant i <= len
      invariant forall k :: to <= k < to + i ==> dst[k] == src[from + (k - to)]
      invariant forall k :: 0 <= k < dst.Length && !(to <= k < to + i) ==> dst[k] == old(dst[k])
    {
      dst[to + i] := src[from + i];
      i := i + 1;
    }
  }

  /**
   The bytes of a page that was zeroed and then filled by `bcopy` are those of `PageOf`, the page that
   the loader's word-by-word copy makes.
   */
  method BcopyOntoZeroPage(src: array<byte>, from: nat, len: nat) returns (page: array<byte>)
    requires from + len <= src.Length && len <= BY2PG
    ensures fresh(page) && page.Length == BY2PG
    ensures forall k: nat :: k < BY2PG ==> page[k] == PageByte(PageOf(src[from..from + len]), k)
  {
    page := new byte[BY2PG](_ => 0);
    Bcopy(src, from, page, 0, len);
    forall k: nat | k < BY2PG
      ensures page[k] == PageByte(PageOf(src[from..from + len]), k)
    {
      PageOfBytes(src[from..from + len], k);
      assert k < len ==> page[0..0 + len][k] == page[k];
    }
  }
}
