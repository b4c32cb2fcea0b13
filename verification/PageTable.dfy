/**
 Four-level page tables in one physical memory shared by any number of page directories,
 together with the frame allocator that feeds them, as values.  `PmState` is what the
 kernel keeps (frame contents, reference counts, free list) plus a record of which frame
 plays which table in which tree.
 */
module PageTable {
  import opened Options
  import opened Mmu

  type Frame = f: seq<nat> | |f| == ENTRIES witness seq(ENTRIES, _ => 0)
  type Memory = seq<Frame>

  /** What `bzero` makes of a page. */
  function ZeroFrame(): (z: Frame)
    ensures forall i :: 0 <= i < ENTRIES ==> z[i] == 0
  {
    seq(ENTRIES, _ => 0)
  }

  /** The indices a walk uses, one a level. */
  datatype Path = Path(g: nat, d: nat, m: nat, t: nat)

  ghost predicate InRange(p: Path) {
    p.g < ENTRIES && p.d < ENTRIES && p.m < ENTRIES && p.t < ENTRIES
  }

  function PathOf(va: nat): (p: Path)
    ensures InRange(p)
  {
    Path(PGX(va), PDX(va), PMX(va), PTX(va))
  }

  // ---- walking ----

  /** The frame that entry `i` of frame `f` points to. */
  function Next(mem: Memory, f: nat, i: nat): Option<nat>
    requires i < ENTRIES
  {
    if f < |mem| && Present(mem[f][i]) then Some(FrameOf(mem[f][i])) else None
  }

  /** The last-level table a walk without `create` reaches. */
  function LeafTable(mem: Memory, root: nat, p: Path): Option<nat>
    requires InRange(p)
  {
    var a := Next(mem, root, p.g);
    if a.None? then None
    else
      var b := Next(mem, a.value, p.d);
      if b.None? then None else Next(mem, b.value, p.m)
  }

  /** The valid leaf entry for a path, if there is one. */
  function Leaf(mem: Memory, root: nat, p: Path): Option<nat>
    requires InRange(p)
  {
    var t := LeafTable(mem, root, p);
    if t.Some? && t.value < |mem| && Present(mem[t.value][p.t]) then Some(mem[t.value][p.t]) else None
  }

  /** The valid leaf entry of page `n`. */
  function PageLeaf(mem: Memory, root: nat, n: nat): Option<nat> {
    Leaf(mem, root, PathOf(n * BY2PG))
  }

  /** `m` is the flat map of a page directory: its valid leaf entries by page number. */
  ghost predicate Describes(m: map<nat, nat>, mem: Memory, root: nat) {
    && (forall n: nat {:trigger PageLeaf(mem, root, n)} :: n < VPNS ==> (n in m <==> PageLeaf(mem, root, n).Some?))
    && (forall n: nat {:trigger PageLeaf(mem, root, n)} :: n < VPNS && n in m ==> Some(m[n]) == PageLeaf(mem, root, n))
    && (forall n :: n in m ==> n < VPNS)
  }

  lemma FlatMapExists(mem: Memory, root: nat)
    ensures exists m :: Describes(m, mem, root)
  {
    var m := map n: nat | 0 <= n < VPNS && PageLeaf(mem, root, n).Some? :: PageLeaf(mem, root, n).value;
    assert Describes(m, mem, root);
  }

  /** Only one map describes given leaf entries. */
  lemma FlatMapIs(m: map<nat, nat>, mem: Memory, root: nat)
    requires forall n: nat :: n < VPNS ==>
      (n in m <==> PageLeaf(mem, root, n).Some?) && (n in m ==> Some(m[n]) == PageLeaf(mem, root, n))
    requires forall n :: n in m ==> n < VPNS
    ensures AddressSpace(mem, root) == m
  {
    var a := AddressSpace(mem, root);
    forall n: nat | n < VPNS
      ensures n in a <==> n in m
      ensures n in a ==> a[n] == m[n]
    {
      assert n in m <==> PageLeaf(mem, root, n).Some?;
    }
    assert forall n :: n in a <==> n in m;
  }

  /** The address space of a page directory. */
  ghost function AddressSpace(mem: Memory, root: nat): (m: map<nat, nat>)
    ensures Describes(m, mem, root)
  {
    FlatMapExists(mem, root);
    var m :| Describes(m, mem, root);
    m
  }

  lemma SamePath(va: nat)
    ensures PathOf(VPN(va) * BY2PG) == PathOf(va)
  {
    VpnOfPage(VPN(va));
    SamePathIffSamePage(VPN(va) * BY2PG, va);
  }

  /** The flat map holds at the page number of `va` what a walk of `va` finds. */
  lemma AddressSpaceAt(mem: Memory, root: nat, va: nat)
    ensures VPN(va) in AddressSpace(mem, root) <==> Leaf(mem, root, PathOf(va)).Some?
    ensures VPN(va) in AddressSpace(mem, root) ==> AddressSpace(mem, root)[VPN(va)] == Leaf(mem, root, PathOf(va)).value
  {
    SamePath(va);
    assert PageLeaf(mem, root, VPN(va)) == Leaf(mem, root, PathOf(va));
  }

  // ---- ownership: which frame plays which table ----

  datatype Node =
    | Directory(root: nat)
    | PdeTable(root: nat, g: nat)
    | PmeTable(root: nat, g: nat, d: nat)
    | PteTable(root: nat, g: nat, d: nat, m: nat)

  type Owners = map<nat, Node>

  ghost function Child(n: Node, i: nat): Node
    requires !n.PteTable?
  {
    match n
    case Directory(r) => PdeTable(r, i)
    case PdeTable(r, g) => PmeTable(r, g, i)
    case PmeTable(r, g, d) => PteTable(r, g, d, i)
  }

  ghost predicate IsRoot(own: Owners, root: nat) {
    root in own && own[root] == Directory(root)
  }

  ghost predicate OwnedInside(mem: Memory, own: Owners) {
    forall f :: f in own ==> f < |mem|
  }

  /** Every present entry of a non-leaf table points to the one table that belongs there. */
  ghost predicate Linked(mem: Memory, own: Owners) {
    forall f, i :: f in own && 0 <= i < ENTRIES && !own[f].PteTable? && Next(mem, f, i).Some? ==>
      var t := Next(mem, f, i).value;
      t in own && own[t] == Child(own[f], i)
  }

  /** A walk from a directory reaches only the table of its own directory and path. */
  lemma WalkStaysInTree(mem: Memory, own: Owners, root: nat, p: Path)
    requires OwnedInside(mem, own) && Linked(mem, own) && IsRoot(own, root) && InRange(p)
    ensures var t := LeafTable(mem, root, p);
            t.Some? ==> t.value in own && own[t.value] == PteTable(root, p.g, p.d, p.m)
  {
  }

  /** Walks of different pages, or from different directories, never end in the same slot. */
  lemma WalksAreInjective(mem: Memory, own: Owners, r0: nat, va0: nat, r1: nat, va1: nat)
    requires OwnedInside(mem, own) && Linked(mem, own) && IsRoot(own, r0) && IsRoot(own, r1)
    requires LeafTable(mem, r0, PathOf(va0)).Some?
    requires LeafTable(mem, r0, PathOf(va0)) == LeafTable(mem, r1, PathOf(va1)) && PTX(va0) == PTX(va1)
    ensures r0 == r1 && VPN(va0) == VPN(va1)
  {
    WalkStaysInTree(mem, own, r0, PathOf(va0));
    WalkStaysInTree(mem, own, r1, PathOf(va1));
    SamePathIffSamePage(va0, va1);
  }

  // ---- writing entries ----

  function Store(mem: Memory, f: nat, i: nat, w: nat): (m: Memory)
    requires f < |mem| && i < ENTRIES
    ensures |m| == |mem|
  {
    mem[f := mem[f][i := w]]
  }

  /** Writing a slot of a last-level table changes the leaf of one path of one directory. */
  lemma StoreLeaf(mem: Memory, own: Owners, root: nat, p: Path, w: nat, r: nat, q: Path)
    requires OwnedInside(mem, own) && Linked(mem, own) && IsRoot(own, root) && IsRoot(own, r)
    requires InRange(p) && InRange(q) && LeafTable(mem, root, p).Some?
    ensures var m := Store(mem, LeafTable(mem, root, p).value, p.t, w);
            && LeafTable(m, r, q) == LeafTable(mem, r, q)
            && Leaf(m, r, q) == if r == root && p == q then (if Present(w) then Some(w) else None) else Leaf(mem, r, q)
  {
    WalkStaysInTree(mem, own, root, p);
    WalkStaysInTree(mem, own, r, q);
    var t := LeafTable(mem, root, p).value;
    StoreKeepsWalk(mem, own, t, p.t, w, r, q);
  }

  lemma StoreKeepsWalk(mem: Memory, own: Owners, f: nat, i: nat, w: nat, r: nat, q: Path)
    requires OwnedInside(mem, own) && Linked(mem, own) && IsRoot(own, r) && InRange(q)
    requires f in own && own[f].PteTable? && i < ENTRIES
    ensures LeafTable(Store(mem, f, i, w), r, q) == LeafTable(mem, r, q)
  {
    var m := Store(mem, f, i, w);
    var a := Next(mem, r, q.g);
    assert Next(m, r, q.g) == a;
    if a.Some? {
      var b := Next(mem, a.value, q.d);
      assert Next(m, a.value, q.d) == b;
    }
  }

  /** Zeroing a frame that plays no table changes no walk. */
  lemma ZeroKeepsWalks(mem: Memory, own: Owners, f: nat, content: Frame, r: nat, q: Path)
    requires OwnedInside(mem, own) && Linked(mem, own) && IsRoot(own, r) && InRange(q)
    requires f < |mem| && f !in own
    ensures LeafTable(mem[f := content], r, q) == LeafTable(mem, r, q)
    ensures Leaf(mem[f := content], r, q) == Leaf(mem, r, q)
  {
    WalkStaysInTree(mem, own, r, q);
    var m := mem[f := content];
    var a := Next(mem, r, q.g);
    assert Next(m, r, q.g) == a;
    if a.Some? {
      var b := Next(mem, a.value, q.d);
      assert Next(m, a.value, q.d) == b;
    }
  }

  /** Hanging the zeroed frame `t` below an empty entry creates no mapping and loses none. */
  lemma LinkKeepsLeaves(mem: Memory, own: Owners, f: nat, i: nat, t: nat, w: nat, r: nat, q: Path)
    requires OwnedInside(mem, own) && Linked(mem, own) && IsRoot(own, r) && InRange(q)
    requires f in own && !own[f].PteTable? && i < ENTRIES && Next(mem, f, i).None?
    requires t < |mem| && t !in own && mem[t] == ZeroFrame() && Present(w) && FrameOf(w) == t
    ensures Leaf(Store(mem, f, i, w), r, q) == Leaf(mem, r, q)
  {
    var m := Store(mem, f, i, w);
    assert forall j :: 0 <= j < ENTRIES ==> Next(m, t, j).None?;
    var a, a' := Next(mem, r, q.g), Next(m, r, q.g);
    if a == a' && a.Some? {
      var b, b' := Next(mem, a.value, q.d), Next(m, a.value, q.d);
      if b == b' && b.Some? {
        var c, c' := Next(mem, b.value, q.m), Next(m, b.value, q.m);
        WalkStaysInTree(mem, own, r, q);
      }
    }
  }

  lemma LinkKeepsTree(mem: Memory, own: Owners, f: nat, i: nat, t: nat, w: nat)
    requires OwnedInside(mem, own) && Linked(mem, own)
    requires f in own && !own[f].PteTable? && i < ENTRIES
    requires t < |mem| && t !in own && mem[t] == ZeroFrame() && Present(w) && FrameOf(w) == t
    ensures var m, o := Store(mem, f, i, w), own[t := Child(own[f], i)];
            OwnedInside(m, o) && Linked(m, o) && Next(m, f, i) == Some(t)
  {
    var m, o := Store(mem, f, i, w), own[t := Child(own[f], i)];
    forall h, j | h in o && 0 <= j < ENTRIES && !o[h].PteTable? && Next(m, h, j).Some?
      ensures var u := Next(m, h, j).value; u in o && o[u] == Child(o[h], j)
    {
      if h == f && j == i {
      } else {
        assert h != t;
        assert Next(mem, h, j) == Next(m, h, j);
      }
    }
  }
}
