/**
 The physical-memory manager itself: frames, reference counts and the intrusive free list
 updated in place.  Every operation is tied to the transition of the same name on `PmState`.
 */
module Pmap {
  import opened Options
  import opened Lists
  import opened Mmu
  import opened PageTable
  import opened FrameState
  import opened PageMap

  /** Where `pgdir_walk` leaves its result pointer; `Panicked` is the allocator's panic. */
  datatype WalkResult = Slot(table: nat, index: nat) | NotMapped | Panicked

  /** The free list once `page_init` has inserted the frames below `n`: the last one comes first. */
  ghost function FreeAtBoot(n: nat): (s: seq<nat>)
    ensures forall p :: p in s <==> USED_FRAMES <= p < n
    ensures Distinct(s)
  {
    if n <= USED_FRAMES then []
    else
      var rest := FreeAtBoot(n - 1);
      PushDistinct(n - 1, rest);
      [n - 1] + rest
  }

  /** The boot list counts down from its last frame to the first above the kernel image. */
  lemma {:induction false} BootListCountsDown(n: nat)
    requires USED_FRAMES <= n
    ensures var s := FreeAtBoot(n); |s| == n - USED_FRAMES && forall k :: 0 <= k < |s| ==> s[k] == n - 1 - k
  {
    if n > USED_FRAMES {
      var rest := FreeAtBoot(n - 1);
      BootListCountsDown(n - 1);
      assert FreeAtBoot(n) == [n - 1] + rest;
    }
  }

  lemma InitInv(s: PmState)
    requires Sized(s) && s.own == map[] && s.free == FreeAtBoot(NPAGE)
    ensures Inv(s)
  {
    forall p: nat | p < NPAGE
      ensures References(s.mem, s.own, p) == {}
    {
    }
  }

  class PhysicalMemory {
    const mem: array<Frame>
    const refs: array<nat>
    const free: IntrusiveList
    ghost var own: Owners

    ghost const Repr: set<object>

    ghost predicate Shaped()
      reads this, Repr
    {
      && {this, mem, refs, free, free.next, free.prev} == Repr
      && mem.Length == NPAGE && refs.Length == NPAGE && free.next.Length == NPAGE
      && free.Valid()
    }

    ghost function State(): PmState
      reads this, Repr
      requires Shaped()
    {
      PmState(mem[..], refs[..], free.contents, own)
    }

    ghost predicate Valid()
      reads this, Repr
    {
      Shaped() && Inv(State())
    }

    /** `page_init`: frames of the kernel image are in use, all others go on the free list. */
    constructor ()
      ensures Valid() && fresh(Repr)
      ensures State().own == map[] && State().free == FreeAtBoot(NPAGE)
      ensures forall f :: 0 <= f < USED_FRAMES ==> State().refs[f] == 1
    {
      mem := new Frame[NPAGE];
      refs := new nat[NPAGE](_ => 0);
      var list := new IntrusiveList(NPAGE);
      free := list;
      own := map[];
      Repr := {this, mem, refs, list, list.next, list.prev};
      new;
      MarkUsed();
      InitFreeList();
      InitInv(State());
    }

    method MarkUsed()
      requires Shaped() && forall f :: 0 <= f < NPAGE ==> refs[f] == 0
      modifies refs
      ensures forall f :: 0 <= f < NPAGE ==> refs[f] == if f < USED_FRAMES then 1 else 0
    {
      for i := 0 to USED_FRAMES
        invariant forall f :: 0 <= f < NPAGE ==> refs[f] == if f < i then 1 else 0
      {
        refs[i] := 1;
      }
    }

    method InitFreeList()
      requires Shaped() && free.contents == []
      modifies free, free.next, free.prev
      ensures Shaped() && State() == old(State()).(free := FreeAtBoot(NPAGE))
    {
      for i := USED_FRAMES to NPAGE
        invariant Shaped() && free.contents == FreeAtBoot(i)
        invariant State() == old(State()).(free := FreeAtBoot(i))
      {
        free.InsertHead(i);
      }
    }

    /** One store into physical memory. */
    method Store64(f: nat, i: nat, w: nat)
      requires Shaped() && f < NPAGE && i < ENTRIES
      modifies mem
      ensures Shaped() && State() == old(State()).(mem := Store(old(State()).mem, f, i, w))
    {
      mem[f] := mem[f][i := w];
    }

    method SetRef(f: nat, c: nat)
      requires Shaped() && f < NPAGE
      modifies refs
      ensures Shaped() && State() == old(State()).(refs := old(State()).refs[f := c])
    {
      refs[f] := c;
    }

    /** `bzero` on a page: eight bytes at a time. */
    method ZeroPage(f: nat)
      requires Shaped() && f < NPAGE
      modifies mem
      ensures Shaped() && State() == old(State()).(mem := old(State()).mem[f := ZeroFrame()])
    {
      ghost var before := mem[..];
      for i := 0 to ENTRIES
        invariant forall j :: 0 <= j < i ==> mem[f][j] == 0
        invariant mem[..] == before[f := mem[f]]
      {
        mem[f] := mem[f][i := 0];
      }
      assert mem[f] == ZeroFrame();
    }

    /** `bcopy` of one whole page onto another, a word at a time. */
    method CopyFrame(src: nat, dst: nat)
      requires Shaped() && src < NPAGE && dst < NPAGE && src != dst
      modifies mem
      ensures Shaped() && State() == old(State()).(mem := old(State()).mem[dst := old(State()).mem[src]])
    {
      ghost var before := mem[..];
      for i := 0 to ENTRIES
        invariant forall j :: 0 <= j < i ==> mem[dst][j] == before[src][j]
        invariant mem[..] == before[dst := mem[dst]]
      {
        mem[dst] := mem[dst][i := mem[src][i]];
      }
      assert mem[dst] == before[src];
    }

    /** `page_alloc`; `None` is its panic. */
    method PageAlloc() returns (page: Option<nat>)
      requires Valid()
      modifies mem, refs, free, free.next, free.prev
      ensures Valid()
      ensures page.None? ==> State() == old(State()) && State().free == []
      ensures page.Some? ==> Alloc(old(State())) == Some((State(), page.value))
    {
      if free.first.None? {
        return None;
      }
      ghost var s := State();
      AllocInv(s);
      page := free.first;
      free.Remove(page.value);
      WithoutHead(s.free, free.contents, page.value);
      ZeroPage(page.value);
      SetRef(page.value, 0);
    }

    /** `page_free`: only a frame whose count is zero goes back. */
    method PageFree(page: nat)
      requires Shaped() && page < NPAGE && (refs[page] == 0 ==> page !in free.contents)
      modifies free, free.next, free.prev
      ensures Shaped()
      ensures State() == old(State()).(free := if refs[page] == 0 then [page] + old(State()).free
                                       else old(State()).free)
    {
      if refs[page] > 0 {
        return;
      }
      free.InsertHead(page);
    }

    /** One level of `pgdir_walk`: follow entry `i` of table `f`, making the next table if asked to. */
    method NextTable(f: nat, i: nat, create: bool) returns (next: Option<nat>, panicked: bool)
      requires Valid() && f in own && !own[f].PteTable? && f < NPAGE && i < ENTRIES
      modifies this`own, mem, refs, free, free.next, free.prev
      ensures Valid()
      ensures !create ==> State() == old(State()) && next == Next(State().mem, f, i) && !panicked
      ensures create ==> panicked == EnsureTable(old(State()), f, i).None?
      ensures create && !panicked ==> next.Some? && EnsureTable(old(State()), f, i) == Some((State(), next.value))
    {
      panicked := false;
      ghost var s := State();
      EnsureTableInv(s, f, i);
      if Present(mem[f][i]) {
        next := Some(FrameOf(mem[f][i]));
        return;
      }
      if !create {
        next := None;
        return;
      }
      next := MakeTable(f, i);
      panicked := next.None?;
    }

    /** The branch of `pgdir_walk` that takes a frame for a missing table; `None` is the panic. */
    method MakeTable(f: nat, i: nat) returns (next: Option<nat>)
      requires Valid() && f in own && !own[f].PteTable? && f < NPAGE && i < ENTRIES && !Present(mem[f][i])
      modifies this`own, mem, refs, free, free.next, free.prev
      ensures Valid()
      ensures EnsureTable(old(State()), f, i) == if next.None? then None else Some((State(), next.value))
    {
      ghost var s := State();
      next := PageAlloc();
      if next.Some? {
        LinkTable(f, i, next.value);
      }
      EnsureTableInv(s, f, i);
    }

    /** The new table is entered in its parent and counted once. */
    method LinkTable(f: nat, i: nat, t: nat)
      requires Shaped() && f in own && !own[f].PteTable? && f < NPAGE && i < ENTRIES && t < NPAGE
      modifies this`own, mem, refs
      ensures Shaped() && State() == WithTable(old(State()), f, i, t)
    {
      Store64(f, i, TableEntry(t));
      SetRef(t, 1);
      own := own[t := Child(own[f], i)];
    }

    /** `pgdir_walk`: the slot of the leaf entry of `va`. */
    method PgdirWalk(pgdir: nat, va: nat, create: bool) returns (r: WalkResult)
      requires Valid() && IsRoot(own, pgdir)
      modifies this`own, mem, refs, free, free.next, free.prev
      ensures Valid()
      ensures !create ==> State() == old(State()) && r == SlotOf(LeafTable(State().mem, pgdir, PathOf(va)), va)
      ensures create ==> (r.Panicked? <==> Walk(old(State()), pgdir, PathOf(va)).None?)
      ensures create && !r.Panicked? ==>
        r.Slot? && r.index == PTX(va) && Walk(old(State()), pgdir, PathOf(va)) == Some((State(), r.table))
    {
      ghost var s, p := State(), PathOf(va);
      var next, panicked := NextTable(pgdir, PGX(va), create);
      if create { EnsureTableInv(s, pgdir, p.g); }
      if panicked { return Panicked; }
      if next.None? { return NotMapped; }
      ghost var t1 := next.value;
      next, panicked := NextTable(next.value, PDX(va), create);
      if create { WalkUpperInv(s, pgdir, p.g, p.d); }
      if panicked { return Panicked; }
      if next.None? { return NotMapped; }
      next, panicked := NextTable(next.value, PMX(va), create);
      if panicked { return Panicked; }
      if next.None? { return NotMapped; }
      r := Slot(next.value, PTX(va));
    }

    /**
     `page_insert`.  It always performs `Insert`; the invariant survives when the caller hands in a
     frame that is neither free nor a table, with flags below bit 12.
     */
    method PageInsert(pgdir: nat, pp: nat, va: nat, perm: nat) returns (panicked: bool)
      requires Valid() && IsRoot(own, pgdir) && pp < NPAGE
      modifies this`own, mem, refs, free, free.next, free.prev
      ensures Shaped()
      ensures panicked <==> Insert(old(State()), pgdir, pp, va, perm).None?
      ensures !panicked ==> Insert(old(State()), pgdir, pp, va, perm) == Some(State())
      ensures panicked || old(Mappable(State(), pp, perm)) ==> Valid()
    {
      ghost var s := State();
      WalkInv(s, pgdir, PathOf(va));
      var r := PgdirWalk(pgdir, va, true);
      if r.Panicked? {
        return true;
      }
      Store64(r.table, r.index, LeafEntry(pp, perm));
      SetRef(pp, Incremented(refs[pp]));
      if Mappable(s, pp, perm) {
        InsertEntersLeaf(s, pgdir, pp, va, perm);
      }
      panicked := false;
    }

    /** `page_lookup`: the frame mapped at `va` and the slot of its entry. */
    method PageLookup(pgdir: nat, va: nat) returns (page: Option<nat>, slot: WalkResult)
      requires Valid() && IsRoot(own, pgdir)
      modifies this`own, mem, refs, free, free.next, free.prev
      ensures Valid() && State() == old(State())
      ensures page == Lookup(State(), pgdir, va)
      ensures page.Some? ==> slot == SlotOf(LeafTable(State().mem, pgdir, PathOf(va)), va) && slot.Slot?
    {
      WalkStaysInTree(State().mem, own, pgdir, PathOf(va));
      slot := PgdirWalk(pgdir, va, false);
      if slot.NotMapped? || !Present(mem[slot.table][slot.index]) {
        return None, slot;
      }
      page := Some(FrameOf(mem[slot.table][slot.index]));
    }

    /** `page_remove`: drop the mapping and its count, and free the frame when the count reaches zero. */
    method PageRemove(pgdir: nat, va: nat)
      requires Valid() && IsRoot(own, pgdir)
      modifies this`own, mem, refs, free, free.next, free.prev
      ensures Valid()
      ensures State() == Remove(old(State()), pgdir, va)
    {
      ghost var s := State();
      RemoveInv(s, pgdir, va);
      WalkStaysInTree(s.mem, s.own, pgdir, PathOf(va));
      var page, slot := PageLookup(pgdir, va);
      if page.Some? {
        DropEntry(slot.table, slot.index, page.value);
      }
    }

    method DropEntry(table: nat, index: nat, page: nat)
      requires Shaped() && table < NPAGE && index < ENTRIES && page < NPAGE && page !in free.contents
      requires Sized(State()) && Next(State().mem, table, index) == Some(page)
      modifies mem, refs, free, free.next, free.prev
      ensures Shaped() && State() == ClearLeaf(old(State()), table, index)
    {
      SetRef(page, Decremented(refs[page]));
      if refs[page] == 0 {
        PageFree(page);
      }
      Store64(table, index, 0);
    }
  }

  function SlotOf(table: Option<nat>, va: nat): WalkResult {
    if table.Some? then Slot(table.value, PTX(va)) else NotMapped
  }
}
