/** The server's table of open files: file identifiers that name a slot and count its uses. */
module OpenTable {
  import opened Options

  const MAXOPEN: nat := 1024

  /** `ids` are the `o_fileid` fields; `issued` is the history of identifiers handed out. */
  datatype Table = Table(ids: seq<nat>, issued: seq<nat>)

  /** After `serve_init`. */
  function Fresh(): Table {
    Table(seq(MAXOPEN, i => i), [])
  }

  /** The first slot whose descriptor page is held by nobody but the server, given the page counts. */
  function FirstIdle(refs: seq<nat>, i: nat): (r: Option<nat>)
    ensures r.Some? ==> i <= r.value < |refs| && refs[r.value] <= 1 && forall k :: i <= k < r.value ==> refs[k] > 1
    ensures r.None? ==> forall k :: i <= k < |refs| ==> refs[k] > 1
    decreases |refs| - i
  {
    if i >= |refs| then None
    else if refs[i] <= 1 then Some(i)
    else FirstIdle(refs, i + 1)
  }

  /** Slot `i` is used once more. */
  function Issue(t: Table, i: nat): Table
    requires i < |t.ids|
  {
    Table(t.ids[i := t.ids[i] + MAXOPEN], t.issued + [t.ids[i] + MAXOPEN])
  }

  /** `open_alloc`; `None` is E_MAX_OPEN. */
  function Alloc(t: Table, refs: seq<nat>): (Table, Option<nat>)
    requires |t.ids| == |refs| == MAXOPEN
  {
    match FirstIdle(refs, 0)
    case None => (t, None)
    case Some(i) => (Issue(t, i), Some(t.ids[i] + MAXOPEN))
  }

  /** `open_lookup` succeeds. */
  predicate Accepts(t: Table, refs: seq<nat>, id: nat)
    requires |t.ids| == |refs| == MAXOPEN
  {
    refs[id % MAXOPEN] != 1 && t.ids[id % MAXOPEN] == id
  }

  // ---- whole runs ----

  ghost predicate Sound(t: Table) {
    && |t.ids| == MAXOPEN
    && (forall i :: 0 <= i < MAXOPEN ==> t.ids[i] % MAXOPEN == i)
    && (forall i :: 0 <= i < MAXOPEN && t.ids[i] >= MAXOPEN ==> t.ids[i] in t.issued)
    && (forall k :: 0 <= k < |t.issued| ==> MAXOPEN <= t.issued[k] <= t.ids[t.issued[k] % MAXOPEN])
    && (forall j, k :: 0 <= j < k < |t.issued| ==> t.issued[j] != t.issued[k])
  }

  /** The identifier issued at step `k` is the last one of its slot. */
  ghost predicate Latest(t: Table, k: nat)
    requires k < |t.issued|
  {
    forall j :: k < j < |t.issued| ==> t.issued[j] % MAXOPEN != t.issued[k] % MAXOPEN
  }

  /** Identifiers of a slot grow, so the last one issued is the one in the table. */
  ghost predicate Ordered(t: Table)
    requires Sound(t)
  {
    forall k: nat :: k < |t.issued| ==> (t.ids[t.issued[k] % MAXOPEN] == t.issued[k] <==> Latest(t, k))
  }

  lemma FreshSound()
    ensures Sound(Fresh()) && Ordered(Fresh())
  {
  }

  lemma NextInSlot(id: nat)
    ensures (id + MAXOPEN) % MAXOPEN == id % MAXOPEN
  {
  }

  lemma IssueIsNew(t: Table, i: nat, k: nat)
    requires Sound(t) && i < MAXOPEN && k < |t.issued|
    ensures t.issued[k] != t.ids[i] + MAXOPEN
    ensures t.issued[k] <= Issue(t, i).ids[t.issued[k] % MAXOPEN]
  {
    NextInSlot(t.ids[i]);
  }

  lemma IssueSlots(t: Table, i: nat)
    requires Sound(t) && i < MAXOPEN
    ensures var e := Issue(t, i);
      && |e.ids| == MAXOPEN && (forall j :: 0 <= j < MAXOPEN ==> e.ids[j] % MAXOPEN == j)
      && (forall j :: 0 <= j < MAXOPEN && e.ids[j] >= MAXOPEN ==> e.ids[j] in e.issued)
  {
    NextInSlot(t.ids[i]);
    var e := Issue(t, i);
    assert e.issued[|t.issued|] == e.ids[i];
  }

  lemma IssueSound(t: Table, i: nat)
    requires Sound(t) && i < MAXOPEN
    ensures Sound(Issue(t, i))
  {
    IssueSlots(t, i);
    IssuedEntries(t, i);
  }

  lemma IssuedEntries(t: Table, i: nat)
    requires Sound(t) && i < MAXOPEN
    ensures var e := Issue(t, i);
      && (forall k :: 0 <= k < |e.issued| ==> MAXOPEN <= e.issued[k] <= e.ids[e.issued[k] % MAXOPEN])
      && (forall j, k :: 0 <= j < k < |e.issued| ==> e.issued[j] != e.issued[k])
  {
    forall k: nat | k <= |t.issued|
      ensures MAXOPEN <= Issue(t, i).issued[k] <= Issue(t, i).ids[Issue(t, i).issued[k] % MAXOPEN]
      ensures k < |t.issued| ==> Issue(t, i).issued[k] != Issue(t, i).issued[|t.issued|]
    {
      IssuedEntry(t, i, k);
    }
  }

  lemma IssuedEntry(t: Table, i: nat, k: nat)
    requires Sound(t) && i < MAXOPEN && k <= |t.issued|
    ensures var e := Issue(t, i);
      && |e.issued| == |t.issued| + 1 && |e.ids| == MAXOPEN
      && MAXOPEN <= e.issued[k] <= e.ids[e.issued[k] % MAXOPEN]
      && (k < |t.issued| ==> e.issued[k] != e.issued[|t.issued|])
  {
    if k < |t.issued| {
      IssueIsNew(t, i, k);
    } else {
      NextInSlot(t.ids[i]);
    }
  }

  lemma LatestAfter(t: Table, i: nat, k: nat)
    requires Sound(t) && i < MAXOPEN && k < |t.issued|
    ensures Latest(Issue(t, i), k) <==> Latest(t, k) && t.issued[k] % MAXOPEN != i
  {
    var e, n := Issue(t, i), |t.issued|;
    NextInSlot(t.ids[i]);
    assert e.issued[n] % MAXOPEN == i;
    assert forall j :: 0 <= j < n ==> e.issued[j] == t.issued[j];
  }

  lemma IssueOrdered(t: Table, i: nat)
    requires Sound(t) && Ordered(t) && i < MAXOPEN && Sound(Issue(t, i))
    ensures Ordered(Issue(t, i))
  {
    var e, n := Issue(t, i), |t.issued|;
    forall k: nat | k < |e.issued|
      ensures e.ids[e.issued[k] % MAXOPEN] == e.issued[k] <==> Latest(e, k)
    {
      if k < n {
        LatestAfter(t, i, k);
        IssueIsNew(t, i, k);
      } else {
        NextInSlot(t.ids[i]);
      }
    }
  }

  /** A run of `open_alloc` calls, with the page counts at each of them. */
  function Run(t: Table, counts: seq<seq<nat>>): Table
    requires |t.ids| == MAXOPEN && forall k :: 0 <= k < |counts| ==> |counts[k]| == MAXOPEN
    decreases |counts|
  {
    if counts == [] then t else Run(Alloc(t, counts[0]).0, counts[1..])
  }

  /** However clients map and drop descriptor pages, no identifier is ever issued twice. */
  lemma {:induction false} RunSound(t: Table, counts: seq<seq<nat>>)
    requires Sound(t) && Ordered(t) && forall k :: 0 <= k < |counts| ==> |counts[k]| == MAXOPEN
    ensures Sound(Run(t, counts)) && Ordered(Run(t, counts))
    decreases |counts|
  {
    if counts != [] {
      if FirstIdle(counts[0], 0).Some? {
        IssueSound(t, FirstIdle(counts[0], 0).value);
        IssueOrdered(t, FirstIdle(counts[0], 0).value);
      }
      RunSound(Alloc(t, counts[0]).0, counts[1..]);
    }
  }

  /**
   In every run `open_lookup` accepts an issued identifier exactly while it is the last one of its slot
   and somebody besides the server, or nobody at all, holds the descriptor page.
   */
  lemma AcceptsIssuedIff(counts: seq<seq<nat>>, refs: seq<nat>, k: nat)
    requires |refs| == MAXOPEN && forall j :: 0 <= j < |counts| ==> |counts[j]| == MAXOPEN
    requires k < |Run(Fresh(), counts).issued|
    ensures var t := Run(Fresh(), counts);
      |t.ids| == MAXOPEN && (Accepts(t, refs, t.issued[k]) <==> Latest(t, k) && refs[t.issued[k] % MAXOPEN] != 1)
  {
    FreshSound();
    RunSound(Fresh(), counts);
  }

  /** It accepts an identifier that was never issued exactly for a slot never used, whose number the identifier is. */
  lemma AcceptsUnissuedIff(counts: seq<seq<nat>>, refs: seq<nat>, id: nat)
    requires |refs| == MAXOPEN && forall j :: 0 <= j < |counts| ==> |counts[j]| == MAXOPEN
    requires id !in Run(Fresh(), counts).issued
    ensures var t := Run(Fresh(), counts);
      |t.ids| == MAXOPEN && (Accepts(t, refs, id) <==> id < MAXOPEN && t.ids[id] == id && refs[id] != 1)
  {
    FreshSound();
    RunSound(Fresh(), counts);
  }

  /** How often slot `i` was given out. */
  function Uses(issued: seq<nat>, i: nat): nat {
    if issued == [] then 0
    else Uses(issued[..|issued| - 1], i) + (if issued[|issued| - 1] % MAXOPEN == i then 1 else 0)
  }

  /** The identifier of a slot counts its uses. */
  ghost predicate CountsUses(t: Table) {
    |t.ids| == MAXOPEN && forall i: nat :: i < MAXOPEN ==> t.ids[i] == i + 1024 * Uses(t.issued, i)
  }

  lemma IssueCounts(t: Table, i: nat)
    requires CountsUses(t) && i < MAXOPEN
    ensures CountsUses(Issue(t, i))
  {
    var e, id := Issue(t, i), t.ids[i] + MAXOPEN;
    assert e.issued[..|t.issued|] == t.issued;
    assert id % MAXOPEN == i;
    forall j: nat | j < MAXOPEN
      ensures e.ids[j] == j + 1024 * Uses(e.issued, j)
    {
      assert Uses(e.issued, j) == Uses(t.issued, j) + (if j == i then 1 else 0);
    }
  }

  /** In every run the identifier of slot `i` is `i` and 1024 for each time the slot was given out. */
  lemma {:induction false} RunCountsUses(t: Table, counts: seq<seq<nat>>)
    requires CountsUses(t) && forall k :: 0 <= k < |counts| ==> |counts[k]| == MAXOPEN
    ensures CountsUses(Run(t, counts))
    decreases |counts|
  {
    if counts != [] {
      if FirstIdle(counts[0], 0).Some? {
        IssueCounts(t, FirstIdle(counts[0], 0).value);
      }
      RunCountsUses(Alloc(t, counts[0]).0, counts[1..]);
    }
  }

  lemma FreshCountsUses()
    ensures CountsUses(Fresh())
  {
  }

  // ---- the code ----

  class OpenFiles {
    const ids: array<nat>
    ghost var issued: seq<nat>

    ghost predicate Shaped() {
      ids.Length == MAXOPEN
    }

    ghost function State(): Table
      reads this, ids
    {
      Table(ids[..], issued)
    }

    /** `serve_init`. */
    constructor ()
      ensures Shaped() && fresh(ids) && State() == Fresh()
    {
      ids := new nat[MAXOPEN](i => i);
      issued := [];
      new;
      assert ids[..] == Fresh().ids;
    }

    /** `open_alloc`. */
    method OpenAlloc(refs: seq<nat>) returns (id: Option<nat>)
      requires Shaped() && |refs| == MAXOPEN
      modifies ids, this`issued
      ensures Shaped() && Alloc(old(State()), refs) == (State(), id)
    {
      var i := 0;
      while i < MAXOPEN
        invariant i <= MAXOPEN && FirstIdle(refs, 0) == FirstIdle(refs, i)
        invariant State() == old(State())
      {
        if refs[i] <= 1 {
          ids[i] := ids[i] + MAXOPEN;
          issued := issued + [ids[i]];
          return Some(ids[i]);
        }
        i := i + 1;
      }
      id := None;
    }

    /** `open_lookup`. */
    method OpenLookup(id: nat, refs: seq<nat>) returns (slot: Option<nat>)
      requires Shaped() && |refs| == MAXOPEN
      ensures slot == if Accepts(State(), refs, id) then Some(id % MAXOPEN) else None
    {
      var i := id % MAXOPEN;
      if refs[i] == 1 || ids[i] != id {
        return None;
      }
      slot := Some(i);
    }
  }
}
