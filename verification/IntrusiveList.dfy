/**
 The kernel's intrusive doubly linked list: an element points to the next element and back to
 the pointer that points to it, which is either the list head or the previous element's
 `le_next`.  Elements are indices into the array of structures that embeds the links.
 */
module Lists {
  import opened Options

  /** What `le_prev` addresses: the head's `lh_first`, or the `le_next` of an element. */
  datatype Link = HeadFirst | NextOf(element: nat)

  predicate Distinct(s: seq<nat>) {
    forall j, k :: 0 <= j < k < |s| ==> s[j] != s[k]
  }

  lemma PushDistinct(e: nat, s: seq<nat>)
    requires Distinct(s) && e !in s
    ensures Distinct([e] + s)
  {
    var t := [e] + s;
    assert forall k :: 0 < k < |t| ==> t[k] == s[k - 1];
  }

  /** The pointers spell out the sequence `c`. */
  ghost predicate Threaded(first: Option<nat>, next: seq<Option<nat>>, prev: seq<Link>, c: seq<nat>) {
    && |next| == |prev|
    && Distinct(c)
    && (forall k :: 0 <= k < |c| ==> c[k] < |next|)
    && first == (if c == [] then None else Some(c[0]))
    && NextsSpell(next, c)
    && LinksSpell(prev, c)
  }

  ghost predicate NextsSpell(next: seq<Option<nat>>, c: seq<nat>) {
    forall k: nat {:trigger NextIn(c, k)} :: k < |c| && c[k] < |next| ==> next[c[k]] == NextIn(c, k)
  }

  ghost predicate LinksSpell(prev: seq<Link>, c: seq<nat>) {
    forall k: nat {:trigger LinkIn(c, k)} :: k < |c| && c[k] < |prev| ==> prev[c[k]] == LinkIn(c, k)
  }

  ghost function NextIn(c: seq<nat>, k: nat): Option<nat> {
    if k + 1 < |c| then Some(c[k + 1]) else None
  }

  ghost function LinkIn(c: seq<nat>, k: nat): Link
    requires k < |c|
  {
    if k == 0 then HeadFirst else NextOf(c[k - 1])
  }

  ghost function Without(c: seq<nat>, k: nat): seq<nat>
    requires k < |c|
  {
    c[..k] + c[k + 1..]
  }

  lemma WithoutAt(c: seq<nat>, k: nat, j: nat)
    requires k < |c| && j < |c| - 1
    ensures Without(c, k)[j] == c[if j < k then j else j + 1]
  {
  }

  lemma WithoutNeighbours(c: seq<nat>, k: nat, j: nat)
    requires Distinct(c) && k < |c| && j < |c| - 1
    ensures var i := if j < k then j else j + 1;
      && NextIn(Without(c, k), j) == (if i + 1 == k then NextIn(c, k) else NextIn(c, i))
      && LinkIn(Without(c, k), j) == (if i == k + 1 then LinkIn(c, k) else LinkIn(c, i))
  {
    WithoutAt(c, k, j);
    if j + 1 < |c| - 1 {
      WithoutAt(c, k, j + 1);
    }
    if j > 0 {
      WithoutAt(c, k, j - 1);
    }
  }

  lemma WithoutDistinct(c: seq<nat>, k: nat)
    requires Distinct(c) && k < |c|
    ensures Distinct(Without(c, k)) && c[k] !in Without(c, k)
    ensures forall e :: e in Without(c, k) ==> e in c
  {
    forall j | 0 <= j < |c| - 1
      ensures Without(c, k)[j] == c[if j < k then j else j + 1]
    {
      WithoutAt(c, k, j);
    }
  }

  lemma UnlinkNexts(next: seq<Option<nat>>, c: seq<nat>, k: nat, next': seq<Option<nat>>)
    requires Distinct(c) && k < |c| && NextsSpell(next, c)
    requires forall j :: 0 <= j < |c| ==> c[j] < |next|
    requires next' == if k == 0 then next else next[c[k - 1] := NextIn(c, k)]
    ensures NextsSpell(next', Without(c, k))
  {
    var c' := Without(c, k);
    forall j: nat | j < |c'| && c'[j] < |next'|
      ensures next'[c'[j]] == NextIn(c', j)
    {
      WithoutAt(c, k, j);
      WithoutNeighbours(c, k, j);
    }
  }

  lemma UnlinkLinks(prev: seq<Link>, c: seq<nat>, k: nat, prev': seq<Link>)
    requires Distinct(c) && k < |c| && LinksSpell(prev, c)
    requires forall j :: 0 <= j < |c| ==> c[j] < |prev|
    requires prev' == if k + 1 < |c| then prev[c[k + 1] := LinkIn(c, k)] else prev
    ensures LinksSpell(prev', Without(c, k))
  {
    var c' := Without(c, k);
    forall j: nat | j < |c'| && c'[j] < |prev'|
      ensures prev'[c'[j]] == LinkIn(c', j)
    {
      WithoutAt(c, k, j);
      WithoutNeighbours(c, k, j);
    }
  }

  /** Splicing element `k` out of the pointers splices it out of the sequence. */
  lemma UnlinkThreads(first: Option<nat>, next: seq<Option<nat>>, prev: seq<Link>, c: seq<nat>, k: nat,
                      first': Option<nat>, next': seq<Option<nat>>, prev': seq<Link>)
    requires Threaded(first, next, prev, c) && k < |c|
    requires first' == if k == 0 then NextIn(c, k) else first
    requires next' == if k == 0 then next else next[c[k - 1] := NextIn(c, k)]
    requires prev' == if k + 1 < |c| then prev[c[k + 1] := LinkIn(c, k)] else prev
    ensures Threaded(first', next', prev', Without(c, k))
  {
    WithoutDistinct(c, k);
    UnlinkNexts(next, c, k, next');
    UnlinkLinks(prev, c, k, prev');
    if |c| > 1 {
      WithoutAt(c, k, 0);
    }
  }

  /** Pushing a new element onto the pointers pushes it onto the sequence. */
  lemma PushThreads(first: Option<nat>, next: seq<Option<nat>>, prev: seq<Link>, c: seq<nat>, e: nat,
                    next': seq<Option<nat>>, prev': seq<Link>)
    requires Threaded(first, next, prev, c) && e < |next| && e !in c
    requires next' == next[e := first]
    requires prev' == (if first.Some? then prev[first.value := NextOf(e)] else prev)[e := HeadFirst]
    ensures Threaded(Some(e), next', prev', [e] + c)
  {
    var c' := [e] + c;
    forall j: nat | j < |c'|
      ensures next'[c'[j]] == NextIn(c', j)
      ensures prev'[c'[j]] == LinkIn(c', j)
    {
      if j > 0 {
        assert c'[j] == c[j - 1];
        assert NextIn(c', j) == NextIn(c, j - 1);
        assert j > 1 ==> LinkIn(c', j) == LinkIn(c, j - 1);
      }
    }
  }

  lemma WithoutHead(c: seq<nat>, c': seq<nat>, e: nat)
    requires Distinct(c) && c != [] && c[0] == e
    requires exists k: nat :: k < |c| && c[k] == e && c' == Without(c, k)
    ensures c' == c[1..]
  {
  }

  class IntrusiveList {
    const next: array<Option<nat>>
    const prev: array<Link>
    var first: Option<nat>
    ghost var contents: seq<nat>

    ghost predicate Valid()
      reads this, next, prev
    {
      Threaded(first, next[..], prev[..], contents)
    }

    /** `LIST_INIT` on links for `n` elements. */
    constructor (n: nat)
      ensures Valid() && fresh(next) && fresh(prev) && contents == [] && next.Length == n
    {
      next := new Option<nat>[n](_ => None);
      prev := new Link[n](_ => HeadFirst);
      first := None;
      contents := [];
    }

    /** `LIST_INSERT_HEAD`. */
    method InsertHead(e: nat)
      requires Valid() && e < next.Length && e !in contents
      modifies this, next, prev
      ensures Valid() && contents == [e] + old(contents)
    {
      ghost var first0, next0, prev0 := first, next[..], prev[..];
      next[e] := first;
      if next[e].Some? {
        prev[next[e].value] := NextOf(e);
      }
      first := Some(e);
      prev[e] := HeadFirst;
      PushThreads(first0, next0, prev0, contents, e, next[..], prev[..]);
      contents := [e] + contents;
    }

    /** `LIST_REMOVE`, through the back pointer. */
    method Remove(e: nat)
      requires Valid() && e in contents
      modifies this, next, prev
      ensures Valid() && e !in contents
      ensures exists k: nat :: k < |old(contents)| && old(contents)[k] == e && contents == Without(old(contents), k)
    {
      ghost var k: nat :| k < |contents| && contents[k] == e;
      ghost var c, first0, next0, prev0 := contents, first, next[..], prev[..];
      assert next[e] == NextIn(c, k) && prev[e] == LinkIn(c, k);
      if next[e].Some? {
        prev[next[e].value] := prev[e];
      }
      match prev[e] {
        case HeadFirst => first := next[e];
        case NextOf(p) => next[p] := next[e];
      }
      contents := Without(contents, k);
      UnlinkThreads(first0, next0, prev0, c, k, first, next[..], prev[..]);
    }
  }
}
