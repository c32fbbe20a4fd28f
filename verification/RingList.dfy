/** Intrusive doubly linked rings. */
module RingList {
  class ListEntry {
    var prev: ListEntry
    var next: ListEntry

    /** `list_init`: an entry alone in its ring. */
    constructor ()
      ensures prev == next == this
    {
      prev, next := this, this;
    }
  }

  type Ring = seq<ListEntry>

  // ----- rings as sequences -------------------------------------------------------------------------------------

  ghost predicate NoRepeats(r: Ring) {
    forall i, j {:trigger r[i], r[j]} :: 0 <= i < j < |r| ==> r[i] != r[j]
  }

  function After(r: Ring, i: nat): nat {
    if i + 1 >= |r| then 0 else i + 1
  }

  /** The entry at place `i` and the one after it lead to each other. */
  ghost predicate Joined(r: Ring, i: nat)
    requires i < |r|
    reads r
  {
    r[i].next == r[After(r, i)] && r[After(r, i)].prev == r[i]
  }

  /** `next` leads around `r`, and `prev` back. */
  ghost predicate Linked(r: Ring)
    reads r
  {
    r != [] && NoRepeats(r) && forall i {:trigger Joined(r, i)} :: 0 <= i < |r| ==> Joined(r, i)
  }

  /** No entry is in two rings. */
  ghost predicate Apart(rings: seq<Ring>) {
    forall i, j, e {:trigger e in rings[i], e in rings[j]} ::
      0 <= i < |rings| && 0 <= j < |rings| && e in rings[i] && e in rings[j] ==> i == j
  }

  /** A family of rings, all linked. */
  ghost predicate AllLinked(rings: seq<Ring>)
    reads set i, k | 0 <= i < |rings| && 0 <= k < |rings[i]| :: rings[i][k]
  {
    Apart(rings) && forall i {:trigger Linked(rings[i])} :: 0 <= i < |rings| ==> Linked(rings[i])
  }

  ghost predicate Outside(rings: seq<Ring>, e: ListEntry) {
    forall i {:trigger e in rings[i]} :: 0 <= i < |rings| ==> e !in rings[i]
  }

  function InsertAt(r: Ring, k: nat, e: ListEntry): Ring
    requires k <= |r|
  {
    r[..k] + [e] + r[k..]
  }

  function RemoveAt(r: Ring, k: nat): Ring
    requires k < |r|
  {
    r[..k] + r[k + 1..]
  }

  /** What the operations do to a family of rings, by the place of the entry they are called on. */
  datatype Op =
    | Init(elm: ListEntry)
    | AddBefore(i: nat, k: nat, elm: ListEntry)
    | AddAfter(i: nat, k: nat, elm: ListEntry)
    | Del(i: nat, k: nat)
    | DelInit(i: nat, k: nat)

  /** A new entry is in no ring yet, and any other is where it is said to be. */
  ghost predicate Legal(rings: seq<Ring>, op: Op) {
    match op
    case Init(e) => Outside(rings, e)
    case AddBefore(i, k, e) => i < |rings| && k < |rings[i]| && Outside(rings, e)
    case AddAfter(i, k, e) => i < |rings| && k < |rings[i]| && Outside(rings, e)
    case Del(i, k) => i < |rings| && k < |rings[i]|
    case DelInit(i, k) => i < |rings| && k < |rings[i]|
  }

  /** Adding before the entry at place 0 adds at the end; a ring's only entry stays when it is deleted. */
  ghost function Apply(rings: seq<Ring>, op: Op): seq<Ring>
    requires Legal(rings, op)
  {
    match op
    case Init(e) => rings + [[e]]
    case AddBefore(i, k, e) => rings[i := InsertAt(rings[i], if k == 0 then |rings[i]| else k, e)]
    case AddAfter(i, k, e) => rings[i := InsertAt(rings[i], k + 1, e)]
    case Del(i, k) => if |rings[i]| > 1 then rings[i := RemoveAt(rings[i], k)] else rings
    case DelInit(i, k) => if |rings[i]| > 1 then rings[i := RemoveAt(rings[i], k)] + [[rings[i][k]]] else rings
  }

  // ----- changing one ring --------------------------------------------------------------------------------------

  /** Puts `elm` between two neighbours: at place `k` of the ring, where place `|r|` is its end. */
  method InsertBetween(elm: ListEntry, prev: ListEntry, next: ListEntry, ghost r: Ring, ghost k: nat)
    requires Linked(r) && elm !in r && 0 < k <= |r| && prev == r[k - 1] && next == r[After(r, k - 1)]
    modifies elm, prev, next
    ensures Linked(InsertAt(r, k, elm))
    ensures prev.next == elm && next.prev == elm && elm.next == next && elm.prev == prev
  {
    ghost var s := InsertAt(r, k, elm);
    assert forall i :: 0 <= i < |r| ==> Joined(r, i);
    prev.next := elm;
    next.prev := elm;
    elm.next := next;
    elm.prev := prev;
    forall i | 0 <= i < |s|
      ensures Joined(s, i)
    {
      if i < k - 1 {
        assert old(Joined(r, i));
      } else if i > k {
        assert old(Joined(r, i - 1));
      }
    }
  }

  lemma RemoveNoRepeats(r: Ring, k: nat)
    requires NoRepeats(r) && k < |r|
    ensures NoRepeats(RemoveAt(r, k))
  {
    var s := RemoveAt(r, k);
    forall i, j | 0 <= i < j < |s|
      ensures s[i] != s[j]
    {
      assert s[i] == r[if i < k then i else i + 1] && s[j] == r[if j < k then j else j + 1];
    }
  }

  /** Only the entry before place `k` leads there, and only the one after it back. */
  lemma PlacesDiffer(r: Ring, k: nat, j: nat)
    requires NoRepeats(r) && k < |r| && j < |r| && j != k && After(r, j) != k
    ensures r[After(r, j)] != r[After(r, k)]
    ensures var i := if k == 0 then |r| - 1 else k - 1; r[j] != r[i] && After(r, i) == k
  {
  }

  /** Makes the neighbours of place `k` neighbours of each other, so that the entry there drops out. */
  method JoinNeighbours(prev: ListEntry, next: ListEntry, ghost r: Ring, ghost k: nat)
    requires Linked(r) && k < |r| && prev == r[k].prev && next == r[k].next
    modifies prev, next
    ensures Linked(if |r| > 1 then RemoveAt(r, k) else r)
    ensures prev.next == next && next.prev == prev
  {
    ghost var s := RemoveAt(r, k);
    assert Joined(r, k) && Joined(r, if k == 0 then |r| - 1 else k - 1);
    prev.next := next;
    next.prev := prev;
    if |r| > 1 {
      RemoveNoRepeats(r, k);
      forall i | 0 <= i < |s|
        ensures Joined(s, i)
      {
        var j := if i < k then i else i + 1;
        assert old(Joined(r, j)) && s[i] == r[j];
        assert s[After(s, i)] == if After(r, j) == k then r[After(r, k)] else r[After(r, j)];
        if After(r, j) != k { PlacesDiffer(r, k, j); }
      }
    } else {
      assert Joined(r, 0);
    }
  }

  // ----- the operations -----------------------------------------------------------------------------------------

  lemma InsertElements(r: Ring, k: nat, e: ListEntry)
    requires k <= |r|
    ensures forall x :: x in InsertAt(r, k, e) <==> x == e || x in r
  {
    assert r == r[..k] + r[k..];
  }

  lemma RemoveElements(r: Ring, k: nat)
    requires k < |r| && NoRepeats(r)
    ensures forall x :: x in RemoveAt(r, k) <==> x != r[k] && x in r
  {
    assert r == r[..k] + [r[k]] + r[k + 1..];
    assert forall x :: x in r[..k] || x in r[k + 1..] ==> x != r[k];
  }

  /** `list_init`: of an entry that is in no ring, or that its ring has just lost. */
  method ListInit(elm: ListEntry, ghost rings: seq<Ring>)
    requires AllLinked(rings) && (Outside(rings, elm) || [elm] in rings)
    modifies elm
    ensures AllLinked(if [elm] in rings then rings else Apply(rings, Init(elm)))
    ensures elm.next == elm && elm.prev == elm
  {
    assert elm in [elm];
    elm.prev, elm.next := elm, elm;
    assert Joined([elm], 0);
    forall j | 0 <= j < |rings| && rings[j] != [elm]
      ensures Linked(rings[j])
    {
      assert elm !in rings[j];
    }
  }

  /** A family in which one ring has gained an entry, and all are linked again. */
  lemma OneInserted(rings: seq<Ring>, i: nat, k: nat, e: ListEntry)
    requires i < |rings| && k <= |rings[i]| && Apart(rings) && Outside(rings, e)
    requires Linked(InsertAt(rings[i], k, e))
    requires forall j {:trigger rings[j]} :: 0 <= j < |rings| && j != i ==> Linked(rings[j])
    ensures AllLinked(rings[i := InsertAt(rings[i], k, e)])
  {
    hide Linked;
    InsertElements(rings[i], k, e);
    var after := rings[i := InsertAt(rings[i], k, e)];
    forall j, m, x | 0 <= j < |after| && 0 <= m < |after| && x in after[j] && x in after[m]
      ensures j == m
    {
      assert x == e || (x in rings[j] && x in rings[m]);
    }
  }

  /** `list_add_before`. */
  method ListAddBefore(listelm: ListEntry, elm: ListEntry, ghost rings: seq<Ring>, ghost i: nat, ghost k: nat)
    requires AllLinked(rings) && Legal(rings, AddBefore(i, k, elm)) && rings[i][k] == listelm
    modifies elm, listelm, listelm.prev
    ensures AllLinked(Apply(rings, AddBefore(i, k, elm)))
    ensures elm.next == listelm && listelm.prev == elm
    ensures elm.prev == old(listelm.prev) && old(listelm.prev).next == elm
  {
    ghost var r := rings[i];
    assert Linked(r);
    assert Joined(r, if k == 0 then |r| - 1 else k - 1);
    InsertElements(r, if k == 0 then |r| else k, elm);
    assert listelm in r && listelm.prev in r;
    InsertBetween(elm, listelm.prev, listelm, r, if k == 0 then |r| else k);
    forall j | 0 <= j < |rings| && j != i
      ensures Linked(rings[j])
    {
      assert elm !in rings[j] && listelm !in rings[j] && old(listelm.prev) !in rings[j];
    }
    OneInserted(rings, i, if k == 0 then |r| else k, elm);
  }

  /** `list_add_after`, which is also `list_add`. */
  method ListAddAfter(listelm: ListEntry, elm: ListEntry, ghost rings: seq<Ring>, ghost i: nat, ghost k: nat)
    requires AllLinked(rings) && Legal(rings, AddAfter(i, k, elm)) && rings[i][k] == listelm
    modifies elm, listelm, listelm.next
    ensures AllLinked(Apply(rings, AddAfter(i, k, elm)))
    ensures elm.prev == listelm && listelm.next == elm
    ensures elm.next == old(listelm.next) && old(listelm.next).prev == elm
  {
    ghost var r := rings[i];
    assert Linked(r);
    assert Joined(r, k);
    InsertElements(r, k + 1, elm);
    assert listelm in r && listelm.next in r;
    InsertBetween(elm, listelm, listelm.next, r, k + 1);
    forall j | 0 <= j < |rings| && j != i
      ensures Linked(rings[j])
    {
      assert elm !in rings[j] && listelm !in rings[j] && old(listelm.next) !in rings[j];
    }
    OneInserted(rings, i, k + 1, elm);
  }

  /** `list_del`; the entry keeps its own links. */
  method ListDel(listelm: ListEntry, ghost rings: seq<Ring>, ghost i: nat, ghost k: nat)
    requires AllLinked(rings) && Legal(rings, Del(i, k)) && rings[i][k] == listelm
    modifies listelm.prev, listelm.next
    ensures AllLinked(Apply(rings, Del(i, k)))
    ensures old(listelm.prev).next == old(listelm.next) && old(listelm.next).prev == old(listelm.prev)
  {
    assert Linked(rings[i]);
    RemoveElements(rings[i], k);
    assert Joined(rings[i], k) && Joined(rings[i], if k == 0 then |rings[i]| - 1 else k - 1);
    assert listelm.prev in rings[i] && listelm.next in rings[i];
    JoinNeighbours(listelm.prev, listelm.next, rings[i], k);
    forall j | 0 <= j < |rings| && j != i
      ensures Linked(rings[j])
    {
      assert old(listelm.prev) !in rings[j] && old(listelm.next) !in rings[j];
    }
  }

  /** In a ring of more than one, nobody is its own neighbour. */
  lemma OtherNeighbours(r: Ring, k: nat)
    requires Linked(r) && k < |r| && |r| > 1
    ensures r[k].prev != r[k] && r[k].next != r[k]
  {
    var j := if k == 0 then |r| - 1 else k - 1;
    assert Joined(r, k) && Joined(r, j);
    assert r[j] != r[k] && r[After(r, k)] != r[k];
  }

  /** `list_del_init`. */
  method ListDelInit(listelm: ListEntry, ghost rings: seq<Ring>, ghost i: nat, ghost k: nat)
    requires AllLinked(rings) && Legal(rings, DelInit(i, k)) && rings[i][k] == listelm
    modifies listelm, listelm.prev, listelm.next
    ensures AllLinked(Apply(rings, DelInit(i, k)))
    ensures listelm.next == listelm && listelm.prev == listelm
    ensures |rings[i]| > 1 ==>
      old(listelm.prev).next == old(listelm.next) && old(listelm.next).prev == old(listelm.prev)
  {
    assert Linked(rings[i]);
    RemoveElements(rings[i], k);
    if |rings[i]| > 1 { OtherNeighbours(rings[i], k); }
    ListDel(listelm, rings, i, k);
    ghost var left := Apply(rings, Del(i, k));
    assert |rings[i]| == 1 ==> [listelm] == rings[i];
    assert listelm in rings[i];
    forall j {:trigger listelm in left[j]} | 0 <= j < |left| && |rings[i]| > 1
      ensures listelm !in left[j]
    {
      assert j != i ==> left[j] == rings[j];
    }
    ListInit(listelm, left);
  }

  predicate ListEmpty(list: ListEntry)
    reads list
  {
    list.next == list
  }

  lemma EmptyIff(r: Ring)
    requires Linked(r)
    ensures ListEmpty(r[0]) <==> |r| == 1
  {
    assert Joined(r, 0);
    assert |r| > 1 ==> r[0] != r[1];
  }

  // ----- reading ------------------------------------------------------------------------------------------------

  /** Following `next` from the head until it comes back. */
  method Forward(head: ListEntry, ghost r: Ring) returns (s: seq<ListEntry>)
    requires Linked(r) && r[0] == head
    ensures s == r
  {
    s := [head];
    var e := head.next;
    assert Joined(r, 0);
    while e != head
      invariant 1 <= |s| <= |r| && s == r[..|s|] && e == r[After(r, |s| - 1)]
      invariant e == head <==> |s| == |r|
      decreases |r| - |s|
    {
      s := s + [e];
      assert Joined(r, |s| - 1);
      e := e.next;
    }
  }

  function Reversed(r: Ring): Ring {
    if r == [] then [] else [r[|r| - 1]] + Reversed(r[..|r| - 1])
  }

  /** Following `prev` from the head: the head, then the others from the last to the first. */
  method Backward(head: ListEntry, ghost r: Ring) returns (s: seq<ListEntry>)
    requires Linked(r) && r[0] == head
    ensures s == [head] + Reversed(r[1..])
  {
    s := [head];
    assert Joined(r, |r| - 1);
    var e := head.prev;
    ghost var n := |r|;
    assert r[1..n] == r[1..];
    while e != head
      invariant 1 <= n <= |r| && e == r[n - 1]
      invariant e == head <==> n == 1
      invariant [head] + Reversed(r[1..]) == s + Reversed(r[1..n])
      decreases n
    {
      assert n > 1 && r[1..n][..n - 2] == r[1..n - 1];
      assert Joined(r, n - 2);
      s := s + [e];
      e := e.prev;
      n := n - 1;
    }
  }

  /** A ring may be read from any of its entries. */
  lemma Rotated(r: Ring, k: nat)
    requires Linked(r) && k < |r|
    ensures Linked(r[k..] + r[..k])
  {
    var s := r[k..] + r[..k];
    forall i | 0 <= i < |s|
      ensures Joined(s, i)
    {
      assert Joined(r, if i < |r| - k then i + k else i - (|r| - k));
    }
  }

  // ----- whole runs ---------------------------------------------------------------------------------------------

  ghost predicate LegalRun(rings: seq<Ring>, ops: seq<Op>)
    decreases |ops|
  {
    ops == [] || (Legal(rings, ops[0]) && LegalRun(Apply(rings, ops[0]), ops[1..]))
  }

  ghost function Run(rings: seq<Ring>, ops: seq<Op>): seq<Ring>
    requires LegalRun(rings, ops)
    decreases |ops|
  {
    if ops == [] then rings else Run(Apply(rings, ops[0]), ops[1..])
  }

  /** The one entry that an operation brings in or takes out. */
  ghost function Subject(rings: seq<Ring>, op: Op): ListEntry
    requires Legal(rings, op)
  {
    match op
    case Init(e) => e
    case AddBefore(_, _, e) => e
    case AddAfter(_, _, e) => e
    case Del(i, k) => rings[i][k]
    case DelInit(i, k) => rings[i][k]
  }

  // ----- whole runs on linked memory ----------------------------------------------------------------------------

  /** A call as a program makes it: by entries, not by places. */
  datatype Call =
    | CallInit(elm: ListEntry)
    | CallAddBefore(listelm: ListEntry, elm: ListEntry)
    | CallAddAfter(listelm: ListEntry, elm: ListEntry)
    | CallDel(listelm: ListEntry)
    | CallDelInit(listelm: ListEntry)

  /** `call` is `op`, with the entry at the place that `op` names. */
  ghost predicate Does(rings: seq<Ring>, call: Call, op: Op) {
    Legal(rings, op) &&
    match op
    case Init(e) => call == CallInit(e)
    case AddBefore(i, k, e) => call == CallAddBefore(rings[i][k], e)
    case AddAfter(i, k, e) => call == CallAddAfter(rings[i][k], e)
    case Del(i, k) => call == CallDel(rings[i][k])
    case DelInit(i, k) => call == CallDelInit(rings[i][k])
  }

  ghost predicate RunDoes(rings: seq<Ring>, calls: seq<Call>, ops: seq<Op>)
    decreases |ops|
  {
    |calls| == |ops| &&
    (ops == [] || (Does(rings, calls[0], ops[0]) && RunDoes(Apply(rings, ops[0]), calls[1..], ops[1..])))
  }

  /** All entries concerned are in `all`. */
  ghost predicate Within(rings: seq<Ring>, all: set<ListEntry>) {
    forall i, e {:trigger e in rings[i]} :: 0 <= i < |rings| && e in rings[i] ==> e in all
  }

  ghost predicate CallsWithin(calls: seq<Call>, all: set<ListEntry>) {
    forall c {:trigger c in calls} :: c in calls ==>
      (c.CallInit? || c.CallAddBefore? || c.CallAddAfter? ==> c.elm in all)
  }

  lemma ApplyWithin(rings: seq<Ring>, op: Op, all: set<ListEntry>)
    requires Legal(rings, op) && Within(rings, all) && Subject(rings, op) in all
    ensures Within(Apply(rings, op), all)
  {
    match op
    case Init(e) =>
    case AddBefore(i, k, e) => InsertElements(rings[i], if k == 0 then |rings[i]| else k, e);
    case AddAfter(i, k, e) => InsertElements(rings[i], k + 1, e);
    case Del(i, k) => RemoveSubset(rings[i], k);
    case DelInit(i, k) => RemoveSubset(rings[i], k);
  }

  lemma RemoveSubset(r: Ring, k: nat)
    requires k < |r|
    ensures forall x :: x in RemoveAt(r, k) ==> x in r
  {
  }

  lemma Neighbours(rings: seq<Ring>, i: nat, k: nat, all: set<ListEntry>)
    requires AllLinked(rings) && Within(rings, all) && i < |rings| && k < |rings[i]|
    ensures rings[i][k] in all && rings[i][k].next in all && rings[i][k].prev in all
  {
    var r := rings[i];
    assert Linked(r);
    assert Joined(r, k) && Joined(r, if k == 0 then |r| - 1 else k - 1);
    assert r[k] in r && r[k].next in r && r[k].prev in r;
  }

  /** One call, on whatever ring it is made. */
  method RunOne(call: Call, ghost rings: seq<Ring>, ghost op: Op, ghost all: set<ListEntry>)
    requires AllLinked(rings) && Does(rings, call, op) && Within(rings, all) && Subject(rings, op) in all
    modifies all
    ensures AllLinked(Apply(rings, op)) && Within(Apply(rings, op), all)
  {
    ApplyWithin(rings, op, all);
    match call
    case CallInit(elm) =>
      assert elm in [elm];
      ListInit(elm, rings);
    case CallAddBefore(listelm, elm) =>
      Neighbours(rings, op.i, op.k, all);
      ListAddBefore(listelm, elm, rings, op.i, op.k);
    case CallAddAfter(listelm, elm) =>
      Neighbours(rings, op.i, op.k, all);
      ListAddAfter(listelm, elm, rings, op.i, op.k);
    case CallDel(listelm) =>
      Neighbours(rings, op.i, op.k, all);
      ListDel(listelm, rings, op.i, op.k);
    case CallDelInit(listelm) =>
      Neighbours(rings, op.i, op.k, all);
      ListDelInit(listelm, rings, op.i, op.k);
  }

  /** Any list of calls, made one after the other: the links are then those of the rings that the run comes to. */
  method RunAll(calls: seq<Call>, ghost rings: seq<Ring>, ghost ops: seq<Op>, ghost all: set<ListEntry>)
    requires AllLinked(rings) && RunDoes(rings, calls, ops) && Within(rings, all) && CallsWithin(calls, all)
    modifies all
    ensures LegalRun(rings, ops) && AllLinked(Run(rings, ops)) && Within(Run(rings, ops), all)
    decreases |calls|
  {
    if calls != [] {
      assert calls[0] in calls;
      SubjectWithin(rings, calls[0], ops[0], all);
      RunOne(calls[0], rings, ops[0], all);
      assert forall c :: c in calls[1..] ==> c in calls;
      RunAll(calls[1..], Apply(rings, ops[0]), ops[1..], all);
    }
  }

  lemma SubjectWithin(rings: seq<Ring>, call: Call, op: Op, all: set<ListEntry>)
    requires Does(rings, call, op) && Within(rings, all) && CallsWithin([call], all)
    ensures Subject(rings, op) in all
  {
    assert call in [call];
    match op
    case Del(i, k) => assert rings[i][k] in rings[i];
    case DelInit(i, k) => assert rings[i][k] in rings[i];
    case _ =>
  }

  lemma WithinAt(rings: seq<Ring>, all: set<ListEntry>)
    requires Within(rings, all)
    ensures forall i, k :: 0 <= i < |rings| && 0 <= k < |rings[i]| ==> rings[i][k] in all
  {
    forall i, k | 0 <= i < |rings| && 0 <= k < |rings[i]|
      ensures rings[i][k] in all
    {
      assert rings[i][k] in rings[i];
    }
  }

  /**
   * After any list of calls, following `next` from the head of any ring reads that ring as the operations left it, and
   * following `prev` reads its others in reverse.
   */
  method RunAndRead(calls: seq<Call>, head: ListEntry, ghost rings: seq<Ring>, ghost ops: seq<Op>,
                    ghost all: set<ListEntry>, ghost i: nat)
    returns (forward: seq<ListEntry>, backward: seq<ListEntry>)
    requires AllLinked(rings) && RunDoes(rings, calls, ops) && Within(rings, all) && CallsWithin(calls, all)
    requires LegalRun(rings, ops) && i < |Run(rings, ops)| && Run(rings, ops)[i] != [] && Run(rings, ops)[i][0] == head
    modifies all
    ensures AllLinked(Run(rings, ops))
    ensures forward == Run(rings, ops)[i] && backward == [head] + Reversed(Run(rings, ops)[i][1..])
  {
    RunAll(calls, rings, ops, all);
    ghost var after := Run(rings, ops);
    assert Linked(after[i]);
    WithinAt(after, all);
    forward := Forward(head, after[i]);
    backward := Backward(head, after[i]);
  }
}
