/** Skew heaps on linked entries: merge, insert and remove, their order and their amortised cost. */
module SkewHeap {
  import opened Bits
  import opened LinkedTree

  type Compare = (Entry, Entry) -> int

  // ----- the heap as a value ------------------------------------------------------------------------------------

  /** The first argument stays on top just when the comparator says -1. */
  predicate Less(comp: Compare, x: Entry, y: Entry) {
    comp(x, y) == -1
  }

  function Merge(t: Tree, u: Tree, comp: Compare): Tree
    decreases Count(t) + Count(u)
  {
    if t.Leaf? then u
    else if u.Leaf? then t
    else if Less(comp, t.entry, u.entry) then Node(Merge(t.right, u, comp), t.entry, t.left)
    else Node(Merge(t, u.right, comp), u.entry, u.left)
  }

  function Single(e: Entry): Tree {
    Node(Leaf, e, Leaf)
  }

  /** The tree after `skew_heap_remove` of `b`. */
  function Removed(t: Tree, b: Entry, comp: Compare): Tree {
    var s := Subtree(t, b);
    if s.Leaf? then t else Replace(t, b, Merge(s.left, s.right, comp))
  }

  // ----- contents -----------------------------------------------------------------------------------------------

  lemma {:induction false} MergeEntries(t: Tree, u: Tree, comp: Compare)
    requires Distinct(t) && Distinct(u) && Entries(t) !! Entries(u)
    ensures Distinct(Merge(t, u, comp)) && Entries(Merge(t, u, comp)) == Entries(t) + Entries(u)
    ensures Count(Merge(t, u, comp)) == Count(t) + Count(u)
    decreases Count(t) + Count(u)
  {
    if t.Node? && u.Node? {
      if Less(comp, t.entry, u.entry) { MergeEntries(t.right, u, comp); } else { MergeEntries(t, u.right, comp); }
    }
  }

  lemma RemovedEntries(t: Tree, b: Entry, comp: Compare)
    requires Distinct(t) && b in Entries(t)
    ensures Distinct(Removed(t, b, comp)) && Entries(Removed(t, b, comp)) == Entries(t) - {b}
  {
    SubtreeIs(t, b);
    var s := Subtree(t, b);
    MergeEntries(s.left, s.right, comp);
    ReplaceEntries(t, b, Merge(s.left, s.right, comp));
  }

  // ----- order --------------------------------------------------------------------------------------------------

  predicate Leq(comp: Compare, x: Entry, y: Entry) {
    !Less(comp, y, x)
  }

  /** Among the entries in `es`, `comp` is a total preorder. */
  ghost predicate Preorder(comp: Compare, es: set<Entry>) {
    && (forall x, y {:trigger Leq(comp, x, y)} :: x in es && y in es ==> Leq(comp, x, y) || Leq(comp, y, x))
    && (forall x, y, z {:trigger Leq(comp, x, y), Leq(comp, y, z)} ::
          x in es && y in es && z in es && Leq(comp, x, y) && Leq(comp, y, z) ==> Leq(comp, x, z))
  }

  ghost predicate BelowAll(comp: Compare, e: Entry, es: set<Entry>) {
    forall x {:trigger Leq(comp, e, x)} :: x in es ==> Leq(comp, e, x)
  }

  /** Every entry comes before all that hang below it. */
  ghost predicate HeapOrdered(t: Tree, comp: Compare) {
    match t
    case Leaf => true
    case Node(l, e, r) =>
      HeapOrdered(l, comp) && HeapOrdered(r, comp) && BelowAll(comp, e, Entries(l)) && BelowAll(comp, e, Entries(r))
  }

  lemma BelowThrough(comp: Compare, e: Entry, u: Tree, es: set<Entry>)
    requires u.Node? && HeapOrdered(u, comp) && Preorder(comp, es) && e in es && Entries(u) <= es
    requires !Less(comp, u.entry, e)
    ensures BelowAll(comp, e, Entries(u))
  {
    assert Leq(comp, e, u.entry);
    forall x | x in Entries(u)
      ensures Leq(comp, e, x)
    {
      assert x != u.entry ==> Leq(comp, u.entry, x);
    }
  }

  lemma {:induction false} MergeOrdered(t: Tree, u: Tree, comp: Compare)
    requires Distinct(t) && Distinct(u) && Entries(t) !! Entries(u)
    requires HeapOrdered(t, comp) && HeapOrdered(u, comp) && Preorder(comp, Entries(t) + Entries(u))
    ensures HeapOrdered(Merge(t, u, comp), comp)
    decreases Count(t) + Count(u)
  {
    if t.Node? && u.Node? {
      if Less(comp, t.entry, u.entry) {
        MergeOrdered(t.right, u, comp);
        MergeEntries(t.right, u, comp);
        assert Leq(comp, t.entry, u.entry) || Leq(comp, u.entry, t.entry);
        BelowThrough(comp, t.entry, u, Entries(t) + Entries(u));
      } else {
        MergeOrdered(t, u.right, comp);
        MergeEntries(t, u.right, comp);
        BelowThrough(comp, u.entry, t, Entries(t) + Entries(u));
      }
    }
  }

  lemma {:induction false} SubtreeOrdered(t: Tree, b: Entry, comp: Compare)
    requires HeapOrdered(t, comp) && b in Entries(t)
    ensures HeapOrdered(Subtree(t, b), comp)
  {
    if t.entry != b {
      if b in Entries(t.left) { SubtreeOrdered(t.left, b, comp); } else { SubtreeOrdered(t.right, b, comp); }
    }
  }

  lemma {:induction false} ReplaceOrdered(t: Tree, b: Entry, s: Tree, comp: Compare)
    requires Distinct(t) && Distinct(s) && b in Entries(t) && HeapOrdered(t, comp) && HeapOrdered(s, comp)
    requires Entries(s) <= Entries(Subtree(t, b))
    ensures HeapOrdered(Replace(t, b, s), comp)
  {
    SubtreeIs(t, b);
    if t.entry != b {
      var side := if b in Entries(t.left) then t.left else t.right;
      var other := if b in Entries(t.left) then t.right else t.left;
      SubtreeIs(side, b);
      ReplaceOrdered(side, b, s, comp);
      ReplaceEntries(side, b, s);
      ReplaceOutside(other, b, s);
    }
  }

  lemma RemovedOrdered(t: Tree, b: Entry, comp: Compare)
    requires Distinct(t) && b in Entries(t) && HeapOrdered(t, comp) && Preorder(comp, Entries(t))
    ensures HeapOrdered(Removed(t, b, comp), comp)
  {
    SubtreeIs(t, b);
    SubtreeOrdered(t, b, comp);
    var s := Subtree(t, b);
    MergeEntries(s.left, s.right, comp);
    MergeOrdered(s.left, s.right, comp);
    ReplaceOrdered(t, b, Merge(s.left, s.right, comp), comp);
  }

  /** Removing the root merges what hung below it. */
  lemma RootRemoved(t: Tree, comp: Compare)
    requires Distinct(t) && t.Node?
    ensures Removed(t, t.entry, comp) == Merge(t.left, t.right, comp)
    ensures Count(Removed(t, t.entry, comp)) == Count(t) - 1 && Distinct(Removed(t, t.entry, comp))
  {
    MergeEntries(t.left, t.right, comp);
  }

  /** The entries in the order in which repeatedly removing the root yields them. */
  function Drained(t: Tree, comp: Compare): seq<Entry>
    requires Distinct(t)
    decreases Count(t)
  {
    if t.Leaf? then []
    else
      RootRemoved(t, comp);
      [t.entry] + Drained(Removed(t, t.entry, comp), comp)
  }

  ghost predicate Sorted(s: seq<Entry>, comp: Compare) {
    forall i, j {:trigger Leq(comp, s[i], s[j])} :: 0 <= i < j < |s| ==> Leq(comp, s[i], s[j])
  }

  lemma ConsSorted(e: Entry, rest: seq<Entry>, es: set<Entry>, comp: Compare)
    requires Sorted(rest, comp) && multiset(rest) == multiset(es) && e !in es && BelowAll(comp, e, es)
    ensures Sorted([e] + rest, comp) && multiset([e] + rest) == multiset(es + {e})
  {
    var s := [e] + rest;
    forall i, j | 0 <= i < j < |s|
      ensures Leq(comp, s[i], s[j])
    {
      assert rest[j - 1] in multiset(rest);
      if i > 0 { assert Leq(comp, rest[i - 1], rest[j - 1]); }
    }
    assert multiset(s) == multiset{e} + multiset(rest);
    assert multiset(es + {e}) == multiset(es) + multiset{e};
  }

  /** Draining a heap sorts it: every entry once, each one before all later ones. */
  lemma {:induction false} DrainedSorted(t: Tree, comp: Compare)
    requires Distinct(t) && HeapOrdered(t, comp) && Preorder(comp, Entries(t))
    ensures Sorted(Drained(t, comp), comp) && multiset(Drained(t, comp)) == multiset(Entries(t))
    decreases Count(t)
  {
    hide Removed, HeapOrdered, Sorted, Preorder, BelowAll, Distinct, Entries, Drained, Merge;
    DrainedNext(t, comp);
    if t.Node? {
      var u := Removed(t, t.entry, comp);
      RootFirst(t, comp);
      RootRemoved(t, comp);
      RemovedEntries(t, t.entry, comp);
      RemovedOrdered(t, t.entry, comp);
      PreorderWithin(comp, Entries(t), Entries(u));
      DrainedSorted(u, comp);
      ConsSorted(t.entry, Drained(u, comp), Entries(u), comp);
      assert Entries(t) - {t.entry} + {t.entry} == Entries(t);
    } else {
      NoneSorted(comp);
    }
  }

  lemma DrainedNext(t: Tree, comp: Compare)
    requires Distinct(t)
    ensures t.Leaf? ==> Drained(t, comp) == [] && Entries(t) == {}
    ensures t.Node? ==> t.entry in Entries(t) && Distinct(Removed(t, t.entry, comp))
    ensures t.Node? ==> Drained(t, comp) == [t.entry] + Drained(Removed(t, t.entry, comp), comp)
  {
    if t.Node? { RootRemoved(t, comp); }
  }

  lemma PreorderWithin(comp: Compare, all: set<Entry>, es: set<Entry>)
    requires Preorder(comp, all) && es <= all
    ensures Preorder(comp, es)
  {
  }

  lemma RootFirst(t: Tree, comp: Compare)
    requires t.Node? && Distinct(t) && HeapOrdered(t, comp)
    ensures BelowAll(comp, t.entry, Entries(t) - {t.entry})
  {
  }

  lemma NoneSorted(comp: Compare)
    ensures Sorted([], comp)
  {
  }

  // ----- keys ---------------------------------------------------------------------------------------------------

  /** The comparator compares the integer keys of the entries in `es`, and says -1, 0 or 1. */
  ghost predicate ByKey(comp: Compare, key: Entry -> int, es: set<Entry>) {
    forall x, y {:trigger comp(x, y)} :: x in es && y in es ==>
      comp(x, y) == if key(x) < key(y) then -1 else if key(x) == key(y) then 0 else 1
  }

  ghost predicate LeastKey(e: Entry, es: set<Entry>, key: Entry -> int) {
    forall x :: x in es ==> key(e) <= key(x)
  }

  /** Every entry's key is at most all keys below it. */
  ghost predicate KeyHeap(t: Tree, key: Entry -> int) {
    t.Leaf? || (KeyHeap(t.left, key) && KeyHeap(t.right, key) && LeastKey(t.entry, Entries(t), key))
  }

  ghost predicate Ascending(s: seq<Entry>, key: Entry -> int) {
    forall i, j :: 0 <= i < j < |s| ==> key(s[i]) <= key(s[j])
  }

  lemma LeqIsKey(comp: Compare, key: Entry -> int, es: set<Entry>, x: Entry, y: Entry)
    requires ByKey(comp, key, es) && x in es && y in es
    ensures Leq(comp, x, y) <==> key(x) <= key(y)
  {
  }

  lemma KeyPreorder(comp: Compare, key: Entry -> int, es: set<Entry>)
    requires ByKey(comp, key, es)
    ensures Preorder(comp, es)
  {
    hide Leq, ByKey;
    forall x, y | x in es && y in es
      ensures Leq(comp, x, y) <==> key(x) <= key(y)
    {
      LeqIsKey(comp, key, es, x, y);
    }
  }

  lemma {:induction false} KeyHeapIff(t: Tree, comp: Compare, key: Entry -> int, es: set<Entry>)
    requires ByKey(comp, key, es) && Entries(t) <= es
    ensures KeyHeap(t, key) <==> HeapOrdered(t, comp)
  {
    hide Leq, ByKey;
    if t.Node? {
      KeyHeapIff(t.left, comp, key, es);
      KeyHeapIff(t.right, comp, key, es);
      forall x | x in Entries(t)
        ensures Leq(comp, t.entry, x) <==> key(t.entry) <= key(x)
      {
        LeqIsKey(comp, key, es, t.entry, x);
      }
    }
  }

  /** After a merge of heaps in which smaller keys are above, they still are, and the root has the least key of all. */
  lemma MergeLeast(t: Tree, u: Tree, comp: Compare, key: Entry -> int, m: Entry?)
    requires ByKey(comp, key, Entries(t) + Entries(u)) && KeyHeap(t, key) && KeyHeap(u, key)
    requires Distinct(t) && Distinct(u) && Entries(t) !! Entries(u) && Hangs(Merge(t, u, comp), m)
    ensures KeyHeap(Merge(t, u, comp), key) && (m != null ==> LeastKey(m, Entries(t) + Entries(u), key))
  {
    hide ByKey;
    var es := Entries(t) + Entries(u);
    KeyPreorder(comp, key, es);
    KeyHeapIff(t, comp, key, es);
    KeyHeapIff(u, comp, key, es);
    MergeOrdered(t, u, comp);
    MergeEntries(t, u, comp);
    KeyHeapIff(Merge(t, u, comp), comp, key, es);
  }

  /** Draining yields the keys in ascending order. */
  lemma DrainedAscends(t: Tree, comp: Compare, key: Entry -> int)
    requires ByKey(comp, key, Entries(t)) && KeyHeap(t, key) && Distinct(t)
    ensures Ascending(Drained(t, comp), key) && multiset(Drained(t, comp)) == multiset(Entries(t))
  {
    hide Leq, ByKey, Drained;
    KeyPreorder(comp, key, Entries(t));
    KeyHeapIff(t, comp, key, Entries(t));
    DrainedSorted(t, comp);
    var s := Drained(t, comp);
    forall i, j | 0 <= i < j < |s|
      ensures key(s[i]) <= key(s[j])
    {
      assert Leq(comp, s[i], s[j]);
      assert s[i] in multiset(s) && s[j] in multiset(s);
      LeqIsKey(comp, key, Entries(t), s[i], s[j]);
    }
  }

  // ----- amortised cost -----------------------------------------------------------------------------------------

  /** How many times `skew_heap_merge` compares, which is how many nodes it rewrites. */
  function Steps(t: Tree, u: Tree, comp: Compare): nat
    decreases Count(t) + Count(u)
  {
    if t.Leaf? || u.Leaf? then 0
    else 1 + if Less(comp, t.entry, u.entry) then Steps(t.right, u, comp) else Steps(t, u.right, comp)
  }

  function RightAt(t: Tree, i: nat): Tree
    decreases i
  {
    if i == 0 || t.Leaf? then t else RightAt(t.right, i - 1)
  }

  function LeftAt(t: Tree, i: nat): Tree
    decreases i
  {
    if i == 0 || t.Leaf? then t else LeftAt(t.left, i - 1)
  }

  /** The number of nodes reached from the root by going right. */
  function RightSpine(t: Tree): nat {
    if t.Leaf? then 0 else 1 + RightSpine(t.right)
  }

  /**
   * The steps are the nodes rewritten: `i` nodes from the top of one right spine and `j` from that of the other, until
   * one spine is used up; they become the top of the left spine, and what is left of the other tree follows them.
   */
  lemma {:induction false} StepsAre(t: Tree, u: Tree, comp: Compare) returns (i: nat, j: nat)
    ensures Steps(t, u, comp) == i + j && i <= RightSpine(t) && j <= RightSpine(u)
    ensures var rest := LeftAt(Merge(t, u, comp), i + j);
      || (i == RightSpine(t) && rest == RightAt(u, j))
      || (j == RightSpine(u) && rest == RightAt(t, i))
    decreases Count(t) + Count(u)
  {
    if t.Leaf? || u.Leaf? {
      i, j := 0, 0;
    } else if Less(comp, t.entry, u.entry) {
      i, j := StepsAre(t.right, u, comp);
      i := i + 1;
    } else {
      i, j := StepsAre(t, u.right, comp);
      j := j + 1;
    }
  }

  /** The right subtree has more than half of the nodes. */
  predicate RightHeavy(t: Tree)
    requires t.Node?
  {
    2 * Count(t.right) > Count(t)
  }

  /** The potential: the number of right-heavy nodes. */
  function Potential(t: Tree): nat {
    if t.Leaf? then 0 else Potential(t.left) + Potential(t.right) + if RightHeavy(t) then 1 else 0
  }

  /** The nodes on the right spine that are not right-heavy. */
  function Light(t: Tree): nat {
    if t.Leaf? then 0 else Light(t.right) + if RightHeavy(t) then 0 else 1
  }

  function Log2(n: nat): nat
    requires n >= 1
  {
    if n == 1 then 0 else 1 + Log2(n / 2)
  }

  lemma {:induction false} Log2Is(n: nat)
    requires n >= 1
    ensures Pow2(Log2(n)) <= n < 2 * Pow2(Log2(n))
  {
    if n > 1 { Log2Is(n / 2); }
  }

  lemma {:induction false} Log2Grows(m: nat, n: nat)
    requires 1 <= m <= n
    ensures Log2(m) <= Log2(n)
  {
    if m > 1 { Log2Grows(m / 2, n / 2); }
  }

  /** Past a light node at most half of the nodes are left. */
  lemma {:induction false} LightBound(t: Tree)
    requires t.Node?
    ensures Light(t) <= Log2(Count(t)) + 1
  {
    if t.right.Node? {
      LightBound(t.right);
      if RightHeavy(t) {
        Log2Grows(Count(t.right), Count(t));
      } else {
        Log2Grows(Count(t.right), Count(t) / 2);
      }
    }
  }

  lemma {:induction false} MergeCount(t: Tree, u: Tree, comp: Compare)
    ensures Count(Merge(t, u, comp)) == Count(t) + Count(u)
    decreases Count(t) + Count(u)
  {
    if t.Node? && u.Node? {
      if Less(comp, t.entry, u.entry) { MergeCount(t.right, u, comp); } else { MergeCount(t, u.right, comp); }
    }
  }

  lemma {:induction false} MergeLightCost(t: Tree, u: Tree, comp: Compare)
    ensures Steps(t, u, comp) + Potential(Merge(t, u, comp)) <= Potential(t) + Potential(u) + 2 * (Light(t) + Light(u))
    decreases Count(t) + Count(u)
  {
    if t.Node? && u.Node? {
      if Less(comp, t.entry, u.entry) {
        MergeLightCost(t.right, u, comp);
        MergeCount(t.right, u, comp);
      } else {
        MergeLightCost(t, u.right, comp);
        MergeCount(t, u.right, comp);
      }
    }
  }

  /** Merging costs, amortised, a logarithm of each size. */
  lemma MergeAmortised(t: Tree, u: Tree, comp: Compare)
    requires t.Node? && u.Node?
    ensures Steps(t, u, comp) + Potential(Merge(t, u, comp)) - Potential(t) - Potential(u)
            <= 2 * (Log2(Count(t)) + Log2(Count(u)) + 2)
  {
    MergeLightCost(t, u, comp);
    LightBound(t);
    LightBound(u);
  }

  // ----- whole runs ---------------------------------------------------------------------------------------------

  datatype Op = Insert(entry: Entry) | Remove(entry: Entry)

  /** What the callers keep to: no entry is in the heap twice, and only entries in it are removed. */
  predicate Legal(t: Tree, op: Op) {
    if op.Insert? then op.entry !in Entries(t) else op.entry in Entries(t)
  }

  function Apply(t: Tree, op: Op, comp: Compare): Tree {
    match op
    case Insert(e) => Merge(t, Single(e), comp)
    case Remove(e) => Removed(t, e, comp)
  }

  function Cost(t: Tree, op: Op, comp: Compare): nat {
    match op
    case Insert(e) => Steps(t, Single(e), comp)
    case Remove(e) => var s := Subtree(t, e); if s.Leaf? then 0 else Steps(s.left, s.right, comp)
  }

  predicate LegalRun(t: Tree, ops: seq<Op>, comp: Compare)
    decreases |ops|
  {
    ops == [] || (Legal(t, ops[0]) && LegalRun(Apply(t, ops[0], comp), ops[1..], comp))
  }

  function Run(t: Tree, ops: seq<Op>, comp: Compare): Tree
    decreases |ops|
  {
    if ops == [] then t else Run(Apply(t, ops[0], comp), ops[1..], comp)
  }

  function RunCost(t: Tree, ops: seq<Op>, comp: Compare): nat
    decreases |ops|
  {
    if ops == [] then 0 else Cost(t, ops[0], comp) + RunCost(Apply(t, ops[0], comp), ops[1..], comp)
  }

  /** What is in the heap after a run, by the operations alone. */
  function Contents(es: set<Entry>, ops: seq<Op>): set<Entry>
    decreases |ops|
  {
    if ops == [] then es
    else Contents(if ops[0].Insert? then es + {ops[0].entry} else es - {ops[0].entry}, ops[1..])
  }

  /** After any run of inserts and removals the heap holds what it should, once each, in heap order. */
  lemma {:induction false} RunKeepsHeap(t: Tree, ops: seq<Op>, comp: Compare, all: set<Entry>)
    requires Distinct(t) && HeapOrdered(t, comp) && LegalRun(t, ops, comp)
    requires Preorder(comp, all) && Entries(t) <= all && forall op :: op in ops ==> op.entry in all
    ensures var u := Run(t, ops, comp); Distinct(u) && HeapOrdered(u, comp) && Entries(u) == Contents(Entries(t), ops)
    decreases |ops|
  {
    if ops != [] {
      var e := ops[0].entry;
      if ops[0].Insert? {
        assert Entries(Single(e)) == {e};
        MergeEntries(t, Single(e), comp);
        MergeOrdered(t, Single(e), comp);
      } else {
        RemovedEntries(t, e, comp);
        RemovedOrdered(t, e, comp);
      }
      RunKeepsHeap(Apply(t, ops[0], comp), ops[1..], comp, all);
    }
  }

  function EntriesOf(ops: seq<Op>): set<Entry> {
    set op | op in ops :: op.entry
  }

  /** After any run from the empty heap the root has the least of all keys. */
  lemma RunLeast(ops: seq<Op>, comp: Compare, key: Entry -> int, m: Entry?)
    requires ByKey(comp, key, EntriesOf(ops)) && LegalRun(Leaf, ops, comp) && Hangs(Run(Leaf, ops, comp), m)
    ensures KeyHeap(Run(Leaf, ops, comp), key) && (m != null ==> LeastKey(m, Contents({}, ops), key))
  {
    hide ByKey, Run, LegalRun, Contents, HeapOrdered, Preorder;
    var all, t := EntriesOf(ops), Run(Leaf, ops, comp);
    KeyPreorder(comp, key, all);
    NothingOrdered(comp);
    RunKeepsHeap(Leaf, ops, comp, all);
    ContentsWithin({}, ops, all);
    KeyHeapIff(t, comp, key, all);
  }

  lemma NothingOrdered(comp: Compare)
    ensures HeapOrdered(Leaf, comp)
  {
  }

  lemma {:induction false} ContentsWithin(es: set<Entry>, ops: seq<Op>, all: set<Entry>)
    requires es <= all && EntriesOf(ops) <= all
    ensures Contents(es, ops) <= all
    decreases |ops|
  {
    if ops != [] {
      assert ops[0] in ops && EntriesOf(ops[1..]) <= EntriesOf(ops);
      ContentsWithin(if ops[0].Insert? then es + {ops[0].entry} else es - {ops[0].entry}, ops[1..], all);
    }
  }

  /** After one insert, or the removal of any entry, smaller keys are still above, and the root has the least of all. */
  lemma ApplyLeast(t: Tree, op: Op, comp: Compare, key: Entry -> int, m: Entry?)
    requires ByKey(comp, key, Entries(t) + {op.entry}) && KeyHeap(t, key) && Distinct(t) && Legal(t, op)
    requires Hangs(Apply(t, op, comp), m)
    ensures KeyHeap(Apply(t, op, comp), key)
    ensures m != null ==>
      LeastKey(m, if op.Insert? then Entries(t) + {op.entry} else Entries(t) - {op.entry}, key)
  {
    hide ByKey, Merge, Removed;
    match op
    case Insert(e) =>
      assert Entries(Single(e)) == {e};
      MergeLeast(t, Single(e), comp, key, m);
    case Remove(e) =>
      assert Entries(t) + {e} == Entries(t);
      KeyPreorder(comp, key, Entries(t));
      KeyHeapIff(t, comp, key, Entries(t));
      RemovedOrdered(t, e, comp);
      RemovedEntries(t, e, comp);
      KeyHeapIff(Removed(t, e, comp), comp, key, Entries(t));
  }

  /** A tree's potential is at least that of its parts. */
  lemma PotentialBelow(t: Tree)
    requires t.Node?
    ensures Potential(t.left) + Potential(t.right) <= Potential(t)
  {
  }

  /**
   * Taking one entry out of a subtree makes at most a logarithm of entries above it right-heavy: one can become so only
   * if its right subtree has exactly half of its entries, and then less than half are on the side of the removal.
   */
  lemma {:induction false} PotentialReplace(t: Tree, b: Entry, s: Tree)
    requires Distinct(t) && b in Entries(t) && Count(s) + 1 == Count(Subtree(t, b))
    ensures Count(Replace(t, b, s)) + 1 == Count(t)
    ensures Potential(Replace(t, b, s)) + Potential(Subtree(t, b)) <= Potential(t) + Potential(s) + Log2(Count(t))
  {
    if t.entry != b {
      var side := if b in Entries(t.left) then t.left else t.right;
      ReplaceOutside(if b in Entries(t.left) then t.right else t.left, b, s);
      PotentialReplace(side, b, s);
      if 2 * Count(t.right) == Count(t) && side == t.left {
        Log2Grows(Count(side), Count(t) / 2);
      } else {
        Log2Grows(Count(side), Count(t));
      }
    }
  }

  lemma InsertAmortised(t: Tree, e: Entry, comp: Compare, n: nat)
    requires Count(t) <= n && 1 <= n
    ensures var op := Insert(e); Cost(t, op, comp) + Potential(Apply(t, op, comp)) <= Potential(t) + 5 * Log2(n) + 4
  {
    if t.Node? {
      MergeAmortised(t, Single(e), comp);
      Log2Grows(Count(t), n);
    }
  }

  lemma RemoveAmortised(t: Tree, e: Entry, comp: Compare, n: nat)
    requires Distinct(t) && e in Entries(t) && Count(t) <= n
    ensures var op := Remove(e); Cost(t, op, comp) + Potential(Apply(t, op, comp)) <= Potential(t) + 5 * Log2(n) + 4
  {
    SubtreeIs(t, e);
    SubtreeCount(t, e);
    var s := Subtree(t, e);
    MergeCount(s.left, s.right, comp);
    PotentialReplace(t, e, Merge(s.left, s.right, comp));
    PotentialBelow(s);
    Log2Grows(Count(t), n);
    if s.left.Node? && s.right.Node? {
      MergeAmortised(s.left, s.right, comp);
      Log2Grows(Count(s.left), n);
      Log2Grows(Count(s.right), n);
    }
  }

  lemma {:induction false} SubtreeCount(t: Tree, b: Entry)
    ensures Count(Subtree(t, b)) <= Count(t)
  {
    if t.Node? && t.entry != b { SubtreeCount(if b in Entries(t.left) then t.left else t.right, b); }
  }

  lemma ApplyCount(t: Tree, op: Op, comp: Compare)
    requires Distinct(t) && Legal(t, op)
    ensures Distinct(Apply(t, op, comp)) && Count(Apply(t, op, comp)) <= Count(t) + 1
  {
    var e := op.entry;
    if op.Insert? {
      assert Entries(Single(e)) == {e};
      MergeEntries(t, Single(e), comp);
    } else {
      RemovedEntries(t, e, comp);
      SubtreeIs(t, e);
      var s := Subtree(t, e);
      MergeCount(s.left, s.right, comp);
      PotentialReplace(t, e, Merge(s.left, s.right, comp));
    }
  }

  lemma {:induction false} RunAmortised(t: Tree, ops: seq<Op>, comp: Compare, n: nat)
    requires Distinct(t) && LegalRun(t, ops, comp) && Count(t) + |ops| <= n && 1 <= n
    ensures RunCost(t, ops, comp) + Potential(Run(t, ops, comp)) <= Potential(t) + |ops| * (5 * Log2(n) + 4)
    decreases |ops|
  {
    if ops != [] {
      if ops[0].Insert? {
        InsertAmortised(t, ops[0].entry, comp, n);
      } else {
        RemoveAmortised(t, ops[0].entry, comp, n);
      }
      ApplyCount(t, ops[0], comp);
      RunAmortised(Apply(t, ops[0], comp), ops[1..], comp, n);
      assert |ops| * (5 * Log2(n) + 4) == (|ops| - 1) * (5 * Log2(n) + 4) + (5 * Log2(n) + 4);
    }
  }

  /** Any run of n inserts and removals, of whatever entries, from the empty heap takes O(n log n) steps in all. */
  lemma RunBound(ops: seq<Op>, comp: Compare)
    requires ops != [] && LegalRun(Leaf, ops, comp)
    ensures RunCost(Leaf, ops, comp) <= |ops| * (5 * Log2(|ops|) + 4)
  {
    RunAmortised(Leaf, ops, comp, |ops|);
  }

  // ----- the heap in place --------------------------------------------------------------------------------------

  method HeapInit(a: Entry)
    modifies a
    ensures a.parent == a.left == a.right == null && Hangs(Single(a), a)
  {
    a.left := null;
    a.right := null;
    a.parent := null;
  }

  /** Hangs two trees under `p`; the right one has its link to `p` already. */
  method Link(p: Entry, l: Entry?, r: Entry?, ghost tl: Tree, ghost tr: Tree)
    requires Hangs(tl, l) && Hangs(tr, r) && Distinct(Node(tl, p, tr)) && (tr.Node? ==> tr.entry.parent == p)
    modifies p, if l == null then {} else {l}
    ensures Hangs(Node(tl, p, tr), p) && p.parent == old(p.parent)
  {
    p.left := l;
    p.right := r;
    if l != null { l.parent := p; }
  }

  /** `skew_heap_merge`; the link above the new root is left to the caller, as it is in the old one. */
  method MergeHeaps(a: Entry?, b: Entry?, comp: Compare, ghost t: Tree, ghost u: Tree)
    returns (m: Entry?, ghost steps: nat)
    requires Hangs(t, a) && Hangs(u, b) && Distinct(t) && Distinct(u) && Entries(t) !! Entries(u)
    modifies Entries(t) + Entries(u)
    ensures Hangs(Merge(t, u, comp), m) && steps == Steps(t, u, comp)
    ensures m == a || m == b
    ensures m == a != null ==> a.parent == old(a.parent)
    ensures m == b != null ==> b.parent == old(b.parent)
    decreases Count(t) + Count(u)
  {
    if a == null {
      return b, 0;
    } else if b == null {
      return a, 0;
    }
    Exist(t);
    Exist(u);
    var l, r;
    if comp(a, b) == -1 {
      r := a.left;
      l, steps := MergeHeaps(a.right, b, comp, t.right, u);
      MergeEntries(t.right, u, comp);
      Link(a, l, r, Merge(t.right, u, comp), t.left);
      return a, steps + 1;
    } else {
      r := b.left;
      l, steps := MergeHeaps(a, b.right, comp, t, u.right);
      MergeEntries(t, u.right, comp);
      Link(b, l, r, Merge(t, u.right, comp), u.left);
      return b, steps + 1;
    }
  }

  method HeapInsert(a: Entry?, b: Entry, comp: Compare, ghost t: Tree) returns (m: Entry, ghost steps: nat)
    requires Hangs(t, a) && Distinct(t) && b !in Entries(t) && (a != null ==> a.parent == null)
    modifies Entries(t), b
    ensures Hangs(Apply(t, Insert(b), comp), m) && m.parent == null && steps == Cost(t, Insert(b), comp)
  {
    Exist(t);
    HeapInit(b);
    assert Entries(Single(b)) == {b};
    m, steps := MergeHeaps(a, b, comp, t, Single(b));
  }

  /** Merges what hangs below `b` into the tree that takes its place. */
  method MergeChildren(b: Entry, comp: Compare, ghost s: Tree) returns (rep: Entry?, ghost steps: nat)
    requires Hangs(s, b) && Distinct(s)
    modifies Entries(s.left) + Entries(s.right)
    ensures Hangs(Merge(s.left, s.right, comp), rep) && (rep != null ==> rep.parent == b.parent)
    ensures steps == Steps(s.left, s.right, comp) && unchanged(b)
  {
    MergeEntries(s.left, s.right, comp);
    rep, steps := MergeHeaps(b.left, b.right, comp, s.left, s.right);
    if rep != null { rep.parent := b.parent; }
  }

  /** `skew_heap_remove` of any entry of the heap. */
  method HeapRemove(a: Entry?, b: Entry, comp: Compare, ghost t: Tree) returns (m: Entry?, ghost steps: nat)
    requires Hangs(t, a) && Distinct(t) && b in Entries(t) && a.parent == null
    modifies Entries(t)
    ensures Hangs(Apply(t, Remove(b), comp), m) && (m != null ==> m.parent == null)
    ensures steps == Cost(t, Remove(b), comp) && unchanged(b)
  {
    hide Merge, Steps, Distinct, Hung;
    Exist(t);
    ghost var links := Snapshot(Entries(t));
    HangsHung(t, a, links);
    SubtreeIs(t, b);
    SubtreeHangs(t, a, b);
    ghost var s := Subtree(t, b);
    var p := b.parent;
    var rep;
    rep, steps := MergeChildren(b, comp, s);
    if p == null { return rep, steps; }
    ghost var u := Merge(s.left, s.right, comp);
    assert forall e :: e in Entries(t) - Entries(s) ==> links[e] == LinksOf(e);
    MergeEntries(s.left, s.right, comp);
    Lead(p, b, rep, u);
    Spliced(links, t, a, b, p, u, rep);
    m := a;
  }

  /** Makes the child link of `p` that led to `b` lead to `rep`. */
  method Lead(p: Entry, b: Entry, rep: Entry?, ghost u: Tree)
    requires p !in Entries(u) && Hangs(u, rep)
    modifies p
    ensures p.left == if old(p.left) == b then rep else old(p.left)
    ensures p.right == if old(p.left) == b then old(p.right) else rep
    ensures p.parent == old(p.parent) && Hangs(u, rep)
  {
    Exist(u);
    if p.left == b { p.left := rep; } else { p.right := rep; }
  }

  // ----- whole runs in place ------------------------------------------------------------------------------------

  /** The calls that `ops` names, made on a heap one after the other. */
  method RunCalls(a: Entry?, ops: seq<Op>, comp: Compare, ghost t: Tree, ghost all: set<Entry>)
    returns (m: Entry?, ghost steps: nat)
    requires Hangs(t, a) && Distinct(t) && (a != null ==> a.parent == null)
    requires LegalRun(t, ops, comp) && Entries(t) + EntriesOf(ops) <= all
    modifies all
    ensures Hangs(Run(t, ops, comp), m) && (m != null ==> m.parent == null) && steps == RunCost(t, ops, comp)
    decreases |ops|
  {
    hide Merge, Hangs;
    if ops == [] { return a, 0; }
    assert ops[0] in ops;
    var b := ops[0].entry;
    ghost var first, rest;
    if ops[0].Insert? {
      m, first := HeapInsert(a, b, comp, t);
    } else {
      RootOf(t, a, b);
      m, first := HeapRemove(a, b, comp, t);
    }
    ApplyWithin(t, ops[0], comp, all);
    assert EntriesOf(ops[1..]) <= EntriesOf(ops);
    m, rest := RunCalls(m, ops[1..], comp, Apply(t, ops[0], comp), all);
    steps := first + rest;
  }

  lemma RootOf(t: Tree, a: Entry?, b: Entry)
    requires Hangs(t, a) && b in Entries(t)
    ensures a != null
  {
  }

  lemma ApplyWithin(t: Tree, op: Op, comp: Compare, all: set<Entry>)
    requires Distinct(t) && Legal(t, op) && Entries(t) <= all && op.entry in all
    ensures Distinct(Apply(t, op, comp)) && Entries(Apply(t, op, comp)) <= all
  {
    match op
    case Insert(e) =>
      assert Entries(Single(e)) == {e};
      MergeEntries(t, Single(e), comp);
    case Remove(e) => RemovedEntries(t, e, comp);
  }

  /**
   * Any list of calls from the empty heap: the links are those of the run, the calls take O(n log n) steps in all, and
   * if the comparison is a preorder the heap holds what it should, in heap order, with the least key, if it compares
   * keys, at the root.
   */
  method RunFromEmpty(ops: seq<Op>, comp: Compare) returns (m: Entry?, ghost steps: nat)
    requires LegalRun(Leaf, ops, comp)
    modifies EntriesOf(ops)
    ensures Hangs(Run(Leaf, ops, comp), m) && (ops != [] ==> steps <= |ops| * (5 * Log2(|ops|) + 4))
    ensures Preorder(comp, EntriesOf(ops)) ==>
      var t := Run(Leaf, ops, comp); Distinct(t) && HeapOrdered(t, comp) && Entries(t) == Contents({}, ops)
    ensures forall key {:trigger ByKey(comp, key, EntriesOf(ops))} ::
      ByKey(comp, key, EntriesOf(ops)) && m != null ==> LeastKey(m, Contents({}, ops), key)
  {
    hide Hangs, Preorder, HeapOrdered, ByKey, LeastKey;
    EmptyHangs(comp);
    m, steps := RunCalls(null, ops, comp, Leaf, EntriesOf(ops));
    if Preorder(comp, EntriesOf(ops)) { RunKeepsHeap(Leaf, ops, comp, EntriesOf(ops)); }
    if ops != [] { RunBound(ops, comp); }
    forall key | ByKey(comp, key, EntriesOf(ops)) && m != null
      ensures LeastKey(m, Contents({}, ops), key)
    {
      RunLeast(ops, comp, key, m);
    }
  }

  lemma EmptyHangs(comp: Compare)
    ensures Hangs(Leaf, null) && HeapOrdered(Leaf, comp)
  {
  }
}
