/** Binary trees of intrusive entries with parent links, and the trees they stand for. */
module LinkedTree {
  class Entry {
    var parent: Entry?
    var left: Entry?
    var right: Entry?
  }

  /** The shape of a linked tree, frozen at some moment. */
  datatype Tree = Leaf | Node(left: Tree, entry: Entry, right: Tree)

  function Entries(t: Tree): set<Entry> {
    match t
    case Leaf => {}
    case Node(l, e, r) => Entries(l) + {e} + Entries(r)
  }

  function Count(t: Tree): nat {
    match t
    case Leaf => 0
    case Node(l, _, r) => Count(l) + 1 + Count(r)
  }

  /** No entry occurs twice. */
  ghost predicate Distinct(t: Tree) {
    match t
    case Leaf => true
    case Node(l, e, r) =>
      Distinct(l) && Distinct(r) && Entries(l) !! Entries(r) && e !in Entries(l) && e !in Entries(r)
  }

  /** `p` leads to `t`: all child links are those of `t`, and every child's parent link leads back. */
  ghost predicate Hangs(t: Tree, p: Entry?)
    reads Entries(t)
  {
    match t
    case Leaf => p == null
    case Node(l, e, r) =>
      && p == e
      && Hangs(l, e.left) && (l.Node? ==> l.entry.parent == e)
      && Hangs(r, e.right) && (r.Node? ==> r.entry.parent == e)
  }

  /** Link by link: children are in the tree and lead back, and whatever is not at the top is a child of its parent. */
  lemma {:induction false} LeadsBack(t: Tree, p: Entry?, e: Entry)
    requires Hangs(t, p) && e in Entries(t)
    ensures e.left != null ==> e.left in Entries(t) && e.left.parent == e
    ensures e.right != null ==> e.right in Entries(t) && e.right.parent == e
    ensures e != p ==> e.parent != null && e.parent in Entries(t) && (e.parent.left == e || e.parent.right == e)
  {
    if e in Entries(t.left) {
      LeadsBack(t.left, t.entry.left, e);
    } else if e in Entries(t.right) {
      LeadsBack(t.right, t.entry.right, e);
    }
  }

  /** The entries of a tree exist, so that what a method does not modify keeps them hanging. */
  lemma {:induction false} Exist(t: Tree)
    ensures forall e :: e in Entries(t) ==> allocated(e)
  {
    if t.Node? {
      Exist(t.left);
      Exist(t.right);
    }
  }

  /** `t` with the part below and including `b` replaced by `s`. */
  function Replace(t: Tree, b: Entry, s: Tree): Tree {
    match t
    case Leaf => Leaf
    case Node(l, e, r) => if e == b then s else Node(Replace(l, b, s), e, Replace(r, b, s))
  }

  /** The part of `t` below and including `b`. */
  function Subtree(t: Tree, b: Entry): Tree {
    match t
    case Leaf => Leaf
    case Node(l, e, r) => if e == b then t else if b in Entries(l) then Subtree(l, b) else Subtree(r, b)
  }

  /** The entry above `b` in `t`, or what is above `t`. */
  function Above(t: Tree, b: Entry, parent: Entry?): Entry? {
    match t
    case Leaf => null
    case Node(l, e, r) => if e == b then parent else if b in Entries(l) then Above(l, b, e) else Above(r, b, e)
  }

  // ----- subtrees -----------------------------------------------------------------------------------------------

  lemma {:induction false} SubtreeIs(t: Tree, b: Entry)
    requires Distinct(t) && b in Entries(t)
    ensures var s := Subtree(t, b); s.Node? && s.entry == b && Distinct(s) && Entries(s) <= Entries(t)
    ensures t.entry != b ==> t.entry !in Entries(Subtree(t, b))
    ensures t.entry != b ==> Above(t, b, null) in Entries(t) - Entries(Subtree(t, b))
  {
    if t.entry != b {
      AboveInside(if b in Entries(t.left) then t.left else t.right, b, t.entry);
      if b in Entries(t.left) { SubtreeIs(t.left, b); } else { SubtreeIs(t.right, b); }
    }
  }

  lemma {:induction false} SubtreeHangs(t: Tree, p: Entry?, b: Entry)
    requires Hangs(t, p) && Distinct(t) && b in Entries(t)
    ensures Hangs(Subtree(t, b), b)
    ensures t.entry != b ==> b.parent == Above(t, b, null) && b.parent in Entries(t) - Entries(Subtree(t, b))
    ensures t.entry != b ==> b.parent.left == b || b.parent.right == b
  {
    SubtreeIs(t, b);
    if t.entry != b {
      if b in Entries(t.left) {
        SubtreeIs(t.left, b);
        SubtreeHangs(t.left, t.entry.left, b);
        AboveInside(t.left, b, t.entry);
      } else {
        SubtreeIs(t.right, b);
        SubtreeHangs(t.right, t.entry.right, b);
        AboveInside(t.right, b, t.entry);
      }
    }
  }

  lemma {:induction false} AboveInside(t: Tree, b: Entry, parent: Entry?)
    requires b in Entries(t)
    ensures Above(t, b, parent) == if t.entry == b then parent else Above(t, b, null)
  {
  }

  lemma {:induction false} ReplaceOutside(t: Tree, b: Entry, s: Tree)
    requires b !in Entries(t)
    ensures Replace(t, b, s) == t
  {
    if t.Node? {
      ReplaceOutside(t.left, b, s);
      ReplaceOutside(t.right, b, s);
    }
  }

  /** Replacing a part takes out its entries and puts in the others. */
  lemma {:induction false} ReplaceEntries(t: Tree, b: Entry, s: Tree)
    requires Distinct(t) && Distinct(s) && b in Entries(t) && Entries(s) !! Entries(t) - Entries(Subtree(t, b))
    ensures Entries(Replace(t, b, s)) == Entries(t) - Entries(Subtree(t, b)) + Entries(s)
    ensures Distinct(Replace(t, b, s))
  {
    SubtreeIs(t, b);
    if t.entry != b {
      var inLeft := b in Entries(t.left);
      var side, other := if inLeft then t.left else t.right, if inLeft then t.right else t.left;
      SubtreeIs(side, b);
      ReplaceEntries(side, b, s);
      ReplaceOutside(other, b, s);
      assert Subtree(t, b) == Subtree(side, b) && Entries(t) == Entries(side) + {t.entry} + Entries(other);
    }
  }

  // ----- replacing a subtree in place ---------------------------------------------------------------------------

  /** The links of an entry at some moment. */
  datatype Links = Links(parent: Entry?, left: Entry?, right: Entry?)

  ghost function LinksOf(e: Entry): Links
    reads e
  {
    Links(e.parent, e.left, e.right)
  }

  ghost function Snapshot(es: set<Entry>): map<Entry, Links>
    reads es
  {
    map e | e in es :: LinksOf(e)
  }

  /** `t` hung from `p` at the moment of the snapshot `m`. */
  ghost predicate Hung(m: map<Entry, Links>, t: Tree, p: Entry?) {
    match t
    case Leaf => p == null
    case Node(l, e, r) =>
      && p == e && e in m
      && Hung(m, l, m[e].left) && (l.Node? ==> l.entry in m && m[l.entry].parent == e)
      && Hung(m, r, m[e].right) && (r.Node? ==> r.entry in m && m[r.entry].parent == e)
  }

  lemma {:induction false} HangsHung(t: Tree, p: Entry?, m: map<Entry, Links>)
    requires forall e :: e in Entries(t) ==> e in m && m[e] == LinksOf(e)
    ensures Hangs(t, p) <==> Hung(m, t, p)
  {
    if t.Node? {
      HangsHung(t.left, t.entry.left, m);
      HangsHung(t.right, t.entry.right, m);
    }
  }

  /** Leading the one link to `b` elsewhere, and changing no others, replaces the subtree at `b`. */
  lemma {:induction false} Spliced(m: map<Entry, Links>, t: Tree, p: Entry?, b: Entry, q: Entry, s: Tree, rep: Entry?)
    requires Hung(m, t, p) && Distinct(t) && b in Entries(t) && t.entry != b && q == Above(t, b, null) && q in m
    requires Hangs(s, rep) && (s.Node? ==> s.entry.parent == q)
    requires forall e :: e in Entries(t) - Entries(Subtree(t, b)) - {q} ==> e in m && m[e] == LinksOf(e)
    requires q.parent == m[q].parent
    requires q.left == if m[q].left == b then rep else m[q].left
    requires q.right == if m[q].left != b then rep else m[q].right
    ensures Hangs(Replace(t, b, s), p)
  {
    var Node(l, e, r) := t;
    if b in Entries(l) {
      AboveInside(l, b, e);
      ReplaceOutside(r, b, s);
      SubtreeIs(l, b);
      assert q == e || q in Entries(l);
      HangsHung(r, m[e].right, m);
      if l.entry != b { Spliced(m, l, m[e].left, b, q, s, rep); }
    } else {
      AboveInside(r, b, e);
      ReplaceOutside(l, b, s);
      SubtreeIs(r, b);
      assert q == e || q in Entries(r);
      HangsHung(l, m[e].left, m);
      if r.entry != b { Spliced(m, r, m[e].right, b, q, s, rep); }
    }
  }
}
