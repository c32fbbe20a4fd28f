/** The intrusive binary tree: adding a subtree under an entry, and deleting one. */
module BinaryTree {
  import opened LinkedTree

  /** `t` with `s` for what hung to the left of `x`. */
  function WithLeft(t: Tree, x: Entry, s: Tree): Tree {
    var was := Subtree(t, x);
    if was.Leaf? then t else Replace(t, x, Node(s, x, was.right))
  }

  function WithRight(t: Tree, x: Entry, s: Tree): Tree {
    var was := Subtree(t, x);
    if was.Leaf? then t else Replace(t, x, Node(was.left, x, s))
  }

  ghost predicate Cleared(e: Entry)
    reads e
  {
    e.parent == e.left == e.right == null
  }

  method Init(elm: Entry)
    modifies elm
    ensures elm.parent == elm.left == elm.right == null && Hangs(Node(Leaf, elm, Leaf), elm)
  {
    elm.parent := null;
    elm.left := null;
    elm.right := null;
  }

  /** What is needed to hang the tree `s` under an entry `x` of the tree `t`. */
  ghost predicate Apart(t: Tree, x: Entry, s: Tree) {
    x in Entries(t) && Distinct(t) && Distinct(s) && Entries(t) !! Entries(s)
  }

  /** Putting `u` in the place of what hung at `x`, when only `x` itself was changed. */
  lemma Rehung(m: map<Entry, Links>, t: Tree, a: Entry, x: Entry, u: Tree)
    requires Hung(m, t, a) && Distinct(t) && x in Entries(t) && (forall e :: e in Entries(t) ==> e in m)
    requires forall e :: e in Entries(t) && e != x ==> m[e] == LinksOf(e)
    requires Hangs(u, x) && x.parent == m[x].parent
    ensures Hangs(Replace(t, x, u), a)
  {
    SubtreeIs(t, x);
    if t.entry != x {
      HungAbove(m, t, a, x);
      Spliced(m, t, a, x, Above(t, x, null), u, x);
    }
  }

  lemma {:induction false} HungAbove(m: map<Entry, Links>, t: Tree, p: Entry?, b: Entry)
    requires Hung(m, t, p) && Distinct(t) && b in Entries(t) && t.entry != b
    ensures var q := Above(t, b, null);
      && q != null && q in m && b in m && m[b].parent == q
      && (m[q].left == b || m[q].right == b) && (m[q].left == b ==> m[q].right != b)
  {
    SubtreeIs(t, b);
    var side := if b in Entries(t.left) then t.left else t.right;
    AboveInside(side, b, t.entry);
    if side.entry != b { HungAbove(m, side, side.entry, b); }
  }

  /** What hangs from an entry does not depend on what is above it. */
  method SetParent(elm: Entry, x: Entry, ghost s: Tree)
    requires Hangs(s, elm) && Distinct(s)
    modifies elm`parent
    ensures Hangs(s, elm) && elm.parent == x
  {
    Exist(s);
    assert Hangs(s.left, elm.left) && Hangs(s.right, elm.right);
    elm.parent := x;
  }

  method AddLeft(x: Entry, elm: Entry, ghost a: Entry, ghost t: Tree, ghost s: Tree)
    requires Hangs(t, a) && Hangs(s, elm) && Apart(t, x, s)
    modifies x, elm
    ensures Hangs(WithLeft(t, x, s), a)
    ensures elm.parent == x && x.left == elm && x.right == old(x.right) && x.parent == old(x.parent)
    ensures elm.left == old(elm.left) && elm.right == old(elm.right)
  {
    Before(t, a, x, s);
    ghost var m := Snapshot(Entries(t));
    x.left := elm;
    SetParent(elm, x, s);
    assert Hangs(Node(s, x, Subtree(t, x).right), x);
    Rehung(m, t, a, x, Node(s, x, Subtree(t, x).right));
  }

  method AddRight(x: Entry, elm: Entry, ghost a: Entry, ghost t: Tree, ghost s: Tree)
    requires Hangs(t, a) && Hangs(s, elm) && Apart(t, x, s)
    modifies x, elm
    ensures Hangs(WithRight(t, x, s), a)
    ensures elm.parent == x && x.right == elm && x.left == old(x.left) && x.parent == old(x.parent)
    ensures elm.left == old(elm.left) && elm.right == old(elm.right)
  {
    Before(t, a, x, s);
    ghost var m := Snapshot(Entries(t));
    x.right := elm;
    SetParent(elm, x, s);
    assert Hangs(Node(Subtree(t, x).left, x, s), x);
    Rehung(m, t, a, x, Node(Subtree(t, x).left, x, s));
  }

  /** The links of `t` before a change at `x`. */
  lemma Before(t: Tree, a: Entry, x: Entry, s: Tree)
    requires Hangs(t, a) && Apart(t, x, s)
    ensures Hung(Snapshot(Entries(t)), t, a) && forall e :: e in Entries(t) ==> allocated(e)
    ensures forall e :: e in Entries(s) ==> allocated(e)
    ensures var was := Subtree(t, x);
      was.Node? && was.entry == x && Hangs(was, x) && Distinct(was) && Entries(was) <= Entries(t)
  {
    Exist(t);
    Exist(s);
    HangsHung(t, a, Snapshot(Entries(t)));
    SubtreeIs(t, x);
    SubtreeHangs(t, a, x);
  }

  /** `binary_tree_del`: takes the tree at `e` apart and unhooks it from what is above. */
  method Del(e: Entry, ghost t: Tree)
    requires Hangs(t, e) && Distinct(t) && (e.parent != null ==> e.parent !in Entries(t))
    modifies Entries(t), if e.parent == null then {} else {e.parent}
    ensures forall x {:trigger Cleared(x)} :: x in Entries(t) ==> Cleared(x)
    ensures old(e.parent) != null ==> LinksOf(old(e.parent)) == Unhooked(old(LinksOf(e.parent)), e)
    ensures old(e.parent) != null ==>
      && old(e.parent).parent == old(e.parent.parent)
      && old(e.parent).left == (if old(e.parent.left) == e then null else old(e.parent.left))
      && old(e.parent).right ==
         (if old(e.parent.left) != e && old(e.parent.right) == e then null else old(e.parent.right))
    decreases t
  {
    Exist(t);
    if e.left != null { Del(e.left, t.left); }
    if e.right != null { Del(e.right, t.right); }
    if e.parent != null {
      if e.parent.left == e {
        e.parent.left := null;
      } else if e.parent.right == e {
        e.parent.right := null;
      }
    }
    e.parent := null;
  }

  predicate Empty(e: Entry)
    reads e
  {
    e.left == null && e.right == null
  }

  method DelInit(e: Entry, ghost t: Tree)
    requires Hangs(t, e) && Distinct(t) && (e.parent != null ==> e.parent !in Entries(t))
    modifies Entries(t), if e.parent == null then {} else {e.parent}
    ensures forall x {:trigger Cleared(x)} :: x in Entries(t) ==> Cleared(x)
    ensures old(e.parent) != null ==> LinksOf(old(e.parent)) == Unhooked(old(LinksOf(e.parent)), e)
    ensures Empty(e) && e.parent == e.left == e.right == null
  {
    Exist(t);
    Del(e, t);
    Init(e);
  }

  /** The links of an entry after its link to `b` is cut. */
  function Unhooked(l: Links, b: Entry): Links {
    Links(l.parent, if l.left == b then null else l.left, if l.left != b && l.right == b then null else l.right)
  }

  /** What `Del` leaves of the whole tree: everything but the subtree, still in order. */
  lemma DeletedFrom(m: map<Entry, Links>, t: Tree, a: Entry, b: Entry)
    requires Hung(m, t, a) && Distinct(t) && b in Entries(t) && b != t.entry && b in m && m[b].parent != null
    requires m[b].parent in m && LinksOf(m[b].parent) == Unhooked(m[m[b].parent], b)
    requires forall e :: e in Entries(t) - Entries(Subtree(t, b)) && e != m[b].parent ==> e in m && m[e] == LinksOf(e)
    ensures Hangs(Replace(t, b, Leaf), a)
    ensures Entries(Replace(t, b, Leaf)) == Entries(t) - Entries(Subtree(t, b)) && Distinct(Replace(t, b, Leaf))
  {
    HungAbove(m, t, a, b);
    Spliced(m, t, a, b, Above(t, b, null), Leaf, null);
    ReplaceEntries(t, b, Leaf);
  }

  /** `binary_tree_del` of an entry below the top: the whole tree is then that tree without the subtree. */
  method DelBelow(b: Entry, ghost a: Entry, ghost t: Tree)
    requires Hangs(t, a) && Distinct(t) && b in Entries(t) && b != a
    modifies Entries(t)
    ensures Hangs(Replace(t, b, Leaf), a) && Distinct(Replace(t, b, Leaf))
    ensures Entries(Replace(t, b, Leaf)) == Entries(t) - Entries(Subtree(t, b))
    ensures forall x :: x in Entries(Subtree(t, b)) ==> x.parent == x.left == x.right == null
  {
    Exist(t);
    ghost var m := Snapshot(Entries(t));
    HangsHung(t, a, m);
    SubtreeIs(t, b);
    SubtreeHangs(t, a, b);
    Del(b, Subtree(t, b));
    DeletedFrom(m, t, a, b);
    assert forall x :: x in Entries(Subtree(t, b)) ==> Cleared(x);
  }
}
