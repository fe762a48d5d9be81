/** How the arrays of a time tree store a tree: per slot its left child, right child and parent
    (-1 for none), its colour and its key. */
module TreeCells {
  import opened RedBlackTree

  datatype Row = Row(left: int, right: int, parent: int, black: bool, key: int)

  type Cells = seq<Row>

  function Root(t: Tree): int {
    if t.Leaf? then -1 else t.slot
  }

  function Holder(p: Path): int {
    if p.Top? then -1 else p.slot
  }

  function Slots(t: Tree): set<nat> {
    if t.Leaf? then {} else Slots(t.left) + {t.slot} + Slots(t.right)
  }

  function PathSlots(p: Path): set<nat> {
    if p.Top? then {} else PathSlots(p.up) + {p.slot} + Slots(p.sib)
  }

  /** No slot is used twice. */
  ghost predicate Apart(t: Tree) {
    t.Node? ==>
      && Apart(t.left) && Apart(t.right) && Slots(t.left) !! Slots(t.right)
      && t.slot !in Slots(t.left) && t.slot !in Slots(t.right)
  }

  ghost predicate PathApart(p: Path) {
    !p.Top? ==>
      && PathApart(p.up) && Apart(p.sib) && PathSlots(p.up) !! Slots(p.sib)
      && p.slot !in PathSlots(p.up) && p.slot !in Slots(p.sib)
  }

  /** The cells store `t`, hanging below slot `parent`. */
  ghost predicate Stores(c: Cells, t: Tree, parent: int) {
    t.Node? ==>
      && 0 <= t.slot < |c|
      && c[t.slot] == Row(Root(t.left), Root(t.right), parent, t.black, t.key)
      && Stores(c, t.left, t.slot) && Stores(c, t.right, t.slot)
  }

  /** The cells store everything on and beside `p`, with slot `hole` at its end. */
  ghost predicate StoresPath(c: Cells, p: Path, hole: int) {
    !p.Top? ==>
      && 0 <= p.slot < |c|
      && c[p.slot] == Row(if p.FromLeft? then hole else Root(p.sib),
                             if p.FromLeft? then Root(p.sib) else hole,
                             Holder(p.up), p.black, p.key)
      && Stores(c, p.sib, p.slot) && StoresPath(c, p.up, p.slot)
  }

  function TopOf(p: Path, hole: int): int {
    if p.Top? then hole else TopOf(p.up, p.slot)
  }

  /** The arrays store `t` at the end of `p`, and `root` is the topmost slot. */
  ghost predicate Focus(c: Cells, root: int, p: Path, t: Tree) {
    && Stores(c, t, Holder(p)) && StoresPath(c, p, Root(t))
    && Apart(t) && PathApart(p) && Slots(t) !! PathSlots(p)
    && root == TopOf(p, Root(t))
  }

  ghost predicate SameOn(c: Cells, c': Cells, s: set<nat>) {
    forall i <- s :: i < |c| ==> i < |c'| && c[i] == c'[i]
  }

  lemma {:induction false} FrameTree(c: Cells, c': Cells, t: Tree, parent: int)
    requires Stores(c, t, parent) && SameOn(c, c', Slots(t))
    ensures Stores(c', t, parent)
  {
    if t.Node? {
      FrameTree(c, c', t.left, t.slot);
      FrameTree(c, c', t.right, t.slot);
    }
  }

  lemma {:induction false} FramePath(c: Cells, c': Cells, p: Path, hole: int)
    requires StoresPath(c, p, hole) && SameOn(c, c', PathSlots(p))
    ensures StoresPath(c', p, hole)
  {
    if !p.Top? {
      FrameTree(c, c', p.sib, p.slot);
      FramePath(c, c', p.up, p.slot);
    }
  }

  /** Moving up one step changes what is looked at, not what is stored. */
  lemma Ascend(c: Cells, root: int, p: Path, t: Tree)
    requires Focus(c, root, p, t) && !p.Top? && t.Node?
    ensures Focus(c, root, p.up, Under(p, t))
  {
  }

  lemma DescendLeft(c: Cells, root: int, p: Path, t: Tree)
    requires Focus(c, root, p, t) && t.Node?
    ensures Focus(c, root, FromLeft(p, t.slot, t.key, t.black, t.right), t.left)
  {
  }

  lemma DescendRight(c: Cells, root: int, p: Path, t: Tree)
    requires Focus(c, root, p, t) && t.Node?
    ensures Focus(c, root, FromRight(p, t.slot, t.key, t.black, t.left), t.right)
  {
  }

  lemma {:induction false} AscendAll(c: Cells, root: int, p: Path, t: Tree)
    requires Focus(c, root, p, t) && t.Node?
    ensures Focus(c, root, Top, Plug(p, t))
    decreases p
  {
    if !p.Top? {
      Ascend(c, root, p, t);
      AscendAll(c, root, p.up, Under(p, t));
    }
  }

  // ----- rotations -----

  /** Another subtree of the same slots in the hole: the path only needs its one link redirected. */
  lemma Rehang(c: Cells, c': Cells, p: Path, hole: int, hole': int)
    requires StoresPath(c, p, hole) && PathApart(p)
    requires !p.Top? ==>
      && p.slot < |c'| && SameOn(c, c', PathSlots(p.up) + Slots(p.sib))
      && c'[p.slot] == if p.FromLeft? then c[p.slot].(left := hole') else c[p.slot].(right := hole')
    ensures StoresPath(c', p, hole')
  {
    if !p.Top? {
      FrameTree(c, c', p.sib, p.slot);
      FramePath(c, c', p.up, p.slot);
    }
  }

  lemma Regraft(c: Cells, c': Cells, t: Tree, parent: int, parent': int)
    requires Stores(c, t, parent) && Apart(t)
    requires t.Node? ==>
      && t.slot < |c'| && SameOn(c, c', Slots(t.left) + Slots(t.right))
      && c'[t.slot] == c[t.slot].(parent := parent')
    ensures Stores(c', t, parent')
  {
    if t.Node? {
      FrameTree(c, c', t.left, t.slot);
      FrameTree(c, c', t.right, t.slot);
    }
  }
}

/** What rotations, insertions and searches do to a stored tree. */
module TreeLinks {
  import opened RedBlackTree
  import opened TimeLine
  import opened TreeCells


  function LeftRotated(t: Tree): Tree
    requires t.Node? && t.right.Node?
  {
    var r := t.right;
    Node(Node(t.left, t.slot, t.key, t.black, r.left), r.slot, r.key, r.black, r.right)
  }

  function RightRotated(t: Tree): Tree
    requires t.Node? && t.left.Node?
  {
    var l := t.left;
    Node(l.left, l.slot, l.key, l.black, Node(l.right, t.slot, t.key, t.black, t.right))
  }

  /** Changing the colour of the node in focus. */
  lemma Repaint(c: Cells, c': Cells, root: int, p: Path, t: Tree, black: bool)
    requires Focus(c, root, p, t) && t.Node?
    requires c' == c[t.slot := c[t.slot].(black := black)]
    ensures Focus(c', root, p, t.(black := black))
  {
    FrameTree(c, c', t.left, t.slot);
    FrameTree(c, c', t.right, t.slot);
    FramePath(c, c', p, t.slot);
  }

  lemma RootInSlots(t: Tree)
    ensures t.Node? ==> t.slot in Slots(t)
  {
  }

  /** Row newn hangs where oldn hung from o; nothing else changed. */
  ghost predicate Replaced(c: Cells, c': Cells, oldn: int, newn: int, o: int)
    requires 0 <= newn < |c| && -1 <= o < |c|
  {
    && |c'| == |c|
    && (forall i :: 0 <= i < |c| && i != o && i != newn ==> c'[i] == c[i])
    && c'[newn] == c[newn].(parent := o)
    && (o != -1 ==> c'[o] == if oldn == c[o].left then c[o].(left := newn) else c[o].(right := newn))
  }

  /** Slot n has a right child r, r's left child is b (or -1) and n hangs from o (or -1). */
  ghost predicate CanLeftRotate(c: Cells, n: int, r: int, b: int, o: int) {
    && 0 <= n < |c| && 0 <= r < |c| && -1 <= b < |c| && -1 <= o < |c|
    && n != r && b != n && b != r && o != n && o != r && (o != -1 ==> o != b)
    && c[n].right == r && c[r].left == b && c[n].parent == o
  }

  ghost predicate LeftRotatedRows(c: Cells, c': Cells, n: int, r: int, b: int, o: int)
    requires CanLeftRotate(c, n, r, b, o)
  {
    && |c'| == |c|
    && c'[n] == c[n].(right := b, parent := r)
    && c'[r] == c[r].(left := n, parent := o)
    && (b != -1 ==> c'[b] == c[b].(parent := n))
    && (o != -1 ==> c'[o] == if n == c[o].left then c[o].(left := r) else c[o].(right := r))
    && (forall i :: 0 <= i < |c| && i != n && i != r && i != b && i != o ==> c'[i] == c[i])
  }

  /** The link updates of a rotation, after its first step has put r in the place of n. */
  function LeftRelinked(c: Cells, n: int, r: int, b: int): Cells
    requires 0 <= n < |c| && 0 <= r < |c| && -1 <= b < |c|
  {
    var c1 := c[n := c[n].(right := b)];
    var c2 := if b == -1 then c1 else c1[b := c1[b].(parent := n)];
    var c3 := c2[r := c2[r].(left := n)];
    c3[n := c3[n].(parent := r)]
  }

  lemma LeftRelinkedRows(c: Cells, c1: Cells, n: int, r: int, b: int, o: int)
    requires CanLeftRotate(c, n, r, b, o) && Replaced(c, c1, n, r, o)
    ensures LeftRotatedRows(c, LeftRelinked(c1, n, r, b), n, r, b, o)
  {
  }

  lemma LeftRotationRows(c: Cells, root: int, p: Path, t: Tree)
    requires Focus(c, root, p, t) && t.Node? && t.right.Node?
    ensures CanLeftRotate(c, t.slot, t.right.slot, Root(t.right.left), Holder(p))
    ensures !p.Top? ==> ((t.slot == c[p.slot].left) <==> p.FromLeft?)
  {
    RootInSlots(t.right.left);
    RootInSlots(t.right);
    assert Stores(c, t.right, t.slot) && Stores(c, t.right.left, t.right.slot);
    assert StoresPath(c, p, t.slot);
    if !p.Top? {
      RootInSlots(p.sib);
      assert p.slot in PathSlots(p) && p.slot !in Slots(t);
    }
  }

  /** A rotation leaves the three subtrees and everything above as they were. */
  lemma LeftRotationParts(c: Cells, c': Cells, root: int, p: Path, t: Tree)
    requires Focus(c, root, p, t) && t.Node? && t.right.Node?
    requires CanLeftRotate(c, t.slot, t.right.slot, Root(t.right.left), Holder(p))
    requires LeftRotatedRows(c, c', t.slot, t.right.slot, Root(t.right.left), Holder(p))
    ensures Stores(c', t.left, t.slot) && Stores(c', t.right.left, t.slot)
    ensures Stores(c', t.right.right, t.right.slot) && StoresPath(c', p, t.right.slot)
  {
    LeftRotationRows(c, root, p, t);
    var n, r, o := t.slot, t.right.slot, Holder(p);
    var t1, t2, t3 := t.left, t.right.left, t.right.right;
    RootInSlots(t2);
    assert Stores(c, t.right, n) && Apart(t.right) && Apart(t2);
    assert o != -1 ==> o in PathSlots(p);
    assert Slots(t.right) == Slots(t2) + {r} + Slots(t3);
    assert Slots(t) == Slots(t1) + {n} + Slots(t.right);
    assert SameOn(c, c', Slots(t1)) && SameOn(c, c', Slots(t3));
    assert t2.Node? ==> SameOn(c, c', Slots(t2.left) + Slots(t2.right));
    assert !p.Top? ==> SameOn(c, c', PathSlots(p.up) + Slots(p.sib));
    FrameTree(c, c', t1, n);
    FrameTree(c, c', t3, r);
    Regraft(c, c', t2, r, n);
    Rehang(c, c', p, n, r);
  }

  lemma LeftRotatedSlots(t: Tree)
    requires Apart(t) && t.Node? && t.right.Node?
    ensures Apart(LeftRotated(t)) && Slots(LeftRotated(t)) == Slots(t)
  {
    var m := LeftRotated(t).left;
    assert Apart(t.right);
    assert Slots(t.right) == Slots(t.right.left) + {t.right.slot} + Slots(t.right.right);
    assert Slots(m) == Slots(t.left) + {t.slot} + Slots(t.right.left);
    assert Apart(m);
  }

  /** What a rotation leaves in the arrays is the rotated tree. */
  lemma LeftRotationStored(c: Cells, c': Cells, root: int, p: Path, t: Tree)
    requires Focus(c, root, p, t) && t.Node? && t.right.Node?
    requires CanLeftRotate(c, t.slot, t.right.slot, Root(t.right.left), Holder(p))
    requires LeftRotatedRows(c, c', t.slot, t.right.slot, Root(t.right.left), Holder(p))
    ensures Focus(c', if p.Top? then t.right.slot else root, p, LeftRotated(t))
  {
    LeftRotationParts(c, c', root, p, t);
    LeftRotatedSlots(t);
    assert Stores(c, t.right, t.slot);
    assert Stores(c', LeftRotated(t).left, t.right.slot);
  }

  /** Slot n has a left child r, r's right child is b (or -1) and n hangs from o (or -1). */
  ghost predicate CanRightRotate(c: Cells, n: int, r: int, b: int, o: int) {
    && 0 <= n < |c| && 0 <= r < |c| && -1 <= b < |c| && -1 <= o < |c|
    && n != r && b != n && b != r && o != n && o != r && (o != -1 ==> o != b)
    && c[n].left == r && c[r].right == b && c[n].parent == o
  }

  ghost predicate RightRotatedRows(c: Cells, c': Cells, n: int, r: int, b: int, o: int)
    requires CanRightRotate(c, n, r, b, o)
  {
    && |c'| == |c|
    && c'[n] == c[n].(left := b, parent := r)
    && c'[r] == c[r].(right := n, parent := o)
    && (b != -1 ==> c'[b] == c[b].(parent := n))
    && (o != -1 ==> c'[o] == if n == c[o].left then c[o].(left := r) else c[o].(right := r))
    && (forall i :: 0 <= i < |c| && i != n && i != r && i != b && i != o ==> c'[i] == c[i])
  }

  /** The link updates of a rotation, after its first step has put r in the place of n. */
  function RightRelinked(c: Cells, n: int, r: int, b: int): Cells
    requires 0 <= n < |c| && 0 <= r < |c| && -1 <= b < |c|
  {
    var c1 := c[n := c[n].(left := b)];
    var c2 := if b == -1 then c1 else c1[b := c1[b].(parent := n)];
    var c3 := c2[r := c2[r].(right := n)];
    c3[n := c3[n].(parent := r)]
  }

  lemma RightRelinkedRows(c: Cells, c1: Cells, n: int, r: int, b: int, o: int)
    requires CanRightRotate(c, n, r, b, o) && Replaced(c, c1, n, r, o)
    ensures RightRotatedRows(c, RightRelinked(c1, n, r, b), n, r, b, o)
  {
  }

  lemma RightRotationRows(c: Cells, root: int, p: Path, t: Tree)
    requires Focus(c, root, p, t) && t.Node? && t.left.Node?
    ensures CanRightRotate(c, t.slot, t.left.slot, Root(t.left.right), Holder(p))
    ensures !p.Top? ==> ((t.slot == c[p.slot].left) <==> p.FromLeft?)
  {
    RootInSlots(t.left.right);
    RootInSlots(t.left);
    assert Stores(c, t.left, t.slot) && Stores(c, t.left.right, t.left.slot);
    assert StoresPath(c, p, t.slot);
    if !p.Top? {
      RootInSlots(p.sib);
      assert p.slot in PathSlots(p) && p.slot !in Slots(t);
    }
  }

  /** A rotation leaves the three subtrees and everything above as they were. */
  lemma RightRotationParts(c: Cells, c': Cells, root: int, p: Path, t: Tree)
    requires Focus(c, root, p, t) && t.Node? && t.left.Node?
    requires CanRightRotate(c, t.slot, t.left.slot, Root(t.left.right), Holder(p))
    requires RightRotatedRows(c, c', t.slot, t.left.slot, Root(t.left.right), Holder(p))
    ensures Stores(c', t.right, t.slot) && Stores(c', t.left.right, t.slot)
    ensures Stores(c', t.left.left, t.left.slot) && StoresPath(c', p, t.left.slot)
  {
    RightRotationRows(c, root, p, t);
    var n, r, o := t.slot, t.left.slot, Holder(p);
    var t1, t2, t3 := t.right, t.left.right, t.left.left;
    RootInSlots(t2);
    assert Stores(c, t.left, n) && Apart(t.left) && Apart(t2);
    assert o != -1 ==> o in PathSlots(p);
    assert Slots(t.left) == Slots(t2) + {r} + Slots(t3);
    assert Slots(t) == Slots(t1) + {n} + Slots(t.left);
    assert SameOn(c, c', Slots(t1)) && SameOn(c, c', Slots(t3));
    assert t2.Node? ==> SameOn(c, c', Slots(t2.left) + Slots(t2.right));
    assert !p.Top? ==> SameOn(c, c', PathSlots(p.up) + Slots(p.sib));
    FrameTree(c, c', t1, n);
    FrameTree(c, c', t3, r);
    Regraft(c, c', t2, r, n);
    Rehang(c, c', p, n, r);
  }

  lemma RightRotatedSlots(t: Tree)
    requires Apart(t) && t.Node? && t.left.Node?
    ensures Apart(RightRotated(t)) && Slots(RightRotated(t)) == Slots(t)
  {
    var m := RightRotated(t).right;
    assert Apart(t.left);
    assert Slots(t.left) == Slots(t.left.left) + {t.left.slot} + Slots(t.left.right);
    assert Slots(m) == Slots(t.right) + {t.slot} + Slots(t.left.right);
    assert Apart(m);
  }

  /** What a rotation leaves in the arrays is the rotated tree. */
  lemma RightRotationStored(c: Cells, c': Cells, root: int, p: Path, t: Tree)
    requires Focus(c, root, p, t) && t.Node? && t.left.Node?
    requires CanRightRotate(c, t.slot, t.left.slot, Root(t.left.right), Holder(p))
    requires RightRotatedRows(c, c', t.slot, t.left.slot, Root(t.left.right), Holder(p))
    ensures Focus(c', if p.Top? then t.left.slot else root, p, RightRotated(t))
  {
    RightRotationParts(c, c', root, p, t);
    RightRotatedSlots(t);
    assert Stores(c, t.left, t.slot);
    assert Stores(c', RightRotated(t).right, t.left.slot);
  }

  /** How the node in focus and the node above it are linked. */
  lemma UpRows(c: Cells, root: int, p: Path, t: Tree)
    requires Focus(c, root, p, t) && t.Node? && !p.Top?
    ensures 0 <= t.slot < |c| && 0 <= p.slot < |c| && t.slot != p.slot && -1 <= Root(p.sib) < |c|
    ensures c[t.slot].parent == p.slot && c[p.slot].parent == Holder(p.up) && c[p.slot].black == p.black
    ensures p.FromLeft? ==> c[p.slot].left == t.slot && c[p.slot].right == Root(p.sib)
    ensures p.FromRight? ==> c[p.slot].left == Root(p.sib) && c[p.slot].right == t.slot
    ensures Root(p.sib) != t.slot && Root(p.sib) != p.slot
    ensures p.sib.Node? ==> c[p.sib.slot].black == p.sib.black
  {
    RootInSlots(t);
    RootInSlots(p.sib);
    assert Stores(c, p.sib, p.slot);
    assert p.slot in PathSlots(p);
  }

  /** A red node stored at the end of `p`, with only its own colour still to be accommodated. */
  ghost predicate Pending(c: Cells, root: int, p: Path, n: Tree) {
    Focus(c, root, p, n) && n.Node? && !n.black && Balanced(n) && PathOk(p, BlackHeight(n))
  }

  /** How a red node, its red parent, its grandparent and its uncle are linked. */
  lemma FamilyRows(c: Cells, root: int, p: Path, t: Tree)
    requires Pending(c, root, p, t) && !p.Top? && !p.black
    ensures var n, m, g, u := t.slot, p.slot, Holder(p.up), Root(p.up.sib);
      && 0 <= n < |c| && 0 <= m < |c| && 0 <= g < |c| && -1 <= u < |c|
      && n != m && n != g && m != g && u != n && u != m && u != g
      && c[n].parent == m && c[m].parent == g && -1 <= c[g].parent < |c|
      && (p.FromLeft? ==> c[m].left == n && c[m].right != n) && (p.FromRight? ==> c[m].right == n && c[m].left != n)
      && (p.up.FromLeft? ==> c[g].left == m && c[g].right == u)
      && (p.up.FromRight? ==> c[g].right == m && c[g].left == u)
      && (u != -1 ==> c[u].black == p.up.sib.black)
    ensures Focus(c, root, p.up, Under(p, t))
  {
    UpRows(c, root, p, t);
    Ascend(c, root, p, t);
    UpRows(c, root, p.up, Under(p, t));
    RootInSlots(t);
    RootInSlots(p.up.sib);
    assert StoresPath(c, p.up, p.slot) && StoresPath(c, p.up.up, p.up.slot);
    assert p.up.slot in PathSlots(p.up);
  }

  /** Changing the colours of a parent, an uncle and a grandparent. */
  lemma RecolouredPending(c: Cells, root: int, p: Path, t: Tree)
    requires Pending(c, root, p, t) && !p.Top? && !p.black && !IsBlack(p.up.sib)
    ensures 0 <= p.slot < |c| && 0 <= p.up.sib.slot < |c| && 0 <= p.up.slot < |c|
    ensures p.slot != p.up.sib.slot && p.slot != p.up.slot && p.up.slot != p.up.sib.slot
    ensures var c1 := c[p.slot := c[p.slot].(black := true)];
      var c2 := c1[p.up.sib.slot := c1[p.up.sib.slot].(black := true)];
      var c3 := c2[p.up.slot := c2[p.up.slot].(black := false)];
      Pending(c3, root, p.up.up, Recoloured(t, p))
  {
    RecolouredBalanced(t, p);
    var g, m := p.up, Under(p, t);
    var u := g.sib;
    Ascend(c, root, p, t);
    UpRows(c, root, g, m);
    var c1 := c[p.slot := c[p.slot].(black := true)];
    Repaint(c, c1, root, g, m, true);
    var m1 := m.(black := true);
    Ascend(c1, root, g, m1);
    var g1 := Mirror(g, m1);
    if g.FromLeft? { DescendRight(c1, root, g.up, Under(g, m1)); } else { DescendLeft(c1, root, g.up, Under(g, m1)); }
    assert Focus(c1, root, g1, u);
    var c2 := c1[u.slot := c1[u.slot].(black := true)];
    Repaint(c1, c2, root, g1, u, true);
    Ascend(c2, root, g1, u.(black := true));
    var g2 := Under(g1, u.(black := true));
    Repaint(c2, c2[g.slot := c2[g.slot].(black := false)], root, g.up, g2, false);
  }

  /** The path to the sibling of the hole of `g`, once `t` fills that hole. */
  function Mirror(g: Path, t: Tree): Path
    requires !g.Top?
  {
    if g.FromLeft? then FromRight(g.up, g.slot, g.key, g.black, t) else FromLeft(g.up, g.slot, g.key, g.black, t)
  }

  /** The grandparent once the parent is black and it is red itself. */
  function Repainted(t: Tree, p: Path): Tree
    requires !p.Top? && !p.up.Top?
  {
    Under(p.up.(black := false), Under(p.(black := true), t))
  }

  lemma RepaintTwice(c: Cells, root: int, p: Path, t: Tree)
    requires Focus(c, root, p, t) && t.Node? && !p.Top? && !p.up.Top?
    ensures var g := p.up;
      && 0 <= t.slot < |c| && 0 <= p.slot < |c| && 0 <= g.slot < |c|
      && p.slot != g.slot && t.slot != p.slot && t.slot != g.slot
      && c[t.slot].parent == p.slot && c[p.slot].parent == g.slot
      && (t.slot == c[p.slot].left <==> p.FromLeft?) && (p.slot == c[g.slot].left <==> g.FromLeft?)
    ensures var c1 := c[p.slot := c[p.slot].(black := true)];
      Focus(c1[p.up.slot := c1[p.up.slot].(black := false)], root, p.up.up, Repainted(t, p))
  {
    var g, m := p.up, Under(p, t);
    UpRows(c, root, p, t);
    Ascend(c, root, p, t);
    UpRows(c, root, g, m);
    RootInSlots(t);
    assert t.slot in Slots(m);
    assert g.slot in PathSlots(g);
    var c1 := c[p.slot := c[p.slot].(black := true)];
    Repaint(c, c1, root, g, m, true);
    var m1 := m.(black := true);
    Ascend(c1, root, g, m1);
    Repaint(c1, c1[g.slot := c1[g.slot].(black := false)], root, g.up, Under(g, m1), false);
  }

  lemma {:induction false} SlotsOfEntries(t: Tree)
    ensures forall s: nat :: s in Slots(t) <==> exists e <- Entries(t) :: e.slot == s
  {
    if t.Node? {
      SlotsOfEntries(t.left);
      SlotsOfEntries(t.right);
    }
  }

  lemma BuildSlots(ks: seq<int>)
    requires Distinct(ks)
    ensures forall s: nat :: s in Slots(Build(ks)) <==> s < |ks|
  {
    BuildSpec(ks);
    SlotsOfEntries(Build(ks));
    forall s: nat | s < |ks| ensures s in Slots(Build(ks)) {
      assert Entry(s, ks[s]) in Entries(Build(ks));
    }
  }

  function NewLeaf(slot: nat, key: int): Tree {
    Node(Leaf, slot, key, false, Leaf)
  }

  lemma LocateIn(t: Tree, ks: seq<int>, key: int)
    requires IsRedBlack(t) && Sorted(Entries(t)) && Holds(Entries(t), ks)
    ensures Locate(t, key, Top).Present? <==> key in ks
    ensures Locate(t, key, Top).Free? ==> PathOk(Locate(t, key, Top).path, 0)
  {
    LocateOrder(t, key, Top);
    LocatePath(t, key, Top);
    if key in ks {
      var i :| 0 <= i < |ks| && ks[i] == key;
      assert Entry(i, key) in Entries(t);
    }
  }

  lemma BuildAppend(ks: seq<int>, key: int)
    ensures Build(ks + [key]) == Insert(Build(ks), |ks|, key)
  {
    assert (ks + [key])[..|ks|] == ks;
  }

  lemma InsertFree(t: Tree, slot: nat, key: int)
    ensures Locate(t, key, Top).Free? ==> Insert(t, slot, key) == Close(NewLeaf(slot, key), Locate(t, key, Top).path)
  {
  }

  /** What the search for `key` finds in the tree built from `ks`. */
  lemma {:induction false} InsertPlace(ks: seq<int>, key: int)
    requires Distinct(ks)
    ensures forall s <- Slots(Build(ks)) :: s < |ks|
    ensures Build(ks).Node? <==> ks != []
    ensures var r := Locate(Build(ks), key, Top);
      && (r.Present? <==> key in ks)
      && (r.Free? ==> PathOk(r.path, 0) && Build(ks + [key]) == Close(NewLeaf(|ks|, key), r.path))
  {
    BuildSlots(ks);
    BuildSpec(ks);
    LocateIn(Build(ks), ks, key);
    BuildAppend(ks, key);
    InsertFree(Build(ks), |ks|, key);
  }

  lemma SlotsBelow(p: Path, t: Tree)
    requires t.Node?
    ensures var s := PathSlots(p) + Slots(t);
      && PathSlots(FromLeft(p, t.slot, t.key, t.black, t.right)) + Slots(t.left) == s
      && PathSlots(FromRight(p, t.slot, t.key, t.black, t.left)) + Slots(t.right) == s
  {
  }

  lemma FirstLeaf(c: Cells, key: int)
    requires |c| > 0 && c[0] == Row(-1, -1, -1, false, key)
    ensures Focus(c, 0, Top, NewLeaf(0, key))
  {
  }

  lemma Resized(c: Cells, c': Cells, root: int, t: Tree, size: nat)
    requires Focus(c, root, Top, t) && size <= |c| && size <= |c'| && c[..size] == c'[..size]
    requires forall s <- Slots(t) :: s < size
    ensures Focus(c', root, Top, t)
  {
    var d := c[..size];
    forall s | s in Slots(t) ensures d[s] == c[s] && d[s] == c'[s] {
    }
    FrameTree(c, d, t, -1);
    FrameTree(d, c', t, -1);
  }

  /** A new red leaf in slot `i`, hung into the hole at the end of `p`. */
  lemma LeafAttached(c: Cells, root: int, p: Path, i: nat, key: int)
    requires Focus(c, root, p, Leaf) && !p.Top? && i < |c| && i !in PathSlots(p)
    ensures p.slot < |c| && p.slot != i
    ensures var c1 := c[i := Row(-1, -1, -1, false, key)];
      var c2 := c1[p.slot := if p.FromLeft? then c1[p.slot].(left := i) else c1[p.slot].(right := i)];
      Focus(c2[i := c2[i].(parent := p.slot)], root, p, NewLeaf(i, key))
  {
    var c1 := c[i := Row(-1, -1, -1, false, key)];
    var c2 := c1[p.slot := if p.FromLeft? then c1[p.slot].(left := i) else c1[p.slot].(right := i)];
    Rehang(c, c2[i := c2[i].(parent := p.slot)], p, -1, i);
  }

  // ----- ordered search -----

  /** The entries before the focus, in it, and after it. */
  ghost predicate Around(es: seq<Entry>, p: Path, t: Tree) {
    es == Before(p) + Entries(t) + After(p)
  }

  /** The five runs around a node, grouped in the ways the search needs. */
  lemma Groupings<T>(b: seq<T>, l: seq<T>, e: T, r: seq<T>, a: seq<T>)
    ensures b + (l + [e] + r) + a == (b + l) + [e] + (r + a)
    ensures b + (l + [e] + r) + a == (b + l + [e]) + r + a
    ensures b + (l + [e] + r) + a == (b + l + [e]) + (r + a)
    ensures b + (l + [e] + r) + a == b + l + ([e] + r + a)
    ensures l == [] ==> b + (l + [e] + r) + a == b + ([e] + r + a)
  {
  }

  lemma AroundBelow(es: seq<Entry>, p: Path, t: Tree)
    requires Around(es, p, t) && t.Node?
    ensures Around(es, FromLeft(p, t.slot, t.key, t.black, t.right), t.left)
    ensures Around(es, FromRight(p, t.slot, t.key, t.black, t.left), t.right)
    ensures es == (Before(p) + Entries(t.left)) + [Entry(t.slot, t.key)] + (Entries(t.right) + After(p))
  {
    Groupings(Before(p), Entries(t.left), Entry(t.slot, t.key), Entries(t.right), After(p));
  }

  /** The slot of the last entry of `es`, or -1. */
  function LastSlot(es: seq<Entry>): int {
    if es == [] then -1 else es[|es| - 1].slot
  }

  /** Slot `i` holds the greatest key at or below `key`; -1 says there is none. */
  ghost predicate IsFloorSlot(ks: seq<int>, key: int, i: int) {
    if i == -1 then forall k <- ks :: key < k
    else 0 <= i < |ks| && ks[i] <= key && forall k <- ks :: k <= key ==> k <= ks[i]
  }

  /** Slot `r` holds the greatest key below the key in slot `i`; -1 says there is none. */
  ghost predicate IsPreviousSlot(ks: seq<int>, i: nat, r: int)
    requires i < |ks|
  {
    if r == -1 then forall k <- ks :: ks[i] <= k
    else 0 <= r < |ks| && ks[r] < ks[i] && forall k <- ks :: k < ks[i] ==> k <= ks[r]
  }

  lemma FloorOfSplit(ks: seq<int>, b: seq<Entry>, a: seq<Entry>, key: int)
    requires Holds(b + a, ks) && Sorted(b + a) && AllAbove(a, key)
    requires b != [] ==> b[|b| - 1].key <= key
    ensures IsFloorSlot(ks, key, LastSlot(b))
  {
    var es := b + a;
    forall k | k in ks ensures k > key || (b != [] && k <= b[|b| - 1].key) {
      var i :| 0 <= i < |ks| && ks[i] == k;
      var j :| 0 <= j < |es| && es[j] == Entry(i, k);
      assert j < |b| ==> es[|b| - 1] == b[|b| - 1];
      assert j >= |b| ==> es[j] in a;
    }
    assert b != [] ==> es[|b| - 1] == b[|b| - 1] && b[|b| - 1] in es;
  }

  lemma PreviousOfSplit(ks: seq<int>, b: seq<Entry>, e: Entry, a: seq<Entry>)
    requires Holds(b + [e] + a, ks) && Sorted(b + [e] + a)
    ensures e.slot < |ks| && IsPreviousSlot(ks, e.slot, LastSlot(b))
  {
    var es := b + [e] + a;
    assert es[|b|] == e;
    forall k | k in ks && k < e.key ensures b != [] && k <= b[|b| - 1].key {
      var i :| 0 <= i < |ks| && ks[i] == k;
      var j :| 0 <= j < |es| && es[j] == Entry(i, k);
      assert j < |b|;
      assert es[|b| - 1] == b[|b| - 1];
    }
    assert b != [] ==> es[|b| - 1] == b[|b| - 1] && b[|b| - 1] in es;
  }

  /** Every slot of a stored tree can be brought into focus. */
  lemma {:induction false} Find(c: Cells, root: int, es: seq<Entry>, p: Path, t: Tree, i: nat)
    returns (q: Path, u: Tree)
    requires Focus(c, root, p, t) && Around(es, p, t) && i in Slots(t)
    ensures Focus(c, root, q, u) && Around(es, q, u) && u.Node? && u.slot == i
    decreases t
  {
    if i == t.slot {
      return p, t;
    }
    AroundBelow(es, p, t);
    if i in Slots(t.left) {
      DescendLeft(c, root, p, t);
      q, u := Find(c, root, es, FromLeft(p, t.slot, t.key, t.black, t.right), t.left, i);
    } else {
      DescendRight(c, root, p, t);
      q, u := Find(c, root, es, FromRight(p, t.slot, t.key, t.black, t.left), t.right, i);
    }
  }

  /** The node in slot `i`, and where its predecessor is to be found. */
  lemma FindPrevious(c: Cells, root: int, ks: seq<int>, i: nat) returns (q: Path, t: Tree)
    requires Distinct(ks) && i < |ks| && Focus(c, root, Top, Build(ks))
    ensures Focus(c, root, q, t) && t.Node? && t.slot == i
    ensures IsPreviousSlot(ks, i, if t.left.Node? then LastSlot(Entries(t.left)) else LastSlot(Before(q)))
  {
    BuildSpec(ks);
    BuildSlots(ks);
    var es := Entries(Build(ks));
    q, t := Find(c, root, es, Top, Build(ks), i);
    AroundBelow(es, q, t);
    PreviousOfSplit(ks, Before(q) + Entries(t.left), Entry(t.slot, t.key), Entries(t.right) + After(q));
  }

  /** The search for the floor of `key` has reached `t`: everything to the left is below `key` and
      everything to the right above it. */
  ghost predicate Searching(ks: seq<int>, key: int, p: Path, t: Tree) {
    && Holds(Before(p) + Entries(t) + After(p), ks) && Sorted(Before(p) + Entries(t) + After(p))
    && AllBelow(Before(p), key) && AllAbove(After(p), key)
  }

  lemma {:induction false} SearchStart(ks: seq<int>, key: int)
    requires Distinct(ks)
    ensures Searching(ks, key, Top, Build(ks))
    ensures Build(ks).Leaf? ==> IsFloorSlot(ks, key, -1)
  {
    BuildSpec(ks);
    assert [] + Entries(Build(ks)) + [] == Entries(Build(ks));
  }

  lemma BelowAt(x: seq<Entry>, e: Entry, key: int)
    requires AllBelow(x, e.key) && e.key < key
    ensures AllBelow(x + [e], key)
  {
  }

  lemma {:induction false} SearchUp(ks: seq<int>, key: int, p: Path, t: Tree)
    requires Searching(ks, key, p, t) && t.Node? && key >= t.key
    ensures key == t.key || t.right.Leaf? ==> IsFloorSlot(ks, key, t.slot)
    ensures key > t.key ==> Searching(ks, key, FromRight(p, t.slot, t.key, t.black, t.left), t.right)
  {
    var b, l, e, r, a := Before(p), Entries(t.left), Entry(t.slot, t.key), Entries(t.right), After(p);
    Groupings(b, l, e, r, a);
    SortedSplit(b + l, e, r + a);
    assert Before(p) + Entries(t) + After(p) == b + (l + [e] + r) + a;
    if key == t.key || t.right.Leaf? {
      assert t.right.Leaf? ==> r + a == a;
      FloorOfSplit(ks, b + l + [e], r + a, key);
    }
    if key > t.key {
      BelowAt(b + l, e, key);
    }
  }

  lemma {:induction false} SearchDown(ks: seq<int>, key: int, p: Path, t: Tree)
    requires Searching(ks, key, p, t) && t.Node? && key < t.key
    ensures t.left.Leaf? ==> IsFloorSlot(ks, key, LastSlot(Before(p)))
    ensures Searching(ks, key, FromLeft(p, t.slot, t.key, t.black, t.right), t.left)
  {
    var b, l, e, r, a := Before(p), Entries(t.left), Entry(t.slot, t.key), Entries(t.right), After(p);
    Groupings(b, l, e, r, a);
    SortedSplit(b + l, e, r + a);
    if t.left.Leaf? {
      FloorOfSplit(ks, b, [e] + r + a, key);
    }
  }

  /** How the node in focus is linked upward. */
  lemma UpLink(c: Cells, root: int, p: Path, t: Tree)
    requires Focus(c, root, p, t) && t.Node?
    ensures 0 <= t.slot < |c| && c[t.slot].parent == Holder(p) && -1 <= Holder(p) < |c|
    ensures !p.Top? ==> (c[p.slot].left == t.slot <==> p.FromLeft?)
    ensures p.FromLeft? ==> Before(p) == Before(p.up)
    ensures p.Top? || p.FromRight? ==> Holder(p) == LastSlot(Before(p))
  {
    if !p.Top? {
      UpRows(c, root, p, t);
    }
  }

  /** Range has visited the keys in range above the one in slot `i`, and no others. */
  ghost predicate Walking(walked: seq<int>, ks: seq<int>, start: int, end: int, i: int)
    requires -1 <= i < |ks|
  {
    && Descending(walked)
    && (forall x <- walked :: x in ks && start <= x <= end)
    && (forall k <- ks :: k <= end && (i == -1 || ks[i] < k) ==> k in walked)
    && (i != -1 ==> ks[i] <= end && forall x <- walked :: ks[i] < x)
  }

  lemma WalkStep(walked: seq<int>, ks: seq<int>, start: int, end: int, i: nat, r: int)
    requires i < |ks| && start <= ks[i] && Walking(walked, ks, start, end, i) && IsPreviousSlot(ks, i, r)
    ensures Walking(walked + [ks[i]], ks, start, end, r)
  {
    var w := walked + [ks[i]];
    forall a, b | 0 <= a < b < |w| ensures w[b] < w[a] {
      assert w[a] == walked[a] && walked[a] in walked;
    }
    forall k | k in ks && k <= end && (r == -1 || ks[r] < k) ensures k in w {
      if k !in walked {
        assert k == ks[i] && w[|walked|] == k;
      }
    }
  }
}
