/** The red-black insertion of HeapTimeTreeChunk, on values.

    A node carries the array slot the chunk stores it in.  A `Path` is the way from a
    subtree up to the root, so the climbing of insertCase1..insertCase5 is recursion on a path. */
module RedBlackTree {
  import opened Arithmetic
  import opened TimeLine

  datatype Tree = Leaf | Node(left: Tree, slot: nat, key: int, black: bool, right: Tree)

  /** `FromLeft(up, ...)` leads from the left child of the node it describes; `sib` is the other child. */
  datatype Path =
    | Top
    | FromLeft(up: Path, slot: nat, key: int, black: bool, sib: Tree)
    | FromRight(up: Path, slot: nat, key: int, black: bool, sib: Tree)

  datatype Entry = Entry(slot: nat, key: int)

  // ----- structure -----

  /** The node at the end of `p`, with `t` below it. */
  function Under(p: Path, t: Tree): Tree
    requires !p.Top?
  {
    match p
    case FromLeft(_, s, k, b, sib) => Node(t, s, k, b, sib)
    case FromRight(_, s, k, b, sib) => Node(sib, s, k, b, t)
  }

  function Plug(p: Path, t: Tree): Tree {
    if p.Top? then t else Plug(p.up, Under(p, t))
  }

  function IsBlack(t: Tree): bool {
    t.Leaf? || t.black
  }

  // ----- insertion -----

  /** Where a new key goes: the path to its leaf position, or None when it is present. */
  datatype Position = Present | Free(path: Path)

  function Locate(t: Tree, key: int, p: Path): Position {
    if t.Leaf? then Free(p)
    else if key == t.key then Present
    else if key < t.key then Locate(t.left, key, FromLeft(p, t.slot, t.key, t.black, t.right))
    else Locate(t.right, key, FromRight(p, t.slot, t.key, t.black, t.left))
  }

  /** The parent and grandparent of a red node whose uncle is not red, after the rotations of
      insertCase4 and insertCase5. */
  function Rotated(n: Tree, p: Path): Tree
    requires n.Node? && !p.Top? && !p.up.Top?
  {
    var g := p.up;
    match (g, p)
    case (FromLeft(_, gs, gk, _, u), FromLeft(_, ps, pk, _, s)) =>
      Node(n, ps, pk, true, Node(s, gs, gk, false, u))
    case (FromLeft(_, gs, gk, _, u), FromRight(_, ps, pk, _, s)) =>
      Node(Node(s, ps, pk, p.black, n.left), n.slot, n.key, true, Node(n.right, gs, gk, false, u))
    case (FromRight(_, gs, gk, _, u), FromRight(_, ps, pk, _, s)) =>
      Node(Node(u, gs, gk, false, s), ps, pk, true, n)
    case (FromRight(_, gs, gk, _, u), FromLeft(_, ps, pk, _, s)) =>
      Node(Node(u, gs, gk, false, n.left), n.slot, n.key, true, Node(n.right, ps, pk, p.black, s))
  }

  /** The grandparent after the recolouring of insertCase3. */
  function Recoloured(n: Tree, p: Path): Tree
    requires !p.Top? && !p.up.Top? && p.up.sib.Node?
  {
    Under(p.up.(black := false, sib := p.up.sib.(black := true)), Under(p.(black := true), n))
  }

  /** insertCase1..insertCase5: the whole tree once the red node `n` at `p` has been accommodated.
      A red node without a parent never occurs on `p` (see `PathOk`). */
  function Close(n: Tree, p: Path): Tree
    requires n.Node?
    decreases p
  {
    if p.Top? then n.(black := true)
    else if p.black || p.up.Top? then Plug(p, n)
    else if !IsBlack(p.up.sib) then Close(Recoloured(n, p), p.up.up)
    else Plug(p.up.up, Rotated(n, p))
  }

  function Insert(t: Tree, slot: nat, key: int): Tree {
    match Locate(t, key, Top)
    case Present => t
    case Free(p) => Close(Node(Leaf, slot, key, false, Leaf), p)
  }

  /** The tree that inserting `ks` in order builds: key number i sits in slot i. */
  function Build(ks: seq<int>): Tree {
    if ks == [] then Leaf
    else Insert(Build(ks[..|ks| - 1]), |ks| - 1, ks[|ks| - 1])
  }

  lemma BuildNext(ks: seq<int>, k: int)
    ensures Build(ks + [k]) == Insert(Build(ks), |ks|, k)
  {
    assert (ks + [k])[..|ks|] == ks;
  }

  /** One step of the search. */
  function Step(t: Tree, key: int, p: Path): Path
    requires t.Node?
  {
    if key < t.key then FromLeft(p, t.slot, t.key, t.black, t.right) else FromRight(p, t.slot, t.key, t.black, t.left)
  }

  lemma LocateStep(t: Tree, key: int, p: Path)
    requires t.Node? && key != t.key
    ensures var child := if key < t.key then t.left else t.right;
      && Locate(t, key, p) == Locate(child, key, Step(t, key, p))
      && (child == Leaf ==> Locate(t, key, p) == Free(Step(t, key, p)))
  {
  }

  /** The first two keys: a black root, and a red child. */
  lemma TwoKeys(a: int, b: int)
    requires a != b
    ensures Build([a, b]) ==
      if b < a then Node(Node(Leaf, 1, b, false, Leaf), 0, a, true, Leaf)
      else Node(Leaf, 0, a, true, Node(Leaf, 1, b, false, Leaf))
  {
    assert [a] == [] + [a] && [a, b] == [a] + [b];
    BuildNext([], a);
    BuildNext([a], b);
    var t := Node(Leaf, 0, a, true, Leaf);
    assert Build([]) == Leaf && Build([a]) == t;
    LocateStep(t, b, Top);
    assert Plug(Top, Under(Step(t, b, Top), Node(Leaf, 1, b, false, Leaf)))
      == Under(Step(t, b, Top), Node(Leaf, 1, b, false, Leaf));
  }

  /** A third key that comes below a red one: whichever way round, the middle one becomes the root, with two red
      children. */
  lemma ThirdKey(a: int, b: int, c: int)
    requires a < b < c || a > b > c || a < c < b || a > c > b
    ensures Build([a, b, c]) ==
      if a < b < c then Node(Node(Leaf, 0, a, false, Leaf), 1, b, true, Node(Leaf, 2, c, false, Leaf))
      else if a < c < b then Node(Node(Leaf, 0, a, false, Leaf), 2, c, true, Node(Leaf, 1, b, false, Leaf))
      else if a > b > c then Node(Node(Leaf, 2, c, false, Leaf), 1, b, true, Node(Leaf, 0, a, false, Leaf))
      else Node(Node(Leaf, 1, b, false, Leaf), 2, c, true, Node(Leaf, 0, a, false, Leaf))
  {
    TwoKeys(a, b);
    assert [a, b, c] == [a, b] + [c];
    BuildNext([a, b], c);
    var t, red := Build([a, b]), Node(Leaf, 1, b, false, Leaf);
    var p := Step(t, c, Top);
    var q := Step(red, c, p);
    LocateStep(t, c, Top);
    LocateStep(red, c, p);
    assert Insert(t, 2, c) == Close(Node(Leaf, 2, c, false, Leaf), q);
    assert q.up == p && p.up == Top;
    assert Plug(Top, Rotated(Node(Leaf, 2, c, false, Leaf), q)) == Rotated(Node(Leaf, 2, c, false, Leaf), q);
  }

  /** A fourth key finds a red uncle: its parent and its uncle become black, and nothing is rotated. */
  lemma FourthKey(a: int, b: int, c: int, d: int)
    requires a < b < c < d
    ensures Build([a, b, c, d]) ==
      Node(Node(Leaf, 0, a, true, Leaf), 1, b, true, Node(Leaf, 2, c, true, Node(Leaf, 3, d, false, Leaf)))
  {
    ThirdKey(a, b, c);
    assert [a, b, c, d] == [a, b, c] + [d];
    BuildNext([a, b, c], d);
    var t, red := Build([a, b, c]), Node(Leaf, 2, c, false, Leaf);
    var p := Step(t, d, Top);
    var q := Step(red, d, p);
    LocateStep(t, d, Top);
    LocateStep(red, d, p);
    var n := Node(Leaf, 3, d, false, Leaf);
    assert Insert(t, 3, d) == Close(n, q) && Close(n, q) == Close(Recoloured(n, q), Top);
  }

  // ----- what the tree holds -----

  function Entries(t: Tree): seq<Entry> {
    if t.Leaf? then [] else Entries(t.left) + [Entry(t.slot, t.key)] + Entries(t.right)
  }

  /** The entries left of the hole of a path, in order. */
  function Before(p: Path): seq<Entry> {
    match p
    case Top => []
    case FromLeft(up, _, _, _, _) => Before(up)
    case FromRight(up, s, k, _, sib) => Before(up) + Entries(sib) + [Entry(s, k)]
  }

  /** The entries right of the hole of a path, in order. */
  function After(p: Path): seq<Entry> {
    match p
    case Top => []
    case FromLeft(up, s, k, _, sib) => [Entry(s, k)] + Entries(sib) + After(up)
    case FromRight(up, _, _, _, _) => After(up)
  }

  ghost predicate Sorted(es: seq<Entry>) {
    forall i, j :: 0 <= i < j < |es| ==> es[i].key < es[j].key
  }

  // ----- red-black shape -----

  function BlackHeight(t: Tree): nat {
    if t.Leaf? then 0 else BlackHeight(t.left) + (if t.black then 1 else 0)
  }

  /** No red node has a red child and all ways down meet equally many black nodes. */
  ghost predicate Balanced(t: Tree) {
    t.Node? ==>
      && Balanced(t.left) && Balanced(t.right)
      && BlackHeight(t.left) == BlackHeight(t.right)
      && (!t.black ==> IsBlack(t.left) && IsBlack(t.right))
  }

  ghost predicate IsRedBlack(t: Tree) {
    Balanced(t) && IsBlack(t)
  }

  /** `p` completes every balanced subtree of black height `h` to a red-black tree, up to a red
      node in the hole of a red parent. */
  ghost predicate PathOk(p: Path, h: nat) {
    !p.Top? ==>
      && Balanced(p.sib) && BlackHeight(p.sib) == h
      && (!p.black ==> IsBlack(p.sib) && !p.up.Top? && p.up.black)
      && PathOk(p.up, h + if p.black then 1 else 0)
  }

  lemma {:induction false} PlugEntries(p: Path, t: Tree)
    ensures Entries(Plug(p, t)) == Before(p) + Entries(t) + After(p)
    decreases p
  {
    if p.Top? {
    } else {
      PlugEntries(p.up, Under(p, t));
    }
  }

  /** Rotations and recolourings never reorder, lose or duplicate an entry. */
  lemma {:induction false} CloseEntries(n: Tree, p: Path)
    requires n.Node?
    ensures Entries(Close(n, p)) == Before(p) + Entries(n) + After(p)
    decreases p
  {
    if p.Top? {
    } else if p.black || p.up.Top? {
      PlugEntries(p, n);
    } else if !IsBlack(p.up.sib) {
      CloseEntries(Recoloured(n, p), p.up.up);
      assert Entries(Recoloured(n, p)) == Entries(Under(p.up, Under(p, n)));
      UnderEntries(p, n);
      UnderEntries(p.up, Under(p, n));
    } else {
      PlugEntries(p.up.up, Rotated(n, p));
      RotatedEntries(n, p);
      UnderEntries(p, n);
      UnderEntries(p.up, Under(p, n));
    }
  }

  /** Regrouping three runs around two separators does not change the sequence. */
  lemma Regroup<T>(a: seq<T>, x: T, b: seq<T>, y: T, c: seq<T>)
    ensures (a + [x] + b) + [y] + c == a + [x] + (b + [y] + c)
  {
  }

  lemma NodeEntries(l: Tree, slot: nat, key: int, black: bool, r: Tree)
    ensures Entries(Node(l, slot, key, black, r)) == Entries(l) + [Entry(slot, key)] + Entries(r)
  {
  }

  lemma RotatedOuter(n: Tree, p: Path)
    requires n.Node? && !p.Top? && !p.up.Top? && p.FromLeft? == p.up.FromLeft?
    ensures Entries(Rotated(n, p)) == Entries(Under(p.up, Under(p, n)))
  {
    var g := p.up;
    var m, s, u := Entries(n), Entries(p.sib), Entries(g.sib);
    var ep, eg := Entry(p.slot, p.key), Entry(g.slot, g.key);
    if p.FromLeft? {
      Regroup(m, ep, s, eg, u);
      NodeEntries(n, p.slot, p.key, p.black, p.sib);
      NodeEntries(Under(p, n), g.slot, g.key, g.black, g.sib);
      NodeEntries(p.sib, g.slot, g.key, false, g.sib);
      NodeEntries(n, p.slot, p.key, true, Node(p.sib, g.slot, g.key, false, g.sib));
    } else {
      Regroup(u, eg, s, ep, m);
      NodeEntries(p.sib, p.slot, p.key, p.black, n);
      NodeEntries(g.sib, g.slot, g.key, g.black, Under(p, n));
      NodeEntries(g.sib, g.slot, g.key, false, p.sib);
      NodeEntries(Node(g.sib, g.slot, g.key, false, p.sib), p.slot, p.key, true, n);
    }
  }

  lemma RotatedInner(n: Tree, p: Path)
    requires n.Node? && !p.Top? && !p.up.Top? && p.FromLeft? != p.up.FromLeft?
    ensures Entries(Rotated(n, p)) == Entries(Under(p.up, Under(p, n)))
  {
    var g := p.up;
    var nl, nr, s, u := Entries(n.left), Entries(n.right), Entries(p.sib), Entries(g.sib);
    var en, ep, eg := Entry(n.slot, n.key), Entry(p.slot, p.key), Entry(g.slot, g.key);
    NodeEntries(n.left, n.slot, n.key, n.black, n.right);
    if p.FromLeft? {
      Regroup(nl, en, nr, ep, s);
      Regroup(u, eg, nl, en, nr + [ep] + s);
      NodeEntries(n, p.slot, p.key, p.black, p.sib);
      NodeEntries(g.sib, g.slot, g.key, g.black, Under(p, n));
      NodeEntries(g.sib, g.slot, g.key, false, n.left);
      NodeEntries(n.right, p.slot, p.key, p.black, p.sib);
    } else {
      Regroup(s, ep, nl, en, nr);
      Regroup(s + [ep] + nl, en, nr, eg, u);
      NodeEntries(p.sib, p.slot, p.key, p.black, n);
      NodeEntries(Under(p, n), g.slot, g.key, g.black, g.sib);
      NodeEntries(p.sib, p.slot, p.key, p.black, n.left);
      NodeEntries(n.right, g.slot, g.key, false, g.sib);
    }
  }

  lemma RotatedEntries(n: Tree, p: Path)
    requires n.Node? && !p.Top? && !p.up.Top?
    ensures Entries(Rotated(n, p)) == Entries(Under(p.up, Under(p, n)))
  {
    if p.FromLeft? == p.up.FromLeft? {
      RotatedOuter(n, p);
    } else {
      RotatedInner(n, p);
    }
  }

  lemma UnderEntries(p: Path, t: Tree)
    requires !p.Top?
    ensures Before(p.up) + Entries(Under(p, t)) + After(p.up) == Before(p) + Entries(t) + After(p)
  {
  }

  lemma {:induction false} PlugBalanced(p: Path, t: Tree)
    requires Balanced(t) && PathOk(p, BlackHeight(t))
    requires p.Top? ==> IsBlack(t)
    requires !p.Top? && !p.black ==> IsBlack(t)
    ensures IsRedBlack(Plug(p, t))
    decreases p
  {
    if p.Top? {
    } else {
      PlugBalanced(p.up, Under(p, t));
    }
  }

  /** Recolouring moves the defect two levels up. */
  lemma RecolouredBalanced(n: Tree, p: Path)
    requires n.Node? && !n.black && Balanced(n) && PathOk(p, BlackHeight(n))
    requires !p.Top? && !p.black && !IsBlack(p.up.sib)
    ensures var r := Recoloured(n, p); Balanced(r) && !r.black && PathOk(p.up.up, BlackHeight(r))
  {
    var m := Under(p.(black := true), n);
    assert Balanced(m) && BlackHeight(m) == BlackHeight(n) + 1;
  }

  /** The insertion cases repair the one possible defect, a red node under a red parent. */
  lemma {:induction false} CloseRedBlack(n: Tree, p: Path)
    requires n.Node? && !n.black && Balanced(n) && PathOk(p, BlackHeight(n))
    ensures IsRedBlack(Close(n, p))
    decreases p
  {
    if p.Top? {
    } else if p.black {
      PlugBalanced(p, n);
    } else if !IsBlack(p.up.sib) {
      RecolouredBalanced(n, p);
      CloseRedBlack(Recoloured(n, p), p.up.up);
    } else {
      PlugBalanced(p.up.up, Rotated(n, p));
    }
  }

  // ----- order -----

  ghost predicate AllBelow(es: seq<Entry>, key: int) {
    forall e <- es :: e.key < key
  }

  ghost predicate AllAbove(es: seq<Entry>, key: int) {
    forall e <- es :: key < e.key
  }

  lemma SortedSplit(a: seq<Entry>, e: Entry, b: seq<Entry>)
    requires Sorted(a + [e] + b)
    ensures Sorted(a) && Sorted(b) && AllBelow(a, e.key) && AllAbove(b, e.key)
  {
    var es := a + [e] + b;
    assert es[|a|] == e;
    assert forall i :: 0 <= i < |a| ==> es[i] == a[i];
    assert forall i :: 0 <= i < |b| ==> es[|a| + 1 + i] == b[i];
  }

  lemma SortedJoin(a: seq<Entry>, e: Entry, b: seq<Entry>)
    requires Sorted(a + b) && AllBelow(a, e.key) && AllAbove(b, e.key)
    ensures Sorted(a + [e] + b)
  {
    var es := a + [e] + b;
    forall i, j | 0 <= i < j < |es| ensures es[i].key < es[j].key {
      if i < |a| { assert es[i] == (a + b)[i] && es[i] in a; }
      if i > |a| { assert es[i] == (a + b)[i - 1]; }
      if j < |a| { assert es[j] == (a + b)[j]; }
      if j > |a| { assert es[j] == (a + b)[j - 1] && es[j] in b; }
    }
  }

  ghost predicate HasKey(t: Tree, key: int) {
    exists e <- Entries(t) :: e.key == key
  }

  /** Locate answers Present exactly for the keys in the tree, and otherwise a path whose hole
      lies between the smaller and the larger keys. */
  lemma {:induction false} LocateOrder(t: Tree, key: int, p: Path)
    requires Sorted(Entries(t)) && AllBelow(Before(p), key) && AllAbove(After(p), key)
    ensures Locate(t, key, p).Present? <==> HasKey(t, key)
    ensures var r := Locate(t, key, p); r.Free? ==> AllBelow(Before(r.path), key) && AllAbove(After(r.path), key)
    decreases t
  {
    if t.Node? {
      StepOrder(t, key, p);
      if key < t.key {
        LocateOrder(t.left, key, Step(t, key, p));
      } else if key > t.key {
        LocateOrder(t.right, key, Step(t, key, p));
      }
    }
  }

  /** One step of the search goes where the key can be, and leaves the smaller keys before and the larger ones
      after it. */
  lemma StepOrder(t: Tree, key: int, p: Path)
    requires t.Node? && Sorted(Entries(t)) && AllBelow(Before(p), key) && AllAbove(After(p), key)
    ensures key == t.key ==> HasKey(t, key)
    ensures key != t.key ==>
      var child, q := if key < t.key then t.left else t.right, Step(t, key, p);
      && Sorted(Entries(child)) && (HasKey(t, key) <==> HasKey(child, key))
      && AllBelow(Before(q), key) && AllAbove(After(q), key)
  {
    var e := Entry(t.slot, t.key);
    SortedSplit(Entries(t.left), e, Entries(t.right));
    assert e in Entries(t);
  }

  lemma {:induction false} LocatePath(t: Tree, key: int, p: Path)
    requires Balanced(t) && PathOk(p, BlackHeight(t)) && (!IsBlack(t) ==> !p.Top? && p.black)
    ensures var r := Locate(t, key, p); r.Free? ==> Plug(r.path, Leaf) == Plug(p, t) && PathOk(r.path, 0)
    decreases t
  {
    if t.Leaf? {
    } else if key < t.key {
      LocatePath(t.left, key, FromLeft(p, t.slot, t.key, t.black, t.right));
    } else if key > t.key {
      LocatePath(t.right, key, FromRight(p, t.slot, t.key, t.black, t.left));
    }
  }

  /** `es` with `e` put in at position `j`. */
  function Inserted(es: seq<Entry>, j: nat, e: Entry): seq<Entry>
    requires j <= |es|
  {
    es[..j] + [e] + es[j..]
  }

  lemma NewEntries(p: Path, slot: nat, key: int)
    ensures Entries(Close(Node(Leaf, slot, key, false, Leaf), p)) == Before(p) + [Entry(slot, key)] + After(p)
    ensures Entries(Plug(p, Leaf)) == Before(p) + After(p)
  {
    var n := Node(Leaf, slot, key, false, Leaf);
    CloseEntries(n, p);
    PlugEntries(p, Leaf);
    assert Entries(n) == [Entry(slot, key)];
    assert Before(p) + [] + After(p) == Before(p) + After(p);
  }

  lemma Between(a: seq<Entry>, e: Entry, b: seq<Entry>)
    ensures |a| <= |a + b| && Inserted(a + b, |a|, e) == a + [e] + b
  {
    assert (a + b)[..|a|] == a && (a + b)[|a|..] == b;
  }

  /** A located position takes a new node at any key that fits between its neighbours. */
  lemma {:induction false} CloseNew(p: Path, slot: nat, key: int, es: seq<Entry>)
    requires PathOk(p, 0) && es == Entries(Plug(p, Leaf)) && Sorted(es)
    requires AllBelow(Before(p), key) && AllAbove(After(p), key)
    ensures var u := Close(Node(Leaf, slot, key, false, Leaf), p);
      && IsRedBlack(u) && Sorted(Entries(u)) && |Before(p)| <= |es|
      && Entries(u) == Inserted(es, |Before(p)|, Entry(slot, key))
  {
    CloseRedBlack(Node(Leaf, slot, key, false, Leaf), p);
    NewEntries(p, slot, key);
    SortedJoin(Before(p), Entry(slot, key), After(p));
    Between(Before(p), Entry(slot, key), After(p));
  }

  /** One insertion keeps the tree red-black and sorted, and adds exactly the new entry. */
  lemma InsertSpec(t: Tree, slot: nat, key: int) returns (j: nat)
    requires IsRedBlack(t) && Sorted(Entries(t))
    ensures IsRedBlack(Insert(t, slot, key)) && Sorted(Entries(Insert(t, slot, key)))
    ensures HasKey(t, key) ==> Insert(t, slot, key) == t
    ensures !HasKey(t, key) ==>
      j <= |Entries(t)| && Entries(Insert(t, slot, key)) == Inserted(Entries(t), j, Entry(slot, key))
  {
    LocatePath(t, key, Top);
    LocateOrder(t, key, Top);
    j := 0;
    match Locate(t, key, Top)
    case Present =>
    case Free(p) =>
      CloseNew(p, slot, key, Entries(t));
      j := |Before(p)|;
  }

  /** `es` is the pairs (i, ks[i]), once each. */
  ghost predicate Holds(es: seq<Entry>, ks: seq<int>) {
    && |es| == |ks|
    && (forall e <- es :: e.slot < |ks| && ks[e.slot] == e.key)
    && (forall i :: 0 <= i < |ks| ==> Entry(i, ks[i]) in es)
  }

  lemma HoldsInserted(es: seq<Entry>, j: nat, ks: seq<int>, key: int)
    requires j <= |es| && Holds(es, ks)
    ensures Holds(Inserted(es, j, Entry(|ks|, key)), ks + [key])
  {
    var ks', es' := ks + [key], Inserted(es, j, Entry(|ks|, key));
    forall e | e in es' ensures e.slot < |ks'| && ks'[e.slot] == e.key {
      assert e in es || e == Entry(|ks|, key);
    }
    forall i | 0 <= i < |ks'| ensures Entry(i, ks'[i]) in es' {
      assert es'[j] == Entry(|ks|, key);
      if i < |ks| {
        assert es == es[..j] + es[j..] && Entry(i, ks[i]) in es;
      }
    }
  }

  lemma NotHeld(t: Tree, ks: seq<int>, key: int)
    requires Holds(Entries(t), ks) && key !in ks
    ensures !HasKey(t, key)
  {
  }

  /** Every insertion order of distinct keys gives a sorted red-black tree holding each key in
      the slot of its insertion. */
  lemma {:induction false} BuildSpec(ks: seq<int>)
    requires Distinct(ks)
    ensures IsRedBlack(Build(ks)) && Sorted(Entries(Build(ks))) && Holds(Entries(Build(ks)), ks)
  {
    if ks != [] {
      var n := |ks| - 1;
      BuildSpec(ks[..n]);
      var t := Build(ks[..n]);
      NotHeld(t, ks[..n], ks[n]);
      var j := InsertSpec(t, n, ks[n]);
      HoldsInserted(Entries(t), j, ks[..n], ks[n]);
      assert ks == ks[..n] + [ks[n]];
    }
  }

  // ----- height -----

  function Height(t: Tree): nat {
    if t.Leaf? then 0
    else 1 + if Height(t.left) < Height(t.right) then Height(t.right) else Height(t.left)
  }

  lemma {:induction false} SizeFromBlackHeight(t: Tree)
    requires Balanced(t)
    ensures Pow2(BlackHeight(t)) <= |Entries(t)| + 1
  {
    if t.Leaf? {
    } else {
      SizeFromBlackHeight(t.left);
      SizeFromBlackHeight(t.right);
    }
  }

  lemma {:induction false} HeightFromBlackHeight(t: Tree)
    requires Balanced(t)
    ensures Height(t) <= 2 * BlackHeight(t) + if IsBlack(t) then 0 else 1
  {
    if t.Leaf? {
    } else {
      HeightFromBlackHeight(t.left);
      HeightFromBlackHeight(t.right);
    }
  }

  /** height <= 2 * log2(size + 1), without logarithms. */
  lemma HeightBound(t: Tree)
    requires IsRedBlack(t)
    ensures Pow2(Height(t)) <= (|Entries(t)| + 1) * (|Entries(t)| + 1)
  {
    var b, s := BlackHeight(t), |Entries(t)| + 1;
    SizeFromBlackHeight(t);
    HeightFromBlackHeight(t);
    Pow2Monotone(Height(t), 2 * b);
    Pow2Sum(b, b);
    calc {
      Pow2(b) * Pow2(b);
      <= { MulMonotone(Pow2(b), s, Pow2(b)); }
      s * Pow2(b);
      <= { MulMonotone(Pow2(b), s, s); }
      s * s;
    }
  }
}
