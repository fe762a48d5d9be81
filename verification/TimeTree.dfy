/** HeapTimeTreeChunk: the ordered set of time points of one node in one world. */
module TimeTrees {
  import opened Hiding
  import opened Constants
  import opened RedBlackTree
  import opened TimeLine
  import opened TreeCells
  import opened TreeLinks

  ghost function RowsOf(links: seq<int>, colors: seq<bool>, keys: seq<int>): Cells
    requires |links| == 3 * |keys| && |colors| == |keys|
  {
    seq(|keys|, i requires 0 <= i < |keys| => Row(links[3 * i], links[3 * i + 1], links[3 * i + 2], colors[i], keys[i]))
  }

  /** A longer copy of the first `count` elements. */
  method Copied<T(0)>(a: array<T>, count: nat, length: nat, fill: T) returns (b: array<T>)
    requires count <= a.Length && count <= length
    ensures fresh(b) && b.Length == length
    ensures forall i :: 0 <= i < count ==> b[i] == a[i]
    ensures forall i :: count <= i < length ==> b[i] == fill
  {
    b := new T[length];
    forall i | 0 <= i < length { b[i] := if i < count then a[i] else fill; }
  }

  class TimeTree {
    var backMeta: array<int>      // per slot: left, right and parent
    var backK: array<int>
    var backColors: array<bool>
    var rootIndex: int
    var size: nat
    var threshold: real
    var magic: nat
    ghost var rows: Cells         // what the three arrays say about each slot

    // ----- arrays as rows -----

    /** Names the slots `Wired` is to be looked up at. */
    static ghost predicate IsSlot(i: int) { true }

    ghost predicate Wired()
      reads this, backMeta, backK, backColors
    {
      && backMeta.Length == 3 * backK.Length && backColors.Length == backK.Length && backMeta != backK
      && |rows| == backK.Length
      && forall i {:trigger IsSlot(i)} :: IsSlot(i) && 0 <= i < |rows| ==>
        rows[i] == Row(backMeta[3 * i], backMeta[3 * i + 1], backMeta[3 * i + 2], backColors[i], backK[i])
    }

    function Left(i: int): (v: int)
      reads this, backMeta, backK, backColors
      requires Wired() && -1 <= i < |rows|
      ensures v == if i == -1 then -1 else rows[i].left
    {
      assert IsSlot(i);
      if i == -1 then -1 else backMeta[3 * i]
    }

    function Right(i: int): (v: int)
      reads this, backMeta, backK, backColors
      requires Wired() && -1 <= i < |rows|
      ensures v == if i == -1 then -1 else rows[i].right
    {
      assert IsSlot(i);
      if i == -1 then -1 else backMeta[3 * i + 1]
    }

    function Parent(i: int): (v: int)
      reads this, backMeta, backK, backColors
      requires Wired() && -1 <= i < |rows|
      ensures v == if i == -1 then -1 else rows[i].parent
    {
      assert IsSlot(i);
      if i == -1 then -1 else backMeta[3 * i + 2]
    }

    function Color(i: int): (v: bool)
      reads this, backMeta, backK, backColors
      requires Wired() && -1 <= i < |rows|
      ensures v == if i == -1 then true else rows[i].black
    {
      assert IsSlot(i);
      if i == -1 then true else backColors[i]
    }

    function Key(i: int): (v: int)
      reads this, backMeta, backK, backColors
      requires Wired() && -1 <= i < |rows|
      ensures v == if i == -1 then -1 else rows[i].key
    {
      assert IsSlot(i);
      if i == -1 then -1 else backK[i]
    }

    /** Where the arrays have a slot: three links in a row, its key, and true for black. */
    lemma Layout(i: nat)
      requires Wired() && i < |rows|
      ensures backMeta[3 * i] == rows[i].left && backMeta[3 * i + 1] == rows[i].right
      ensures backMeta[3 * i + 2] == rows[i].parent && backK[i] == rows[i].key && backColors[i] == rows[i].black
    {
      assert IsSlot(i);
    }

    method SetLeft(i: int, v: int)
      requires Wired() && 0 <= i < |rows|
      modifies this`rows, backMeta
      ensures Wired() && rows == old(rows)[i := old(rows)[i].(left := v)]
    {
      assert IsSlot(i);
      backMeta[3 * i] := v;
      rows := rows[i := rows[i].(left := v)];
    }

    method SetRight(i: int, v: int)
      requires Wired() && 0 <= i < |rows|
      modifies this`rows, backMeta
      ensures Wired() && rows == old(rows)[i := old(rows)[i].(right := v)]
    {
      assert IsSlot(i);
      backMeta[3 * i + 1] := v;
      rows := rows[i := rows[i].(right := v)];
    }

    method SetParent(i: int, v: int)
      requires Wired() && 0 <= i < |rows|
      modifies this`rows, backMeta
      ensures Wired() && rows == old(rows)[i := old(rows)[i].(parent := v)]
    {
      assert IsSlot(i);
      backMeta[3 * i + 2] := v;
      rows := rows[i := rows[i].(parent := v)];
    }

    method SetColor(i: int, v: bool)
      requires Wired() && 0 <= i < |rows|
      modifies this`rows, backColors
      ensures Wired() && rows == old(rows)[i := old(rows)[i].(black := v)]
    {
      assert IsSlot(i);
      backColors[i] := v;
      rows := rows[i := rows[i].(black := v)];
    }

    method SetKey(i: int, v: int)
      requires Wired() && 0 <= i < |rows|
      modifies this`rows, backK
      ensures Wired() && rows == old(rows)[i := old(rows)[i].(key := v)]
      ensures backK[..] == old(backK[..])[i := v]
    {
      assert IsSlot(i);
      backK[i] := v;
      rows := rows[i := rows[i].(key := v)];
    }

    // ----- rotations -----

    method ReplaceNode(oldn: int, newn: int)
      requires Wired() && 0 <= oldn < |rows| && 0 <= newn < |rows| && oldn != newn
      requires -1 <= Parent(oldn) < |rows| && Parent(oldn) != newn && Parent(oldn) != oldn
      modifies this`rootIndex, this`rows, backMeta
      ensures Wired() && Replaced(old(rows), rows, oldn, newn, old(rows[oldn].parent))
      ensures rootIndex == if old(rows[oldn].parent) == -1 then newn else old(rootIndex)
    {
      var o := Parent(oldn);
      if o == -1 {
        rootIndex := newn;
      } else if oldn == Left(o) {
        SetLeft(o, newn);
      } else {
        SetRight(o, newn);
      }
      SetParent(newn, o);
    }

    method RotateLeft(n: int)
      requires Wired() && 0 <= n < |rows| && 0 <= rows[n].right < |rows|
      requires CanLeftRotate(rows, n, rows[n].right, rows[rows[n].right].left, rows[n].parent)
      modifies this`rootIndex, this`rows, backMeta
      ensures Wired()
      ensures LeftRotatedRows(old(rows), rows, n, old(rows[n].right), old(rows[rows[n].right].left),
        old(rows[n].parent))
      ensures rootIndex == if old(rows[n].parent) == -1 then old(rows[n].right) else old(rootIndex)
    {
      var r := Right(n);
      var b := Left(r);
      ghost var o := Parent(n);
      ReplaceNode(n, r);
      LeftRelinkedRows(old(rows), rows, n, r, b, o);
      SetRight(n, b);
      if b != -1 {
        SetParent(b, n);
      }
      SetLeft(r, n);
      SetParent(n, r);
    }

    method RotateRight(n: int)
      requires Wired() && 0 <= n < |rows| && 0 <= rows[n].left < |rows|
      requires CanRightRotate(rows, n, rows[n].left, rows[rows[n].left].right, rows[n].parent)
      modifies this`rootIndex, this`rows, backMeta
      ensures Wired()
      ensures RightRotatedRows(old(rows), rows, n, old(rows[n].left), old(rows[rows[n].left].right),
        old(rows[n].parent))
      ensures rootIndex == if old(rows[n].parent) == -1 then old(rows[n].left) else old(rootIndex)
    {
      var r := Left(n);
      var b := Right(r);
      ghost var o := Parent(n);
      ReplaceNode(n, r);
      RightRelinkedRows(old(rows), rows, n, r, b, o);
      SetLeft(n, b);
      if b != -1 {
        SetParent(b, n);
      }
      SetRight(r, n);
      SetParent(n, r);
    }

    // ----- insertion cases -----

    function GrandParent(i: int): int
      reads this, backMeta, backK, backColors
      requires Wired() && -1 <= i < |rows| && -1 <= Parent(i) < |rows|
    {
      if i == -1 then -1 else if Parent(i) != -1 then Parent(Parent(i)) else -1
    }

    function Sibling(i: int): int
      reads this, backMeta, backK, backColors
      requires Wired() && -1 <= i < |rows| && -1 <= Parent(i) < |rows|
    {
      if Parent(i) == -1 then -1
      else if i == Left(Parent(i)) then Right(Parent(i))
      else Left(Parent(i))
    }

    function Uncle(i: int): int
      reads this, backMeta, backK, backColors
      requires Wired() && -1 <= i < |rows| && -1 <= Parent(i) < |rows|
      requires Parent(i) != -1 ==> -1 <= Parent(Parent(i)) < |rows|
    {
      if Parent(i) != -1 then Sibling(Parent(i)) else -1
    }

    method InsertCase1(n: int, ghost p: Path, ghost t: Tree)
      requires Wired() && Pending(rows, rootIndex, p, t) && n == t.slot
      modifies this`rootIndex, this`rows, backMeta, backColors
      ensures Wired() && Focus(rows, rootIndex, Top, Close(t, p))
      decreases p, 5
    {
      if Parent(n) == -1 {
        ghost var c := rows;
        SetColor(n, true);
        Repaint(c, rows, rootIndex, p, t, true);
      } else {
        InsertCase2(n, p, t);
      }
    }

    method InsertCase2(n: int, ghost p: Path, ghost t: Tree)
      requires Wired() && Pending(rows, rootIndex, p, t) && n == t.slot && !p.Top?
      modifies this`rootIndex, this`rows, backMeta, backColors
      ensures Wired() && Focus(rows, rootIndex, Top, Close(t, p))
      decreases p, 4
    {
      if !Color(Parent(n)) {
        InsertCase3(n, p, t);
      } else {
        AscendAll(rows, rootIndex, p, t);
      }
    }

    method InsertCase3(n: int, ghost p: Path, ghost t: Tree)
      requires Wired() && Pending(rows, rootIndex, p, t) && n == t.slot && !p.Top? && !p.black
      modifies this`rootIndex, this`rows, backMeta, backColors
      ensures Wired() && Focus(rows, rootIndex, Top, Close(t, p))
      decreases p, 3
    {
      FamilyRows(rows, rootIndex, p, t);
      if !Color(Uncle(n)) {
        RecolouredPending(rows, rootIndex, p, t);
        var m, u, g := Parent(n), Uncle(n), GrandParent(n);
        SetColor(m, true);
        SetColor(u, true);
        SetColor(g, false);
        InsertCase1(g, p.up.up, Recoloured(t, p));
      } else {
        InsertCase4(n, p, t);
      }
    }

    method InsertCase4(n0: int, ghost p: Path, ghost t: Tree)
      requires Wired() && Pending(rows, rootIndex, p, t) && n0 == t.slot && !p.Top? && !p.black && IsBlack(p.up.sib)
      modifies this`rootIndex, this`rows, backMeta, backColors
      ensures Wired() && Focus(rows, rootIndex, Top, Close(t, p))
      decreases p, 2
    {
      var n := n0;
      ghost var c, g := rows, p.up;
      FamilyRows(c, rootIndex, p, t);
      var m, gp := Parent(n), GrandParent(n);
      if n == Right(m) && m == Left(gp) {
        LeftRotationRows(c, rootIndex, g, Under(p, t));
        RotateLeft(m);
        ghost var u := LeftRotated(Under(p, t));
        LeftRotationStored(c, rows, rootIndex, g, Under(p, t));
        DescendLeft(rows, rootIndex, g, u);
        n := Left(n);
        InsertCase5(n, FromLeft(g, u.slot, u.key, u.black, u.right), u.left);
      } else if n == Left(m) && m == Right(gp) {
        RightRotationRows(c, rootIndex, g, Under(p, t));
        RotateRight(m);
        ghost var u := RightRotated(Under(p, t));
        RightRotationStored(c, rows, rootIndex, g, Under(p, t));
        DescendRight(rows, rootIndex, g, u);
        n := Right(n);
        InsertCase5(n, FromRight(g, u.slot, u.key, u.black, u.left), u.right);
      } else {
        InsertCase5(n, p, t);
      }
    }

    method InsertCase5(n: int, ghost p: Path, ghost t: Tree)
      requires Wired() && Focus(rows, rootIndex, p, t) && t.Node? && n == t.slot
      requires !p.Top? && !p.up.Top? && p.FromLeft? == p.up.FromLeft?
      modifies this`rootIndex, this`rows, backMeta, backColors
      ensures Wired() && Focus(rows, rootIndex, Top, Plug(p.up.up, Rotated(t, p)))
    {
      ghost var c, root, g := rows, rootIndex, p.up;
      ghost var t2 := Repainted(t, p);
      RepaintTwice(c, root, p, t);
      var m, gp := Parent(n), GrandParent(n);
      SetColor(m, true);
      SetColor(gp, false);
      ghost var c2 := rows;
      if n == Left(m) && m == Left(gp) {
        RightRotationRows(c2, root, g.up, t2);
        RotateRight(gp);
        RightRotationStored(c2, rows, root, g.up, t2);
      } else {
        LeftRotationRows(c2, root, g.up, t2);
        RotateLeft(gp);
        LeftRotationStored(c2, rows, root, g.up, t2);
      }
      AscendAll(rows, rootIndex, g.up, Rotated(t, p));
    }

    // ----- insertion -----

    ghost function Arrays(): set<object>
      reads this
    {
      {backMeta, backK, backColors}
    }

    /** The keys, in the order they were inserted. */
    ghost function Keys(): seq<int>
      reads this, backK
      requires size <= backK.Length
    {
      backK[..size]
    }

    /** The arrays store exactly the tree that inserting the keys in their order builds. */
    ghost predicate Consistent()
      reads this, backMeta, backK, backColors
    {
      && Wired() && size <= backK.Length && threshold == backK.Length as real * MAP_LOAD_FACTOR
      && Distinct(Keys()) && Focus(rows, rootIndex, Top, Build(Keys()))
    }

    /** `Consistent()`, for callers to pass on: its definition comes into play only where `Unfold` is mentioned. */
    ghost predicate Valid()
      reads this, backMeta, backK, backColors
    {
      size <= backK.Length && forall b {:trigger Unfold(Topic.Trees, b)} :: Unfold(Topic.Trees, b) ==> Consistent()
    }

    constructor ()
      ensures Valid() && fresh(Arrays()) && Keys() == [] && magic == 0
    {
      backMeta, backK, backColors := new int[0], new int[0], new bool[0];
      rootIndex, size, threshold, magic := -1, 0, 0.0, 0;
      rows := [];
    }

    /** New arrays in place of the old ones. */
    method Adopt(newMeta: array<int>, newK: array<int>, newColors: array<bool>)
      requires newMeta.Length == 3 * newK.Length && newColors.Length == newK.Length && newMeta != newK
      modifies this`backMeta, this`backK, this`backColors, this`rows
      ensures Wired() && backMeta == newMeta && backK == newK && backColors == newColors
      ensures rows == RowsOf(newMeta[..], newColors[..], newK[..])
    {
      rows := RowsOf(newMeta[..], newColors[..], newK[..]);
      backMeta, backK, backColors := newMeta, newK, newColors;
    }

    method Reallocate(newCapacity: nat)
      requires Wired() && size <= backK.Length && size <= newCapacity
      modifies this`backMeta, this`backK, this`backColors, this`threshold, this`rows
      ensures Wired() && fresh(Arrays()) && backK.Length == newCapacity
      ensures threshold == newCapacity as real * MAP_LOAD_FACTOR
      ensures Keys() == old(Keys()) && rows[..size] == old(rows[..size])
    {
      threshold := newCapacity as real * MAP_LOAD_FACTOR;
      var newK := Copied(backK, size, newCapacity, 0);
      var newColors := Copied(backColors, size, newCapacity, false);
      var newMeta := Copied(backMeta, 3 * size, 3 * newCapacity, -1);
      ghost var before := rows;
      forall i | 0 <= i < size
        ensures before[i] == Row(newMeta[3 * i], newMeta[3 * i + 1], newMeta[3 * i + 2], newColors[i], newK[i])
      {
        assert IsSlot(i);
      }
      Adopt(newMeta, newK, newColors);
    }

    /** A red leaf for `key`, not yet linked to a parent. */
    method WriteLeaf(i: int, key: int)
      requires Wired() && 0 <= i < |rows|
      modifies this`rows, backMeta, backK, backColors
      ensures Wired() && rows == old(rows)[i := Row(-1, -1, -1, false, key)]
      ensures backK[..] == old(backK[..])[i := key]
    {
      SetKey(i, key);
      SetColor(i, false);
      SetLeft(i, -1);
      SetRight(i, -1);
      SetParent(i, -1);
    }

    method AttachLeft(n: int, i: nat, key: int, ghost p: Path)
      requires Wired() && Focus(rows, rootIndex, p, Leaf) && p.FromLeft? && p.slot == n && i < |rows|
      requires i !in PathSlots(p)
      modifies this`rows, backMeta, backK, backColors
      ensures Wired() && Focus(rows, rootIndex, p, NewLeaf(i, key))
      ensures backK[..] == old(backK[..])[i := key]
    {
      LeafAttached(rows, rootIndex, p, i, key);
      WriteLeaf(i, key);
      SetLeft(n, i);
      SetParent(i, n);
    }

    method AttachRight(n: int, i: nat, key: int, ghost p: Path)
      requires Wired() && Focus(rows, rootIndex, p, Leaf) && p.FromRight? && p.slot == n && i < |rows|
      requires i !in PathSlots(p)
      modifies this`rows, backMeta, backK, backColors
      ensures Wired() && Focus(rows, rootIndex, p, NewLeaf(i, key))
      ensures backK[..] == old(backK[..])[i := key]
    {
      LeafAttached(rows, rootIndex, p, i, key);
      WriteLeaf(i, key);
      SetRight(n, i);
      SetParent(i, n);
    }

    /** The descent of internal_insert: attaches a red leaf where the search for `key` ends. */
    method InsertBelow(newIndex: nat, key: int, ghost whole: Tree) returns (added: bool, ghost p: Path)
      requires Wired() && Focus(rows, rootIndex, Top, whole) && whole.Node? && newIndex < |rows|
      requires forall s <- Slots(whole) :: s < newIndex
      modifies this`rows, backMeta, backK, backColors
      ensures Wired() && added == Locate(whole, key, Top).Free?
      ensures !added ==> rows == old(rows) && backK[..] == old(backK[..])
      ensures added ==> Locate(whole, key, Top) == Free(p) && Focus(rows, rootIndex, p, NewLeaf(newIndex, key))
      ensures added ==> backK[..] == old(backK[..])[newIndex := key]
    {
      var n := rootIndex;
      p := Top;
      ghost var t := whole;
      while true
        invariant rows == old(rows) && backK[..] == old(backK[..]) && Wired()
        invariant t.Node? && t.slot == n && Focus(rows, rootIndex, p, t)
        invariant PathSlots(p) + Slots(t) == Slots(whole)
        invariant Locate(whole, key, Top) == Locate(t, key, p)
        decreases t
      {
        if key == Key(n) {
          added := false;
          return;
        } else if key < Key(n) {
          DescendLeft(rows, rootIndex, p, t);
          SlotsBelow(p, t);
          p, t := FromLeft(p, t.slot, t.key, t.black, t.right), t.left;
          if Left(n) == -1 {
            AttachLeft(n, newIndex, key, p);
            added := true;
            return;
          } else {
            n := Left(n);
          }
        } else {
          DescendRight(rows, rootIndex, p, t);
          SlotsBelow(p, t);
          p, t := FromRight(p, t.slot, t.key, t.black, t.left), t.right;
          if Right(n) == -1 {
            AttachRight(n, newIndex, key, p);
            added := true;
            return;
          } else {
            n := Right(n);
          }
        }
      }
    }

    method Grow()
      requires Valid()
      modifies this`backMeta, this`backK, this`backColors, this`threshold, this`rows
      ensures Valid() && fresh(Arrays() - old(Arrays())) && size < backK.Length && Keys() == old(Keys())
      ensures backK.Length == if 4 * (old(size) + 1) <= 3 * old(backK.Length) then old(backK.Length)
        else if old(size) == 0 then 1 else 2 * old(size)
    {
      assert Unfold(Topic.Trees, true);
      if (size + 1) as real > threshold {
        BuildSlots(Keys());
        Reallocate(if size == 0 then 1 else size * 2);
        Resized(old(rows), rows, rootIndex, Build(Keys()), size);
      }
    }

    method InternalInsert(key: int) returns (added: bool)
      requires Valid()
      modifies this`backMeta, this`backK, this`backColors, this`threshold, this`rows, this`rootIndex, this`size
      modifies backMeta, backK, backColors
      ensures Valid() && fresh(Arrays() - old(Arrays()))
      ensures added <==> key !in old(Keys())
      ensures Keys() == if added then old(Keys()) + [key] else old(Keys())
      ensures backK.Length == if 4 * (old(size) + 1) <= 3 * old(backK.Length) then old(backK.Length)
        else if old(size) == 0 then 1 else 2 * old(size)
    {
      Grow();
      added := Link(key);
    }

    /** The insertion itself, where there is room for one more. */
    method Link(key: int) returns (added: bool)
      requires Valid() && size < backK.Length
      modifies this`rows, this`rootIndex, this`size, backMeta, backK, backColors
      ensures Valid() && (added <==> key !in old(Keys()))
      ensures Keys() == if added then old(Keys()) + [key] else old(Keys())
    {
      assert Unfold(Topic.Trees, true);
      ghost var ks := Keys();
      InsertPlace(ks, key);
      var newIndex := size;
      ghost var p: Path := Top;
      if newIndex == 0 {
        WriteLeaf(newIndex, key);
        FirstLeaf(rows, key);
        rootIndex := newIndex;
      } else {
        added, p := InsertBelow(newIndex, key, Build(ks));
        if !added {
          return;
        }
      }
      Accommodate(newIndex, key, p, ks);
      added := true;
    }

    /** Counts the new leaf in and restores the colours. */
    method Accommodate(newIndex: nat, key: int, ghost p: Path, ghost ks: seq<int>)
      requires Wired() && Distinct(ks) && key !in ks && newIndex == size == |ks| && size < backK.Length
      requires PathOk(p, 0) && Build(ks + [key]) == Close(NewLeaf(newIndex, key), p)
      requires Focus(rows, rootIndex, p, NewLeaf(newIndex, key))
      requires backK[..size + 1] == ks + [key] && threshold == backK.Length as real * MAP_LOAD_FACTOR
      modifies this`rootIndex, this`rows, this`size, backMeta, backColors
      ensures Valid() && Keys() == ks + [key]
    {
      size := size + 1;
      InsertCase1(newIndex, p, NewLeaf(newIndex, key));
      assert Unfold(Topic.Trees, true);
      assert Keys() == ks + [key];
    }

    // ----- ordered reads -----

    /** Climbs from a node until it arrives from a right child; the parent there, or -1. */
    method ClimbFromLeft(start: int, ghost p: Path, ghost t: Tree) returns (parent: int)
      requires Wired() && Focus(rows, rootIndex, p, t) && t.Node? && t.slot == start
      ensures parent == LastSlot(Before(p))
    {
      var ch := start;
      ghost var q, u := p, t;
      UpLink(rows, rootIndex, q, u);
      parent := Parent(ch);
      while parent != -1 && ch == Left(parent)
        invariant Focus(rows, rootIndex, q, u) && u.Node? && u.slot == ch && 0 <= ch < |rows|
        invariant parent == rows[ch].parent && -1 <= parent < |rows| && Before(q) == Before(p)
        decreases q
      {
        UpLink(rows, rootIndex, q, u);
        Ascend(rows, rootIndex, q, u);
        q, u := q.up, Under(q, u);
        UpLink(rows, rootIndex, q, u);
        ch := parent;
        parent := Parent(parent);
      }
      UpLink(rows, rootIndex, q, u);
    }

    /** The slot of the greatest key at or below `key`, or -1. */
    method InternalPreviousOrEqualIndex(key: int) returns (i: int)
      requires Valid()
      ensures IsFloorSlot(Keys(), key, i)
    {
      assert Unfold(Topic.Trees, true);
      ghost var ks := Keys();
      ghost var q: Path, t := Top, Build(ks);
      SearchStart(ks, key);
      var p := rootIndex;
      if p == -1 {
        return p;
      }
      while p != -1
        invariant t.Node? && t.slot == p && Focus(rows, rootIndex, q, t) && Searching(ks, key, q, t)
        decreases t
      {
        if key == Key(p) {
          SearchUp(ks, key, q, t);
          return p;
        }
        if key > Key(p) {
          SearchUp(ks, key, q, t);
          if Right(p) != -1 {
            DescendRight(rows, rootIndex, q, t);
            q, t := FromRight(q, t.slot, t.key, t.black, t.left), t.right;
            p := Right(p);
          } else {
            return p;
          }
        } else {
          SearchDown(ks, key, q, t);
          if Left(p) != -1 {
            DescendLeft(rows, rootIndex, q, t);
            q, t := FromLeft(q, t.slot, t.key, t.black, t.right), t.left;
            p := Left(p);
          } else {
            i := ClimbFromLeft(p, q, t);
            return;
          }
        }
      }
      return -1;
    }

    /** Goes right from a node as far as possible. */
    method Rightmost(start: int, ghost p: Path, ghost t: Tree) returns (r: int)
      requires Wired() && Focus(rows, rootIndex, p, t) && t.Node? && t.slot == start
      ensures r == LastSlot(Entries(t))
    {
      r := start;
      ghost var q, u := p, t;
      UpLink(rows, rootIndex, q, u);
      while Right(r) != -1
        invariant Focus(rows, rootIndex, q, u) && u.Node? && u.slot == r && 0 <= r < |rows|
        invariant LastSlot(Entries(u)) == LastSlot(Entries(t))
        decreases u
      {
        DescendRight(rows, rootIndex, q, u);
        q, u := FromRight(q, u.slot, u.key, u.black, u.left), u.right;
        UpLink(rows, rootIndex, q, u);
        r := Right(r);
      }
    }

    /** The slot of the in-order predecessor of slot `i`, or -1. */
    method Previous(i: int) returns (r: int)
      requires Valid() && 0 <= i < size
      ensures IsPreviousSlot(Keys(), i, r)
    {
      assert Unfold(Topic.Trees, true);
      ghost var q, t := FindPrevious(rows, rootIndex, Keys(), i);
      UpLink(rows, rootIndex, q, t);
      var p := i;
      if Left(p) != -1 {
        DescendLeft(rows, rootIndex, q, t);
        r := Rightmost(Left(p), FromLeft(q, t.slot, t.key, t.black, t.right), t.left);
      } else if Parent(p) != -1 {
        if p == Right(Parent(p)) {
          UpRows(rows, rootIndex, q, t);
          return Parent(p);
        } else {
          r := ClimbFromLeft(p, q, t);
        }
      } else {
        return -1;
      }
    }

    lemma EmptyRoot()
      requires Valid() && rootIndex == -1
      ensures Keys() == []
    {
      assert Unfold(Topic.Trees, true);
      BuildSpec(Keys());
    }

    // ----- the chunk's operations -----

    /** The greatest key at or below `key`, or NULL_LONG. */
    method PreviousOrEqual(key: int) returns (r: int)
      requires Valid()
      ensures (forall k <- Keys() :: key < k) ==> r == NULL_LONG
      ensures (exists k <- Keys() :: k <= key) ==> IsFloor(Keys(), key, r)
    {
      assert Unfold(Topic.Trees, true);
      var i := InternalPreviousOrEqualIndex(key);
      if i != -1 {
        r := Key(i);
        assert Keys()[i] in Keys();
      } else {
        r := NULL_LONG;
      }
    }

    /** The keys the walker is given, in the order of its calls. */
    method Range(startKey: int, endKey: int, maxElements: nat) returns (walked: seq<int>)
      requires Valid()
      ensures IsRange(walked, Keys(), startKey, endKey, maxElements)
    {
      assert Unfold(Topic.Trees, true);
      walked := [];
      var nbElements := 0;
      var indexEnd := InternalPreviousOrEqualIndex(endKey);
      ghost var ks := Keys();
      while indexEnd != -1 && Key(indexEnd) >= startKey && nbElements < maxElements
        invariant nbElements == |walked| <= maxElements && -1 <= indexEnd < size
        invariant Walking(walked, ks, startKey, endKey, indexEnd)
        decreases maxElements - nbElements
      {
        var next := Previous(indexEnd);
        WalkStep(walked, ks, startKey, endKey, indexEnd, next);
        walked := walked + [Key(indexEnd)];
        nbElements := nbElements + 1;
        indexEnd := next;
      }
    }

    method Insert(key: int)
      requires Valid()
      modifies this, backMeta, backK, backColors
      ensures Valid() && fresh(Arrays() - old(Arrays()))
      ensures Keys() == if key in old(Keys()) then old(Keys()) else old(Keys()) + [key]
      ensures magic == old(magic) + if key in old(Keys()) then 0 else 1
    {
      var toSetDirty := InternalInsert(key);
      if toSetDirty {
        magic := magic + 1;
      }
    }

    method UnsafeInsert(key: int)
      requires Valid()
      modifies this, backMeta, backK, backColors
      ensures Valid() && fresh(Arrays() - old(Arrays())) && magic == old(magic)
      ensures Keys() == if key in old(Keys()) then old(Keys()) else old(Keys()) + [key]
    {
      var _ := InternalInsert(key);
    }

    /** New arrays of the old length, holding nothing. */
    method Wipe()
      requires Valid()
      modifies this`backMeta, this`backK, this`backColors, this`rows, this`rootIndex, this`size
      ensures Valid() && fresh(Arrays()) && Keys() == [] && backK.Length == old(backK.Length)
    {
      assert Unfold(Topic.Trees, true);
      var k, colors := new int[backK.Length], new bool[backK.Length];
      var links := new int[3 * backK.Length];
      Adopt(links, k, colors);
      rootIndex := -1;
      size := 0;
    }

    /** Inserts those of `ks` that are below `max` and not NULL_LONG, in their order. */
    method Refill(ks: seq<int>, max: int)
      requires Valid() && Keys() == [] && Distinct(ks)
      modifies this, backMeta, backK, backColors
      ensures Valid() && fresh(Arrays() - old(Arrays())) && magic == old(magic)
      ensures Keys() == Kept(ks, max)
    {
      var i := 0;
      while i < |ks|
        invariant 0 <= i <= |ks|
        invariant Valid() && fresh(Arrays() - old(Arrays())) && magic == old(magic)
        invariant Keys() == Kept(ks[..i], max)
      {
        KeptStep(ks, i, max);
        if ks[i] != NULL_LONG && ks[i] < max {
          var _ := InternalInsert(ks[i]);
        }
        i := i + 1;
      }
      assert ks[..|ks|] == ks;
    }

    /** Rebuilds the tree from the keys below `max`; the arrays must have been allocated. */
    method ClearAt(max: int)
      requires Valid() && backK.Length > 0
      modifies this, backMeta, backK, backColors
      ensures Valid() && fresh(Arrays()) && magic == old(magic) + 1
      ensures Keys() == Kept(old(Keys()), max)
    {
      assert Unfold(Topic.Trees, true);
      var previousValue := backK[..size];
      Wipe();
      Refill(previousValue, max);
      magic := magic + 1;
    }
  }
}
