/** The queue of unpinned cache slots, as a doubly linked list in two arrays. */
module FixedStacks {

  function RemoveAt(s: seq<int>, k: nat): seq<int>
    requires k < |s|
  {
    s[..k] + s[k + 1..]
  }

  ghost predicate DistinctBelow(s: seq<int>, n: nat) {
    && (forall i :: 0 <= i < |s| ==> 0 <= s[i] < n)
    && (forall i, j :: 0 <= i < j < |s| ==> s[i] != s[j])
  }

  /** `s` is linked by next and prev, and every other slot is unlinked. */
  ghost predicate Links(s: seq<int>, next: seq<int>, prev: seq<int>) {
    && |next| == |prev| && DistinctBelow(s, |next|)
    && (forall k {:trigger next[s[k]]} :: 0 <= k < |s| ==> next[s[k]] == if k + 1 < |s| then s[k + 1] else -1)
    && (forall k {:trigger prev[s[k]]} :: 0 <= k < |s| ==> prev[s[k]] == if k > 0 then s[k - 1] else -1)
    && (forall i :: 0 <= i < |next| && i !in s ==> next[i] == -1 && prev[i] == -1)
  }

  function First(s: seq<int>): int {
    if s == [] then -1 else s[0]
  }

  function Last(s: seq<int>): int {
    if s == [] then -1 else s[|s| - 1]
  }

  /** Exactly the absent slots show no trace of the list. */
  lemma AbsentIffUnlinked(s: seq<int>, next: seq<int>, prev: seq<int>, i: int)
    requires Links(s, next, prev) && 0 <= i < |next|
    ensures i !in s <==> First(s) != i && Last(s) != i && next[i] == -1 && prev[i] == -1
    ensures i in s && next[i] == -1 && prev[i] == -1 ==> |s| == 1
  {
    if i in s {
      var k :| 0 <= k < |s| && s[k] == i;
    }
  }

  /** The next[] and prev[] cells after `i` has been added at the end. */
  lemma Appended(s: seq<int>, next: seq<int>, prev: seq<int>, i: int)
    requires Links(s, next, prev) && 0 <= i < |next| && i !in s
    ensures s != [] ==> 0 <= First(s) && 0 <= Last(s) < |next| && Last(s) != i
    ensures var next' := if s == [] then next else next[Last(s) := i];
      Links(s + [i], next', prev[i := Last(s)])
  {
    var s', prev' := s + [i], prev[i := Last(s)];
    var next' := if s == [] then next else next[Last(s) := i];
    if s != [] { assert Last(s) in s && First(s) in s; }
    forall j | 0 <= j < |next'| && j !in s' ensures next'[j] == -1 && prev'[j] == -1 {
      assert j != i && j !in s by { assert s'[|s|] == i; assert forall k :: 0 <= k < |s| ==> s'[k] == s[k]; }
    }
  }

  /** What the links of element `k` say. */
  lemma LinksAt(s: seq<int>, next: seq<int>, prev: seq<int>, k: nat)
    requires Links(s, next, prev) && k < |s|
    ensures var x := s[k];
      && 0 <= x < |next| && -1 <= next[x] < |next| && -1 <= prev[x] < |next| && next[x] != x && prev[x] != x
      && next[x] == (if k + 1 < |s| then s[k + 1] else -1) && prev[x] == (if k > 0 then s[k - 1] else -1)
      && (next[x] == -1 <==> k == |s| - 1) && (prev[x] == -1 <==> k == 0)
      && (next[x] != -1 ==> next[x] != prev[x])
  {
    assert next[s[k]] == if k + 1 < |s| then s[k + 1] else -1;
    assert prev[s[k]] == if k > 0 then s[k - 1] else -1;
    if k + 1 < |s| {
      assert s[k] != s[k + 1] && 0 <= s[k + 1] < |next|;
    }
    if k > 0 {
      assert s[k - 1] != s[k] && 0 <= s[k - 1] < |next|;
    }
    if 0 < k && k + 1 < |s| {
      assert s[k - 1] != s[k + 1];
    }
  }

  function UnlinkNext(next: seq<int>, x: int, n: int, p: int): seq<int>
    requires 0 <= x < |next| && -1 <= p < |next|
  {
    (if p == -1 then next else next[p := n])[x := -1]
  }

  function UnlinkPrev(prev: seq<int>, x: int, n: int, p: int): seq<int>
    requires 0 <= x < |prev| && -1 <= n < |prev|
  {
    (if n == -1 then prev else prev[n := p])[x := -1]
  }

  lemma RemoveAtFacts(s: seq<int>, n: nat, k: nat)
    requires DistinctBelow(s, n) && k < |s|
    ensures DistinctBelow(RemoveAt(s, k), n)
    ensures forall i :: i in RemoveAt(s, k) <==> i in s && i != s[k]
  {
    var t := RemoveAt(s, k);
    assert forall j :: 0 <= j < |t| ==> t[j] == s[if j < k then j else j + 1];
    forall i | i in s && i != s[k] ensures i in t {
      var m :| 0 <= m < |s| && s[m] == i;
      assert t[if m < k then m else m - 1] == i;
    }
  }

  /** The element that stands at `j` once element `k` is gone. */
  function Kept(j: nat, k: nat): nat {
    if j < k then j else j + 1
  }

  lemma UnlinkedAt(s: seq<int>, next: seq<int>, prev: seq<int>, k: nat, j: nat)
    requires Links(s, next, prev) && k < |s| && j < |s| - 1
    requires 0 <= s[k] < |next| && -1 <= next[s[k]] < |next| && -1 <= prev[s[k]] < |next|
    ensures var x, n, p, y := s[k], next[s[k]], prev[s[k]], s[Kept(j, k)];
      && 0 <= y < |next|
      && UnlinkNext(next, x, n, p)[y] == (if j + 1 < |s| - 1 then s[Kept(j + 1, k)] else -1)
      && UnlinkPrev(prev, x, n, p)[y] == (if j > 0 then s[Kept(j - 1, k)] else -1)
  {
    var m := Kept(j, k);
    LinksAt(s, next, prev, k);
    LinksAt(s, next, prev, m);
    assert m != k && s[m] != s[k];
    assert m != k - 1 && k > 0 ==> s[m] != s[k - 1];
    assert m != k + 1 && k + 1 < |s| ==> s[m] != s[k + 1];
  }

  lemma RemoveAtIndex(s: seq<int>, k: nat, j: nat)
    requires k < |s| && j < |s| - 1
    ensures RemoveAt(s, k)[j] == s[Kept(j, k)]
  {
  }

  lemma UnlinkedStep(s: seq<int>, next: seq<int>, prev: seq<int>, k: nat, j: nat)
    requires Links(s, next, prev) && k < |s| && j < |s| - 1
    requires 0 <= s[k] < |next| && -1 <= next[s[k]] < |next| && -1 <= prev[s[k]] < |next|
    ensures var x, n, p, t := s[k], next[s[k]], prev[s[k]], RemoveAt(s, k);
      && 0 <= t[j] < |next|
      && UnlinkNext(next, x, n, p)[t[j]] == (if j + 1 < |t| then t[j + 1] else -1)
      && UnlinkPrev(prev, x, n, p)[t[j]] == (if j > 0 then t[j - 1] else -1)
  {
    UnlinkedAt(s, next, prev, k, j);
    RemoveAtIndex(s, k, j);
    if j + 1 < |s| - 1 { RemoveAtIndex(s, k, j + 1); }
    if j > 0 { RemoveAtIndex(s, k, j - 1); }
  }

  lemma UnlinkedRest(s: seq<int>, next: seq<int>, prev: seq<int>, k: nat, i: int)
    requires Links(s, next, prev) && k < |s| && 0 <= i < |next| && i !in RemoveAt(s, k)
    requires 0 <= s[k] < |next| && -1 <= next[s[k]] < |next| && -1 <= prev[s[k]] < |next|
    ensures var x, n, p := s[k], next[s[k]], prev[s[k]];
      UnlinkNext(next, x, n, p)[i] == -1 && UnlinkPrev(prev, x, n, p)[i] == -1
  {
    RemoveAtFacts(s, |next|, k);
    if i != s[k] {
      assert i !in s;
      NeighboursIn(s, next, prev, k);
    }
  }

  /** The cells after element `k` has been unlinked. */
  lemma Unlinked(s: seq<int>, next: seq<int>, prev: seq<int>, k: nat)
    requires Links(s, next, prev) && k < |s|
    ensures 0 <= s[k] < |next| && -1 <= next[s[k]] < |next| && -1 <= prev[s[k]] < |next|
    ensures var x, n, p := s[k], next[s[k]], prev[s[k]];
      Links(RemoveAt(s, k), UnlinkNext(next, x, n, p), UnlinkPrev(prev, x, n, p))
  {
    LinksAt(s, next, prev, k);
    RemoveAtFacts(s, |next|, k);
    var x, n, p, t := s[k], next[s[k]], prev[s[k]], RemoveAt(s, k);
    var next', prev' := UnlinkNext(next, x, n, p), UnlinkPrev(prev, x, n, p);
    assert |next'| == |prev'| == |next|;
    forall j {:trigger next'[t[j]]} | 0 <= j < |t| ensures next'[t[j]] == if j + 1 < |t| then t[j + 1] else -1 {
      UnlinkedStep(s, next, prev, k, j);
    }
    forall j {:trigger prev'[t[j]]} | 0 <= j < |t| ensures prev'[t[j]] == if j > 0 then t[j - 1] else -1 {
      UnlinkedStep(s, next, prev, k, j);
    }
    forall i | 0 <= i < |next'| && i !in t ensures next'[i] == -1 && prev'[i] == -1 {
      UnlinkedRest(s, next, prev, k, i);
    }
  }

  lemma NeighboursIn(s: seq<int>, next: seq<int>, prev: seq<int>, k: nat)
    requires Links(s, next, prev) && k < |s|
    ensures next[s[k]] != -1 ==> next[s[k]] in s
    ensures prev[s[k]] != -1 ==> prev[s[k]] in s
  {
    assert next[s[k]] == if k + 1 < |s| then s[k + 1] else -1;
    assert prev[s[k]] == if k > 0 then s[k - 1] else -1;
  }

  lemma RoomForOne(s: seq<int>, n: nat)
    requires DistinctBelow(s, n) && s != []
    ensures n > 0
  {
    assert 0 <= s[0] < n;
  }

  /** A duplicate-free list of all the slots there are leaves none out. */
  lemma {:induction false} Pigeonhole(s: seq<int>, n: nat)
    requires DistinctBelow(s, n)
    ensures |s| <= n
    ensures |s| == n ==> forall i :: 0 <= i < n ==> i in s
  {
    if s != [] {
      RoomForOne(s, n);
    }
    if n == 0 {
    } else if n - 1 in s {
      var k :| 0 <= k < |s| && s[k] == n - 1;
      var t := RemoveAt(s, k);
      Pigeonhole(t, n - 1);
      forall i | 0 <= i < n && |s| == n ensures i in s {
        if i < n - 1 {
          assert i in t;
        }
      }
    } else {
      Pigeonhole(s, n - 1);
    }
  }

  class FixedStack {
    const capacity: nat
    const next: array<int>
    const prev: array<int>
    var first: int
    var last: int
    var count: nat
    ghost var nx: seq<int>      // the contents of the two arrays
    ghost var pv: seq<int>
    ghost var order: seq<int>   // from the next one to be taken to the latest one added

    ghost predicate Valid()
      reads this, next, prev
    {
      && next != prev && next.Length == capacity && prev.Length == capacity
      && next[..] == nx && prev[..] == pv && Links(order, nx, pv)
      && first == First(order) && last == Last(order) && count == |order|
    }

    method SetNext(i: int, v: int)
      requires next != prev && next.Length == prev.Length && 0 <= i < next.Length && next[..] == nx && prev[..] == pv
      modifies this`nx, next
      ensures next[..] == nx && prev[..] == pv && nx == old(nx)[i := v]
    {
      next[i] := v;
      nx := nx[i := v];
    }

    method SetPrev(i: int, v: int)
      requires next != prev && next.Length == prev.Length && 0 <= i < prev.Length && next[..] == nx && prev[..] == pv
      modifies this`pv, prev
      ensures next[..] == nx && prev[..] == pv && pv == old(pv)[i := v]
    {
      prev[i] := v;
      pv := pv[i := v];
    }

    method Enqueue(index: int) returns (added: bool)
      requires Valid() && 0 <= index < capacity
      modifies this, next, prev
      ensures Valid() && added == (index !in old(order))
      ensures order == if added then old(order) + [index] else old(order)
    {
      AbsentIffUnlinked(order, nx, pv, index);
      Pigeonhole(order, capacity);
      if count >= capacity {
        return false;
      }
      if first == index || last == index {
        return false;
      }
      if prev[index] != -1 || next[index] != -1 {
        return false;
      }
      LinkLast(index);
      count := count + 1;
      return true;
    }

    /** Links an absent slot behind the last one. */
    method LinkLast(index: int)
      requires next != prev && next.Length == prev.Length && next[..] == nx && prev[..] == pv
      requires Links(order, nx, pv) && first == First(order) && last == Last(order)
      requires 0 <= index < next.Length && index !in order
      modifies this`first, this`last, this`nx, this`pv, this`order, next, prev
      ensures next[..] == nx && prev[..] == pv && Links(order, nx, pv)
      ensures first == First(order) && last == Last(order) && order == old(order) + [index]
    {
      Appended(order, nx, pv, index);
      var l := last;
      SetPrev(index, l);
      last := index;
      if first == -1 {
        first := index;
      } else {
        SetNext(l, index);
      }
      order := order + [index];
    }

    /** What leaves the list when its only trace is cleared: the two ends and the unlinked cells. */
    lemma EndsAfter(k: nat)
      requires Valid() && k < |order|
      ensures 0 <= order[k] < capacity && Links(order, nx, pv) && |nx| == |pv| == capacity
      ensures var x := order[k]; var n, p := nx[x], pv[x];
        && -1 <= n < capacity && -1 <= p < capacity && n != x && p != x && (n != -1 ==> n != p)
        && (n == -1 <==> k == |order| - 1) && (p == -1 <==> k == 0)
        && Links(RemoveAt(order, k), UnlinkNext(nx, x, n, p), UnlinkPrev(pv, x, n, p))
        && First(RemoveAt(order, k)) == (if p == -1 then n else first)
        && Last(RemoveAt(order, k)) == (if n == -1 then p else last)
      ensures order[k] == first <==> k == 0
      ensures order[k] == last <==> k == |order| - 1
    {
      LinksAt(order, nx, pv, k);
      Unlinked(order, nx, pv, k);
    }

    method DequeueTail() returns (f: int)
      requires Valid()
      modifies this, next, prev
      ensures Valid() && f == First(old(order))
      ensures order == if old(order) == [] then [] else old(order)[1..]
    {
      f := first;
      if f == -1 {
        return;
      }
      EndsAfter(0);
      ghost var rest := RemoveAt(order, 0);
      var n := next[f];
      SetNext(f, -1);
      SetPrev(f, -1);
      first := n;
      if n == -1 {
        last := -1;
      } else {
        SetPrev(n, -1);
      }
      count := count - 1;
      assert nx == UnlinkNext(old(nx), f, n, -1) && pv == UnlinkPrev(old(pv), f, n, -1);
      order := rest;
    }

    ghost predicate Synced()
      reads this, next, prev
    {
      next != prev && next.Length == prev.Length && next[..] == nx && prev[..] == pv
    }

    // With a neighbour on one side only, a slot is at an end and not alone there; the list's other end
    // stays, so the branches of the source for an emptied list cannot be reached.

    method UnlinkFirst()
      requires Synced() && 0 <= first < next.Length && 0 <= nx[first] < next.Length && nx[first] != first
      modifies `first, `nx, `pv, next, prev
      ensures Synced() && first == old(nx)[old(first)]
      ensures nx == UnlinkNext(old(nx), old(first), first, -1) && pv == UnlinkPrev(old(pv), old(first), first, -1)
    {
      var f := first;
      var n2 := next[f];
      SetNext(f, -1);
      SetPrev(f, -1);
      first := n2;
      if n2 == -1 {
        assert false;
      } else {
        SetPrev(n2, -1);
      }
    }

    method UnlinkLast()
      requires Synced() && 0 <= last < next.Length && 0 <= pv[last] < next.Length && pv[last] != last
      modifies `last, `nx, `pv, next, prev
      ensures Synced() && last == old(pv)[old(last)]
      ensures nx == UnlinkNext(old(nx), old(last), -1, last) && pv == UnlinkPrev(old(pv), old(last), -1, last)
    {
      var l := last;
      var p2 := prev[l];
      SetPrev(l, -1);
      SetNext(l, -1);
      last := p2;
      if p2 == -1 {
        assert false;
      } else {
        SetNext(p2, -1);
      }
    }

    /** Unlinks `index` if it is one of at least two elements.  The only element is not removed. */
    method Dequeue(index: int) returns (removed: bool)
      requires Valid() && 0 <= index < capacity
      modifies this, next, prev
      ensures Valid() && removed == (index in old(order) && |old(order)| > 1)
      ensures !removed ==> order == old(order)
      ensures removed ==>
        exists k :: 0 <= k < |old(order)| && old(order)[k] == index && order == RemoveAt(old(order), k)
    {
      var p := prev[index];
      var n := next[index];
      AbsentIffUnlinked(order, nx, pv, index);
      if p == -1 && n == -1 {
        return false;
      }
      ghost var k :| 0 <= k < |order| && order[k] == index;
      EndsAfter(k);
      ghost var rest := RemoveAt(order, k);
      if p == -1 {
        UnlinkFirst();
      } else if n == -1 {
        UnlinkLast();
      } else {
        SetNext(p, n);
        SetPrev(n, p);
        SetPrev(index, -1);
        SetNext(index, -1);
      }
      count := count - 1;
      assert nx == UnlinkNext(old(nx), index, n, p) && pv == UnlinkPrev(old(pv), index, n, p);
      order := rest;
      return true;
    }

    function Size(): nat
      reads this
    {
      count
    }

    /** All slots, in ascending order. */
    constructor (capacity: nat)
      ensures Valid() && this.capacity == capacity && fresh(next) && fresh(prev)
      ensures |order| == capacity && forall j :: 0 <= j < capacity ==> order[j] == j
    {
      this.capacity := capacity;
      next, prev := new int[capacity], new int[capacity];
      first, last, count, order := -1, -1, 0, [];
      new;
      nx, pv := next[..], prev[..];
      Unlink();
      var i := 0;
      while i < capacity
        invariant 0 <= i <= capacity && |nx| == capacity && Links(order, nx, pv)
        invariant |order| == i && forall j :: 0 <= j < i ==> order[j] == j
        invariant first == First(order) && last == Last(order) && next[..] == nx && prev[..] == pv
      {
        LinkLast(i);
        i := i + 1;
      }
      count := capacity;
    }

    method Unlink()
      requires next != prev && next.Length == prev.Length && next[..] == nx && prev[..] == pv
      modifies this`nx, this`pv, next, prev
      ensures next[..] == nx && prev[..] == pv && |nx| == old(|nx|) && |pv| == old(|pv|)
      ensures forall j :: 0 <= j < next.Length ==> nx[j] == -1 && pv[j] == -1
    {
      var i := 0;
      while i < next.Length
        invariant 0 <= i <= next.Length && next[..] == nx && prev[..] == pv
        invariant forall j :: 0 <= j < i ==> nx[j] == -1 && pv[j] == -1
      {
        SetNext(i, -1);
        SetPrev(i, -1);
        i := i + 1;
      }
    }
  }
}
