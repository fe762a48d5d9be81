/** The chunk cache as a state machine on values: slots, the queue of unpinned slots, the dirty list
    and the storage behind. */
module CacheModel {
  import opened FixedStacks

  datatype Key = Key(kind: int, world: int, time: int, id: int)

  datatype Slot = Empty | Full(key: Key, marks: int, dirty: bool, payload: int)

  datatype Space = Space(slots: seq<Slot>, lru: seq<int>, dirties: seq<int>, storage: map<Key, int>)

  /** The content of a chunk that has never been saved. */
  const BLANK: int := 0

  function Stored(storage: map<Key, int>, key: Key): int {
    if key in storage then storage[key] else BLANK
  }

  ghost predicate Holds(s: Space, m: int, key: Key) {
    0 <= m < |s.slots| && s.slots[m].Full? && s.slots[m].key == key
  }

  ghost predicate Resident(s: Space, key: Key) {
    exists m :: Holds(s, m, key)
  }

  /** The slot of a key, or -1. */
  ghost function IndexOf(s: Space, key: Key): (m: int)
    ensures if m == -1 then !Resident(s, key) else Holds(s, m, key)
  {
    if Resident(s, key) then var m :| Holds(s, m, key); m else -1
  }

  /** What a reader that loads on a miss gets to see under a key. */
  ghost function Latest(s: Space, key: Key): int {
    var m := IndexOf(s, key);
    if m == -1 then Stored(s.storage, key) else s.slots[m].payload
  }

  // ----- the invariant -----

  ghost predicate UniqueKeys(s: Space) {
    forall i, j :: 0 <= i < j < |s.slots| && s.slots[i].Full? && s.slots[j].Full? ==> s.slots[i].key != s.slots[j].key
  }

  /** A slot waits for eviction exactly when no one has marked its chunk. */
  ghost predicate QueueExact(s: Space) {
    && DistinctBelow(s.lru, |s.slots|)
    && forall m :: 0 <= m < |s.slots| ==>
      && (m in s.lru <==> s.slots[m].Empty? || s.slots[m].marks == 0)
      && (s.slots[m].Full? ==> s.slots[m].marks >= 0)
  }

  /** The dirty list holds exactly the dirty slots, once each, and a dirty chunk is marked. */
  ghost predicate DirtyExact(s: Space) {
    && DistinctBelow(s.dirties, |s.slots|)
    && forall m :: 0 <= m < |s.slots| ==>
      && (m in s.dirties <==> s.slots[m].Full? && s.slots[m].dirty)
      && (s.slots[m].Full? && s.slots[m].dirty ==> s.slots[m].marks >= 1)
  }

  /** A chunk that is not dirty is as saved. */
  ghost predicate CleanSaved(s: Space) {
    forall m :: 0 <= m < |s.slots| && s.slots[m].Full? && !s.slots[m].dirty ==>
      s.slots[m].payload == Stored(s.storage, s.slots[m].key)
  }

  ghost predicate Inv(s: Space) {
    UniqueKeys(s) && QueueExact(s) && DirtyExact(s) && CleanSaved(s)
  }

  function Vacant(n: nat): seq<Slot> {
    seq(n, i => Empty)
  }

  function Ascending(n: nat): seq<int> {
    seq(n, i => i)
  }

  lemma Ascends(s: seq<int>, n: nat)
    requires |s| == n && forall j :: 0 <= j < n ==> s[j] == j
    ensures s == Ascending(n)
  {
  }

  /** An empty cache with nothing in the storage: every slot waits. */
  function Initial(n: nat): Space {
    Space(Vacant(n), Ascending(n), [], map[])
  }

  lemma InitialInv(n: nat)
    ensures Inv(Initial(n))
  {
    var s := Initial(n);
    forall m | 0 <= m < n ensures m in s.lru {
      assert s.lru[m] == m;
    }
  }

  // ----- the steps -----

  function WithMarks(s: Space, m: int, d: int): Space
    requires 0 <= m < |s.slots| && s.slots[m].Full?
  {
    s.(slots := s.slots[m := s.slots[m].(marks := s.slots[m].marks + d)])
  }

  ghost function Dequeued(lru: seq<int>, m: int): seq<int> {
    if k :| 0 <= k < |lru| && lru[k] == m then RemoveAt(lru, k) else lru
  }

  /** The space, and the slot handed out or -1. */
  ghost function GetAndMark(s: Space, key: Key): (Space, int) {
    var m := IndexOf(s, key);
    if m == -1 then (s, -1)
    else
      var s1 := WithMarks(s, m, 1);
      if s1.slots[m].marks != 1 then (s1, m)
      else if m in s.lru && |s.lru| > 1 then (s1.(lru := Dequeued(s.lru, m)), m)
      else (s1, -1)
  }

  /** A new chunk, marked once by its creator, takes the slot that has waited longest. */
  ghost function PutAndMark(s: Space, chunk: Slot): (Space, int)
    requires chunk.Full?
  {
    var m := IndexOf(s, chunk.key);
    if m != -1 then (s, m)
    else if s.lru == [] || !(0 <= s.lru[0] < |s.slots|) then (s, -1)
    else (s.(slots := s.slots[s.lru[0] := chunk], lru := s.lru[1..]), s.lru[0])
  }

  /** A lookup that loads a missing chunk from the storage. */
  ghost function GetOrLoadAndMark(s: Space, key: Key): (Space, int) {
    var (t, m) := GetAndMark(s, key);
    if m != -1 || key !in s.storage then (t, m) else PutAndMark(t, Full(key, 1, false, s.storage[key]))
  }

  function Unmark(s: Space, m: int): Space
    requires 0 <= m < |s.slots| && s.slots[m].Full?
  {
    var s1 := WithMarks(s, m, -1);
    if s1.slots[m].marks == 0 && m !in s.lru then s1.(lru := s.lru + [m]) else s1
  }

  /** What saving one dirty chunk does: its content goes to the storage, its flag and the mark that
      came with it go away. */
  function CleanOne(s: Space, m: int): Space
    requires 0 <= m < |s.slots| && s.slots[m].Full?
  {
    var c := s.slots[m];
    Unmark(s.(slots := s.slots[m := c.(dirty := false)], storage := s.storage[c.key := c.payload]), m)
  }

  /** What declareClean does by itself. */
  function DeclareClean(s: Space, m: int): Space
    requires 0 <= m < |s.slots| && s.slots[m].Full?
  {
    Unmark(s.(slots := s.slots[m := s.slots[m].(dirty := false)]), m)
  }

  /** Contents can be collected in a stream, to be stored at the end. */
  lemma CleanOneStream(s: Space, stream: map<Key, int>, m: int)
    requires 0 <= m < |s.slots| && s.slots[m].Full?
    ensures var c := s.slots[m]; var t := DeclareClean(s, m);
      CleanOne(s.(storage := s.storage + stream), m) == t.(storage := t.storage + stream[c.key := c.payload])
  {
    var c := s.slots[m];
    assert (s.storage + stream)[c.key := c.payload] == s.storage + stream[c.key := c.payload];
  }

  function CleanIfDirty(s: Space, m: int): Space {
    if 0 <= m < |s.slots| && s.slots[m].Full? && s.slots[m].dirty then CleanOne(s, m) else s
  }

  /** Saves the chunks of a detached list in order. */
  function CleanAll(s: Space, list: seq<int>): Space
    decreases |list|
  {
    if list == [] then s else CleanAll(CleanIfDirty(s, list[0]), list[1..])
  }

  function Save(s: Space): Space {
    CleanAll(s.(dirties := []), s.dirties)
  }

  lemma {:induction false} CleanAllDirties(s: Space, list: seq<int>)
    ensures CleanAll(s, list).dirties == s.dirties
    decreases |list|
  {
    if list != [] {
      CleanAllDirties(CleanIfDirty(s, list[0]), list[1..]);
    }
  }

  lemma SaveEmpties(s: Space)
    ensures Save(s).dirties == []
  {
    CleanAllDirties(s.(dirties := []), s.dirties);
  }

  /** Flags and marks a clean chunk and enters it into the dirty list, saving first when that is full. */
  function DeclareDirty(s: Space, m: int, batch: nat): Space
    requires 0 <= m < |s.slots| && s.slots[m].Full?
  {
    if s.slots[m].dirty then s
    else
      var s1 := Flagged(s, m);
      if |s.dirties| < batch then s1.(dirties := s.dirties + [m])
      else Save(s1).(dirties := [m])
  }

  function Flagged(s: Space, m: int): Space
    requires 0 <= m < |s.slots| && s.slots[m].Full?
  {
    var c := s.slots[m];
    s.(slots := s.slots[m := c.(dirty := true, marks := c.marks + 1)])
  }

  /** A holder of a mark changes the content and declares it. */
  function Modify(s: Space, m: int, payload: int, batch: nat): Space
    requires 0 <= m < |s.slots| && s.slots[m].Full?
  {
    DeclareDirty(s.(slots := s.slots[m := s.slots[m].(payload := payload)]), m, batch)
  }

  // ----- what each step keeps -----

  lemma IndexUnique(s: Space, m: int, key: Key)
    requires UniqueKeys(s) && Holds(s, m, key)
    ensures IndexOf(s, key) == m
  {
  }

  /** Only where keys, and which chunk is under a key, stay, `Latest` can be read off a slot. */
  lemma LatestAt(s: Space, m: int)
    requires UniqueKeys(s) && 0 <= m < |s.slots| && s.slots[m].Full?
    ensures Latest(s, s.slots[m].key) == s.slots[m].payload
  {
    IndexUnique(s, m, s.slots[m].key);
  }

  /** Two spaces with the same keys in the same slots. */
  ghost predicate SameKeys(s: Space, t: Space) {
    && |s.slots| == |t.slots|
    && forall m :: 0 <= m < |s.slots| ==>
      s.slots[m].Full? == t.slots[m].Full? && (s.slots[m].Full? ==> s.slots[m].key == t.slots[m].key)
  }

  lemma SameKeysIndex(s: Space, t: Space, key: Key)
    requires SameKeys(s, t) && UniqueKeys(s)
    ensures UniqueKeys(t) && IndexOf(s, key) == IndexOf(t, key)
  {
    var m, k := IndexOf(s, key), IndexOf(t, key);
    if m != -1 {
      assert Holds(t, m, key);
    }
    if k != -1 {
      assert Holds(s, k, key);
    }
  }

  /** The one case in which a hit is turned away: the chunk asked for is the only unmarked slot. */
  ghost predicate Lonely(s: Space, key: Key) {
    var m := IndexOf(s, key);
    m != -1 && s.slots[m].marks == 0 && |s.lru| == 1
  }

  lemma DequeuedFacts(lru: seq<int>, n: nat, m: int)
    requires DistinctBelow(lru, n) && m in lru
    ensures var r := Dequeued(lru, m); DistinctBelow(r, n) && |r| == |lru| - 1 && forall i :: i in r <==>
      i in lru && i != m
    ensures Requeued(lru, Dequeued(lru, m), |lru| - 1)
  {
    var k :| 0 <= k < |lru| && lru[k] == m && Dequeued(lru, m) == RemoveAt(lru, k);
    RemoveAtFacts(lru, n, k);
    RemovedInOrder(lru, k);
  }

  lemma RemovedInOrder(l: seq<int>, k: nat)
    requires k < |l|
    ensures Requeued(l, RemoveAt(l, k), |l| - 1)
  {
    var r := RemoveAt(l, k);
    forall i, j | 0 <= i < j < |r| ensures Before(l, r[i], r[j]) {
      var p, q := if i < k then i else i + 1, if j < k then j else j + 1;
      assert l[p] == r[i] && l[q] == r[j];
    }
  }

  /** The first one waits in front of the second. */
  ghost predicate Before(l: seq<int>, a: int, b: int) {
    exists p, q :: 0 <= p < q < |l| && l[p] == a && l[q] == b
  }

  /** The first k waited before, in the same order; the others have come to the end of the queue. */
  ghost predicate Requeued(l: seq<int>, l': seq<int>, k: nat) {
    && k <= |l'| && (forall i :: 0 <= i < k ==> l'[i] in l) && (forall i :: k <= i < |l'| ==> l'[i] !in l)
    && forall i, j :: 0 <= i < j < k ==> Before(l, l'[i], l'[j])
  }

  lemma ExtendedInOrder(l: seq<int>, news: seq<int>)
    requires forall x <- news :: x !in l
    ensures Requeued(l, l + news, |l|)
  {
    var r := l + news;
    forall i, j | 0 <= i < j < |l| ensures Before(l, r[i], r[j]) {
      assert l[i] == r[i] && l[j] == r[j];
    }
    forall i | |l| <= i < |r| ensures r[i] !in l {
      assert r[i] == news[i - |l|];
    }
  }

  /** A lookup keeps the invariant exactly when it does not meet the lonely case; otherwise it hands
      out the chunk exactly when it is resident, pinned by one mark more. */
  lemma GetAndMarkKeeps(s: Space, key: Key)
    requires Inv(s)
    ensures var (t, m) := GetAndMark(s, key);
      && (Inv(t) <==> !Lonely(s, key))
      && (m == if Lonely(s, key) then -1 else IndexOf(s, key))
      && (m != -1 ==> t.slots[m] == s.slots[m].(marks := s.slots[m].marks + 1) && m !in t.lru)
      && (forall i :: 0 <= i < |s.slots| && i != IndexOf(s, key) ==> t.slots[i] == s.slots[i])
      && (!Lonely(s, key) ==> Requeued(s.lru, t.lru, |t.lru|) && forall i <- s.lru :: i == m || i in t.lru)
      && SameKeys(s, t) && t.storage == s.storage && t.dirties == s.dirties
      && forall k :: Latest(t, k) == Latest(s, k)
  {
    var (t, r) := GetAndMark(s, key);
    var m := IndexOf(s, key);
    assert SameKeys(s, t);
    forall k ensures Latest(t, k) == Latest(s, k) {
      SameKeysIndex(s, t, k);
    }
    SameKeysIndex(s, t, key);
    ExtendedInOrder(s.lru, []);
    assert s.lru + [] == s.lru;
    if m != -1 {
      assert m in s.lru <==> s.slots[m].marks == 0;
      if m in s.lru {
        DequeuedFacts(s.lru, |s.slots|, m);
        if |s.lru| == 1 {
          assert s.lru[0] == m && t.lru == s.lru && t.slots[m].marks == 1;
          assert !QueueExact(t);
        }
      }
    }
  }

  /** A chunk as its creator offers it: marked once, clean, and holding what the storage holds. */
  ghost predicate Offered(s: Space, chunk: Slot) {
    chunk.Full? && chunk.marks == 1 && !chunk.dirty && chunk.payload == Stored(s.storage, chunk.key)
  }

  predicate Evictable(c: Slot) {
    c.Full? ==> c.marks == 0 && !c.dirty
  }

  lemma PopFacts(lru: seq<int>, n: nat)
    requires DistinctBelow(lru, n) && lru != []
    ensures DistinctBelow(lru[1..], n) && forall i :: i in lru[1..] <==> i in lru && i != lru[0]
  {
    RemoveAtFacts(lru, n, 0);
    assert RemoveAt(lru, 0) == lru[1..];
  }

  /** The victim of an insertion is unmarked and as saved, so no reader and no change loses anything. */
  lemma PutAndMarkKeeps(s: Space, chunk: Slot)
    requires Inv(s) && Offered(s, chunk)
    ensures var (t, m) := PutAndMark(s, chunk);
      && Inv(t) && t.storage == s.storage
      && (Resident(s, chunk.key) ==> t == s && m == IndexOf(s, chunk.key))
      && (!Resident(s, chunk.key) ==> (m == -1 <==> s.lru == []))
      && (!Resident(s, chunk.key) && m != -1 ==>
            && m == s.lru[0] && t.lru == s.lru[1..] && Evictable(s.slots[m])
            && t.slots[m] == chunk && Holds(t, m, chunk.key)
            && forall i :: 0 <= i < |s.slots| && i != m ==> t.slots[i] == s.slots[i])
      && |t.slots| == |s.slots| && (m == -1 ==> t == s) && t.dirties == s.dirties
      && (forall i :: 0 <= i < |s.slots| && s.slots[i].Full? && s.slots[i].marks > 0 ==> t.slots[i] == s.slots[i])
      && forall k :: Latest(t, k) == Latest(s, k)
  {
    var (t, m) := PutAndMark(s, chunk);
    if !Resident(s, chunk.key) && s.lru != [] {
      assert m == s.lru[0] && m in s.lru;
      PopFacts(s.lru, |s.slots|);
      assert UniqueKeys(t) by {
        assert forall i :: 0 <= i < |s.slots| && s.slots[i].Full? && s.slots[i].key == chunk.key ==>
          Holds(s, i, chunk.key);
      }
      assert DirtyExact(t);
      assert CleanSaved(t);
      forall k ensures Latest(t, k) == Latest(s, k) {
        PutLatest(s, chunk, k);
      }
    }
  }

  lemma PutLatest(s: Space, chunk: Slot, k: Key)
    requires Inv(s) && Offered(s, chunk) && !Resident(s, chunk.key) && s.lru != []
    requires UniqueKeys(PutAndMark(s, chunk).0)
    ensures Latest(PutAndMark(s, chunk).0, k) == Latest(s, k)
  {
    var (t, m) := PutAndMark(s, chunk);
    assert m in s.lru;
    var i, j := IndexOf(s, k), IndexOf(t, k);
    if k == chunk.key {
      IndexUnique(t, m, k);
    } else if i != -1 && i != m {
      IndexUnique(t, i, k);
    } else if j != -1 {
      assert Holds(s, j, k);
    }
  }

  /** A loading lookup hands out what readers are to see, pinned; it fails only when there is nothing to
      be seen or every slot is pinned. */
  lemma GetOrLoadKeeps(s: Space, key: Key)
    requires Inv(s) && !Lonely(s, key)
    ensures var (t, m) := GetOrLoadAndMark(s, key);
      && Inv(t) && t.storage == s.storage && (forall k :: Latest(t, k) == Latest(s, k))
      && (m == -1 <==> !Resident(s, key) && (key !in s.storage || s.lru == []))
      && (m != -1 ==> Holds(t, m, key) && t.slots[m].payload == Latest(s, key) && m !in t.lru)
      && (m != -1 ==> t.slots[m].marks == if Resident(s, key) then s.slots[m].marks + 1 else 1)
      && (if Resident(s, key) then m == IndexOf(s, key) && t.slots[m].dirty == s.slots[m].dirty
          else m != -1 ==> m == s.lru[0] && t.lru == s.lru[1..] && !t.slots[m].dirty)
      && |t.slots| == |s.slots| && (m == -1 ==> t == s) && t.dirties == s.dirties
      && (forall i :: 0 <= i < |s.slots| && i != m ==> t.slots[i] == s.slots[i])
      && (Resident(s, key) ==> Requeued(s.lru, t.lru, |t.lru|) && forall i <- s.lru :: i == m || i in t.lru)
  {
    GetAndMarkKeeps(s, key);
    var (t, m) := GetAndMark(s, key);
    if m == -1 && key in s.storage {
      PutAndMarkKeeps(t, Full(key, 1, false, s.storage[key]));
    } else if m != -1 {
      LatestAt(t, m);
    }
    var (u, n) := GetOrLoadAndMark(s, key);
    if n != -1 {
      LatestAt(u, n);
    }
  }

  lemma AppendFacts(lru: seq<int>, n: nat, m: int)
    requires DistinctBelow(lru, n) && 0 <= m < n && m !in lru
    ensures DistinctBelow(lru + [m], n) && forall i :: i in lru + [m] <==> i in lru || i == m
  {
  }

  /** Giving a mark back makes the slot wait again when it was the last one; a dirty chunk keeps the
      mark that came with its flag. */
  lemma UnmarkKeeps(s: Space, m: int)
    requires Inv(s) && 0 <= m < |s.slots| && s.slots[m].Full?
    requires s.slots[m].marks > if s.slots[m].dirty then 1 else 0
    ensures var t := Unmark(s, m);
      && Inv(t) && SameKeys(s, t) && t.storage == s.storage && t.dirties == s.dirties
      && t.slots == s.slots[m := s.slots[m].(marks := s.slots[m].marks - 1)]
      && t.lru == (if s.slots[m].marks == 1 then s.lru + [m] else s.lru)
      && forall k :: Latest(t, k) == Latest(s, k)
  {
    var t := Unmark(s, m);
    UnmarkInv(s, m);
    forall k ensures Latest(t, k) == Latest(s, k) {
      SameKeysIndex(s, t, k);
    }
    SameKeysIndex(s, t, s.slots[m].key);
  }

  lemma UnmarkInv(s: Space, m: int)
    requires Inv(s) && 0 <= m < |s.slots| && s.slots[m].Full?
    requires s.slots[m].marks > if s.slots[m].dirty then 1 else 0
    ensures Inv(Unmark(s, m)) && SameKeys(s, Unmark(s, m)) && Unmark(s, m).storage == s.storage
  {
    var t := Unmark(s, m);
    UnmarkQueue(s, m);
    assert SameKeys(s, t) && UniqueKeys(t) && DirtyExact(t) && CleanSaved(t);
  }

  lemma UnmarkQueue(s: Space, m: int)
    requires QueueExact(s) && 0 <= m < |s.slots| && s.slots[m].Full? && s.slots[m].marks > 0
    ensures QueueExact(Unmark(s, m))
  {
    assert m !in s.lru;
    AppendFacts(s.lru, |s.slots|, m);
  }

  // ----- saving -----

  /** The part of the invariant that holds in the middle of a save, with `list` still to be saved. */
  ghost predicate Saving(s: Space, list: seq<int>) {
    && UniqueKeys(s) && QueueExact(s) && CleanSaved(s) && DistinctBelow(list, |s.slots|)
    && forall m <- list :: s.slots[m].Full? && s.slots[m].dirty && s.slots[m].marks >= 1
  }

  function Cleaned(c: Slot): Slot
    requires c.Full?
  {
    c.(dirty := false, marks := c.marks - 1)
  }

  /** The slots of a list that no one else has marked; after a save they wait, in the order of the list. */
  function Freed(slots: seq<Slot>, list: seq<int>): (freed: seq<int>)
    ensures forall m <- freed :: m in list
    decreases |list|
  {
    if list == [] then []
    else
      var m := list[0];
      (if 0 <= m < |slots| && slots[m].Full? && slots[m].marks == 1 then [m] else []) + Freed(slots, list[1..])
  }

  lemma {:induction false} FreedSame(a: seq<Slot>, b: seq<Slot>, list: seq<int>)
    requires |a| == |b| && forall m <- list :: 0 <= m < |a| ==> a[m] == b[m]
    ensures Freed(a, list) == Freed(b, list)
    decreases |list|
  {
    if list != [] {
      FreedSame(a, b, list[1..]);
    }
  }

  lemma CleanOneSlots(s: Space, list: seq<int>)
    requires Saving(s, list) && list != []
    ensures var m := list[0]; var t := CleanOne(s, m);
      && t.dirties == s.dirties && t.slots == s.slots[m := Cleaned(s.slots[m])]
      && t.lru == (if s.slots[m].marks == 1 then s.lru + [m] else s.lru)
      && t.storage == s.storage[s.slots[m].key := s.slots[m].payload]
      && SameKeys(s, t) && UniqueKeys(t) && QueueExact(t)
  {
    var m := list[0];
    var t := CleanOne(s, m);
    assert m !in s.lru;
    AppendFacts(s.lru, |s.slots|, m);
    assert SameKeys(s, t);
    SameKeysIndex(s, t, s.slots[m].key);
  }

  lemma CleanOneLatest(s: Space, list: seq<int>, k: Key)
    requires Saving(s, list) && list != []
    ensures Latest(CleanOne(s, list[0]), k) == Latest(s, k)
  {
    var m := list[0];
    var t := CleanOne(s, m);
    CleanOneSlots(s, list);
    SameKeysIndex(s, t, k);
    if k == s.slots[m].key {
      LatestAt(s, m);
      LatestAt(t, m);
    }
  }

  lemma CleanOneKeeps(s: Space, list: seq<int>)
    requires Saving(s, list) && list != []
    ensures var m := list[0]; var t := CleanOne(s, m);
      && Saving(t, list[1..]) && t.dirties == s.dirties && |t.slots| == |s.slots|
      && t.lru == (if s.slots[m].marks == 1 then s.lru + [m] else s.lru)
      && t.slots == s.slots[m := Cleaned(s.slots[m])]
      && t.storage == s.storage[s.slots[m].key := s.slots[m].payload]
      && forall k :: Latest(t, k) == Latest(s, k)
  {
    CleanOneSlots(s, list);
    PopFacts(list, |s.slots|);
    forall k ensures Latest(CleanOne(s, list[0]), k) == Latest(s, k) {
      CleanOneLatest(s, list, k);
    }
  }

  /** Saving a list cleans and unmarks each of its slots once, touches no other slot, and changes
      nothing that a reader sees. */
  lemma {:induction false} CleanAllKeeps(s: Space, list: seq<int>)
    requires Saving(s, list)
    ensures var t := CleanAll(s, list);
      && Saving(t, []) && t.dirties == s.dirties && |t.slots| == |s.slots|
      && (forall m :: 0 <= m < |s.slots| ==> t.slots[m] == if m in list then Cleaned(s.slots[m]) else s.slots[m])
      && (forall m <- list :: Stored(t.storage, s.slots[m].key) == s.slots[m].payload)
      && forall k :: Latest(t, k) == Latest(s, k)
    decreases |list|
  {
    if list == [] {
    } else {
      CleanOneKeeps(s, list);
      PopFacts(list, |s.slots|);
      var s1 := CleanOne(s, list[0]);
      CleanAllKeeps(s1, list[1..]);
      var t := CleanAll(s, list);
      assert t == CleanAll(s1, list[1..]);
      forall m | m in list ensures Stored(t.storage, s.slots[m].key) == s.slots[m].payload {
        assert t.slots[m] == Cleaned(s.slots[m]);
        assert !t.slots[m].dirty;
      }
    }
  }

  /** The slots that a save makes wait do so in the order in which they were declared. */
  lemma {:induction false} CleanAllQueue(s: Space, list: seq<int>)
    requires Saving(s, list)
    ensures CleanAll(s, list).lru == s.lru + Freed(s.slots, list)
    decreases |list|
  {
    if list != [] {
      var s1 := CleanOne(s, list[0]);
      var first := CleanOneQueue(s, list);
      CleanAllQueue(s1, list[1..]);
      ThreeRuns(s.lru, first, Freed(s1.slots, list[1..]));
    }
  }

  lemma ThreeRuns(a: seq<int>, b: seq<int>, c: seq<int>)
    ensures (a + b) + c == a + (b + c)
  {
  }

  lemma CleanOneQueue(s: Space, list: seq<int>) returns (first: seq<int>)
    requires Saving(s, list) && list != []
    ensures var s1 := CleanOne(s, list[0]);
      && Saving(s1, list[1..]) && s1.lru == s.lru + first && CleanAll(s, list) == CleanAll(s1, list[1..])
      && Freed(s.slots, list) == first + Freed(s1.slots, list[1..])
  {
    CleanOneKeeps(s, list);
    FreedNext(s, list);
    first := if s.slots[list[0]].marks == 1 then [list[0]] else [];
  }

  lemma FreedNext(s: Space, list: seq<int>)
    requires Saving(s, list) && list != []
    ensures Freed(s.slots, list) ==
      (if s.slots[list[0]].marks == 1 then [list[0]] else []) + Freed(CleanOne(s, list[0]).slots, list[1..])
  {
    CleanOneSlots(s, list);
    PopFacts(list, |s.slots|);
    FreedSame(CleanOne(s, list[0]).slots, s.slots, list[1..]);
  }

  /** A save empties the dirty list, loses nothing, and leaves every chunk as the storage has it. */
  lemma SaveKeeps(s: Space)
    requires Inv(s)
    ensures var t := Save(s);
      && Inv(t) && t.dirties == [] && SameKeys(s, t) && t.lru == s.lru + Freed(s.slots, s.dirties)
      && (forall m :: 0 <= m < |t.slots| ==>
            t.slots[m] == if s.slots[m].Full? && s.slots[m].dirty then Cleaned(s.slots[m]) else s.slots[m])
      && (forall m :: 0 <= m < |t.slots| && t.slots[m].Full? ==>
            !t.slots[m].dirty && t.slots[m].payload == Stored(t.storage, t.slots[m].key))
      && forall k :: Latest(t, k) == Latest(s, k) && Stored(t.storage, k) == Latest(s, k)
  {
    var s0 := s.(dirties := []);
    assert Saving(s0, s.dirties);
    CleanAllKeeps(s0, s.dirties);
    CleanAllQueue(s0, s.dirties);
    var t := Save(s);
    forall k ensures Latest(t, k) == Latest(s, k) && Stored(t.storage, k) == Latest(s, k) {
      assert Latest(t, k) == Latest(s0, k);
      SameKeysIndex(s, s0, k);
      if IndexOf(t, k) != -1 {
        LatestAt(t, IndexOf(t, k));
      }
    }
  }

  // ----- declaring a change -----

  /** After a content change of slot m: everything but the cleanness of m. */
  ghost predicate Touched(s: Space, m: int) {
    && 0 <= m < |s.slots| && s.slots[m].Full? && s.slots[m].marks >= 1
    && UniqueKeys(s) && QueueExact(s) && DirtyExact(s)
    && forall i :: 0 <= i < |s.slots| && i != m && s.slots[i].Full? && !s.slots[i].dirty ==>
         s.slots[i].payload == Stored(s.storage, s.slots[i].key)
  }

  /** The chunk is flagged and marked, the old dirty list untouched. */
  lemma TouchedFlagged(s: Space, m: int)
    requires Touched(s, m) && !s.slots[m].dirty
    ensures var s1 := Flagged(s, m);
      && SameKeys(s, s1) && Saving(s1, s.dirties) && m !in s.dirties && m !in s1.lru
      && (forall i :: 0 <= i < |s.slots| ==> (i in s.dirties || i == m <==> s1.slots[i].Full? && s1.slots[i].dirty))
      && forall k :: Latest(s1, k) == Latest(s, k)
  {
    var s1 := Flagged(s, m);
    assert SameKeys(s, s1);
    SameKeysIndex(s, s1, s.slots[m].key);
    assert m !in s.lru && m !in s.dirties;
    forall k ensures Latest(s1, k) == Latest(s, k) {
      SameKeysIndex(s, s1, k);
    }
  }

  /** The dirty list plays no part in what is resident or read. */
  lemma ListFree(s: Space, list: seq<int>, k: Key)
    requires UniqueKeys(s)
    ensures var t := s.(dirties := list);
      UniqueKeys(t) && IndexOf(t, k) == IndexOf(s, k) && Latest(t, k) == Latest(s, k)
  {
    var t := s.(dirties := list);
    assert SameKeys(s, t);
    SameKeysIndex(s, t, k);
  }

  lemma FlushedLatest(s: Space, m: int, k: Key)
    requires Touched(s, m) && !s.slots[m].dirty
    ensures Latest(Save(Flagged(s, m)).(dirties := [m]), k) == Latest(s, k)
  {
    TouchedFlagged(s, m);
    var s1 := Flagged(s, m);
    var s2 := s1.(dirties := []);
    ListFree(s1, [], k);
    CleanAllKeeps(s2, s.dirties);
    ListFree(Save(s1), [m], k);
  }

  /** The retry after a save finds an empty list, so one save is enough. */
  lemma FlushedDirty(s: Space, m: int)
    requires Touched(s, m) && !s.slots[m].dirty
    ensures var t := Save(Flagged(s, m)).(dirties := [m]);
      Inv(t) && SameKeys(s, t) && t.slots[m] == Flagged(s, m).slots[m]
  {
    TouchedFlagged(s, m);
    var s1 := Flagged(s, m);
    var s2 := s1.(dirties := []);
    CleanAllKeeps(s2, s.dirties);
    var s3 := Save(s1);
    ListFree(s3, [m], s.slots[m].key);
    assert QueueExact(s3) && CleanSaved(s3);
  }

  /** That save cleans the other dirty slots, and those wait from then on that no one else has marked. */
  lemma FlushedSlots(s: Space, m: int)
    requires Touched(s, m) && !s.slots[m].dirty
    ensures var t := Save(Flagged(s, m));
      && t.lru == s.lru + Freed(s.slots, s.dirties) && |t.slots| == |s.slots|
      && t.slots[m] == s.slots[m].(dirty := true, marks := s.slots[m].marks + 1)
      && forall i :: 0 <= i < |s.slots| && i != m ==>
           t.slots[i] == if s.slots[i].Full? && s.slots[i].dirty then Cleaned(s.slots[i]) else s.slots[i]
  {
    TouchedFlagged(s, m);
    var s1 := Flagged(s, m);
    var s2 := s1.(dirties := []);
    CleanAllKeeps(s2, s.dirties);
    CleanAllQueue(s2, s.dirties);
    FreedSame(s1.slots, s.slots, s.dirties);
  }

  lemma DeclareDirtyKeeps(s: Space, m: int, batch: nat)
    requires Touched(s, m) && batch >= 1 && |s.dirties| <= batch
    ensures var t := DeclareDirty(s, m, batch);
      && Inv(t) && |t.dirties| <= batch && SameKeys(s, t)
      && (if s.slots[m].dirty then t == s
          else
            && t.slots[m] == s.slots[m].(dirty := true, marks := s.slots[m].marks + 1)
            && t.dirties == (if |s.dirties| < batch then s.dirties + [m] else [m])
            && t.lru == s.lru + (if |s.dirties| < batch then [] else Freed(s.slots, s.dirties))
            && forall i :: 0 <= i < |s.slots| && i != m ==>
                 t.slots[i] == if |s.dirties| == batch && s.slots[i].Full? && s.slots[i].dirty then Cleaned(s.slots[i])
                   else s.slots[i])
      && forall k :: Latest(t, k) == Latest(s, k)
  {
    var t := DeclareDirty(s, m, batch);
    if !s.slots[m].dirty {
      if |s.dirties| < batch {
        TouchedFlagged(s, m);
        var s1 := Flagged(s, m);
        AppendFacts(s.dirties, |s.slots|, m);
        forall k ensures Latest(t, k) == Latest(s1, k) {
          SameKeysIndex(s1, t, k);
        }
      } else {
        FlushedDirty(s, m);
        FlushedSlots(s, m);
        forall k ensures Latest(t, k) == Latest(s, k) {
          FlushedLatest(s, m, k);
        }
      }
    }
  }

  /** The marks of a chunk besides the one that comes with its dirty flag. */
  function Net(c: Slot): int
    requires c.Full?
  {
    c.marks - if c.dirty then 1 else 0
  }

  /** A declared change is what readers see from then on, and it changes nothing under other keys. */
  lemma ModifyKeeps(s: Space, m: int, payload: int, batch: nat)
    requires Inv(s) && 0 <= m < |s.slots| && s.slots[m].Full? && s.slots[m].marks >= 1
    requires batch >= 1 && |s.dirties| <= batch
    ensures var t := Modify(s, m, payload, batch);
      && Inv(t) && |t.dirties| <= batch && SameKeys(s, t)
      && forall k :: Latest(t, k) == if k == s.slots[m].key then payload else Latest(s, k)
  {
    var s1 := s.(slots := s.slots[m := s.slots[m].(payload := payload)]);
    assert SameKeys(s, s1);
    SameKeysIndex(s, s1, s.slots[m].key);
    assert Touched(s1, m);
    DeclareDirtyKeeps(s1, m, batch);
    forall k ensures Latest(s1, k) == if k == s.slots[m].key then payload else Latest(s, k) {
      SameKeysIndex(s, s1, k);
      if k == s.slots[m].key {
        IndexUnique(s, m, k);
      }
    }
  }

  /** A write gives no mark but the one of the dirty flag, and makes those wait that its save frees. */
  lemma ModifyMarks(s: Space, m: int, payload: int, batch: nat)
    requires Inv(s) && 0 <= m < |s.slots| && s.slots[m].Full? && s.slots[m].marks >= 1
    requires batch >= 1 && |s.dirties| <= batch
    ensures var t := Modify(s, m, payload, batch);
      && SameKeys(s, t) && t.slots[m].dirty && t.slots[m].payload == payload
      && (exists news :: t.lru == s.lru + news && forall x <- news :: x !in s.lru)
      && forall i :: 0 <= i < |s.slots| && t.slots[i].Full? ==> Net(t.slots[i]) == Net(s.slots[i])
  {
    var s1 := s.(slots := s.slots[m := s.slots[m].(payload := payload)]);
    assert SameKeys(s, s1);
    SameKeysIndex(s, s1, s.slots[m].key);
    assert Touched(s1, m);
    DeclareDirtyKeeps(s1, m, batch);
    var t := Modify(s, m, payload, batch);
    var news := if s.slots[m].dirty || |s.dirties| < batch then [] else Freed(s1.slots, s.dirties);
    assert t.lru == s.lru + news;
    forall x | x in news ensures x !in s.lru {
      assert x in s.dirties && 0 <= x < |s.slots|;
    }
  }

  // ----- what the callers owe, exactly -----

  lemma {:induction false} CleanAllElsewhere(s: Space, list: seq<int>, m: int)
    requires m !in list && m in s.lru && 0 <= m < |s.slots|
    ensures var t := CleanAll(s, list); |t.slots| == |s.slots| && t.slots[m] == s.slots[m] && m in t.lru
    decreases |list|
  {
    if list != [] {
      CleanAllElsewhere(CleanIfDirty(s, list[0]), list[1..], m);
    }
  }

  /** A write keeps the invariant exactly when the writer holds a mark: a chunk without one would be dirty
      and wait for eviction at once. */
  lemma ModifyExact(s: Space, m: int, payload: int, batch: nat)
    requires Inv(s) && 0 <= m < |s.slots| && s.slots[m].Full? && batch >= 1 && |s.dirties| <= batch
    ensures Inv(Modify(s, m, payload, batch)) <==> s.slots[m].marks >= 1
  {
    if s.slots[m].marks >= 1 {
      ModifyKeeps(s, m, payload, batch);
    } else {
      var s1 := Flagged(s.(slots := s.slots[m := s.slots[m].(payload := payload)]), m);
      assert m in s.lru && m !in s.dirties;
      CleanAllElsewhere(s1.(dirties := []), s.dirties, m);
      var t := Modify(s, m, payload, batch);
      assert m in t.lru && t.slots[m] == s1.slots[m];
    }
  }

  /** A release keeps the invariant exactly when the chunk has a mark besides the one of its dirty flag. */
  lemma UnmarkExact(s: Space, m: int)
    requires Inv(s) && 0 <= m < |s.slots| && s.slots[m].Full?
    ensures Inv(Unmark(s, m)) <==> s.slots[m].marks > if s.slots[m].dirty then 1 else 0
  {
    if s.slots[m].marks > if s.slots[m].dirty then 1 else 0 {
      UnmarkKeeps(s, m);
    } else {
      assert Unmark(s, m).slots[m].dirty == s.slots[m].dirty;
      assert Unmark(s, m).slots[m].marks == s.slots[m].marks - 1;
    }
  }

  // ----- whole runs -----

  datatype Step =
    | Lookup(key: Key)
    | Load(key: Key)
    | Put(chunk: Slot)
    | Release(slot: int)
    | Write(slot: int, payload: int)
    | Flush

  /** What the callers of each operation owe: a holder's mark for a release or a write, a chunk fresh
      from its creator for a put, and two unmarked slots (or a marked chunk) for a lookup. */
  ghost predicate Allowed(s: Space, step: Step) {
    match step
    case Lookup(key) => !Lonely(s, key)
    case Load(key) => !Lonely(s, key)
    case Put(chunk) => Offered(s, chunk)
    case Release(m) => 0 <= m < |s.slots| && s.slots[m].Full? && s.slots[m].marks > if s.slots[m].dirty then 1 else 0
    case Write(m, _) => 0 <= m < |s.slots| && s.slots[m].Full? && s.slots[m].marks >= 1
    case Flush => true
  }

  ghost function After(s: Space, step: Step, batch: nat): Space
    requires Allowed(s, step)
  {
    match step
    case Lookup(key) => GetAndMark(s, key).0
    case Load(key) => GetOrLoadAndMark(s, key).0
    case Put(chunk) => PutAndMark(s, chunk).0
    case Release(m) => Unmark(s, m)
    case Write(m, payload) => Modify(s, m, payload, batch)
    case Flush => Save(s)
  }

  ghost predicate Run(states: seq<Space>, steps: seq<Step>, batch: nat) {
    && |states| == |steps| + 1
    && forall i :: 0 <= i < |steps| ==>
         Allowed(states[i], steps[i]) && states[i + 1] == After(states[i], steps[i], batch)
  }

  /** What a step leaves under a key that held `before`. */
  ghost function Written(s: Space, step: Step, key: Key, before: int): int
    requires Allowed(s, step)
  {
    if step.Write? && key == s.slots[step.slot].key then step.payload else before
  }

  lemma StepKeeps(s: Space, step: Step, batch: nat)
    requires Inv(s) && |s.dirties| <= batch && batch >= 1 && Allowed(s, step)
    ensures var t := After(s, step, batch);
      && Inv(t) && |t.dirties| <= batch && |t.slots| == |s.slots|
      && forall k :: Latest(t, k) == Written(s, step, k, Latest(s, k))
  {
    match step
    case Lookup(key) => GetAndMarkKeeps(s, key);
    case Load(key) => GetOrLoadKeeps(s, key);
    case Put(chunk) => PutAndMarkKeeps(s, chunk);
    case Release(m) => UnmarkKeeps(s, m);
    case Write(m, payload) => ModifyKeeps(s, m, payload, batch);
    case Flush => SaveKeeps(s);
  }

  /** The content last written under a key in the first `n` steps, or the one before the run. */
  ghost function LastWritten(states: seq<Space>, steps: seq<Step>, n: nat, key: Key): int
    requires n <= |steps| && |states| == |steps| + 1
    requires forall i :: 0 <= i < n ==> Allowed(states[i], steps[i])
  {
    if n == 0 then Latest(states[0], key)
    else
      assert Allowed(states[n - 1], steps[n - 1]);
      Written(states[n - 1], steps[n - 1], key, LastWritten(states, steps, n - 1, key))
  }

  /** Cache safety and no lost change over every run: in every state each slot either waits for
      eviction or is marked, dirty chunks are marked and listed once, and every key still reads as
      the content last written under it, however often its chunk was evicted and loaded between. */
  lemma {:induction false} RunKeeps(states: seq<Space>, steps: seq<Step>, batch: nat, n: nat)
    requires Run(states, steps, batch) && batch >= 1 && Inv(states[0]) && |states[0].dirties| <= batch && n <= |steps|
    ensures Inv(states[n]) && |states[n].dirties| <= batch
    ensures forall k :: Latest(states[n], k) == LastWritten(states, steps, n, k)
  {
    if n > 0 {
      RunKeeps(states, steps, batch, n - 1);
      StepKeeps(states[n - 1], steps[n - 1], batch);
    }
  }

  /** A run that starts from an empty cache: what reads find is what was written, and BLANK before. */
  lemma FromEmpty(n: nat, states: seq<Space>, steps: seq<Step>, batch: nat)
    requires Run(states, steps, batch) && batch >= 1 && states[0] == Initial(n)
    ensures Inv(states[|steps|]) && forall k :: Latest(states[|steps|], k) == LastWritten(states, steps, |steps|, k)
    ensures forall k :: LastWritten(states, steps, 0, k) == BLANK
  {
    InitialInv(n);
    RunKeeps(states, steps, batch, |steps|);
    forall k ensures Latest(Initial(n), k) == BLANK {
    }
  }

  // ----- the marks over a run -----

  /** The slot in which a step places a new chunk, or -1. */
  ghost function Placed(s: Space, step: Step): int {
    match step
    case Put(chunk) => if !chunk.Full? || Resident(s, chunk.key) || s.lru == [] then -1 else s.lru[0]
    case Load(key) => if Resident(s, key) || key !in s.storage || s.lru == [] then -1 else s.lru[0]
    case _ => -1
  }

  /** What a step adds to the marks of the chunk in a slot. */
  ghost function Given(s: Space, step: Step, m: int): int {
    match step
    case Lookup(key) => if IndexOf(s, key) == m then 1 else 0
    case Load(key) => if IndexOf(s, key) == m then 1 else 0
    case Release(r) => if r == m then -1 else 0
    case _ => 0
  }

  lemma StepMarks(s: Space, step: Step, batch: nat)
    requires Inv(s) && |s.dirties| <= batch && batch >= 1 && Allowed(s, step)
    ensures var t := After(s, step, batch);
      && |t.slots| == |s.slots|
      && forall m :: 0 <= m < |t.slots| && t.slots[m].Full? ==>
        if m == Placed(s, step) then Net(t.slots[m]) == 1
        else s.slots[m].Full? && Net(t.slots[m]) == Net(s.slots[m]) + Given(s, step, m)
  {
    match step
    case Lookup(key) => GetAndMarkKeeps(s, key);
    case Load(key) => GetOrLoadKeeps(s, key);
    case Put(chunk) => PutAndMarkKeeps(s, chunk);
    case Release(m) => UnmarkKeeps(s, m);
    case Write(m, payload) => ModifyMarks(s, m, payload, batch);
    case Flush => SaveKeeps(s);
  }

  /** The lookups of the chunk in a slot and its put, minus its releases, in the first n steps. */
  ghost function Owed(states: seq<Space>, steps: seq<Step>, n: nat, m: nat): int
    requires n <= |steps| && |states| == |steps| + 1 && m < |states[0].slots|
  {
    if n == 0 then if states[0].slots[m].Full? then Net(states[0].slots[m]) else 0
    else if Placed(states[n - 1], steps[n - 1]) == m then 1
    else Owed(states, steps, n - 1, m) + Given(states[n - 1], steps[n - 1], m)
  }

  /** In every state of every run a chunk has as many marks as lookups and a put have given it and releases have not
      taken back, and one more while it is dirty. */
  lemma {:induction false} RunMarks(states: seq<Space>, steps: seq<Step>, batch: nat, n: nat, m: nat)
    requires Run(states, steps, batch) && batch >= 1 && Inv(states[0]) && |states[0].dirties| <= batch && n <= |steps|
    requires m < |states[0].slots|
    ensures |states[n].slots| == |states[0].slots|
    ensures var c := states[n].slots[m];
      c.Full? ==> c.marks == Owed(states, steps, n, m) + if c.dirty then 1 else 0
  {
    if n > 0 {
      RunMarks(states, steps, batch, n - 1, m);
      RunKeeps(states, steps, batch, n - 1);
      StepMarks(states[n - 1], steps[n - 1], batch);
    }
  }

  // ----- the queue over a run -----

  /** The slots that still wait do so in the same order, and others only come to the end. */
  lemma StepQueue(s: Space, step: Step, batch: nat) returns (k: nat)
    requires Inv(s) && |s.dirties| <= batch && batch >= 1 && Allowed(s, step)
    ensures Requeued(s.lru, After(s, step, batch).lru, k)
    ensures Placed(s, step) != -1 ==> s.lru != [] && Placed(s, step) == s.lru[0]
  {
    var t := After(s, step, batch);
    PoppedInOrder(s.lru);
    match step
    case Lookup(key) =>
      GetAndMarkKeeps(s, key);
      k := |t.lru|;
    case Load(key) =>
      GetOrLoadKeeps(s, key);
      k := |t.lru|;
    case Put(chunk) =>
      PutAndMarkKeeps(s, chunk);
      k := |t.lru|;
    case _ =>
      var news := StepWaits(s, step, batch);
      ExtendedInOrder(s.lru, news);
      k := |s.lru|;
  }

  /** Those that a release, a write or a save makes wait. */
  lemma StepWaits(s: Space, step: Step, batch: nat) returns (news: seq<int>)
    requires Inv(s) && |s.dirties| <= batch && batch >= 1 && Allowed(s, step)
    requires step.Release? || step.Write? || step.Flush?
    ensures After(s, step, batch).lru == s.lru + news && forall x <- news :: x !in s.lru
  {
    match step
    case Release(m) =>
      UnmarkKeeps(s, m);
      news := if s.slots[m].marks == 1 then [m] else [];
    case Write(m, payload) =>
      ModifyMarks(s, m, payload, batch);
      news :| After(s, step, batch).lru == s.lru + news && forall x <- news :: x !in s.lru;
    case Flush =>
      SaveKeeps(s);
      news := Freed(s.slots, s.dirties);
  }

  lemma PoppedInOrder(l: seq<int>)
    ensures Requeued(l, l, |l|) && (l != [] ==> Requeued(l, l[1..], |l| - 1))
  {
    ExtendedInOrder(l, []);
    assert l + [] == l;
    if l != [] {
      RemovedInOrder(l, 0);
      assert RemoveAt(l, 0) == l[1..];
    }
  }

  /** The number of the step after which a slot that waits has waited without a break; 0 from the start. */
  ghost function Since(states: seq<Space>, n: nat, m: int): nat
    requires n < |states|
  {
    if n == 0 then 0
    else if m in states[n].lru && m !in states[n - 1].lru then n
    else Since(states, n - 1, m)
  }

  lemma {:induction false} SinceBound(states: seq<Space>, n: nat, m: int)
    requires n < |states|
    ensures Since(states, n, m) <= n
  {
    if n > 0 {
      SinceBound(states, n - 1, m);
    }
  }

  /** In every state of every run the queue is in the order in which its slots have come to wait. */
  lemma {:induction false} RunQueue(states: seq<Space>, steps: seq<Step>, batch: nat, n: nat)
    requires Run(states, steps, batch) && batch >= 1 && Inv(states[0]) && |states[0].dirties| <= batch && n <= |steps|
    ensures var lru := states[n].lru;
      forall i, j :: 0 <= i < j < |lru| ==> Since(states, n, lru[i]) <= Since(states, n, lru[j])
  {
    if n > 0 {
      RunQueue(states, steps, batch, n - 1);
      RunKeeps(states, steps, batch, n - 1);
      var k := StepQueue(states[n - 1], steps[n - 1], batch);
      var l, l' := states[n - 1].lru, states[n].lru;
      forall i, j | 0 <= i < j < |l'| ensures Since(states, n, l'[i]) <= Since(states, n, l'[j]) {
        assert l'[i] in l' && l'[j] in l';
        if j < k {
          assert Before(l, l'[i], l'[j]);
        } else {
          SinceBound(states, n, l'[i]);
        }
      }
    }
  }

  /** Of two slots that wait the one that has come first is the first to be evicted. */
  lemma OldestEvicted(states: seq<Space>, steps: seq<Step>, batch: nat, n: nat, x: int)
    requires Run(states, steps, batch) && batch >= 1 && Inv(states[0]) && |states[0].dirties| <= batch && n < |steps|
    requires Placed(states[n], steps[n]) != -1 && x in states[n].lru
    ensures Since(states, n, Placed(states[n], steps[n])) <= Since(states, n, x)
    ensures Inv(states[n]) && 0 <= Placed(states[n], steps[n]) < |states[n].slots|
    ensures Evictable(states[n].slots[Placed(states[n], steps[n])])
  {
    RunKeeps(states, steps, batch, n);
    RunQueue(states, steps, batch, n);
    var _ := StepQueue(states[n], steps[n], batch);
    assert states[n].lru[0] in states[n].lru;
  }

  /** The lonely case is reached: in a cache of one slot a chunk is put, released and asked for again. */
  lemma LonelyReached(key: Key) returns (states: seq<Space>, steps: seq<Step>)
    ensures Run(states, steps, 1) && |steps| == 2 && states[0] == Initial(1)
    ensures Inv(states[2]) && Lonely(states[2], key) && !Inv(GetAndMark(states[2], key).0)
  {
    var chunk := Full(key, 1, false, BLANK);
    var second := FirstPut(key);
    var third := After(second, Release(0), 1);
    UnmarkKeeps(second, 0);
    assert Holds(third, 0, key) && third.lru == [0];
    IndexUnique(third, 0, key);
    GetAndMarkKeeps(third, key);
    states, steps := [Initial(1), second, third], [Put(chunk), Release(0)];
  }

  lemma FirstPut(key: Key) returns (second: Space)
    ensures var step := Put(Full(key, 1, false, BLANK));
      Allowed(Initial(1), step) && second == After(Initial(1), step, 1)
    ensures Inv(second) && second.slots == [Full(key, 1, false, BLANK)] && second.lru == []
  {
    var step := Put(Full(key, 1, false, BLANK));
    InitialInv(1);
    second := After(Initial(1), step, 1);
    PutAndMarkKeeps(Initial(1), Full(key, 1, false, BLANK));
  }
}
