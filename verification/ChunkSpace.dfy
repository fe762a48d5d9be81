/** HeapChunkSpace, InternalDirtyStateList and CoreGraph.saveDirtyList over the arrays they use. */
module ChunkSpaces {
  import opened Hiding
  import opened FixedStacks
  import opened Buckets
  import opened CacheModel

  class Chunk {
    const key: Key
    var marks: int
    var dirty: bool
    var payload: int

    constructor (key: Key, payload: int)
      ensures this.key == key && marks == 0 && !dirty && this.payload == payload
    {
      this.key, marks, dirty, this.payload := key, 0, false, payload;
    }

    ghost function View(): (s: Slot)
      reads this
      ensures s.Full?
    {
      Full(key, marks, dirty, payload)
    }

    method Mark() returns (m: int)
      modifies this`marks
      ensures m == marks == old(marks) + 1
    {
      marks := marks + 1;
      m := marks;
    }

    method Unmark() returns (m: int)
      modifies this`marks
      ensures m == marks == old(marks) - 1
    {
      marks := marks - 1;
      m := marks;
    }

    /** setFlags for the one flag there is; says whether it changed. */
    method SetDirty(value: bool) returns (changed: bool)
      modifies this`dirty
      ensures dirty == value && changed == (old(dirty) != value)
    {
      changed := dirty != value;
      dirty := value;
    }
  }

  /** A fixed-size list of slots, filled by declareDirty and drained by a save. */
  class DirtyList {
    const max: nat
    const dirtyElements: array<int>
    var nextCounter: nat
    var iterationCounter: nat

    ghost predicate Valid()
      reads this
    {
      dirtyElements.Length == max && iterationCounter <= nextCounter <= max
    }

    ghost function List(): seq<int>
      reads this, dirtyElements
      requires Valid()
    {
      dirtyElements[..nextCounter]
    }

    constructor (maxSize: nat)
      ensures Valid() && max == maxSize && List() == [] && iterationCounter == 0 && fresh(dirtyElements)
    {
      max, dirtyElements, nextCounter, iterationCounter := maxSize, new int[maxSize], 0, 0;
    }

    method DeclareDirty(dirtyIndex: int) returns (success: bool)
      requires Valid()
      modifies this`nextCounter, dirtyElements
      ensures Valid() && success == (old(nextCounter) < max)
      ensures List() == if success then old(List()) + [dirtyIndex] else old(List())
    {
      if nextCounter == max {
        return false;
      }
      dirtyElements[nextCounter] := dirtyIndex;
      nextCounter := nextCounter + 1;
      return true;
    }

    function HasNext(): bool
      reads this
    {
      iterationCounter < nextCounter
    }

    method Next() returns (slot: int)
      requires Valid() && HasNext()
      modifies this`iterationCounter
      ensures Valid() && slot == List()[old(iterationCounter)] && iterationCounter == old(iterationCounter) + 1
    {
      slot := dirtyElements[iterationCounter];
      iterationCounter := iterationCounter + 1;
    }
  }

  // ----- the chains, on values -----

  /** The bucket of each slot. */
  ghost function BucketsOf(vs: seq<Chunk?>, hash: Key -> int): (b: seq<int>)
    ensures |b| == |vs| && forall m :: 0 <= m < |vs| ==> b[m] == if vs[m] != null then hash(vs[m].key) else -1
  {
    seq(|vs|, m requires 0 <= m < |vs| => if vs[m] != null then hash(vs[m].key) else -1)
  }

  /** At most one chunk per key, and so at most one slot per chunk. */
  ghost predicate OnePerKey(vs: seq<Chunk?>) {
    forall i, j :: 0 <= i < |vs| && 0 <= j < |vs| && vs[i] != null && vs[j] != null && vs[i].key == vs[j].key ==> i == j
  }

  /** The arrays chain exactly the resident chunks. */
  ghost predicate Chaining(vs: seq<Chunk?>, ns: seq<int>, hs: seq<int>, chains: seq<seq<int>>, hash: Key -> int) {
    && |vs| == |ns| == |hs| && (forall k :: 0 <= hash(k) < |hs|)
    && Chained(BucketsOf(vs, hash), ns, hs, chains) && PlainEnds(ns) && PlainEnds(hs)
  }

  ghost predicate Absent(vs: seq<Chunk?>, key: Key) {
    forall i :: !At(vs, i, key)
  }

  lemma OneLess(vs: seq<Chunk?>, m: nat)
    requires OnePerKey(vs) && m < |vs|
    ensures OnePerKey(vs[m := null])
  {
  }

  lemma OneMore(vs: seq<Chunk?>, m: nat, c: Chunk)
    requires OnePerKey(vs) && m < |vs| && vs[m] == null && Absent(vs, c.key)
    ensures OnePerKey(vs[m := c])
  {
    forall i | 0 <= i < |vs| && vs[i] != null ensures vs[i].key != c.key {
      assert !At(vs, i, c.key);
    }
  }

  ghost predicate AllBelow(list: seq<int>, n: nat) {
    forall j :: 0 <= j < |list| ==> 0 <= list[j] < n
  }

  /** `Chaining`, for callers to pass on: its definition comes into play only where `Unfold` is mentioned. */
  ghost predicate Linked(vs: seq<Chunk?>, ns: seq<int>, hs: seq<int>, chains: seq<seq<int>>, hash: Key -> int) {
    |vs| == |ns| == |hs| && forall b {:trigger Unfold(Topic.Spaces, b)} :: Unfold(Topic.Spaces, b) ==>
      Chaining(vs, ns, hs, chains, hash)
  }

  ghost predicate At(vs: seq<Chunk?>, m: int, key: Key) {
    0 <= m < |vs| && vs[m] != null && vs[m].key == key
  }

  lemma ChainOfKey(vs: seq<Chunk?>, ns: seq<int>, hs: seq<int>, chains: seq<seq<int>>, hash: Key -> int, key: Key)
    requires Linked(vs, ns, hs, chains, hash)
    ensures var h := hash(key);
      && 0 <= h < |hs| && h < |chains| && ChainOk(chains[h], h, BucketsOf(vs, hash), ns, hs[h])
      && PlainEnds(ns) && PlainEnds(hs) && |hs| == |chains|
      && forall i :: At(vs, i, key) ==> i in chains[h]
  {
    assert Unfold(Topic.Spaces, true);
  }

  lemma EmptySpace(vs: seq<Chunk?>, ns: seq<int>, hs: seq<int>, hash: Key -> int)
    requires |vs| == |ns| == |hs| && (forall k :: 0 <= hash(k) < |hs|)
    requires forall i :: 0 <= i < |vs| ==> vs[i] == null && ns[i] == -1 && hs[i] == -1
    ensures Linked(vs, ns, hs, seq(|hs|, h => []), hash)
  {
    EmptyChained(BucketsOf(vs, hash), ns, hs);
  }

  /** A chunk entered into a free slot. */
  lemma Entered(vs: seq<Chunk?>, ns: seq<int>, hs: seq<int>, chains: seq<seq<int>>, hash: Key -> int, m: nat, c: Chunk)
    requires Linked(vs, ns, hs, chains, hash) && m < |vs| && vs[m] == null
    ensures var h := hash(c.key);
      && 0 <= h < |hs| && h < |chains|
      && Linked(vs[m := c], ns[m := hs[h]], hs[h := m], chains[h := [m] + chains[h]], hash)
  {
    assert Unfold(Topic.Spaces, true);
    var h := hash(c.key);
    Enchained(BucketsOf(vs, hash), ns, hs, chains, m, h, hs[h]);
    assert BucketsOf(vs[m := c], hash) == BucketsOf(vs, hash)[m := h];
  }

  lemma BypassPlain(b: seq<int>, ns: seq<int>, hs: seq<int>, chains: seq<seq<int>>, h: nat, k: nat)
    requires Chained(b, ns, hs, chains) && h < |hs| && k < |chains[h]| && PlainEnds(ns) && PlainEnds(hs)
    ensures var c := chains[h];
      && 0 <= c[k] < |ns| && (k > 0 ==> 0 <= c[k - 1] < |ns|)
      && PlainEnds(BypassNext(ns, c, k, -1)) && PlainEnds(BypassHead(hs, ns, c, h, k))
  {
    SlotsOf(b, ns, hs, chains, h, k);
  }

  lemma BucketsWithout(vs: seq<Chunk?>, hash: Key -> int, m: nat)
    requires m < |vs|
    ensures BucketsOf(vs[m := null], hash) == BucketsOf(vs, hash)[m := -1]
  {
  }

  /** A chunk taken out of its slot: `k` is its place in its chain. */
  lemma Left(vs: seq<Chunk?>, ns: seq<int>, hs: seq<int>, chains: seq<seq<int>>, hash: Key -> int, h: nat, k: nat)
    requires Linked(vs, ns, hs, chains, hash) && h < |hs| && h < |chains| && k < |chains[h]|
    ensures var c := chains[h];
      && 0 <= c[k] < |vs| && (k > 0 ==> 0 <= c[k - 1] < |vs|)
      && Linked(vs[c[k] := null], BypassNext(ns, c, k, -1), BypassHead(hs, ns, c, h, k), chains[h := RemoveAt(c, k)],
        hash)
  {
    assert Unfold(Topic.Spaces, true);
    var b := BucketsOf(vs, hash);
    BypassPlain(b, ns, hs, chains, h, k);
    BucketsWithout(vs, hash, chains[h][k]);
    Unchained(b, ns, hs, chains, h, k, -1);
  }

  datatype PutResult = Unsafe | CacheFull | Placed(chunk: Chunk)

  class ChunkSpace {
    const maxEntries: nat
    const saveBatchSize: nat
    const hash: Key -> int          // tripleHash, of which only the range matters
    const lru: FixedStack
    const elementNext: array<int>
    const elementHash: array<int>
    const values: array<Chunk?>
    var dirtyState: DirtyList
    var storage: map<Key, int>      // the graph's storage

    ghost var vs: seq<Chunk?>       // the contents of the three arrays
    ghost var ns: seq<int>
    ghost var hs: seq<int>
    ghost var chains: seq<seq<int>> // the slots in each bucket
    ghost var slots: seq<Slot>      // what the chunks hold

    /** The three arrays chain the resident chunks by their keys. */
    ghost predicate Indexed()
      reads `vs, `ns, `hs, `chains, elementNext, elementHash, values
    {
      && elementNext != elementHash && values.Length == elementNext.Length == elementHash.Length == maxEntries
      && elementNext[..] == ns && elementHash[..] == hs && values[..] == vs
      && Linked(vs, ns, hs, chains, hash) && OnePerKey(vs)
    }

    ghost function Chunks(): set<Chunk>
      reads `vs
    {
      set c: Chunk | c in vs
    }

    /** `slots` is what the chunks hold now. */
    ghost predicate Mirrored()
      reads `vs, `slots, Chunks()
    {
      && |vs| == |slots|
      && forall m :: 0 <= m < |vs| ==> slots[m] == if vs[m] == null then Empty else vs[m].View()
    }

    ghost predicate Queued()
      reads lru, lru.next, lru.prev
    {
      lru.capacity == maxEntries && forall b {:trigger Unfold(Topic.Spaces, b)} :: Unfold(Topic.Spaces, b) ==>
        lru.Valid()
    }

    ghost predicate Listed()
      reads `dirtyState, dirtyState, dirtyState.dirtyElements
    {
      && dirtyState.Valid() && dirtyState.max == saveBatchSize && dirtyState.iterationCounter == 0
      && AllBelow(dirtyState.List(), maxEntries)
    }

    /** No two of the integer arrays are the same. */
    ghost predicate Separate()
      reads `dirtyState
    {
      && elementNext != lru.next && elementNext != lru.prev && elementHash != lru.next && elementHash != lru.prev
      && dirtyState.dirtyElements !in {elementNext, elementHash, lru.next, lru.prev}
    }

    /** Everything but the chunks that the space is made of. */
    ghost function Parts(): set<object>
      reads `dirtyState
    {
      {this, elementNext, elementHash, values, lru, lru.next, lru.prev, dirtyState, dirtyState.dirtyElements}
    }

    ghost predicate Valid()
      reads this, Parts(), Chunks()
    {
      Separate() && Indexed() && Mirrored() && Queued() && Listed()
    }

    /** The value that the objects represent. */
    ghost function Model(): Space
      reads `slots, `storage, `dirtyState, lru, dirtyState, dirtyState.dirtyElements
      requires Listed()
    {
      Space(slots, lru.order, dirtyState.List(), storage)
    }

    static method AllEnds(n: nat) returns (a: array<int>)
      ensures fresh(a) && a.Length == n && forall i :: 0 <= i < n ==> a[i] == -1
    {
      a := new int[n];
      for i := 0 to n
        invariant forall j :: 0 <= j < i ==> a[j] == -1
      {
        a[i] := -1;
      }
    }

    constructor (initialCapacity: nat, saveBatchSize: nat, hash: Key -> int)
      requires saveBatchSize <= initialCapacity
      requires forall k :: 0 <= hash(k) < initialCapacity
      ensures Valid() && Model() == Initial(initialCapacity)
      ensures maxEntries == initialCapacity && this.saveBatchSize == saveBatchSize
      ensures fresh(elementNext) && fresh(elementHash) && fresh(values) && fresh(lru) && fresh(dirtyState)
      ensures Chunks() == {}
    {
      maxEntries, this.saveBatchSize, this.hash := initialCapacity, saveBatchSize, hash;
      lru := new FixedStack(initialCapacity);
      dirtyState := new DirtyList(saveBatchSize);
      var nexts := AllEnds(initialCapacity);
      var heads := AllEnds(initialCapacity);
      elementNext, elementHash := nexts, heads;
      values := new Chunk?[initialCapacity](_ => null);
      storage := map[];
      new;
      Indexing();
      Ascends(lru.order, initialCapacity);
    }

    /** No chunk is there at first. */
    ghost method Indexing()
      requires elementNext != elementHash && values.Length == elementNext.Length == elementHash.Length == maxEntries
      requires forall k :: 0 <= hash(k) < maxEntries
      requires forall i :: 0 <= i < maxEntries ==> values[i] == null && elementNext[i] == -1 && elementHash[i] == -1
      modifies `ns, `hs, `vs, `chains, `slots
      ensures Indexed() && Mirrored() && Chunks() == {} && slots == Vacant(maxEntries)
    {
      ns, hs, vs := elementNext[..], elementHash[..], values[..];
      chains := seq(|hs|, h => []);
      slots := Vacant(maxEntries);
      EmptySpace(vs, ns, hs, hash);
    }

    /** The slot of a key by its chain, or -1. */
    method Find(key: Key) returns (m: int)
      requires Indexed()
      ensures m == -1 || At(vs, m, key)
      ensures m == -1 ==> Absent(vs, key)
      ensures 0 <= hash(key) < |chains| && (m != -1 ==> m in chains[hash(key)])
    {
      ChainOfKey(vs, ns, hs, chains, hash, key);
      var index := hash(key);
      m := elementHash[index];
      ghost var c := chains[index];
      ghost var k := 0;
      while m != -1
        invariant 0 <= k <= |c| && m == if k < |c| then c[k] else -1
        invariant forall j :: 0 <= j < k ==> !At(vs, c[j], key)
        decreases |c| - k
      {
        var foundChunk := values[m];
        if foundChunk != null && key == foundChunk.key {
          return;
        } else {
          m := elementNext[m];
          k := k + 1;
        }
      }
    }

    lemma FoundIs(key: Key, m: int)
      requires Indexed() && Mirrored() && Listed()
      requires m == -1 || At(vs, m, key)
      requires m == -1 ==> Absent(vs, key)
      ensures UniqueKeys(Model()) && IndexOf(Model(), key) == m
      ensures m != -1 ==> slots[m] == vs[m].View()
    {
      var i := IndexOf(Model(), key);
      if i != -1 {
        assert At(vs, i, key);
      }
      if m != -1 {
        assert Holds(Model(), m, key);
      }
    }

    /** mark() of the chunk in a slot. */
    method MarkSlot(ghost m: int, chunk: Chunk) returns (marks: int)
      requires Indexed() && Mirrored() && 0 <= m < maxEntries && vs[m] == chunk
      modifies `slots, chunk`marks
      ensures Mirrored()
      ensures slots == old(slots)[m := old(slots[m]).(marks := marks)] && marks == old(slots[m]).marks + 1
    {
      marks := chunk.Mark();
      slots := slots[m := chunk.View()];
    }

    method UnmarkSlot(ghost m: int, chunk: Chunk) returns (marks: int)
      requires Indexed() && Mirrored() && 0 <= m < maxEntries && vs[m] == chunk
      modifies `slots, chunk`marks
      ensures Mirrored()
      ensures slots == old(slots)[m := old(slots[m]).(marks := marks)] && marks == old(slots[m]).marks - 1
    {
      marks := chunk.Unmark();
      slots := slots[m := chunk.View()];
    }

    method FlagSlot(ghost m: int, chunk: Chunk, dirty: bool) returns (changed: bool)
      requires Indexed() && Mirrored() && 0 <= m < maxEntries && vs[m] == chunk
      modifies `slots, chunk`dirty
      ensures Mirrored() && changed == (old(slots[m]).dirty != dirty)
      ensures slots == old(slots)[m := old(slots[m]).(dirty := dirty)]
    {
      changed := chunk.SetDirty(dirty);
      slots := slots[m := chunk.View()];
    }

    lemma DequeuedIs(order: seq<int>, n: nat, m: int, r: seq<int>)
      requires DistinctBelow(order, n) && exists k :: 0 <= k < |order| && order[k] == m && r == RemoveAt(order, k)
      ensures Dequeued(order, m) == r && m in order
    {
    }

    method TakeOff(m: int) returns (removed: bool)
      requires Queued() && 0 <= m < maxEntries
      modifies lru, lru.next, lru.prev
      ensures Queued() && removed == (m in old(lru.order) && |old(lru.order)| > 1)
      ensures lru.order == if removed then Dequeued(old(lru.order), m) else old(lru.order)
    {
      assert Unfold(Topic.Spaces, true);
      ghost var order := lru.order;
      removed := lru.Dequeue(m);
      if removed {
        DequeuedIs(order, maxEntries, m, lru.order);
      }
    }

    method PutOn(m: int)
      requires Queued() && 0 <= m < maxEntries
      modifies lru, lru.next, lru.prev
      ensures Queued() && lru.order == old(lru.order) + if m in old(lru.order) then [] else [m]
    {
      assert Unfold(Topic.Spaces, true);
      var _ := lru.Enqueue(m);
    }

    /** The marked chunk of a key; null when it is not resident, or in the lonely case. */
    method GetAndMark(key: Key) returns (chunk: Chunk?)
      requires Valid()
      modifies `slots, lru, lru.next, lru.prev, Chunks()
      ensures Valid() && vs == old(vs)
      ensures var (t, m) := CacheModel.GetAndMark(old(Model()), key);
        Model() == t && -1 <= m < maxEntries && chunk == if m == -1 then null else vs[m]
    {
      var m := Find(key);
      FoundIs(key, m);
      chunk := null;
      if m != -1 {
        chunk := values[m];
        var marks := MarkSlot(m, chunk);
        if marks == 1 {
          var removed := TakeOff(m);
          if !removed {
            chunk := null;
          }
        }
      }
    }

    /** Takes a mark back from the chunk of a key; the last one puts its slot in the queue. */
    method Unmark(key: Key)
      requires Valid()
      modifies `slots, lru, lru.next, lru.prev, Chunks()
      ensures Valid() && vs == old(vs)
      ensures var m := IndexOf(old(Model()), key);
        Model() == if m == -1 then old(Model()) else CacheModel.Unmark(old(Model()), m)
    {
      var m := Find(key);
      FoundIs(key, m);
      if m != -1 {
        var marks := UnmarkSlot(m, values[m]);
        if marks == 0 {
          PutOn(m);
        }
      }
    }

    // ----- insertion and eviction -----

    method SetNext(m: int, v: int)
      requires 0 <= m < maxEntries == elementNext.Length && elementNext[..] == ns
      modifies `ns, elementNext
      ensures elementNext[..] == ns == old(ns)[m := v]
    {
      elementNext[m] := v;
      ns := ns[m := v];
    }

    method SetHead(h: int, v: int)
      requires 0 <= h < maxEntries == elementHash.Length && elementHash[..] == hs
      modifies `hs, elementHash
      ensures elementHash[..] == hs == old(hs)[h := v]
    {
      elementHash[h] := v;
      hs := hs[h := v];
    }

    /** The place of a resident chunk in its chain, and the slot before it there or -1. */
    method FindWithLast(victim: Chunk) returns (m: int, last: int, ghost k: nat)
      requires Indexed() && victim in vs
      ensures var h := hash(victim.key);
        && 0 <= h < |chains| == |hs| && k < |chains[h]| && m == chains[h][k]
        && 0 <= m < maxEntries && vs[m] == victim && last == if k > 0 then chains[h][k - 1] else -1
    {
      ChainOfKey(vs, ns, hs, chains, hash, victim.key);
      var indexVictim := hash(victim.key);
      m, last, k := elementHash[indexVictim], -1, 0;
      ghost var c := chains[indexVictim];
      ghost var i :| 0 <= i < |vs| && vs[i] == victim;
      assert At(vs, i, victim.key);
      while m >= 0
        invariant 0 <= k <= |c| && m == (if k < |c| then c[k] else -1) && last == if k > 0 then c[k - 1] else -1
        invariant forall j :: 0 <= j < k ==> !At(vs, c[j], victim.key)
        decreases |c| - k
      {
        var currentM := values[m];
        if currentM != null && victim.key == currentM.key {
          break;
        }
        last := m;
        m := elementNext[m];
        k := k + 1;
      }
    }

    /** Takes the chunk in a slot out of its chain and out of the slot. */
    method Evict(v: int, victim: Chunk)
      requires Indexed() && 0 <= v < maxEntries && vs[v] == victim
      modifies `vs, `ns, `hs, `chains, elementNext, elementHash, values
      ensures Indexed() && vs == old(vs)[v := null]
    {
      var m, last, k := FindWithLast(victim);
      var indexVictim := hash(victim.key);
      Left(vs, ns, hs, chains, hash, indexVictim, k);
      OneLess(vs, v);
      // The chunk is resident, so the search cannot have run off the chain.
      if last == -1 {
        SetHead(indexVictim, elementNext[m]);
      } else {
        SetNext(last, elementNext[m]);
      }
      SetNext(m, -1);
      values[v] := null;
      vs, chains := vs[v := null], chains[indexVictim := RemoveAt(chains[indexVictim], k)];
    }

    /** Puts a chunk of an absent key into an empty slot. */
    method Enter(v: int, chunk: Chunk)
      requires Indexed() && 0 <= v < maxEntries && vs[v] == null && Absent(vs, chunk.key)
      modifies `vs, `ns, `hs, `chains, elementNext, elementHash, values
      ensures Indexed() && vs == old(vs)[v := chunk]
    {
      Entered(vs, ns, hs, chains, hash, v, chunk);
      OneMore(vs, v, chunk);
      var hashIndex := hash(chunk.key);
      values[v] := chunk;
      SetNext(v, elementHash[hashIndex]);
      SetHead(hashIndex, v);
      vs, chains := vs[v := chunk], chains[hashIndex := [v] + chains[hashIndex]];
    }

    lemma StillAbsent(before: seq<Chunk?>, v: nat, key: Key)
      requires v < |before| && Absent(before, key)
      ensures Absent(before[v := null], key)
    {
      var left := before[v := null];
      forall i ensures !At(left, i, key) {
        assert !At(before, i, key);
      }
    }

    /** Empties a slot and gives it to a chunk of an absent key. */
    method Replace(v: int, chunk: Chunk)
      requires Indexed() && Mirrored() && 0 <= v < maxEntries && Absent(vs, chunk.key)
      modifies `vs, `ns, `hs, `chains, `slots, elementNext, elementHash, values
      ensures Indexed() && Mirrored() && vs == old(vs)[v := chunk] && slots == old(slots)[v := chunk.View()]
    {
      StillAbsent(vs, v, chunk.key);
      if values[v] != null {
        Evict(v, values[v]);
      }
      Enter(v, chunk);
      slots := slots[v := chunk.View()];
    }

    method TakeTail() returns (m: int)
      requires Queued()
      modifies lru, lru.next, lru.prev
      ensures Queued() && -1 <= m < maxEntries && m == First(old(lru.order))
      ensures if old(lru.order) == [] then m == -1 && lru.order == [] else m != -1 && lru.order == old(lru.order)[1..]
    {
      assert Unfold(Topic.Spaces, true);
      m := lru.DequeueTail();
      if m == -1 {
        m := lru.DequeueTail();
      }
    }

    /** A chunk handed in by its creator, marked, in the slot that has waited longest, unless another
        chunk of its key is there. */
    method PutAndMark(chunk: Chunk) returns (r: PutResult)
      requires Valid() && chunk !in vs
      modifies `vs, `ns, `hs, `chains, `slots, elementNext, elementHash, values, lru, lru.next, lru.prev, chunk`marks
      ensures Valid() && chunk.marks == old(chunk.marks) + 1
      ensures old(chunk.marks) != 0 ==> r == Unsafe && Model() == old(Model()) && vs == old(vs)
      ensures old(chunk.marks) == 0 ==> Model() == CacheModel.PutAndMark(old(Model()), chunk.View()).0
      ensures old(chunk.marks) == 0 ==> Answered(r, old(vs), CacheModel.PutAndMark(old(Model()), chunk.View()).1, chunk)
    {
      var marks := chunk.Mark();
      if marks != 1 {
        return Unsafe;
      }
      var entry := Find(chunk.key);
      FoundIs(chunk.key, entry);
      if entry != -1 {
        return Placed(values[entry]);
      }
      var currentVictimIndex := TakeTail();
      if currentVictimIndex == -1 {
        return CacheFull;
      }
      Replace(currentVictimIndex, chunk);
      return Placed(chunk);
    }

    /** The slot the model answers with, in terms of chunks. */
    ghost predicate Answered(r: PutResult, before: seq<Chunk?>, m: int, chunk: Chunk)
      reads `vs
    {
      if m == -1 then r == CacheFull && vs == before
      else
        && 0 <= m < |vs| == |before| && vs[m] != null && r == Placed(vs[m])
        && vs == if At(before, m, chunk.key) then before else before[m := chunk]
    }

    // ----- giving marks back, declaring and saving changes -----

    /** A holder gives back its mark on the chunk of slot i. */
    method UnmarkChunk(chunk: Chunk, ghost i: int)
      requires Valid() && 0 <= i < |vs| && vs[i] == chunk && slots[i].Full?
      modifies `slots, lru, lru.next, lru.prev, chunk`marks
      ensures Valid() && Model() == CacheModel.Unmark(old(Model()), i)
    {
      var marks := UnmarkSlot(i, chunk);
      if marks == 0 {
        var m := Find(chunk.key);
        assert At(vs, i, chunk.key);
        if m != -1 {
          PutOn(m);
        }
      }
    }

    method Settle(ghost m: int, chunk: Chunk) returns (marks: int)
      requires Indexed() && Mirrored() && 0 <= m < maxEntries && vs[m] == chunk
      modifies `slots, chunk`marks, chunk`dirty
      ensures Mirrored()
      ensures slots == old(slots)[m := old(slots)[m].(dirty := false, marks := marks)]
      ensures marks == old(slots)[m].marks - 1
    {
      var _ := FlagSlot(m, chunk, false);
      marks := UnmarkSlot(m, chunk);
    }

    lemma IsAt(i: int, chunk: Chunk)
      requires Indexed() && Mirrored() && Listed() && 0 <= i < maxEntries && vs[i] == chunk
      ensures slots[i] == chunk.View()
    {
      FoundIs(chunk.key, i);
    }

    /** The chunk of slot i is as saved again, and the mark that came with its flag goes away. */
    method DeclareClean(cleanChunk: Chunk, ghost i: int) returns (found: bool)
      requires Valid() && 0 <= i < |vs| && vs[i] == cleanChunk && slots[i].Full?
      modifies `slots, lru, lru.next, lru.prev, cleanChunk`marks, cleanChunk`dirty
      ensures Valid() && found && Model() == CacheModel.DeclareClean(old(Model()), i)
    {
      assert At(vs, i, cleanChunk.key);
      var m := Find(cleanChunk.key);
      found := m != -1;
      if found {
        var marks := Settle(i, cleanChunk);
        if marks == 0 {
          PutOn(m);
        }
      }
    }

    /** Starts a new dirty list and hands out the old one. */
    method DetachDirties() returns (list: DirtyList)
      requires Valid()
      modifies `dirtyState
      ensures Valid() && list == old(dirtyState) && fresh(dirtyState) && fresh(dirtyState.dirtyElements)
      ensures Model() == old(Model()).(dirties := [])
    {
      list := dirtyState;
      dirtyState := new DirtyList(saveBatchSize);
    }

    /** The step of a save for one entry of the list. */
    method SaveSlot(m: int, stream: map<Key, int>) returns (stream': map<Key, int>)
      requires Valid() && 0 <= m < maxEntries
      modifies `slots, lru, lru.next, lru.prev, Chunks()
      ensures Valid()
      ensures Model().(storage := storage + stream') == CleanIfDirty(old(Model()).(storage := storage + stream), m)
    {
      stream' := stream;
      var loopChunk := values[m];
      if loopChunk != null && loopChunk.dirty {
        IsAt(m, loopChunk);
        CleanOneStream(Model(), stream, m);
        stream' := stream[loopChunk.key := loopChunk.payload];
        var _ := DeclareClean(loopChunk, m);
      } else if loopChunk != null {
        IsAt(m, loopChunk);
      }
    }

    /** Collects the contents of the listed dirty chunks, declaring each clean, and stores them. */
    method SaveDirtyList(dirtyIterator: DirtyList)
      requires Valid() && dirtyIterator.Valid() && dirtyIterator != dirtyState && dirtyIterator.iterationCounter == 0
      requires dirtyIterator.dirtyElements !in {lru.next, lru.prev} && AllBelow(dirtyIterator.List(), maxEntries)
      modifies `slots, `storage, lru, lru.next, lru.prev, dirtyIterator`iterationCounter, Chunks()
      ensures Valid() && Model() == CleanAll(old(Model()), old(dirtyIterator.List()))
    {
      ghost var s, list := Model(), dirtyIterator.List();
      var stream: map<Key, int> := map[];
      assert storage + stream == storage;
      assert list[0..] == list;
      while dirtyIterator.HasNext()
        invariant Valid() && dirtyIterator.Valid() && dirtyIterator.List() == list && vs == old(vs)
        invariant CleanAll(Model().(storage := storage + stream), list[dirtyIterator.iterationCounter..]) ==
          CleanAll(s, list)
        decreases |list| - dirtyIterator.iterationCounter
      {
        ghost var k := dirtyIterator.iterationCounter;
        var m := dirtyIterator.Next();
        assert m == list[k];
        stream := SaveSlot(m, stream);
        assert list[k..][1..] == list[k + 1..];
      }
      storage := storage + stream;
    }

    /** A save: the dirty chunks of now, and a new list for the ones to come. */
    method Save()
      requires Valid()
      modifies `slots, `storage, `dirtyState, lru, lru.next, lru.prev, dirtyState`iterationCounter, Chunks()
      ensures Valid() && vs == old(vs) && fresh(dirtyState) && fresh(dirtyState.dirtyElements)
      ensures Model() == CacheModel.Save(old(Model()))
    {
      var dirtyIterator := DetachDirties();
      SaveDirtyList(dirtyIterator);
    }

    method Enlist(m: int) returns (success: bool)
      requires Valid() && 0 <= m < maxEntries
      modifies dirtyState`nextCounter, dirtyState.dirtyElements
      ensures Valid() && success == (|old(dirtyState.List())| < saveBatchSize)
      ensures Model() == if success then old(Model()).(dirties := old(dirtyState.List()) + [m]) else old(Model())
    {
      success := dirtyState.DeclareDirty(m);
    }

    /** Enters a slot into the dirty list, saving as long as that is full. */
    method EnlistOrSave(m: int)
      requires Valid() && 0 <= m < maxEntries && saveBatchSize >= 1
      modifies `slots, `storage, `dirtyState, lru, lru.next, lru.prev, dirtyState, dirtyState.dirtyElements, Chunks()
      ensures Valid() && vs == old(vs)
      ensures var s := old(Model());
        Model() == if |s.dirties| < saveBatchSize then s.(dirties := s.dirties + [m])
          else CacheModel.Save(s).(dirties := [m])
    {
      ghost var s := Model();
      var success := false;
      while !success
        invariant Valid() && vs == old(vs)
        invariant dirtyState == old(dirtyState) || (fresh(dirtyState) && fresh(dirtyState.dirtyElements))
        invariant !success ==>
          Model() == s || (|s.dirties| >= saveBatchSize && Model() == CacheModel.Save(s) && Model().dirties == [])
        invariant success ==>
          Model() == if |s.dirties| < saveBatchSize then s.(dirties := s.dirties + [m])
            else CacheModel.Save(s).(dirties := [m])
        decreases if success then 0 else |Model().dirties| + 1
      {
        success := Enlist(m);
        if !success {
          Save();
          SaveEmpties(s);
        }
      }
    }

    method FlagAndMark(ghost m: int, chunk: Chunk) returns (changed: bool)
      requires Indexed() && Mirrored() && 0 <= m < maxEntries && vs[m] == chunk
      modifies `slots, chunk`marks, chunk`dirty
      ensures Mirrored() && changed == !old(slots)[m].dirty
      ensures slots == if !changed then old(slots) else old(slots)[m :=
        old(slots)[m].(dirty := true, marks := old(slots)[m].marks + 1)]
    {
      changed := FlagSlot(m, chunk, true);
      if changed {
        var _ := MarkSlot(m, chunk);
      }
    }

    /** Flags and marks the chunk of slot i, unless it is dirty already, and enters it into the list. */
    method DeclareDirty(dirtyChunk: Chunk, ghost i: int) returns (found: bool)
      requires Valid() && saveBatchSize >= 1 && 0 <= i < |vs| && vs[i] == dirtyChunk && slots[i].Full?
      modifies `slots, `storage, `dirtyState, lru, lru.next, lru.prev, dirtyState, dirtyState.dirtyElements, Chunks()
      ensures Valid() && found && vs == old(vs)
      ensures Model() == CacheModel.DeclareDirty(old(Model()), i, saveBatchSize)
    {
      assert At(vs, i, dirtyChunk.key);
      var m := Find(dirtyChunk.key);
      found := m != -1;
      if found {
        var changed := FlagAndMark(i, dirtyChunk);
        if changed {
          EnlistOrSave(m);
        }
      }
    }

    /** A holder changes the content of its chunk. */
    method Write(chunk: Chunk, ghost i: int, payload: int)
      requires Valid() && saveBatchSize >= 1 && 0 <= i < |vs| && vs[i] == chunk && slots[i].Full?
      modifies `slots, `storage, `dirtyState, lru, lru.next, lru.prev, dirtyState, dirtyState.dirtyElements, Chunks()
      ensures Valid() && vs == old(vs) && Model() == Modify(old(Model()), i, payload, saveBatchSize)
    {
      SetPayload(i, chunk, payload);
      if !chunk.dirty {
        var _ := DeclareDirty(chunk, i);
      }
    }

    method SetPayload(ghost m: int, chunk: Chunk, payload: int)
      requires Indexed() && Mirrored() && 0 <= m < maxEntries && vs[m] == chunk
      modifies `slots, chunk`payload
      ensures Mirrored() && chunk.dirty == old(slots)[m].dirty
      ensures slots == old(slots)[m := old(slots)[m].(payload := payload)]
    {
      chunk.payload := payload;
      slots := slots[m := chunk.View()];
    }

    method Load(key: Key) returns (chunk: Chunk?)
      requires Valid() && key in storage
      modifies `vs, `ns, `hs, `chains, `slots, elementNext, elementHash, values, lru, lru.next, lru.prev
      ensures Valid()
      ensures var (t, m) := CacheModel.PutAndMark(old(Model()), Full(key, 1, false, storage[key]));
        Model() == t && -1 <= m < maxEntries && chunk == if m == -1 then null else vs[m]
    {
      var loaded := new Chunk(key, storage[key]);
      var r := PutAndMark(loaded);
      chunk := if r.Placed? then r.chunk else null;
    }

    /** The chunk of a key, loaded from the storage when it is not resident; null when there is none, or
        when the cache has no room. */
    method GetOrLoadAndMark(key: Key) returns (chunk: Chunk?)
      requires Valid()
      modifies `vs, `ns, `hs, `chains, `slots, elementNext, elementHash, values, lru, lru.next, lru.prev, Chunks()
      ensures Valid()
      ensures var (t, m) := CacheModel.GetOrLoadAndMark(old(Model()), key);
        Model() == t && -1 <= m < maxEntries && chunk == if m == -1 then null else vs[m]
    {
      chunk := GetAndMark(key);
      if chunk == null && key in storage {
        chunk := Load(key);
      }
    }
  }
}
