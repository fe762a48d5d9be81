# A verified model of the many-world graph runtime

The runtime in `plugins/debug/src/vivagraph/mwg.js` keeps the states of graph nodes along two axes: time, and
a forest of worlds that fork off each other.  A read of a node at (world, time) finds the last state written
at or before that time in the nearest world of the ancestry that has its own history by then.  This project
models the parts of the runtime that make this work and proves what they promise.

- **Time trees** (`RedBlackTree.dfy`, `TreeLinks.dfy`, `TimeTree.dfy`, `TimeTreeCodec.dfy`): a red-black tree
  in flat arrays of keys, colours and left/right/parent triples.  `TimeTree` is a class with the source's
  fields and loops.  Its invariant says that the arrays store exactly the tree that inserting the keys in
  their order builds, and the theorems about that tree are theorems about the arrays.
- **Resolution** (`Worlds.dfy`, `TimeIndex.dfy`, `Timelines.dfy`, `Handles.dfy`, `Resolver.dfy`,
  `Witnesses.dfy`, `Timepoints.dfy`, `TimeTreeSplit.dfy`): the forest of worlds, the two-level time index
  with its median splits, reads and phased writes, the fast path behind the magic counters, and the query
  for visible time points.  `Timelines` is a state machine on values with theorems over whole runs;
  `Handles` has the writes as the code makes them and what the magics in a node's handle are worth;
  `Resolver` is the class whose methods take the source's steps; `Witnesses` has runs that reach the cases
  in which a promise is not kept; `TimeTreeSplit` connects the key sequences that the index is proved with
  to the red-black arrays.
- **The chunk cache** (`FixedStack.dfy`, `CacheModel.dfy`, `ChunkSpace.dfy`): marks, the queue of unmarked
  slots in prev/next arrays, hash chains, eviction, and the dirty list that is saved when it is full.
  `CacheModel` is the state machine with the theorems over runs; every method of the class `ChunkSpace`
  is proved to take the step of the same name.
- **Maps and copy-on-write states** (`Buckets.dfy`, `LongLongArrayMap.dfy`, `LongLongMap.dfy`,
  `StateElem.dfy`, `StateTable.dfy`, `StateChunk.dfy`): bucket chains and a free list in integer arrays, and
  forks that share arrays until they write, down to the maps that a state holds.  That earlier states stay
  as they were is in the contracts: the methods that change a fork have no `modifies` clause for anything
  that existed before.  `StateTable` has the hash table and its copies, `StateElem` what its slots hold and
  what a reader sees of that, `StateChunk` the states and chains of forks of them.
- **Codecs and 64-bit numbers** (`Longs.dfy`, `Base64.dfy`, `Base64Strings.dfy`, `StateCodec.dfy`,
  `StateFormat.dfy`, `StateBuffers.dfy`, `StateStorage.dfy`): limb arithmetic, the base-64 text forms, and save and load of
  time trees and states.  `StateCodec` and `StateBuffers` have the text of a state, `StateFormat` its bytes
  written out with the separators and type codes as numbers, `StateStorage` the way from a table into it and
  back into a table.
- **Bitap** (`Bitap.dfy`): the exact pass of the fuzzy matcher in `plugins/debug/src/fuzzy/js/fuse.js`.

`Arithmetic.dfy`, `TimeLine.dfy`, `Values.dfy` and `Hiding.dfy` hold what the others share.  A predicate that is
defined under `Unfold` with a topic of `Hiding` is passed on unopened, except where `Unfold` is mentioned with
that topic; this keeps proofs that only hand an invariant on from going through its parts.

## Where the code does not do what it seems to promise

The model follows the code in these places, and each has a lemma or a contract that says exactly when the
promise is kept.

- `FixedStack.dequeue` refuses the only element (mwg.js:2743-2801), so a lookup that hits the only unmarked
  slot marks its chunk, leaves it in the queue and returns nothing: `CacheModel.GetAndMarkKeeps` holds up to
  exactly this case (`Lonely`), and `CacheModel.LonelyReached` is a run into it.
- `declareDirty` marks a chunk without taking it off the queue (mwg.js:3038-3064): `CacheModel.ModifyExact`.
- A phased write before its world's own history mixes two worlds' trees (mwg.js:6040-6052), and after the
  resolved world has moved, a super time that happens to equal the recorded one leaves the old world's time
  tree in hand (mwg.js:5985-5995).  `Handles.CodeWriteSound` gives the exact condition for writes and
  `Resolvers.Resolver.ResolveState` the one for reads (`Misled`); `Witnesses.EarlyReached` and
  `Witnesses.WrongTreeReached` are runs into these cases.
- When a read has moved a handle, the magics that are recorded are those of the old trees
  (mwg.js:6022-6030), and they can come to match by chance when the new tree has changed often enough.
  After an orderly read the fast path can be relied on in every run (`Handles.RefreshedTrusted`).
  `Handles.LastingExact` says exactly when a handle can be relied on from then on, whatever is born or written:
  when no times catch it (`Catches`), and `Handles.WritesMislead` is the way in which such times lead it astray.
  This is for handles that are not ahead of the order and the super tree; a handle whose recorded super magic
  is that of another world and ahead of the new one's has only the safe direction.
  `Witnesses.FastPathFails` is a run of four steps in which a handle is led astray.
- A handle that does not stand on the state at its own world and time, when another handle has written that
  state, forks into a chunk that the cache does not take (mwg.js:6034-6037), and its write is lost:
  `Resolvers.Resolver.ResolveState` hands out `Stray` exactly then, and `Witnesses.SecondHandleReached` is
  a run into it.
- A write that is misled to a time at which its world has no state stops after its new, empty state has been
  put (mwg.js:6034-6039): `Resolvers.DroppedSound`.
- The query for visible times cuts each world's times off at the beginning of the last world before it that
  lists any (mwg.js:6240, 6289-6293).  When going up an ancestry the histories begin later and then earlier
  again, but not as early as the earliest so far, it may deliver times that a nearer world hides.
  `Timepoints.ResolveTimepoints` gives the answer and its order for every state, and says that it is exact in a
  steady order, where every world's times are cut off where a nearer history begins; `Timepoints.SteadyExact`
  says that in every other order times can be hidden.  `Timepoints.StepTapers` says which writes keep all lines
  tapering, and `Witnesses.HiddenTimeReached` is a run to a wrong answer.
- `Long.MIN_VALUE` has its halves swapped (mwg.js:1113), so its guards in `multiply` and `negate` meet no number
  made of 32-bit halves, and a product with -2^63 hands itself on for ever: `Longs.SignCasesEnd`.
- `decodeToInt` halves the last digit without truncation (mwg.js:1727): `Base64Strings.IntRoundTrip`.
- String encoding keeps low bytes only: `Base64Strings.StringRoundTrip`.
- The count of a saved state chunk is read at the first attribute, so a state whose slots are all null comes
  back with count 0: `StateStorage.SaveThenLoad`.
- The multimap accepts NULL_LONG as a value, which marks its free slots (mwg.js:2247-2263):
  `LongLongArrayMaps.LongLongArrayMap.Put` adds no pair then and leaves a map that is out of order, and with
  any other value never does.
- Removal from the multimap does not copy a shared state first (mwg.js:2266-2288):
  `LongLongArrayMaps.RemoveThroughFork` says exactly when the origin keeps its pairs, and
  `LongLongArrayMaps.LostThroughFork` loses one.
- A slot whose content was set to null still has its type, so `getOrCreate` finds it and returns null, unless
  the table has grown in between (mwg.js:3461-3490, 3509-3516): `StateChunks.StateChunk.GetOrCreate`.
- The score that the exact bitap pass returns may be that of an occurrence just beyond the mirror image of
  the best place (fuse.js:696-717): `Bitap.ExactPass` returns exactly that then (`LastSeen`).
- With a distance of 0 and a threshold of 1 or more, the exact pass may pass over an occurrence that is nearer by
  one on the right for one on the left (fuse.js:708-714): `Bitap.ExactPass`, predicate `IsExpected`.

## Model

| member | source | states |
|---|---|---|
| `RedBlackTree.BuildSpec` | plugins/debug/src/vivagraph/mwg.js:4570-4628 | After any order of insertions of different keys the tree is red-black (black root, no red node under a red one, equal black heights), sorted, and holds each key in the slot of its insertion |
| `RedBlackTree.InsertSpec` | plugins/debug/src/vivagraph/mwg.js:4522-4628 | One insertion keeps a tree red-black and sorted; it adds exactly the new entry at one place of the order, and changes nothing when the key is there |
| `RedBlackTree.HeightBound` | plugins/debug/src/vivagraph/mwg.js:4570-4628 | The height is at most 2 log2(size + 1) |
| `RedBlackTree.ThirdKey` | plugins/debug/src/vivagraph/mwg.js:4546-4569 | Three keys in any order in which the third comes below a red one: the middle one is the root, black, over two red ones, each in the slot of its insertion |
| `RedBlackTree.FourthKey` | plugins/debug/src/vivagraph/mwg.js:4535-4545 | A fourth key that finds a red uncle: parent and uncle become black and nothing is rotated |
| `TreeLinks.LeftRotationStored` | plugins/debug/src/vivagraph/mwg.js:4486-4521 | Cells rewritten as a left rotation rewrites them store the rotated tree, with all parent and child links mutual and the rest of the tree untouched |
| `TreeLinks.RightRotationStored` | plugins/debug/src/vivagraph/mwg.js:4496-4521 | The same for a right rotation |
| `TreeLinks.BuildSlots` | plugins/debug/src/vivagraph/mwg.js:4588-4622 | The slots reachable from the root are exactly 0 to size - 1 |
| `TimeTrees.TimeTree.RotateLeft` | plugins/debug/src/vivagraph/mwg.js:4486-4521 | The array writes of a left rotation and of replaceNode, cell by cell, and the new root index |
| `TimeTrees.TimeTree.RotateRight` | plugins/debug/src/vivagraph/mwg.js:4496-4521 | The array writes of a right rotation, cell by cell, and the new root index |
| `TimeTrees.TimeTree.InsertCase1` | plugins/debug/src/vivagraph/mwg.js:4522-4529 | From a red node in focus the repair leaves in the arrays the tree that the functional repair closes; its recursion through case 3 ends |
| `TimeTrees.TimeTree.InsertCase3` | plugins/debug/src/vivagraph/mwg.js:4535-4545 | The same with a red parent: red uncle recoloured and the grandparent repaired, or the rotations |
| `TimeTrees.TimeTree.InsertCase4` | plugins/debug/src/vivagraph/mwg.js:4546-4559 | The same with a red parent and a black uncle: an inner grandchild is rotated outward first |
| `TimeTrees.TimeTree.InsertCase5` | plugins/debug/src/vivagraph/mwg.js:4560-4569 | The last recolouring and rotation leave the rotated family in place of the grandparent |
| `TimeTrees.TimeTree.Layout` | plugins/debug/src/vivagraph/mwg.js:4340-4396 | Left, right and parent of slot i are at 3i, 3i + 1 and 3i + 2, its key at i, and its colour at i is true for black |
| `TimeTrees.TimeTree.InternalInsert` | plugins/debug/src/vivagraph/mwg.js:4570-4628 | Adds a key exactly when it is new, at the end of the insertion order; afterwards the arrays again store exactly the red-black tree that insertion of all keys in their order builds; beyond three quarters full the arrays get twice as many slots as there are keys, or one |
| `TimeTrees.TimeTree.Insert` | plugins/debug/src/vivagraph/mwg.js:4270-4282 | Insertion, and the magic rises by one exactly when the key is new |
| `TimeTrees.TimeTree.UnsafeInsert` | plugins/debug/src/vivagraph/mwg.js:4283-4285 | Insertion with the magic left alone |
| `TimeTrees.TimeTree.Reallocate` | plugins/debug/src/vivagraph/mwg.js:4316-4339 | New arrays with the contents of the old ones; the tree is as before |
| `TimeTrees.TimeTree.ClearAt` | plugins/debug/src/vivagraph/mwg.js:4289-4309 | The tree is the one built by inserting the old keys below max in their old order; the magic rises by one |
| `TimeTrees.TimeTree.InternalPreviousOrEqualIndex` | plugins/debug/src/vivagraph/mwg.js:4452-4485 | The slot of the greatest key at or below the argument, or -1 when all are greater; the climb ends |
| `TimeTrees.TimeTree.Previous` | plugins/debug/src/vivagraph/mwg.js:4426-4451 | The slot of the in-order predecessor, or -1 for the smallest key; the climb ends |
| `TimeTrees.TimeTree.PreviousOrEqual` | plugins/debug/src/vivagraph/mwg.js:4250-4266 | The greatest key at or below the argument, or NULL_LONG when there is none |
| `TimeTrees.TimeTree.Range` | plugins/debug/src/vivagraph/mwg.js:4176-4186 | The walker sees exactly the greatest keys in [start, end], in descending order, up to the limit |
| `TimeTreeCodec.Save` | plugins/debug/src/vivagraph/mwg.js:4187-4207 | Appends the texts of the keys in slot order with separators between; `KeysSeparated` says with which bytes |
| `TimeTreeCodec.KeysSeparated` | plugins/debug/src/vivagraph/mwg.js:4187-4207 | The saved bytes of keys are those of the first i, one byte 44 and those of the others, for every i; those of one key are its text |
| `TimeTreeCodec.SavedKeys` | plugins/debug/src/vivagraph/mwg.js:4187-4207 | The text G,K of the keys 3 and 5 |
| `TimeTreeCodec.Load` | plugins/debug/src/vivagraph/mwg.js:4208-4225 | Read into an empty tree, what was saved gives the saved keys in their insertion order, and the magic stays |
| `TimeTreePersistence.SameKeysSameArrays` | plugins/debug/src/vivagraph/mwg.js:4187-4225 | The insertion order determines root, keys, colours and links, slot for slot |
| `TimeTreePersistence.SaveThenLoad` | plugins/debug/src/vivagraph/mwg.js:4187-4225 | Saving a tree and loading the bytes gives the identical arrays |
| `TimeIndex.RangeUnique` | plugins/debug/src/vivagraph/mwg.js:4176-4186 | What a range promises has one answer, so the split sees one median |
| `TimeIndex.FloorOfFloor` | plugins/debug/src/vivagraph/mwg.js:5554-5579 | Floor in the super tree followed by floor in the time tree it names is the greatest written time at or below t, for every t; without a super floor no written time is at or below t |
| `TimeIndex.Halves` | plugins/debug/src/vivagraph/mwg.js:6054-6066 | A full time tree is cut at a key that is not its first: the upper half has size / 2 keys and together the halves are the tree |
| `TimeIndex.ThresholdIs` | plugins/debug/src/vivagraph/mwg.js:6041-6051 | Time trees are split at 2000 keys while the super tree has up to 2000, at 20000 up to 20000, at 200000 up to 200000, and at 2000000 from there on |
| `TimeIndex.InsertNoSplit` | plugins/debug/src/vivagraph/mwg.js:6052-6053 | A write that fills no tree adds its time to the flat set the index stands for |
| `TimeIndex.InsertRefines` | plugins/debug/src/vivagraph/mwg.js:6040-6101 | Split or not, after a write each time tree holds exactly the times from its super key up to the next one, is smaller than the size at which trees split, and the index stands for one more time |
| `TimeTreeSplits.PreviousOrEqual` | plugins/debug/src/vivagraph/mwg.js:4250-4266 | On the red-black arrays previousOrEqual is the floor function the index is proved with |
| `TimeTreeSplits.Range` | plugins/debug/src/vivagraph/mwg.js:4176-4186 | On the red-black arrays range is the walk function the index is proved with |
| `TimeTreeSplits.Split` | plugins/debug/src/vivagraph/mwg.js:6054-6066 | On real trees: the right tree gets the greater half, the super tree the median, and clearAt leaves the times below the median |
| `TimeTreeSplits.WriteTime` | plugins/debug/src/vivagraph/mwg.js:6052-6066 | On real trees: the time is inserted, and the tree is split as above if and only if it then has 2000 keys under a super tree of at most 2000, 20000 under one of at most 20000, 200000 under one of at most 200000, or 2000000; the trees have half of the times each, the greater ones on the right; a new time and the split count in the magic of the time tree, a new median in that of the super tree, and the right tree's is 0 |
| `Worlds.ResolveWorld` | plugins/debug/src/vivagraph/mwg.js:5635-5651 | The climb ends on every forest grown by divergence, at the nearest world in the ancestry that has a history by the time, or at the origin when there is none |
| `Worlds.NearestUnique` | plugins/debug/src/vivagraph/mwg.js:5635-5651 | There is one such world |
| `Worlds.DivergeKeeps` | plugins/debug/src/vivagraph/mwg.js:5511-5515 | A birth changes no ancestry, and the child's is its own name before its parent's |
| `Timelines.ResolveSpec` | plugins/debug/src/vivagraph/mwg.js:5534-5579 | A read finds the last state at or before t in the nearest world of its ancestry with a history by t, and nothing exactly when there is no such world |
| `Timelines.WriteKeeps` | plugins/debug/src/vivagraph/mwg.js:6033-6126 | A phased write outside its world's past keeps, for every world, the index in step with the states |
| `Timelines.WriteReads` | plugins/debug/src/vivagraph/mwg.js:6033-6126 | World isolation: a write at (w, t) is seen by the reads (v, u) for which w is v or an ancestor with no nearer history by u and t is the last time in w up to u; every other read is answered as before |
| `Timelines.BearReads` | plugins/debug/src/vivagraph/mwg.js:5511-5515 | A new world reads as its parent, and no other world's reads change |
| `Timelines.RunKeeps` | plugins/debug/src/vivagraph/mwg.js:6033-6126 | In every state of every run of births and phased writes each world's index stands for exactly the times of its states, and no ancestry has changed; a world with at most 2000 super times has fewer than 2000 times in each tree, with at most 20000 fewer than 20000, with at most 200000 fewer than 200000, and always fewer than 2000000 |
| `Timelines.RunIsolated` | plugins/debug/src/vivagraph/mwg.js:6033-6126 | Over whole runs a read is unchanged by births and by every write that does not reach it when it is made: writes in other worlds, in an ancestor behind a nearer history, before a later state, or later than the read |
| `Timelines.StepFound` | plugins/debug/src/vivagraph/mwg.js:6033-6126 | No birth and no write turns a read that is answered into one that is not |
| `Timelines.RunRose` | plugins/debug/src/vivagraph/mwg.js:4629-4636 | Over runs no magic falls, and a magic that is unchanged tells of an unchanged order, super tree or time tree |
| `Timelines.RunCounted` | plugins/debug/src/vivagraph/mwg.js:4629-4636 | Over runs from a first state the magic of the world order is the number of its worlds, that of a super tree the number of its keys, and where a world has several time trees each has at least a thousand times |
| `Timelines.WriteMagics` | plugins/debug/src/vivagraph/mwg.js:6033-6126 | What a write does to the magics: nothing for a time that is there, one more for the tree that gets a new one; at a split one more for the super tree, two more for the tree that is split, and 0 for the new one |
| `Timelines.FastPath` | plugins/debug/src/vivagraph/mwg.js:5921-5933 | When the three recorded magics match, after any number of births and writes through other nodes, resolving anew would find exactly the recorded world, super time and time |
| `Resolvers.Resolver.InitNode` | plugins/debug/src/vivagraph/mwg.js:5483-5510 | A node's first state, its trees and its place in the world order, as one history that keeps the invariant |
| `Resolvers.Resolver.NewNode` | plugins/debug/src/vivagraph/mwg.js:5046-5060 | A new node stands on its first state; with NULL_LONG for its three magics it is a handle like those that lookups, reads and writes leave behind |
| `Resolvers.Resolver.InitWorld` | plugins/debug/src/vivagraph/mwg.js:5511-5515 | The birth of a world, which keeps the invariant |
| `Resolvers.Resolver.Lookup` | plugins/debug/src/vivagraph/mwg.js:5534-5634 | Null exactly when nothing resolves; otherwise a node with the resolved place and the magics that go with it, which the fast path can rely on |
| `Resolvers.Resolver.TakeInHand` | plugins/debug/src/vivagraph/mwg.js:5963-6005 | The chunks and the time that resolveState works with, by the fast path or by resolving anew, including that an old world's time tree is kept when the super times agree |
| `Resolvers.Resolver.SplitSize` | plugins/debug/src/vivagraph/mwg.js:6041-6051 | The four tiers in numbers |
| `Resolvers.Resolver.EnterTime` | plugins/debug/src/vivagraph/mwg.js:6040-6088 | Insert, median split and the entry in the super tree, with the tree in hand; and the super time and magic that are recorded |
| `Resolvers.Resolver.PutState` | plugins/debug/src/vivagraph/mwg.js:6034-6101 | A write in a world with a history: the new state, its time in the index, and the node's record |
| `Resolvers.Resolver.StartHistory` | plugins/debug/src/vivagraph/mwg.js:6103-6126 | The first write in a world: trees of its own, a place in the node's world order, and the node's record |
| `Resolvers.Resolver.Phase` | plugins/debug/src/vivagraph/mwg.js:6033-6126 | The write branch, through any handle that lookups, reads and writes leave behind: it keeps the invariant if and only if the write is suited to the chunks in hand; a state that was there stays as it was; then a fresh resolution finds the node's new place, and its magics can be relied on if the handle was in its world before or the world had no history |
| `Resolvers.Resolver.ResolveState` | plugins/debug/src/vivagraph/mwg.js:5890-6126 | Through any handle that newNode, lookups, reads and writes leave behind, and leaving such a handle: a read changes no timeline and answers with the state a fresh lookup finds if and only if it is not misled; a write is handed the state at its own place, or a stray copy exactly when another handle has made that state, and keeps the invariant if and only if it is proper |
| `Resolvers.Resolver.Refresh` | plugins/debug/src/vivagraph/mwg.js:6022-6030 | When a place has moved, the new place is recorded with the magics of the old place's trees; after an orderly read the fast path can rely on them in every state of every run, and in general, unless the recorded super magic is ahead, if and only if there are no times that catch the handle |
| `Resolvers.Resolver.Enter` | plugins/debug/src/vivagraph/mwg.js:6040-6126 | The index part of a write and what the node remembers of it, including the magic of a tree that a split has made |
| `Resolvers.Resolver.Drop` | plugins/debug/src/vivagraph/mwg.js:6034-6039 | A write without a state to copy leaves its new state behind; it keeps the invariant if and only if nothing changes |
| `Resolvers.DroppedSound` | plugins/debug/src/vivagraph/mwg.js:6034-6039 | Such a write keeps the invariant exactly when its world has no history or has the state already |
| `Handles.IndexedRight` | plugins/debug/src/vivagraph/mwg.js:6040-6072 | With the right trees in hand the code's index update is the one of the timeline model |
| `Handles.CodeWriteRight` | plugins/debug/src/vivagraph/mwg.js:6033-6126 | With the right trees in hand the code's write is the write of the timeline model |
| `Handles.EarlyBreaks` | plugins/debug/src/vivagraph/mwg.js:6040-6053 | A write before its world's own history always breaks the index |
| `Handles.WrongTreeBreaks` | plugins/debug/src/vivagraph/mwg.js:5985-5995 | A write with another world's time tree in hand, when its world has a history, breaks an index unless it has nothing to do: its state is there, the tree in hand has its time and is not to be split |
| `Handles.WrongStretchBreaks` | plugins/debug/src/vivagraph/mwg.js:5985-5995 | A write with the right world's tree of another stretch in hand always breaks the index |
| `Handles.CodeWriteSound` | plugins/debug/src/vivagraph/mwg.js:6033-6126 | A phased write keeps the invariant if and only if it is not before its world's history and its tree is that of the place it resolved to, or the world gets its first trees, or there is nothing to do |
| `Handles.RecordedTrusted` | plugins/debug/src/vivagraph/mwg.js:5921-5933 | What lookup records can be relied on in every state of every run: while the magics match, the recorded place is the one a fresh resolution finds |
| `Handles.RunSure` | plugins/debug/src/vivagraph/mwg.js:5921-5933 | A handle whose place is right with the magic of its time tree, or whose order or tree magic has been left behind, can be relied on in every state of every run |
| `Handles.RefreshedSure` | plugins/debug/src/vivagraph/mwg.js:6022-6030 | A handle that a read has moved is of that kind if and only if a magic of the old trees is below that of the new place's tree, or those of the time trees are equal and the read was not misled |
| `Handles.RefreshedTrusted` | plugins/debug/src/vivagraph/mwg.js:6022-6030 | After an orderly read the fast path can be relied on in every state of every run |
| `Handles.WritesMislead` | plugins/debug/src/vivagraph/mwg.js:5921-5933 | When the recorded tree magic is ahead by as many as there are times in a list, all different, free in the stretch of the place and too few to fill its tree, and the place is wrong already or one of them lies between it and the node's time, then writing them makes all magics match at a place that is not the right one |
| `Handles.WritesRun` | plugins/debug/src/vivagraph/mwg.js:5921-5933 | Whenever there are times that catch a handle, there is a run that writes them |
| `Handles.StaleCatches` | plugins/debug/src/vivagraph/mwg.js:5921-5933 | The converse: whenever any run leads a handle astray that was not ahead of the order and the super tree, there were times that catch it |
| `Handles.LastingExact` | plugins/debug/src/vivagraph/mwg.js:5921-5933 | Such a handle can be relied on in every state of every run if and only if there are no times that catch it |
| `Handles.RefreshedLasting` | plugins/debug/src/vivagraph/mwg.js:6022-6030 | What that says of a handle that a read has moved, orderly or not |
| `Witnesses.FastPathFails` | plugins/debug/src/vivagraph/mwg.js:5921-6030 | A run of four steps from a node's first state after which a handle that lookup recorded and one read moved is taken by the fast path to a state that is not the last one |
| `Witnesses.WrongTreeReached` | plugins/debug/src/vivagraph/mwg.js:5985-5995 | A run after which a read is misled, and a write unsuited, by the tree of a world that the handle has left |
| `Witnesses.EarlyReached` | plugins/debug/src/vivagraph/mwg.js:6040-6053 | A run after which a handle is about to write before its world's own history |
| `Witnesses.SecondHandleReached` | plugins/debug/src/vivagraph/mwg.js:6034-6037 | A run after which the state at a handle's world and time is there, made through another handle |
| `Handles.NotMisled` | plugins/debug/src/vivagraph/mwg.js:5934-5944 | A node on a state of its own world and time is never misled |
| `Resolvers.ForkReads` | plugins/debug/src/vivagraph/mwg.js:6033-6126 | A proper write reads back the content that was read before, is seen by exactly the readers it reaches, and every other read is as before |
| `Timepoints.CollectWorlds` | plugins/debug/src/vivagraph/mwg.js:6151-6196 | The worlds of the ancestry whose histories can show in the interval, in order |
| `Timepoints.CollectSuperTimes` | plugins/debug/src/vivagraph/mwg.js:6197-6247 | For these worlds the super times in reach of the interval, nearer worlds first and later times first |
| `Timepoints.CollectTimes` | plugins/debug/src/vivagraph/mwg.js:6248-6307 | From these trees the times, each world only below the next nearer world's divergence |
| `Timepoints.ResolveTimepoints` | plugins/debug/src/vivagraph/mwg.js:6151-6307 | In every state the answer is, world after world with the nearer ones first, the times taken of each with the later ones first; as a set it has exactly the times t in [begin, end) at which a read of (world, t) is answered with a state written at t, and besides the hidden times: those of a collected world below its bound at which a nearer one answers; in a steady order there are none and the answer is strictly descending |
| `Timepoints.SteadyExact` | plugins/debug/src/vivagraph/mwg.js:6197-6307 | The order is steady exactly when no time in the interval of a collected world is one by which a nearer world has a history |
| `Timepoints.OpensIs` | plugins/debug/src/vivagraph/mwg.js:6197-6247 | A collected world lists times exactly when it begins before the one next to it, or, the first one, before the end |
| `Timepoints.BoundIs` | plugins/debug/src/vivagraph/mwg.js:6281-6293 | The times of a world are cut off where the last world before it that lists any begins, at the earliest at the beginning of the interval, and at its end when there is none |
| `Timepoints.TaperingSteady` | plugins/debug/src/vivagraph/mwg.js:6151-6307 | The order is steady when no history begins later than one below it in the ancestry |
| `Timepoints.StepTapers` | plugins/debug/src/vivagraph/mwg.js:6033-6126 | Births and writes into a history keep that so in all ancestries; the first write in a world does if and only if it lies between the beginnings of the nearer and the farther histories |
| `Timepoints.RunTapers` | plugins/debug/src/vivagraph/mwg.js:6151-6307 | In every state of a run with such first writes every query is answered exactly |
| `Witnesses.HiddenTimeReached` | plugins/debug/src/vivagraph/mwg.js:6151-6307 | A run of seven steps to a state in which a query delivers a hidden time |
| `FixedStacks.FixedStack.Enqueue` | plugins/debug/src/vivagraph/mwg.js:2688-2717 | Appends an index exactly when it is not in the list; the prev and next arrays again encode one list without repetitions |
| `FixedStacks.FixedStack.DequeueTail` | plugins/debug/src/vivagraph/mwg.js:2718-2742 | Pops the oldest index, or -1 from the empty list |
| `FixedStacks.FixedStack.Dequeue` | plugins/debug/src/vivagraph/mwg.js:2743-2801 | Removes exactly the given index when it is one of at least two; the only element is not removed and false is returned |
| `FixedStacks.Unlinked` | plugins/debug/src/vivagraph/mwg.js:2755-2796 | Joining the neighbours of an element, with the end branches, leaves the links of the list without it |
| `CacheModel.GetAndMarkKeeps` | plugins/debug/src/vivagraph/mwg.js:2839-2866 | A lookup keeps the cache invariant if and only if the chunk is not the only unmarked slot; otherwise it hands out the chunk exactly when it is resident, with one mark more and off the queue, and changes no other slot, no content and not the order of those that wait |
| `CacheModel.PutAndMarkKeeps` | plugins/debug/src/vivagraph/mwg.js:2949-3034 | The victim of an insertion is empty or unmarked, not dirty, and the first in the queue; the new chunk is in its slot as offered, every other slot is as it was, and no content is lost; a resident key keeps its chunk |
| `CacheModel.GetOrLoadKeeps` | plugins/debug/src/vivagraph/mwg.js:2867-2897 | A loading lookup hands out what was written last, with one mark more when it is resident and with one when it was loaded, and touches no other slot; it fails exactly when there is nothing to load or every slot is marked |
| `CacheModel.UnmarkKeeps` | plugins/debug/src/vivagraph/mwg.js:2898-2934 | Giving a mark back keeps the invariant, takes one mark away and nothing else, and puts the slot at the end of the queue when that was the last one |
| `CacheModel.UnmarkExact` | plugins/debug/src/vivagraph/mwg.js:2898-2934 | A release keeps the invariant if and only if the chunk has a mark besides the one of its dirty flag |
| `CacheModel.CleanAllKeeps` | plugins/debug/src/vivagraph/mwg.js:5278-5327 | Saving a list cleans and unmarks each of its chunks once, stores its content, and touches no other slot |
| `CacheModel.SaveKeeps` | plugins/debug/src/vivagraph/mwg.js:5278-5327 | After a save nothing is dirty, every chunk is as the storage has it, and every content is as before; each dirty chunk has one mark less, and those without another one wait at the end of the queue in the order in which they were declared |
| `CacheModel.DeclareDirtyKeeps` | plugins/debug/src/vivagraph/mwg.js:3038-3064 | Declaring a change marks the chunk once and enters its slot into the dirty list once, after at most one save, which is exactly what a full list leads to; the list stays within the batch size |
| `CacheModel.ModifyKeeps` | plugins/debug/src/vivagraph/mwg.js:3038-3064 | A declared change is what readers see from then on, and changes nothing under other keys |
| `CacheModel.ModifyExact` | plugins/debug/src/vivagraph/mwg.js:3038-3064 | A write keeps the invariant if and only if the writer holds a mark: the flag does not take an unmarked chunk off the queue |
| `CacheModel.RunKeeps` | plugins/debug/src/vivagraph/mwg.js:2839-3085 | In every state of every run: a slot waits for eviction exactly when it is empty or unmarked, the dirty list has exactly the dirty slots once, dirty chunks are marked, and every key reads the content last written under it, whatever was evicted and loaded between |
| `CacheModel.RunMarks` | plugins/debug/src/vivagraph/mwg.js:2839-2934 | In every state of every run a chunk has one mark for its put or loading, one for each lookup since, one less for each release, and one more while it is dirty |
| `CacheModel.RunQueue` | plugins/debug/src/vivagraph/mwg.js:2718-2742 | In every state of every run the queue is in the order in which its slots have come to wait |
| `CacheModel.OldestEvicted` | plugins/debug/src/vivagraph/mwg.js:2966-2985 | Of two slots that wait, the one that has come to wait first is evicted first, and it is empty, or unmarked and clean |
| `CacheModel.FromEmpty` | plugins/debug/src/vivagraph/mwg.js:2809-2829 | A run from the empty cache: every key reads what was last written under it, and nothing before |
| `CacheModel.LonelyReached` | plugins/debug/src/vivagraph/mwg.js:2839-2866 | A run of two steps to a cache whose next lookup breaks it |
| `ChunkSpaces.ChunkSpace.Find` | plugins/debug/src/vivagraph/mwg.js:2840-2862 | The chain search finds a key exactly when it is resident |
| `ChunkSpaces.ChunkSpace.GetAndMark` | plugins/debug/src/vivagraph/mwg.js:2839-2866 | On chains, marks and queue arrays: the lookup step of the cache model |
| `ChunkSpaces.ChunkSpace.GetOrLoadAndMark` | plugins/debug/src/vivagraph/mwg.js:2867-2897 | The loading lookup of the cache model, with synchronous storage |
| `ChunkSpaces.ChunkSpace.Unmark` | plugins/debug/src/vivagraph/mwg.js:2898-2913 | The release step by key |
| `ChunkSpaces.ChunkSpace.UnmarkChunk` | plugins/debug/src/vivagraph/mwg.js:2914-2934 | The release step by chunk |
| `ChunkSpaces.ChunkSpace.PutAndMark` | plugins/debug/src/vivagraph/mwg.js:2949-3034 | The insertion step with eviction: the victim leaves its chain, the new chunk enters its own; a chunk with a mark besides its creator's is refused |
| `ChunkSpaces.ChunkSpace.EnlistOrSave` | plugins/debug/src/vivagraph/mwg.js:3049-3060 | The retry loop of declareDirty ends after at most one save |
| `ChunkSpaces.ChunkSpace.DeclareDirty` | plugins/debug/src/vivagraph/mwg.js:3038-3064 | The dirty step of the cache model |
| `ChunkSpaces.ChunkSpace.DeclareClean` | plugins/debug/src/vivagraph/mwg.js:3065-3085 | The clean step of the cache model for one chunk |
| `ChunkSpaces.DirtyList.DeclareDirty` | plugins/debug/src/vivagraph/mwg.js:3131-3143 | Appends exactly when there is room |
| `ChunkSpaces.ChunkSpace.SaveDirtyList` | plugins/debug/src/vivagraph/mwg.js:5278-5327 | Iterating a detached list is saving all its chunks |
| `ChunkSpaces.ChunkSpace.Save` | plugins/debug/src/vivagraph/mwg.js:5278-5327 | The save step: the list is detached, replaced by an empty one, and saved |
| `LongLongArrayMaps.MapState.Get` | plugins/debug/src/vivagraph/mwg.js:2136-2174 | The values of a key are exactly those stored for it, without repetitions, in the order that `Values` gives |
| `LongLongArrayMaps.LongLongArrayMap.Put` | plugins/debug/src/vivagraph/mwg.js:2189-2265 | Adds exactly the pair, and never reaches the full-map error; get then answers the new value first and the others as before, or from the last slot down when the map has grown, which it does, to twice its slots, exactly when it would be more than three quarters full; the map is in order afterwards if and only if the value is not NULL_LONG, with which no pair is added; a shared state is not written to, and is given up exactly when the pair is new |
| `LongLongArrayMaps.LongLongArrayMap.Remove` | plugins/debug/src/vivagraph/mwg.js:2266-2288 | Takes exactly the pair out of the state, shared or not, and leaves the other values in their order |
| `LongLongArrayMaps.RemoveThroughFork` | plugins/debug/src/vivagraph/mwg.js:2266-2288 | Removal through a fork that still shares its state leaves the origin's pairs as they were if and only if the pair was not among them |
| `LongLongArrayMaps.LostThroughFork` | plugins/debug/src/vivagraph/mwg.js:2266-2288 | A pair that is put into a map and removed from its fork is gone from the map |
| `LongLongArrayMaps.MapState.Each` | plugins/debug/src/vivagraph/mwg.js:2175-2185 | Delivers exactly the pairs, each once, as many as size says, slot by slot |
| `LongLongArrayMaps.FilledSlot` | plugins/debug/src/vivagraph/mwg.js:2247-2263 | The slot at the head of the free list moves into a bucket: chains and free list still use each slot once |
| `LongLongArrayMaps.FilledEither` | plugins/debug/src/vivagraph/mwg.js:2247-2263 | Filling a slot keeps the map in order if and only if the value is not NULL_LONG, and adds exactly the pair then and none otherwise |
| `LongLongArrayMaps.FilledNull` | plugins/debug/src/vivagraph/mwg.js:2247-2263 | With NULL_LONG as the value the pairs stay as they were and the count is wrong, whatever the links |
| `LongLongArrayMaps.Emptied` | plugins/debug/src/vivagraph/mwg.js:2271-2282 | A slot moves from anywhere in its bucket to the head of the free list: chains and free list still use each slot once |
| `LongLongArrayMaps.MapState.Grown` | plugins/debug/src/vivagraph/mwg.js:2192-2233 | Twice the slots with the same pairs, and room for one more; get answers from the last slot down |
| `LongLongArrayMaps.PutIntoFork` | plugins/debug/src/vivagraph/mwg.js:2114-2265 | Puts into a fork leave the origin's pairs as they were and give the union in the fork |
| `LongLongMaps.MapState.Find` | plugins/debug/src/vivagraph/mwg.js:2380-2390 | The slot of a key by its chain, and none exactly when the map has no such key |
| `LongLongMaps.MapState.Each` | plugins/debug/src/vivagraph/mwg.js:2358-2365 | The pairs in the order in which their keys came |
| `LongLongMaps.MapState.Grown` | plugins/debug/src/vivagraph/mwg.js:2392-2418 | Twice the slots with the same pairs in the same order |
| `LongLongMaps.LongLongMap.Get` | plugins/debug/src/vivagraph/mwg.js:2341-2357 | The value of a key, or NULL_LONG |
| `LongLongMaps.LongLongMap.Put` | plugins/debug/src/vivagraph/mwg.js:2372-2448 | A new key goes to the end, and without a value it gets its position; a present key keeps its place; a shared state is copied first; a new key that makes the map more than three quarters full doubles it |
| `LongLongMaps.PutReads` | plugins/debug/src/vivagraph/mwg.js:2372-2448 | Seen through get a put is an update at its key |
| `LongLongMaps.NumbersAreDistinct` | plugins/debug/src/vivagraph/mwg.js:2421-2428 | A map filled without values numbers its keys: different keys get different numbers, which no later put changes |
| `LongLongMaps.PutIntoFork` | plugins/debug/src/vivagraph/mwg.js:2325-2376 | Puts into a fork leave the origin as it was |
| `StateTables.StateTable.Find` | plugins/debug/src/vivagraph/mwg.js:3446-3459 | The slot of a key by its chain, and none exactly when no slot in a chain has the key |
| `StateTables.StateTable.Insert` | plugins/debug/src/vivagraph/mwg.js:3497-3506 | A new slot for an absent key: that key reads as given and every other as before |
| `StateTables.StateTable.DeepClone` | plugins/debug/src/vivagraph/mwg.js:4094-4104 | Links, keys and types of its own, with the content array kept |
| `StateTables.StateTable.SoftClone` | plugins/debug/src/vivagraph/mwg.js:4105-4109 | A content array of its own, and the links, keys and types of the old one, read only |
| `StateTables.StateTable.Grown` | plugins/debug/src/vivagraph/mwg.js:3461-3490 | Twice the slots; slots without content leave the chains; every key reads as before |
| `StateChunks.StateChunk.Empty` | plugins/debug/src/vivagraph/mwg.js:3279-3285 | A state without attributes, with 16 slots, in order and all new |
| `StateChunks.StateChunk.Fork` | plugins/debug/src/vivagraph/mwg.js:3254-3276 | A fork reads like its origin under every key, pairs of maps included; what it may write to is all new; the origin is as before |
| `StateChunks.StateChunk.Get` | plugins/debug/src/vivagraph/mwg.js:3520-3559 | What is under a key, and that its content is what is read there |
| `StateChunks.StateChunk.Set` | plugins/debug/src/vivagraph/mwg.js:3320-3518 | An update at its key, through shared or own arrays; writes nothing but the chunk's own arrays or fresh ones |
| `StateChunks.StateChunk.Assign` | plugins/debug/src/vivagraph/mwg.js:3373-3518 | internal_set: an update at its key, except that without replacement a slot of the right type keeps its content; maps stay apart from the table and from each other |
| `StateChunks.StateChunk.ReadingTyped` | plugins/debug/src/vivagraph/mwg.js:3572-3588 | What is read under a key tells the type of its slot |
| `StateChunks.StateChunk.GetOrCreate` | plugins/debug/src/vivagraph/mwg.js:3592-3610 | Gives a new map exactly when the key has no slot of the type, with or without content; where something is read, exactly when that is no such map; no other key changes |
| `StateChunks.StateChunk.PutAt` | plugins/debug/src/vivagraph/mwg.js:2189-2265 | A put into the map under a key is seen under this key only, and touches no state that is shared |
| `StateChunks.StateChunk.Prepare` | plugins/debug/src/vivagraph/mwg.js:3461-3496 | Copies what is read only, doubles what would be more than three quarters full, and every key reads as before |
| `StateChunks.ChangeFork` | plugins/debug/src/vivagraph/mwg.js:3254-3610 | Any sequence of sets, type changes, new maps and map puts on a fork: the fork reads under every key as the origin did with these changes, the origin reads as before, and nothing that existed before is written to |
| `StateChunks.Chain` | plugins/debug/src/vivagraph/mwg.js:3254-3610 | Any chain of forks, each changed in any such way before the next is made: in the end all its states are in order, and each reads as the one before it with its own changes, map pairs included |
| `StateCodec.StartRun` | plugins/debug/src/vivagraph/mwg.js:3625-3965 | Over the tokens of any saved slots, nulls between them or not, the loader finishes with every attribute under its key and type in slot order, with the count unless there is no attribute, and never asks a decoder for a malformed text |
| `StateCodec.SlotsRun` | plugins/debug/src/vivagraph/mwg.js:3654-3965 | From one complete attribute to the end of the tokens, whatever was read before is kept |
| `StateBuffers.Save` | plugins/debug/src/vivagraph/mwg.js:3966-4060 | Appends the count, and for each slot with content its key, type and value with the separators of each level, byte for byte as `StateFormat` has them |
| `StateBuffers.LoadTokens` | plugins/debug/src/vivagraph/mwg.js:3625-3965 | The byte loop of load is the loader's run over the tokens between separators; `StateFormat.CodesRead` and `StateBuffers.Scan` say what the codes and bytes are read as |
| `StateBuffers.SaveThenScan` | plugins/debug/src/vivagraph/mwg.js:3625-4060 | Saving slots and scanning the bytes finds every attribute that had content, under its key, with its type and in slot order, and the count unless there is none |
| `StateBuffers.Scan` | plugins/debug/src/vivagraph/mwg.js:3625-3965 | Scanning the bytes of any slots, whoever wrote them, finds their attributes: separators 124, 44, 58 and 37, codes 1, 2, 3, 4, 7, 8, 9 and 10, and 49 and 48 for the booleans |
| `StateFormat.SavedTextIs` | plugins/debug/src/vivagraph/mwg.js:3966-4060 | The text of any slots in these bytes: 124, key, 44, code, 44 and value for each slot with content, 58 before each element or key of an array or map and 37 before each value of a map |
| `StateFormat.TypeCodeIs` | plugins/debug/src/vivagraph/mwg.js:1994-2003 | The eight type codes |
| `StateFormat.CodesRead` | plugins/debug/src/vivagraph/mwg.js:3676-3731 | What each code makes of the last text of an attribute; other codes make nothing of it |
| `StateFormat.SavedPlain` | plugins/debug/src/vivagraph/mwg.js:3966-4060 | The texts of the two booleans and of the empty string under key 0 |
| `StateFormat.SavedNumbers` | plugins/debug/src/vivagraph/mwg.js:3966-4060 | The texts of a long and an int under key 0 |
| `StateFormat.SavedLongs` | plugins/debug/src/vivagraph/mwg.js:3966-4060 | The text of two longs under key 0 |
| `StateFormat.SavedInts` | plugins/debug/src/vivagraph/mwg.js:3966-4060 | The text of a single int in an array under key 0 |
| `StateFormat.SavedMaps` | plugins/debug/src/vivagraph/mwg.js:3966-4060 | The texts of a map of each kind under key 0 |
| `StateStorage.Collect` | plugins/debug/src/vivagraph/mwg.js:3966-4060 | What save goes through: a slot for each one given out, with every content of the state under its key in exactly one of them, maps as each() delivers them |
| `StateStorage.LoaderPutIsPut` | plugins/debug/src/vivagraph/mwg.js:3819-3830 | The puts of the loader are the puts of the map classes |
| `StateStorage.MapOf` | plugins/debug/src/vivagraph/mwg.js:3791-3856 | The map that is filled with the pairs of a text has exactly these, a long map in their order |
| `StateStorage.LoadTable` | plugins/debug/src/vivagraph/mwg.js:3640-3965 | A table of exactly twice the count, filled with the attributes in their order through its hash chains, is in order and reads as the attributes say |
| `StateStorage.SaveThenLoad` | plugins/debug/src/vivagraph/mwg.js:3625-4060 | A state that is saved and loaded reads under every key as before, pairs of maps included; the loaded table and its maps are in order and all new; the element count comes back unless no slot has content |
| `StateBuffers.PutKeyIsPut` | plugins/debug/src/vivagraph/mwg.js:3819-3824 | The map put in the loader is the put proved of the map class |
| `Base64.EncodeLongToBuffer` | plugins/debug/src/vivagraph/mwg.js:1680-1693 | Appends twice the magnitude, plus one when negative, in base 64 by the characters of the alphabet, without zeros in front |
| `Base64.DigitIsChar` | plugins/debug/src/vivagraph/mwg.js:1863-1863 | Digit d is written as character d of A-Z, a-z, 0-9, + and / |
| `Base64.CharIndex` | plugins/debug/src/vivagraph/mwg.js:1863-1863 | A byte is read as d exactly when it is that character, and as -1 when it is none of them |
| `Base64.LongTextSpells` | plugins/debug/src/vivagraph/mwg.js:1680-1693 | The text of an integer is twice its magnitude, plus one when it is negative, divided down by 64 digit by digit and written in these characters, with no zero in front |
| `Base64.SpellsValue` | plugins/debug/src/vivagraph/mwg.js:1711-1721 | A text of digits denotes v exactly when its characters are those of v divided down by 64 |
| `Base64.DecodeToLongWithBounds` | plugins/debug/src/vivagraph/mwg.js:1711-1721 | Computes, in 64-bit halves, the integer that the text spells: half of its number, negative when that is odd |
| `Base64.LongRoundTrip` | plugins/debug/src/vivagraph/mwg.js:1680-1721 | Every integer below 2^53 in magnitude comes back; its text has 1 to 9 digits, no leading zero digit and no separator |
| `Base64.LongTextInjective` | plugins/debug/src/vivagraph/mwg.js:1680-1693 | Different integers have different texts |
| `Base64Strings.EncodeIntToBuffer` | plugins/debug/src/vivagraph/mwg.js:1694-1707 | The same text form, with fewer places tried |
| `Base64Strings.DecodeToIntWithBounds` | plugins/debug/src/vivagraph/mwg.js:1725-1735 | Half of the number that the text spells, without truncation, negative when it is odd |
| `Base64Strings.IntRoundTrip` | plugins/debug/src/vivagraph/mwg.js:1694-1735 | An int comes back if and only if it is not negative; a negative one comes back less one half |
| `Base64Strings.EncodeStringToBuffer` | plugins/debug/src/vivagraph/mwg.js:1805-1831 | Appends unpadded base 64 of section 4 of RFC 4648 of the low bytes, in the characters of the alphabet |
| `Base64Strings.StringTextSpells` | plugins/debug/src/vivagraph/mwg.js:1805-1831 | Character i of a text of n bytes, up to (8n + 5) / 6 of them, is the alphabet character of bits 6i to 6i + 5, with zeros after the end |
| `Base64Strings.FourDigits` | plugins/debug/src/vivagraph/mwg.js:1805-1831 | The digits of three bytes are those of the 24-bit number that they form, as section 4 of RFC 4648 has it |
| `Base64Strings.DecodeToStringWithBounds` | plugins/debug/src/vivagraph/mwg.js:1835-1862 | The bytes that the digits hold: byte j of a text of n digits, up to 6n / 8 of them, is bits 8j to 8j + 7; bits left over are dropped |
| `Base64Strings.UnpackedAt` | plugins/debug/src/vivagraph/mwg.js:1835-1862 | The same of any digits |
| `Base64Strings.ReadsIndices` | plugins/debug/src/vivagraph/mwg.js:1835-1862 | The digits of a text are the positions of its characters in the alphabet |
| `Base64Strings.StringRoundTrip` | plugins/debug/src/vivagraph/mwg.js:1805-1862 | A string comes back if and only if its characters have eight bits; its text has no separator |
| `Base64Strings.EncodeBoolArrayToBuffer` | plugins/debug/src/vivagraph/mwg.js:1777-1786 | Six booleans a character of the alphabet from the lowest bit up, and zeros after the end |
| `Base64Strings.PackedBits` | plugins/debug/src/vivagraph/mwg.js:1777-1786 | Bit k of digit i is boolean 6i + k, and 0 when there is none |
| `Base64Strings.DecodeToBoolArrayWithBounds` | plugins/debug/src/vivagraph/mwg.js:1790-1804 | Boolean k is bit k % 6 of digit k / 6, up to the array's size |
| `Base64Strings.BoolArrayRoundTrip` | plugins/debug/src/vivagraph/mwg.js:1777-1804 | Every boolean array comes back from its digits and its size |
| `Longs.Add` | plugins/debug/src/vivagraph/mwg.js:843-869 | The sum of the bit patterns modulo 2^64 |
| `Longs.AddSigned` | plugins/debug/src/vivagraph/mwg.js:843-869 | The wrapped sum of the signed values |
| `Longs.Carry` | plugins/debug/src/vivagraph/mwg.js:857-868 | Below 2^32 the shift and the mask take a number apart without loss |
| `Longs.MultiplyLimbs` | plugins/debug/src/vivagraph/mwg.js:900-930 | The 4 by 4 limb product is the product modulo 2^64 for all bit patterns; no number that goes through the unsigned shift exceeds 2^32 - 2, and that bound is reached |
| `Longs.Compare` | plugins/debug/src/vivagraph/mwg.js:820-836 | The order of the signed values, for all values |
| `Longs.Multiply` | plugins/debug/src/vivagraph/mwg.js:877-931 | The wrapped product of the signed values, away from -2^63 |
| `Longs.SignCasesEnd` | plugins/debug/src/vivagraph/mwg.js:884-895 | The sign cases of a product end if and only if a factor is zero or neither is -2^63 |
| `Longs.Meanings` | plugins/debug/src/vivagraph/mwg.js:820-931 | The two's complement reading of the halves and the wrapped number, in numbers |
| `Longs.ShiftLeft` | plugins/debug/src/vivagraph/mwg.js:1044-1053 | A left shift is multiplication by a power of two modulo 2^64 |
| `Bitap.CalculatePatternAlphabet` | plugins/debug/src/fuzzy/js/fuse.js:531-543 | Each character of a pattern of up to 32 has exactly the bits of its places |
| `Bitap.BitsStep` | plugins/debug/src/fuzzy/js/fuse.js:682-692 | Bit k of the word at a position is set exactly when the last k + 1 pattern characters stand there |
| `Bitap.MaskTest` | plugins/debug/src/fuzzy/js/fuse.js:696-696 | The match-mask test asks for the bit of the whole pattern |
| `Bitap.EndsAll` | plugins/debug/src/fuzzy/js/fuse.js:682-696 | That bit is set exactly at the occurrences of the pattern that end by the finish |
| `Bitap.ScoreGrows` | plugins/debug/src/fuzzy/js/fuse.js:553-562 | The score does not fall with the distance from the expected place |
| `Bitap.ScoreIs` | plugins/debug/src/fuzzy/js/fuse.js:553-562 | Less the share of the pattern in error, the score times the distance option is how far the place is off; with a distance of 0 every place but the expected one scores 1 |
| `Bitap.Stray` | plugins/debug/src/fuzzy/js/fuse.js:658-670 | The binary search gives the greatest distance within the threshold, or 0 |
| `Bitap.ExactPass` | plugins/debug/src/fuzzy/js/fuse.js:632-716 | For every pattern of 1 to 32 characters, with distances that count, the zero-error pass ends at the nearest occurrence in reach, of two the left one, if it is no farther off than threshold times distance, and nowhere otherwise; with a distance of 0 at the expected place or nowhere, or under a threshold of 1 also at a nearest one on one side; the score times the distance is how far that place is off, or the one just beyond its mirror image exactly when the pattern stands there |
| `Bitap.GetMatchedIndices` | plugins/debug/src/fuzzy/js/fuse.js:735-756 | The marked places as separate ascending stretches, which cover exactly them |

## Left out

- Longs.Multiply: asks that no factor be -2^63 unless one is zero, because the code does not end there; `Longs.SignCasesEnd` proves that this is the exact condition. The unsigned flag of `Long`, division and radix conversion are not modelled.
- Base64.DecodeToLongWithBounds: asks for digits that denote less than 2^54, the range of encoded numbers; on longer texts the source wraps around.
- Base64Strings.DecodeToIntWithBounds: the source has powers of two up to 2^53 for this, enough for ten digits, and makes no number of longer texts, which the encoders never write; here they are decoded like the others.
- Base64.EncodeLongToBuffer: covers integers below 2^53 in magnitude, which is where the number type of the source is exact.
- LongLongArrayMaps.LongLongArrayMap.Put: asks for a capacity of at least 1 at construction.
- LongLongMaps.LongLongMap.Put: asks for a capacity of at least 1 at construction; doubling an empty table leaves it empty.
- StateStorage.SaveThenLoad: covers booleans, eight-bit strings, longs, non-negative ints, non-empty arrays of them and non-empty long maps; empty arrays and maps do not come back in the source. Doubles and string maps are not modelled.
- StateStorage.LoadTable: puts the attributes into the table, and the pairs into their maps, after the scan of the text, where the code does so during it.
- StateBuffers.LoadTokens: asks for texts that the decoders can be given; what load makes of malformed bytes is not modelled.
- StateChunks.ChangeFork: speaks of changes to the newest fork. Writes to a state after it was forked are not isolated from the fork in the source and are left out, and so are removals from maps, for which see `LongLongArrayMaps.RemoveThroughFork`. Whether getOrCreate finds an empty slot of its type is an outcome of the step here (`givens`), because growing drops such slots.
- StateChunks.StateChunk.Set: asks for a value that suits its type, as the checks at the head of set do; that these admit a boolean for a map type is left out. Values are copied by the source where they are arrays, and are values here.
- StateChunks.StateChunk.Fork: string maps are not among the contents.
- TimeTrees.TimeTree.ClearAt: asks for allocated arrays, as a tree has after its first key.
- TimeTreeCodec.Load: loads into an empty tree, as the constructor does, and reads what save wrote. `merge` is left out: it stops at its first new key.
- Timepoints.ResolveTimepoints: asks that a super tree have at most as many keys as there are times.
- Resolvers.Resolver.ResolveState: time trees stand as key sequences here (`TimeTreeSplits` ties these to the arrays); chunks are taken to be in the cache, and the mark bookkeeping of the resolver and retries after a cache miss are not modelled. A state that a dropped write leaves in a world without a history is not part of the timeline.
- Handles.LastingExact: asks that the recorded order and super magics are not ahead. When a read moves a handle from a world whose super tree has changed more often than the new one's, the super tree would have to catch up as well; there only the safe direction is proved (`Handles.RefreshedLasting` after an orderly read, `Handles.SureLasting`).
- Timelines.RunKeeps: leaves out writes before a world's own history, for which `Handles.EarlyBreaks` shows that the invariant fails. Magics are unbounded integers.
- CacheModel.RunKeeps: leaves out lookups of the only unmarked slot, writes without a mark and releases of a mark not held, which the Exact lemmas show to break the cache.
- ChunkSpaces.ChunkSpace.PutAndMark: a resident key returns the resident chunk unmarked, as the code does; no claim is made for a caller who relies on a mark. The element counter of the space is left out. The storage is a map from keys to contents, and its callbacks are synchronous.
- Bitap.ExactPass: is the pass without errors. The passes with errors, the early return for equal strings, the regular expression for long patterns, case folding, and which characters the match mask collects are left out. Occurrences farther left of the expected place than pattern and text are long are beyond its search.
- HeapWorldOrderChunk is a finite map here; its hash table, whose update writes to the wrong cell, is not modelled.
- String-keyed maps, `newState` of the resolver, world and node generators, the language of traversals, queries, actions, transports and storage back ends: glue, or members that would only repeat the ones above.
- Hash functions are parameters with values in range. Locks do nothing in a single thread and are left out. `|` that joins parts without common bits is `+`.
