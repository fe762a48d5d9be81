/** Saving a time tree and loading it again. */
module TimeTreeCodec {
  import opened Hiding
  import opened Arithmetic
  import opened Constants
  import opened TimeLine
  import opened TimeTrees
  import opened Buffers
  import opened Base64

  ghost predicate Encodable(ks: seq<int>) {
    forall k <- ks :: -MAX_LONG <= k <= MAX_LONG
  }

  /** The texts of the keys with a separator between them. */
  function SavedText(ks: seq<int>): seq<byte> {
    if ks == [] then []
    else if |ks| == 1 then LongText(ks[0])
    else LongText(ks[0]) + [CHUNK_SUB_SEP] + SavedText(ks[1..])
  }

  lemma {:induction false} SavedTextAppend(ks: seq<int>, k: int)
    ensures SavedText(ks + [k]) == if ks == [] then LongText(k) else SavedText(ks) + [CHUNK_SUB_SEP] + LongText(k)
  {
    if ks == [] {
      assert ks + [k] == [k];
    } else {
      SavedTextAppend(ks[1..], k);
      assert (ks + [k])[1..] == ks[1..] + [k];
    }
  }

  /** The text of one key, and between the texts of any two a single ','. */
  lemma {:induction false} KeysSeparated(ks: seq<int>, i: nat)
    requires 0 < i < |ks|
    ensures SavedText(ks) == SavedText(ks[..i]) + [44] + SavedText(ks[i..])
    ensures SavedText([ks[i]]) == LongText(ks[i])
  {
    if i == 1 {
      assert ks[..1] == [ks[0]];
    } else {
      KeysSeparated(ks[1..], i - 1);
      assert ks[1..][..i - 1] == ks[..i][1..] && ks[1..][i - 1..] == ks[i..];
      Together(LongText(ks[0]) + [44], SavedText(ks[..i][1..]) + [44], SavedText(ks[i..]));
      Together(LongText(ks[0]) + [44], SavedText(ks[..i][1..]), [44]);
    }
  }

  /** The text G,K of the keys 3 and 5. */
  lemma SavedKeys()
    ensures SavedText([3, 5]) == [71, 44, 75]
  {
    KeysSeparated([3, 5], 1);
    assert [3, 5][..1] == [3] && [3, 5][1..] == [5];
  }

  method Save(tree: TimeTree, buffer: Buffer)
    requires tree.Valid() && Encodable(tree.Keys())
    modifies buffer
    ensures buffer.bytes == old(buffer.bytes) + SavedText(tree.Keys())
  {
    if tree.rootIndex == -1 {
      tree.EmptyRoot();
      return;
    }
    SaveKeys(tree.backK[..tree.size], buffer);
  }

  function KeyText(isFirst: bool, k: int): seq<byte> {
    if isFirst then LongText(k) else [CHUNK_SUB_SEP] + LongText(k)
  }

  lemma SavedNext(base: seq<byte>, ks: seq<int>, i: nat)
    requires i < |ks|
    ensures (base + SavedText(ks[..i])) + KeyText(i == 0, ks[i]) == base + SavedText(ks[..i + 1])
  {
    SavedTextAppend(ks[..i], ks[i]);
    assert ks[..i + 1] == ks[..i] + [ks[i]];
    if i == 0 {
      assert base + [] == base;
    } else {
      Together(base, SavedText(ks[..i]), [CHUNK_SUB_SEP] + LongText(ks[i]));
      Together(SavedText(ks[..i]), [CHUNK_SUB_SEP], LongText(ks[i]));
    }
  }

  method SaveKey(isFirst: bool, k: int, buffer: Buffer)
    requires -MAX_LONG <= k <= MAX_LONG
    modifies buffer
    ensures buffer.bytes == old(buffer.bytes) + KeyText(isFirst, k)
  {
    if !isFirst {
      buffer.Write(CHUNK_SUB_SEP);
      Together(old(buffer.bytes), [CHUNK_SUB_SEP], LongText(k));
    }
    EncodeLongToBuffer(k, buffer);
  }

  method SaveKeys(ks: seq<int>, buffer: Buffer)
    requires Encodable(ks)
    modifies buffer
    ensures buffer.bytes == old(buffer.bytes) + SavedText(ks)
  {
    var isFirst := true;
    var i := 0;
    while i < |ks|
      invariant 0 <= i <= |ks| && isFirst == (i == 0)
      invariant buffer.bytes == old(buffer.bytes) + SavedText(ks[..i])
    {
      assert ks[i] in ks;
      SavedNext(old(buffer.bytes), ks, i);
      SaveKey(isFirst, ks[i], buffer);
      isFirst := false;
      i := i + 1;
    }
    assert ks[..|ks|] == ks;
  }

  /** The first separator ends the first text. */
  lemma FirstSeparator(t: seq<byte>, rest: seq<byte>, s: seq<byte>, c: nat)
    requires s == t + [CHUNK_SUB_SEP] + rest && forall i :: 0 <= i < |t| ==> t[i] != CHUNK_SUB_SEP
    requires c < |s| && s[c] == CHUNK_SUB_SEP && forall i :: 0 <= i < c ==> s[i] != CHUNK_SUB_SEP
    ensures c == |t| && s[..c] == t && s[c + 1..] == rest
  {
    assert s[|t|] == CHUNK_SUB_SEP;
  }

  lemma SeparatorIn(t: seq<byte>, rest: seq<byte>)
    ensures CHUNK_SUB_SEP in t + [CHUNK_SUB_SEP] + rest
  {
    assert (t + [CHUNK_SUB_SEP] + rest)[|t|] == CHUNK_SUB_SEP;
  }

  lemma SeveralTexts(ks: seq<int>)
    ensures |ks| > 1 ==> CHUNK_SUB_SEP in SavedText(ks)
  {
    if |ks| > 1 {
      SeparatorIn(LongText(ks[0]), SavedText(ks[1..]));
    }
  }

  /** Decodes one text of the payload and inserts it. */
  method LoadKey(tree: TimeTree, buffer: Buffer, previous: nat, cursor: nat, ghost k: int)
    requires tree.Valid() && -MAX_LONG <= k <= MAX_LONG && k !in tree.Keys()
    requires previous <= cursor <= |buffer.bytes| && buffer.bytes[previous..cursor] == LongText(k)
    modifies tree, tree.backMeta, tree.backK, tree.backColors
    ensures tree.Valid() && fresh(tree.Arrays() - old(tree.Arrays())) && tree.Keys() == old(tree.Keys()) + [k]
    ensures tree.magic == old(tree.magic)
  {
    var key := ReadKey(buffer, previous, cursor, k);
    var _ := tree.InternalInsert(key);
  }

  method ReadKey(buffer: Buffer, previous: nat, cursor: nat, ghost k: int) returns (key: int)
    requires -MAX_LONG <= k <= MAX_LONG && previous <= cursor <= |buffer.bytes|
    requires buffer.bytes[previous..cursor] == LongText(k)
    ensures key == k
  {
    LongRoundTrip(k);
    key := DecodeToLongWithBounds(buffer, previous, cursor);
  }

  /** Where a scan that met no separator in the rest of a payload stands when it meets one. */
  lemma {:induction false} PayloadNext(rest: seq<byte>, c: nat, ks: seq<int>)
    requires ks != [] && -MAX_LONG <= ks[0] <= MAX_LONG && rest == SavedText(ks)
    requires c < |rest| && rest[c] == CHUNK_SUB_SEP && forall i :: 0 <= i < c ==> rest[i] != CHUNK_SUB_SEP
    ensures |ks| > 1 && rest[..c] == LongText(ks[0]) && rest[c + 1..] == SavedText(ks[1..])
  {
    LongTextHasNone(ks[0]);
    FirstSeparator(LongText(ks[0]), SavedText(ks[1..]), rest, c);
  }

  lemma LongTextHasNone(k: int)
    requires -MAX_LONG <= k <= MAX_LONG
    ensures forall i :: 0 <= i < |LongText(k)| ==> LongText(k)[i] != CHUNK_SUB_SEP
  {
    LongRoundTrip(k);
  }

  lemma {:induction false} PayloadEnds(rest: seq<byte>, ks: seq<int>)
    requires ks != [] && rest == SavedText(ks) && forall i :: 0 <= i < |rest| ==> rest[i] != CHUNK_SUB_SEP
    ensures |ks| == 1 && rest == LongText(ks[0])
  {
    SeveralTexts(ks);
  }

  lemma NextKey(loaded: seq<int>, left: seq<int>, ks: seq<int>)
    requires loaded + left == ks && left != [] && Encodable(ks) && Distinct(ks)
    ensures left[0] !in loaded && -MAX_LONG <= left[0] <= MAX_LONG && loaded + [left[0]] + left[1..] == ks
  {
    assert ks[|loaded|] == left[0] && left[0] in ks;
    assert forall i :: 0 <= i < |loaded| ==> ks[i] == loaded[i];
  }

  /** The scan stands at `cursor`, the current text starts at `previous`, and `left` is still to come; the
      definition is used where `Unfold` is mentioned. */
  ghost predicate Scanning(bytes: seq<byte>, previous: nat, cursor: nat, left: seq<int>) {
    && previous <= cursor <= |bytes| && left != []
    && forall b {:trigger Unfold(Topic.Scans, b)} :: Unfold(Topic.Scans, b) ==>
      bytes[previous..] == SavedText(left) && forall i :: previous <= i < cursor ==> bytes[i] != CHUNK_SUB_SEP
  }

  lemma ScanStart(bytes: seq<byte>, ks: seq<int>)
    requires bytes == SavedText(ks) && ks != []
    ensures Scanning(bytes, 0, 0, ks)
  {
    assert bytes[0..] == bytes;
  }

  lemma ScanOn(bytes: seq<byte>, previous: nat, cursor: nat, left: seq<int>)
    requires Scanning(bytes, previous, cursor, left) && cursor < |bytes| && bytes[cursor] != CHUNK_SUB_SEP
    ensures Scanning(bytes, previous, cursor + 1, left)
  {
    assert Unfold(Topic.Scans, true);
  }

  lemma ScanSeparator(bytes: seq<byte>, previous: nat, cursor: nat, left: seq<int>)
    requires Scanning(bytes, previous, cursor, left) && cursor < |bytes| && bytes[cursor] == CHUNK_SUB_SEP
    requires -MAX_LONG <= left[0] <= MAX_LONG
    ensures bytes[previous..cursor] == LongText(left[0]) && Scanning(bytes, cursor + 1, cursor + 1, left[1..])
  {
    assert Unfold(Topic.Scans, true);
    var rest, c := bytes[previous..], cursor - previous;
    PayloadNext(rest, c, left);
    assert rest[..c] == bytes[previous..cursor] && rest[c + 1..] == bytes[cursor + 1..];
  }

  lemma ScanEnd(bytes: seq<byte>, previous: nat, left: seq<int>)
    requires Scanning(bytes, previous, |bytes|, left)
    ensures |left| == 1 && bytes[previous..|bytes|] == LongText(left[0])
  {
    assert Unfold(Topic.Scans, true);
    PayloadEnds(bytes[previous..], left);
    assert bytes[previous..|bytes|] == bytes[previous..];
  }

  /** Reads a payload into an empty tree; `ks` is what was saved. */
  method Load(tree: TimeTree, buffer: Buffer, ghost ks: seq<int>)
    requires tree.Valid() && tree.Keys() == []
    requires buffer.bytes == SavedText(ks) && Encodable(ks) && Distinct(ks)
    modifies tree, tree.backMeta, tree.backK, tree.backColors
    ensures tree.Valid() && fresh(tree.Arrays() - old(tree.Arrays())) && tree.Keys() == ks
    ensures tree.magic == old(tree.magic)
  {
    SavedNonEmpty(ks);
    if buffer.Size() == 0 {
      return;
    }
    var cursor, previous := 0, 0;
    var payloadSize := buffer.Size();
    ghost var left := ks;
    ScanStart(buffer.bytes, ks);
    while cursor < payloadSize
      invariant 0 <= cursor <= payloadSize == |buffer.bytes| && buffer.bytes == old(buffer.bytes)
      invariant Scanning(buffer.bytes, previous, cursor, left)
      invariant tree.Valid() && fresh(tree.Arrays() - old(tree.Arrays())) && tree.Keys() + left == ks
      invariant tree.magic == old(tree.magic)
    {
      previous, left := LoadAt(tree, buffer, previous, cursor, left, ks);
      cursor := cursor + 1;
    }
    LoadLast(tree, buffer, previous, cursor, left, ks);
  }

  /** The loop body of load. */
  method LoadAt(tree: TimeTree, buffer: Buffer, previous: nat, cursor: nat, ghost left: seq<int>, ghost ks: seq<int>)
    returns (previous': nat, ghost left': seq<int>)
    requires tree.Valid() && Encodable(ks) && Distinct(ks) && tree.Keys() + left == ks
    requires Scanning(buffer.bytes, previous, cursor, left) && cursor < |buffer.bytes|
    modifies tree, tree.backMeta, tree.backK, tree.backColors
    ensures tree.Valid() && fresh(tree.Arrays() - old(tree.Arrays())) && tree.Keys() + left' == ks
    ensures tree.magic == old(tree.magic)
    ensures Scanning(buffer.bytes, previous', cursor + 1, left')
  {
    previous', left' := previous, left;
    var current := buffer.Read(cursor);
    if current == CHUNK_SUB_SEP {
      LoadNext(tree, buffer, previous, cursor, left, ks);
      previous', left' := cursor + 1, left[1..];
    } else {
      ScanOn(buffer.bytes, previous, cursor, left);
    }
  }

  /** The text up to the end. */
  method LoadLast(tree: TimeTree, buffer: Buffer, previous: nat, cursor: nat, ghost left: seq<int>, ghost ks: seq<int>)
    requires tree.Valid() && Encodable(ks) && Distinct(ks) && tree.Keys() + left == ks
    requires Scanning(buffer.bytes, previous, cursor, left) && cursor == |buffer.bytes|
    modifies tree, tree.backMeta, tree.backK, tree.backColors
    ensures tree.Valid() && fresh(tree.Arrays() - old(tree.Arrays())) && tree.Keys() == ks
    ensures tree.magic == old(tree.magic)
  {
    NextKey(tree.Keys(), left, ks);
    ScanEnd(buffer.bytes, previous, left);
    LoadKey(tree, buffer, previous, cursor, left[0]);
  }

  /** A separator at `cursor`: the text before it is a key. */
  method LoadNext(tree: TimeTree, buffer: Buffer, previous: nat, cursor: nat, ghost left: seq<int>, ghost ks: seq<int>)
    requires tree.Valid() && Encodable(ks) && Distinct(ks) && tree.Keys() + left == ks
    requires Scanning(buffer.bytes, previous, cursor, left) && cursor < |buffer.bytes|
    requires buffer.bytes[cursor] == CHUNK_SUB_SEP
    modifies tree, tree.backMeta, tree.backK, tree.backColors
    ensures tree.Valid() && fresh(tree.Arrays() - old(tree.Arrays())) && tree.Keys() + left[1..] == ks
    ensures tree.magic == old(tree.magic)
    ensures Scanning(buffer.bytes, cursor + 1, cursor + 1, left[1..])
  {
    NextKey(tree.Keys(), left, ks);
    ScanSeparator(buffer.bytes, previous, cursor, left);
    LoadKey(tree, buffer, previous, cursor, left[0]);
  }

  lemma SavedNonEmpty(ks: seq<int>)
    ensures SavedText(ks) == [] <==> ks == []
  {
  }
}

/** What the time tree's text form keeps. */
module TimeTreePersistence {
  import opened Hiding
  import opened RedBlackTree
  import opened TreeCells
  import TreeLinks
  import opened TimeTrees
  import opened Buffers
  import opened TimeTreeCodec

  lemma {:induction false} StoresUnique(c: Cells, c': Cells, t: Tree, parent: int)
    requires Stores(c, t, parent) && Stores(c', t, parent)
    ensures forall i <- Slots(t) :: i < |c| && i < |c'| && c[i] == c'[i]
  {
    if t.Node? {
      StoresUnique(c, c', t.left, t.slot);
      StoresUnique(c, c', t.right, t.slot);
    }
  }

  /** The same root, and in every slot in use the same key, colour and links. */
  ghost predicate SameArrays(a: TimeTree, b: TimeTree)
    reads a, b
  {
    && a.size == b.size <= |a.rows| && b.size <= |b.rows| && a.rootIndex == b.rootIndex
    && a.rows[..a.size] == b.rows[..b.size]
  }

  /** The keys in their insertion order determine the arrays. */
  lemma SameKeysSameArrays(a: TimeTree, b: TimeTree)
    requires a.Valid() && b.Valid() && a.Keys() == b.Keys()
    ensures SameArrays(a, b)
  {
    assert Unfold(Topic.Trees, true);
    TreeLinks.BuildSlots(a.Keys());
    StoresUnique(a.rows, b.rows, Build(a.Keys()), -1);
  }

  /** Saving and loading rebuilds the identical tree. */
  method SaveThenLoad(a: TimeTree) returns (b: TimeTree)
    requires a.Valid() && Encodable(a.Keys())
    ensures fresh(b) && a.Valid() && b.Valid() && b.Keys() == a.Keys() && SameArrays(a, b)
  {
    assert Unfold(Topic.Trees, true);
    var buffer := new Buffer();
    Save(a, buffer);
    b := new TimeTree();
    Load(b, buffer, a.Keys());
    SameKeysSameArrays(a, b);
  }
}
