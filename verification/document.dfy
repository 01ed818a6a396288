/** The part of the host editor's document model that the block-range
    collector relies on: a content snapshot is its blocks in document order,
    each block carrying a key that is unique within the snapshot.  Only the
    two lookups the collector calls are modelled. */
module Document {
  import opened Wrappers

  type Key = string

  /** A content block: its key and its text.  The collector never reads the
      text; it stands for the rest of the block, which is returned whole. */
  datatype Block = Block(key: Key, text: string)

  /** A content snapshot; `blocks` is the block map in document order.  The
      key a block is stored under in the map and the key the block itself
      reports are taken to be one and the same field, `key`: the collector
      looks blocks up by map key and then reads the key off the block. */
  datatype ContentState = ContentState(blocks: seq<Block>)

  /** No key occurs twice: the first block's key is not found among the
      remaining blocks, and the same holds of the remaining blocks. */
  predicate DistinctKeys(blocks: seq<Block>) {
    |blocks| == 0 || (IndexOf(blocks[1..], blocks[0].key).None? && DistinctKeys(blocks[1..]))
  }

  /** The block map is keyed: no two blocks share a key. */
  predicate WellFormed(c: ContentState) {
    DistinctKeys(c.blocks)
  }

  /** The position of the first block whose key is `key`, if any. */
  function IndexOf(blocks: seq<Block>, key: Key): (r: Option<nat>)
    ensures r.Some? ==> r.value < |blocks| && blocks[r.value].key == key
  {
    if |blocks| == 0 then None
    else if blocks[0].key == key then Some(0)
    else match IndexOf(blocks[1..], key)
      case None => None
      case Some(i) => Some(i + 1)
  }

  /** Lookup by key; `None` when no block has that key. */
  function GetBlockForKey(c: ContentState, key: Key): (r: Option<Block>)
    ensures r.Some? ==> r.value in c.blocks && r.value.key == key
  {
    match IndexOf(c.blocks, key)
    case None => None
    case Some(i) => Some(c.blocks[i])
  }

  /** The block following the one with key `key`; `None` when that block
      is the last one or no block has that key. */
  function GetBlockAfter(c: ContentState, key: Key): (r: Option<Block>)
    ensures r.Some? ==> |c.blocks| > 1 && r.value in c.blocks[1..]
  {
    match IndexOf(c.blocks, key)
    case None => None
    case Some(i) => if i + 1 < |c.blocks| then Some(c.blocks[i + 1]) else None
  }

  /** `IndexOf` finds the first occurrence, and finds nothing exactly when
      the key is absent. */
  lemma {:induction false} IndexOfFirst(blocks: seq<Block>, key: Key)
    ensures IndexOf(blocks, key).Some? ==>
      forall j :: 0 <= j < IndexOf(blocks, key).value ==> blocks[j].key != key
    ensures IndexOf(blocks, key).None? <==> forall j :: 0 <= j < |blocks| ==> blocks[j].key != key
  {
    if |blocks| > 0 && blocks[0].key != key {
      var rest := blocks[1..];
      IndexOfFirst(rest, key);
      assert forall j :: 0 < j < |blocks| ==> blocks[j] == rest[j - 1];
    }
  }

  /** Lookup by key fails exactly when no block carries the key. */
  lemma LookupAbsent(c: ContentState, key: Key)
    ensures GetBlockForKey(c, key).None? <==> forall i :: 0 <= i < |c.blocks| ==> c.blocks[i].key != key
  {
    IndexOfFirst(c.blocks, key);
  }

  /** `DistinctKeys` says exactly that no two positions carry the same key. */
  lemma {:induction false} DistinctKeysIffPairwise(blocks: seq<Block>)
    ensures DistinctKeys(blocks) <==>
      forall i, j :: 0 <= i < j < |blocks| ==> blocks[i].key != blocks[j].key
  {
    if |blocks| > 0 {
      var rest := blocks[1..];
      DistinctKeysIffPairwise(rest);
      IndexOfFirst(rest, blocks[0].key);
      if DistinctKeys(blocks) {
        forall i, j | 0 <= i < j < |blocks|
          ensures blocks[i].key != blocks[j].key
        {
          if i > 0 {
            assert rest[i - 1] == blocks[i] && rest[j - 1] == blocks[j];
          } else {
            assert rest[j - 1] == blocks[j];
          }
        }
      }
      if forall i, j :: 0 <= i < j < |blocks| ==> blocks[i].key != blocks[j].key {
        forall j | 0 <= j < |rest|
          ensures rest[j].key != blocks[0].key
        {
          assert rest[j] == blocks[j + 1];
        }
        forall i, j | 0 <= i < j < |rest|
          ensures rest[i].key != rest[j].key
        {
          assert rest[i] == blocks[i + 1] && rest[j] == blocks[j + 1];
        }
      }
    }
  }

  /** In a keyed block map, looking up a block's own key finds its position. */
  lemma {:induction false} KeyedPosition(blocks: seq<Block>, i: nat)
    requires DistinctKeys(blocks)
    requires i < |blocks|
    ensures IndexOf(blocks, blocks[i].key) == Some(i)
  {
    if i > 0 {
      var rest := blocks[1..];
      assert rest[i - 1] == blocks[i];
      IndexOfFirst(rest, blocks[0].key);
      KeyedPosition(rest, i - 1);
    }
  }

  /** The same, stated for a content snapshot and its lookup by key. */
  lemma IndexOfPosition(c: ContentState, i: nat)
    requires WellFormed(c)
    requires i < |c.blocks|
    ensures IndexOf(c.blocks, c.blocks[i].key) == Some(i)
    ensures GetBlockForKey(c, c.blocks[i].key) == Some(c.blocks[i])
  {
    KeyedPosition(c.blocks, i);
  }

  /** Stepping forward from the block at position `i` yields the block at
      position `i + 1`, and `None` from the last block. */
  lemma AfterPosition(c: ContentState, i: nat)
    requires WellFormed(c)
    requires i < |c.blocks|
    ensures i + 1 < |c.blocks| ==> GetBlockAfter(c, c.blocks[i].key) == Some(c.blocks[i + 1])
    ensures i + 1 == |c.blocks| ==> GetBlockAfter(c, c.blocks[i].key).None?
  {
    IndexOfPosition(c, i);
  }

  /** A forward step moves exactly one position further in document order. */
  lemma AfterAdvances(c: ContentState, key: Key)
    requires WellFormed(c)
    requires GetBlockAfter(c, key).Some?
    ensures IndexOf(c.blocks, key).Some?
    ensures IndexOf(c.blocks, GetBlockAfter(c, key).value.key) == Some(IndexOf(c.blocks, key).value + 1)
  {
    var i := IndexOf(c.blocks, key).value;
    IndexOfPosition(c, i + 1);
  }

  /** In a keyed block map, stepping forward finds nothing exactly when the
      key is absent or belongs to the last block. */
  lemma AfterAbsent(c: ContentState, key: Key)
    requires WellFormed(c)
    ensures GetBlockAfter(c, key).None? <==> forall i :: 0 <= i < |c.blocks| - 1 ==> c.blocks[i].key != key
  {
    IndexOfFirst(c.blocks, key);
    if GetBlockAfter(c, key).None? {
      forall i | 0 <= i < |c.blocks| - 1
        ensures c.blocks[i].key != key
      {
        if c.blocks[i].key == key {
          AfterPosition(c, i);
        }
      }
    }
  }
}
