/** The block-range collector: given a content snapshot and the keys of an
    anchor block and a focus block, the blocks from the anchor to the focus
    inclusive, in document order, found by stepping forward one block at a
    time from the anchor until the focus key is reached.

    Two models of the one function are given.  `GetSelectedBlocks` is the
    loop itself under the precondition its callers must meet.  `Collect`
    (with `Walk` for the loop) is total: it also says what happens when the
    precondition fails, namely the fault raised on reading the key of the
    `undefined` value that a forward step returns past the last block, or
    when asked for the block after a key that names no block. */
module SelectedBlocks {
  import opened Wrappers
  import opened Document

  /** The fault the walk raises when a forward step returns `undefined`
      (past the last block, or after a key that names no block) and the
      walk then reads that value's key. */
  datatype Fault = KeyOfUndefined

  /** Both keys name blocks and the anchor does not come after the focus. */
  predicate InOrder(c: ContentState, anchorKey: Key, focusKey: Key) {
    && IndexOf(c.blocks, anchorKey).Some?
    && IndexOf(c.blocks, focusKey).Some?
    && IndexOf(c.blocks, anchorKey).value <= IndexOf(c.blocks, focusKey).value
  }

  /** Reference definition: the inclusive slice of the document between the
      anchor's position and the focus's position. */
  function Range(c: ContentState, anchorKey: Key, focusKey: Key): (r: seq<Block>)
    requires InOrder(c, anchorKey, focusKey)
  {
    c.blocks[IndexOf(c.blocks, anchorKey).value .. IndexOf(c.blocks, focusKey).value + 1]
  }

  /** Each block of `s` after the first is the document's next block after
      its predecessor. */
  ghost predicate Chain(c: ContentState, s: seq<Block>) {
    forall j :: 0 < j < |s| ==> GetBlockAfter(c, s[j - 1].key) == Some(s[j])
  }

  /** Independent description of the collector's answer: it starts at the
      anchor's block, moves forward one block at a time, and stops at the
      first block whose key is the focus key. */
  ghost predicate IsForwardPath(c: ContentState, anchorKey: Key, focusKey: Key, s: seq<Block>) {
    && |s| > 0
    && GetBlockForKey(c, anchorKey) == Some(s[0])
    && s[|s| - 1].key == focusKey
    && Chain(c, s)
    && forall j :: 0 <= j < |s| - 1 ==> s[j].key != focusKey
  }

  /** The collector as written: a fast path for a single block, otherwise a
      forward walk from the anchor until the focus key is reached.  The
      ghost `steps` counts the forward lookups the walk makes. */
  method GetSelectedBlocks(c: ContentState, anchorKey: Key, focusKey: Key)
    returns (selected: seq<Block>, ghost steps: nat)
    requires WellFormed(c)
    requires InOrder(c, anchorKey, focusKey)
    ensures selected == Range(c, anchorKey, focusKey)
    ensures IsForwardPath(c, anchorKey, focusKey, selected)
    ensures |selected| == IndexOf(c.blocks, focusKey).value - IndexOf(c.blocks, anchorKey).value + 1
    ensures steps == |selected| - 1
    ensures anchorKey == focusKey ==> selected == [GetBlockForKey(c, anchorKey).value] && steps == 0
  {
    var isSameBlock := anchorKey == focusKey;
    var startingBlock := GetBlockForKey(c, anchorKey).value;
    selected := [startingBlock];
    steps := 0;

    ghost var a := IndexOf(c.blocks, anchorKey).value;
    ghost var f := IndexOf(c.blocks, focusKey).value;
    IndexOfPosition(c, a);
    if !isSameBlock {
      var blockKey := anchorKey;
      ghost var i := a;
      while blockKey != focusKey
        invariant a <= i <= f < |c.blocks|
        invariant c.blocks[f].key == focusKey
        invariant blockKey == c.blocks[i].key
        invariant selected == c.blocks[a .. i + 1]
        invariant steps == i - a
        decreases |c.blocks| - i
      {
        assert i < f;
        AfterPosition(c, i);
        assert GetBlockAfter(c, blockKey) == Some(c.blocks[i + 1]);
        var nextBlock := GetBlockAfter(c, blockKey).value;
        SliceExtend(c.blocks, a, i + 1);
        selected := selected + [nextBlock];
        blockKey := nextBlock.key;
        steps := steps + 1;
        i := i + 1;
      }
      IndexOfPosition(c, i);
    }
    assert selected == Range(c, anchorKey, focusKey);
    RangeIsForwardPath(c, anchorKey, focusKey);
  }

  /** Splitting the first element off a non-empty slice. */
  lemma SliceCons<T>(s: seq<T>, lo: nat, hi: nat)
    requires lo < hi <= |s|
    ensures s[lo .. hi] == [s[lo]] + s[lo + 1 .. hi]
  {
  }

  /** Extending a slice by the element just past its end. */
  lemma SliceExtend<T>(s: seq<T>, lo: nat, hi: nat)
    requires lo <= hi < |s|
    ensures s[lo .. hi + 1] == s[lo .. hi] + [s[hi]]
  {
  }

  /** Block `j` of the reference slice sits at position `j` past the
      anchor, so the slice is in strictly increasing document order. */
  lemma RangePositions(c: ContentState, anchorKey: Key, focusKey: Key)
    requires WellFormed(c)
    requires InOrder(c, anchorKey, focusKey)
    ensures forall j :: 0 <= j < |Range(c, anchorKey, focusKey)| ==>
      IndexOf(c.blocks, Range(c, anchorKey, focusKey)[j].key) == Some(IndexOf(c.blocks, anchorKey).value + j)
  {
    var a := IndexOf(c.blocks, anchorKey).value;
    var s := Range(c, anchorKey, focusKey);
    forall j | 0 <= j < |s|
      ensures IndexOf(c.blocks, s[j].key) == Some(a + j)
    {
      IndexOfPosition(c, a + j);
    }
  }

  /** How far a key's block is from the end of the document; the walk
      strictly decreases it. */
  function Remaining(c: ContentState, key: Key): (r: nat) {
    match IndexOf(c.blocks, key)
    case None => 0
    case Some(i) => |c.blocks| - i
  }

  /** The loop, total: the blocks collected after `blockKey` up to and
      including the focus, or the fault raised when a forward step returns
      `undefined`. */
  function Walk(c: ContentState, blockKey: Key, focusKey: Key): (r: Result<seq<Block>, Fault>)
    requires WellFormed(c)
    ensures r.Ok? ==> (|r.value| == 0 <==> blockKey == focusKey)
    ensures r.Ok? && |r.value| > 0 ==> r.value[|r.value| - 1].key == focusKey
    decreases Remaining(c, blockKey)
  {
    if blockKey == focusKey then Ok([])
    else match GetBlockAfter(c, blockKey)
      case None => Err(KeyOfUndefined)
      case Some(nextBlock) =>
        AfterAdvances(c, blockKey);
        match Walk(c, nextBlock.key, focusKey)
        case Ok(rest) => Ok([nextBlock] + rest)
        case Err(e) => Err(e)
  }

  /** Blocks seen as possibly-`undefined` values. */
  function Defined(s: seq<Block>): (r: seq<Option<Block>>) {
    seq(|s|, j requires 0 <= j < |s| => Some(s[j]))
  }

  /** The collector, total.  The first element is the raw result of the
      anchor lookup, which is `None` when the anchor key names no block and
      equals the focus key: the fast path returns it unchecked. */
  function Collect(c: ContentState, anchorKey: Key, focusKey: Key): (r: Result<seq<Option<Block>>, Fault>)
    requires WellFormed(c)
    ensures r.Ok? ==> |r.value| >= 1 && r.value[0] == GetBlockForKey(c, anchorKey)
    ensures r.Ok? ==> forall j :: 1 <= j < |r.value| ==> r.value[j].Some?
    ensures r.Ok? && r.value[|r.value| - 1].Some? ==> r.value[|r.value| - 1].value.key == focusKey
    ensures anchorKey == focusKey ==> r == Ok([GetBlockForKey(c, anchorKey)])
  {
    var startingBlock := GetBlockForKey(c, anchorKey);
    if anchorKey == focusKey then Ok([startingBlock])
    else match Walk(c, anchorKey, focusKey)
      case Ok(rest) => Ok([startingBlock] + Defined(rest))
      case Err(e) => Err(e)
  }

  /** Walking from the block at position `i` to the block at position `j`
      collects exactly the blocks at positions `i + 1` through `j`. */
  lemma {:induction false} WalkCollectsSlice(c: ContentState, i: nat, j: nat)
    requires WellFormed(c)
    requires i <= j < |c.blocks|
    ensures Walk(c, c.blocks[i].key, c.blocks[j].key) == Ok(c.blocks[i + 1 .. j + 1])
    decreases j - i
  {
    if i < j {
      IndexOfPosition(c, i);
      IndexOfPosition(c, j);
      assert c.blocks[i].key != c.blocks[j].key;
      AfterPosition(c, i);
      WalkCollectsSlice(c, i + 1, j);
      SliceCons(c.blocks, i + 1, j + 1);
      assert Walk(c, c.blocks[i].key, c.blocks[j].key)
        == Ok([c.blocks[i + 1]] + c.blocks[i + 2 .. j + 1]);
    } else {
      assert Walk(c, c.blocks[i].key, c.blocks[j].key) == Ok([]);
      assert c.blocks[i + 1 .. j + 1] == [];
    }
  }

  /** When the focus is not reachable forward from `blockKey`, the walk
      faults. */
  lemma {:induction false} WalkFaults(c: ContentState, blockKey: Key, focusKey: Key)
    requires WellFormed(c)
    requires blockKey != focusKey
    requires !InOrder(c, blockKey, focusKey)
    ensures Walk(c, blockKey, focusKey) == Err(KeyOfUndefined)
    decreases Remaining(c, blockKey)
  {
    match GetBlockAfter(c, blockKey)
    case None =>
    case Some(nextBlock) =>
      AfterAdvances(c, blockKey);
      WalkFaults(c, nextBlock.key, focusKey);
  }

  /** The walk returns normally exactly when the focus is reachable forward
      from `blockKey`. */
  lemma WalkOkIff(c: ContentState, blockKey: Key, focusKey: Key)
    requires WellFormed(c)
    ensures Walk(c, blockKey, focusKey).Ok? <==> blockKey == focusKey || InOrder(c, blockKey, focusKey)
  {
    if blockKey != focusKey {
      if InOrder(c, blockKey, focusKey) {
        WalkCollectsSlice(c, IndexOf(c.blocks, blockKey).value, IndexOf(c.blocks, focusKey).value);
      } else {
        WalkFaults(c, blockKey, focusKey);
      }
    }
  }

  /** The collector returns normally exactly when the two keys are equal or
      the focus is at or after the anchor; otherwise it faults. */
  lemma CollectOkIff(c: ContentState, anchorKey: Key, focusKey: Key)
    requires WellFormed(c)
    ensures Collect(c, anchorKey, focusKey).Ok? <==> anchorKey == focusKey || InOrder(c, anchorKey, focusKey)
    ensures Collect(c, anchorKey, focusKey).Err? ==> Collect(c, anchorKey, focusKey).error == KeyOfUndefined
  {
    WalkOkIff(c, anchorKey, focusKey);
  }

  /** Under the precondition the total collector returns the reference
      slice. */
  lemma CollectMatchesRange(c: ContentState, anchorKey: Key, focusKey: Key)
    requires WellFormed(c)
    requires InOrder(c, anchorKey, focusKey)
    ensures Collect(c, anchorKey, focusKey) == Ok(Defined(Range(c, anchorKey, focusKey)))
  {
    var a := IndexOf(c.blocks, anchorKey).value;
    var f := IndexOf(c.blocks, focusKey).value;
    var start := c.blocks[a];
    IndexOfPosition(c, a);
    assert GetBlockForKey(c, anchorKey) == Some(start);
    if anchorKey != focusKey {
      var rest := c.blocks[a + 1 .. f + 1];
      WalkCollectsSlice(c, a, f);
      assert Walk(c, anchorKey, focusKey) == Ok(rest);
      assert Collect(c, anchorKey, focusKey) == Ok([Some(start)] + Defined(rest));
      SliceCons(c.blocks, a, f + 1);
      assert Range(c, anchorKey, focusKey) == [start] + rest;
      DefinedCons(start, rest);
    } else {
      assert Range(c, anchorKey, focusKey) == [start];
      assert Defined([start]) == [Some(start)];
    }
  }

  /** `Defined` distributes over putting a block in front. */
  lemma DefinedCons(b: Block, s: seq<Block>)
    ensures Defined([b] + s) == [Some(b)] + Defined(s)
  {
  }

  /** The reference slice meets the forward-path description. */
  lemma RangeIsForwardPath(c: ContentState, anchorKey: Key, focusKey: Key)
    requires WellFormed(c)
    requires InOrder(c, anchorKey, focusKey)
    ensures IsForwardPath(c, anchorKey, focusKey, Range(c, anchorKey, focusKey))
  {
    var a := IndexOf(c.blocks, anchorKey).value;
    var f := IndexOf(c.blocks, focusKey).value;
    var s := Range(c, anchorKey, focusKey);
    assert forall j :: 0 <= j < |s| ==> s[j] == c.blocks[a + j];
    IndexOfPosition(c, a);
    forall j | 0 < j < |s|
      ensures GetBlockAfter(c, s[j - 1].key) == Some(s[j])
    {
      assert s[j - 1] == c.blocks[a + j - 1] && s[j] == c.blocks[a + j] && a + j < |c.blocks|;
      AfterPosition(c, a + j - 1);
    }
    forall j | 0 <= j < |s| - 1
      ensures s[j].key != focusKey
    {
      IndexOfPosition(c, a + j);
    }
  }

  /** A chain that starts at position `a` is the slice of the document of
      its own length starting there. */
  lemma {:induction false} ChainIsSlice(c: ContentState, s: seq<Block>, a: nat)
    requires WellFormed(c)
    requires |s| > 0 && a < |c.blocks| && s[0] == c.blocks[a]
    requires Chain(c, s)
    ensures a + |s| <= |c.blocks|
    ensures s == c.blocks[a .. a + |s|]
  {
    if |s| > 1 {
      var p := s[.. |s| - 1];
      assert Chain(c, p) by {
        forall j | 0 < j < |p|
          ensures GetBlockAfter(c, p[j - 1].key) == Some(p[j])
        {
          assert p[j - 1] == s[j - 1] && p[j] == s[j];
        }
      }
      ChainIsSlice(c, p, a);
      var k := a + |s| - 2;
      assert s[|s| - 2] == p[|p| - 1] == c.blocks[k];
      assert GetBlockAfter(c, c.blocks[k].key) == Some(s[|s| - 1]);
      AfterPosition(c, k);
      assert s == p + [s[|s| - 1]];
      SliceExtend(c.blocks, a, k + 1);
    }
  }

  /** The forward-path description has exactly one solution, the reference
      slice, and it has one only when the precondition holds. */
  lemma ForwardPathIsRange(c: ContentState, anchorKey: Key, focusKey: Key, s: seq<Block>)
    requires WellFormed(c)
    requires IsForwardPath(c, anchorKey, focusKey, s)
    ensures InOrder(c, anchorKey, focusKey)
    ensures s == Range(c, anchorKey, focusKey)
  {
    var a := IndexOf(c.blocks, anchorKey).value;
    ChainIsSlice(c, s, a);
    var f := a + |s| - 1;
    IndexOfPosition(c, f);
    assert s[|s| - 1] == c.blocks[f];
  }
}
