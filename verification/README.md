# getSelectedBlocks, modelled in Dafny

This project models the block-range collector of draft-js-utils
(`src/getSelectedBlocks.js`). Given a draft.js content state and the keys of
an anchor block and a focus block, the collector returns every content block
from the anchor to the focus, inclusive and in document order. When the two
keys are equal it returns the anchor's block on its own. Otherwise it starts
from the anchor's block and keeps asking the content state for the block after
the current key. It appends each block it gets and stops once the appended
block's key is the focus key.

The host document model is reduced to the part the collector uses:

- `Document.ContentState` is the block map as a sequence of `Block`s in
  document order.
- `Document.WellFormed` says that no two blocks share a key, which is the
  invariant of draft.js's keyed block map.
- A block's key in the map and the key the block reports through `getKey()`
  are one field, `Block.key`. The loop relies on this: it looks a block up by
  map key and then reads the key off the block it got.
- `Block.text` stands for the rest of a content block. The collector never
  reads it and returns blocks whole.
- `GetBlockForKey` and `GetBlockAfter` model the two lookups the collector
  calls. `None` stands for JavaScript's `undefined`.
- Values are immutable, so the collector cannot change the content state.

The collector is modelled twice:

- `SelectedBlocks.GetSelectedBlocks` is the loop as written. It carries the
  precondition its callers must meet: both keys name blocks, and the anchor
  does not come after the focus. Its contract says that the result is exactly
  the slice of the document between the two positions. It also proves that the
  result meets an independent forward-path description and that the loop
  terminates. A ghost counter `steps` records the number of forward lookups;
  it is not part of the returned value.
- `SelectedBlocks.Collect`, with `Walk` for the loop, is total. When the
  precondition fails, a forward step returns `undefined`. That happens either
  past the last block, or at once when the anchor key names no block.
  Reading that value's key throws, and the model returns `Err(KeyOfUndefined)`
  for it. The lemmas prove when this happens: exactly when the keys differ and
  the focus is not at or after the anchor.

Callers are expected to pass keys that name blocks. On the same-key fast
path, though, the code returns the raw lookup unchecked, so a missing key
gives `[undefined]` rather than a fault. `Collect` follows the code: the first
element of its result is the raw `Option<Block>` from the lookup, and with
equal keys the result is exactly that one element.

## Model

| member | source | states |
|---|---|---|
| `Document.IndexOf` | src/getSelectedBlocks.js:12 | a position found for a key is inside the document and holds a block with that key |
| `Document.IndexOfFirst` | src/getSelectedBlocks.js:12 | the position found is the first block with the key, and nothing is found exactly when no block has the key |
| `Document.GetBlockForKey` | src/getSelectedBlocks.js:12 | a block found by key is a block of the document and carries that key |
| `Document.LookupAbsent` | src/getSelectedBlocks.js:12 | looking up a key gives `undefined` exactly when no block carries it |
| `Document.GetBlockAfter` | src/getSelectedBlocks.js:19 | a block found by a forward step is a block of the document other than the first |
| `Document.DistinctKeysIffPairwise` | src/getSelectedBlocks.js:4 | the recursive well-formedness of a block map holds exactly when no two positions carry the same key |
| `Document.IndexOfPosition` | src/getSelectedBlocks.js:12 | in a keyed block map, looking up a block's own key finds that block at its own position |
| `Document.AfterPosition` | src/getSelectedBlocks.js:19 | a forward step from the block at position i gives the block at position i + 1, and `undefined` from the last block |
| `Document.AfterAbsent` | src/getSelectedBlocks.js:19 | a forward step gives `undefined` exactly when the key is absent or belongs to the last block |
| `Document.AfterAdvances` | src/getSelectedBlocks.js:19-21 | each forward step moves exactly one position further, which is what makes the loop terminate |
| `SelectedBlocks.GetSelectedBlocks` | src/getSelectedBlocks.js:10-26 | under the precondition the loop terminates, and its result is the slice from the anchor's position to the focus's position inclusive, so it has index(focus) − index(anchor) + 1 blocks. The result starts with the anchor's block, each later block follows its predecessor, and it ends at the first block with the focus key. The ghost forward-step count is one less than the result's length. With equal keys the result is just the anchor's block and no step is taken |
| `SelectedBlocks.RangePositions` | src/getSelectedBlocks.js:10-26 | block j of the result sits at document position index(anchor) + j, so every block comes from the document and they appear in strictly increasing document order |
| `SelectedBlocks.Walk` | src/getSelectedBlocks.js:16-22 | if the walk returns normally, it collected nothing exactly when it started at the focus key, and otherwise the last block it collected has the focus key |
| `SelectedBlocks.Collect` | src/getSelectedBlocks.js:10-26 | if the collector returns normally, its result is non-empty and starts with the raw lookup of the anchor key. Every later element is a defined block, and the last element, when defined, has the focus key. With equal keys the result is exactly the one raw lookup, `[undefined]` when the key names no block |
| `SelectedBlocks.WalkCollectsSlice` | src/getSelectedBlocks.js:18-22 | walking from the block at position i to the block at position j ≥ i collects exactly the blocks at positions i + 1 through j |
| `SelectedBlocks.WalkFaults` | src/getSelectedBlocks.js:18-21 | when the focus cannot be reached going forward, the walk throws on reading the key of `undefined`, whether the step went past the last block or started from a key that names no block |
| `SelectedBlocks.WalkOkIff` | src/getSelectedBlocks.js:16-22 | the walk returns normally if and only if it starts at the focus key, or both keys name blocks and the focus is at or after the start |
| `SelectedBlocks.CollectOkIff` | src/getSelectedBlocks.js:10-26 | the collector returns normally if and only if the keys are equal, or both keys name blocks and the focus is at or after the anchor. Its only failure is the throw on reading the key of `undefined` |
| `SelectedBlocks.CollectMatchesRange` | src/getSelectedBlocks.js:10-26 | under the precondition the total collector returns exactly the slice from the anchor to the focus |
| `SelectedBlocks.RangeIsForwardPath` | src/getSelectedBlocks.js:13-22 | the slice from the anchor to the focus starts at the anchor's block, steps forward one block at a time, and ends at the first block with the focus key, so nothing past the focus is included |
| `SelectedBlocks.ChainIsSlice` | src/getSelectedBlocks.js:19-21 | a sequence whose blocks each follow their predecessor, and which starts at position a, is the document slice of its own length from position a |
| `SelectedBlocks.ForwardPathIsRange` | src/getSelectedBlocks.js:13-22 | any sequence that starts at the anchor's block, steps forward one block at a time and stops at the first block with the focus key is the slice from the anchor to the focus, and such a sequence exists only when the precondition holds |

## Left out

- `selectionContainsEntity`, the entity check over a selection, is outside the scope of this model.
- The test scaffolding in `src/__tests__/selectionContainsEntity-test.js` is not modelled: the editor states it builds, the entity strategy and `findEntityRanges`.
- The draft.js library itself is reduced to a key-ordered sequence of blocks with lookup by key and a forward step. Its immutable `OrderedMap` implementation, block fields other than key and text, the entity registry, `Modifier`, `EditorState.push` and `forceSelection` are not modelled.
- JavaScript's exception machinery is reduced to a `Result` value. The throw on `nextBlock.getKey()` for an `undefined` block is `Err(KeyOfUndefined)`. Which `TypeError` message the engine produces is not modelled.
