/** The editor's keydown handler for Enter and Backspace, as transformations of the
    block sequence and of the caret. */
module Editing {
  import opened Wrappers
  import opened Blocks
  import JsText

  /** The selection anchor: the block whose editable part holds it, and an offset
      into that block's text. */
  datatype Caret = Caret(block: nat, offset: nat)

  /** `anchorNode ... .closest('.block-wrapper')`: the position of the block that
      holds the caret, or None when there is no caret or its block is no longer a
      child of the editor. */
  function CaretIndex(s: seq<Block>, caret: Option<Caret>): (r: Option<nat>)
    ensures r.Some? ==> caret.Some? && r.value < |s| && s[r.value].id == caret.value.block
    ensures r.None? <==> caret.None? || caret.value.block !in Ids(s)
  {
    if caret.None? then None else IndexOf(s, caret.value.block)
  }

  /** Enter without Shift in the block at position `at`: one empty block, with the
      new identity `newId`, right after it. The text is not split at the caret. */
  function Enter(s: seq<Block>, at: nat, newId: nat): seq<Block>
    requires at < |s|
  {
    InsertAfter(s, at, EmptyBlock(newId))
  }

  /** Enter adds exactly one block, empty and unmarked, directly after the current
      one; taking it out again gives back the original sequence, so every other
      block keeps its relative order. */
  lemma EnterInsertsEmptyBlockAfter(s: seq<Block>, at: nat, newId: nat)
    requires at < |s|
    ensures |Enter(s, at, newId)| == |s| + 1
    ensures Enter(s, at, newId)[at] == s[at]
    ensures Enter(s, at, newId)[at + 1] == Block(newId, "", false)
    ensures RemoveAt(Enter(s, at, newId), at + 1) == s
  {
    RemoveInserted(s, at, EmptyBlock(newId));
  }

  /** Backspace is taken over by the handler (`preventDefault`) when the block's
      trimmed text is empty and the editor holds more than one block. */
  predicate BackspaceIntercepted(s: seq<Block>, at: nat)
    requires at < |s|
  {
    JsText.Trim(s[at].text) == "" && |s| > 1
  }

  /** ... and the block is removed only when it also has a predecessor. */
  predicate BackspaceRemoves(s: seq<Block>, at: nat)
    requires at < |s|
  {
    BackspaceIntercepted(s, at) && at > 0
  }

  function Backspace(s: seq<Block>, at: nat): seq<Block>
    requires at < |s|
  {
    if BackspaceRemoves(s, at) then RemoveAt(s, at) else s
  }

  /** After a removal the caret sits at the end of the predecessor's text. */
  function CaretAfterBackspace(s: seq<Block>, at: nat): Caret
    requires 0 < at < |s|
  {
    Caret(s[at - 1].id, |s[at - 1].text|)
  }

  /** The removal guard in terms of the block's characters: a block is removed
      exactly when it is white space only, it is not alone, and it has a
      predecessor; otherwise the sequence is unchanged. Either way at least one
      block remains. */
  lemma BackspaceGuard(s: seq<Block>, at: nat)
    requires at < |s|
    ensures BackspaceRemoves(s, at) <==> JsText.IsBlank(s[at].text) && |s| > 1 && at > 0
    ensures !BackspaceRemoves(s, at) ==> Backspace(s, at) == s
    ensures BackspaceRemoves(s, at) ==> |Backspace(s, at)| == |s| - 1
    ensures |Backspace(s, at)| >= 1
  {
    JsText.TrimEmptyIffBlank(s[at].text);
  }

  /** A removal takes out exactly the current block: the predecessor and every
      block before it stay as they were, the blocks after it close up. */
  lemma BackspaceKeepsNeighbours(s: seq<Block>, at: nat)
    requires at < |s| && BackspaceRemoves(s, at)
    ensures Backspace(s, at)[..at] == s[..at]
    ensures Backspace(s, at)[at - 1] == s[at - 1]
    ensures Backspace(s, at)[at..] == s[at + 1..]
  {
  }

  /** Enter followed by Backspace in the new block restores the original sequence,
      and the caret returns to the end of the block Enter was pressed in. */
  lemma EnterThenBackspaceRestores(s: seq<Block>, at: nat, newId: nat)
    requires at < |s|
    ensures BackspaceRemoves(Enter(s, at, newId), at + 1)
    ensures Backspace(Enter(s, at, newId), at + 1) == s
    ensures CaretAfterBackspace(Enter(s, at, newId), at + 1) == Caret(s[at].id, |s[at].text|)
  {
    EnterInsertsEmptyBlockAfter(s, at, newId);
    assert JsText.Trim("") == "";
  }

  /** A keystroke handled by the editor, addressed by block position. */
  datatype Key = EnterAt(at: nat) | BackspaceAt(at: nat)

  /** Replays keystrokes; one addressed past the end finds no block and does nothing.
      New blocks take identities `newId`, `newId + 1`, ... */
  function Replay(s: seq<Block>, keys: seq<Key>, newId: nat): seq<Block>
    decreases |keys|
  {
    if keys == [] then s
    else
      var next :=
        match keys[0]
        case EnterAt(at) => if at < |s| then Enter(s, at, newId) else s
        case BackspaceAt(at) => if at < |s| then Backspace(s, at) else s;
      Replay(next, keys[1..], newId + 1)
  }

  /** Whatever Enter and Backspace keystrokes arrive, an editor with a block keeps
      at least one. */
  lemma {:induction false} ReplayKeepsOneBlock(s: seq<Block>, keys: seq<Key>, newId: nat)
    requires |s| >= 1
    ensures |Replay(s, keys, newId)| >= 1
    decreases |keys|
  {
    if keys != [] {
      match keys[0] {
        case EnterAt(at) =>
          if at < |s| { EnterInsertsEmptyBlockAfter(s, at, newId); }
        case BackspaceAt(at) =>
          if at < |s| { BackspaceGuard(s, at); }
      }
      var next :=
        match keys[0]
        case EnterAt(at) => if at < |s| then Enter(s, at, newId) else s
        case BackspaceAt(at) => if at < |s| then Backspace(s, at) else s;
      ReplayKeepsOneBlock(next, keys[1..], newId + 1);
    }
  }
}
