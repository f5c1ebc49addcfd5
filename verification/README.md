# NotionFront editor core in Dafny

A model of the block editor in `script.js`, NotionFront's single-page front end.
Users keep a list of pages. Each page has a title, an icon and a body made of
blocks. The model covers:

- the editor's Enter and Backspace handling;
- reordering blocks by drag and drop, with the `drop-indicator` marker;
- the page working set as `loadPages`, `createPage` and `deletePage` change it;
- the page-switch guard in `renderUI`, which reloads the editor only when the
  page on screen changes;
- the debounced autosave (`debounceSave` and the local-state half of
  `saveCurrentPage`).

The state the script keeps in its `DOMContentLoaded` closure is the class
`App.Session`:

- `pages` and `currentPageId`;
- the title element's text and its `data-id`;
- the editor's children and the selection;
- `draggedBlock`;
- `saveTimeout`;
- the save-status text.

There is one method per handler or function that changes this state. Each method
is proved against pure functions in the other modules:

| module | contents |
|---|---|
| `JsText` | `String.prototype.trim` with the ECMA-262 white-space set |
| `Blocks` | the editor's children as a sequence of `Block(id, text, marked)` |
| `Editing` | Enter and Backspace |
| `Drag` | `insertBefore` under the pre-insert steps of the WHATWG DOM Living Standard, and the drop markers |
| `Pages` | `find`, `filter` and `unshift` on the page list |
| `Autosave` | the timer queue seen through `clearTimeout` and `setTimeout` |

Live DOM nodes are modelled as blocks with explicit identities. Identities come
from a counter `nextId` that the session owns. `editor.innerHTML = content`
parses the content into fresh nodes, so rendering a page gives its blocks fresh
identities. The class invariant `Valid()` has four parts:

- identities are unique;
- every identity is below `nextId`;
- at most one block carries the drop marker;
- only the timer `saveTimeout` names can still be pending.

Enter inserts an empty block and does not split the text at the caret
(script.js:295). Blocks have no kinds. Saves are not serialised. An edit made
while a PUT is in flight arms a new timer, and the two requests can overlap.

Two behaviours of the code, as modelled:

- With duplicate page ids, `pages.filter` (script.js:220) can remove every page.
  `pages[0].id` (script.js:221) then throws inside the `try`, and the user sees the
  "Error al borrar la página" alert while the working set is already empty.
  `App.Session.DeletePage` returns `DeleteFailed` with the filtered list in that
  case. `Pages.DeleteLeavesAPage` shows the list never empties when ids are
  distinct, for deletes that do not overlap.
- Edits typed less than the quiet period before a page switch are lost.
  `renderUI` replaces the editor at once (`App.RenderShowsCurrentPage`: whatever
  was in the editor is gone). When the pending save fires, `App.Session.SaveTimerFires`
  writes the newly shown title and blocks into the newly current page. The
  earlier page's local copy never receives those edits.

## Model

| member | source | states |
|---|---|---|
| JsText.TrimStartStrips | script.js:308 | the left half of `trim` keeps a suffix; everything it drops is white space; what it keeps does not start with white space |
| JsText.TrimEndStrips | script.js:308 | the right half keeps a prefix; everything it drops is white space; what it keeps does not end with white space |
| JsText.TrimEmptyIffBlank | script.js:308 | `text.trim() === ''` holds exactly when every character is ECMA-262 white space or a line terminator |
| JsText.TrimKeepsText | script.js:308 | a text with one character that is not white space never trims to the empty string |
| Blocks.IndexOf | script.js:293 | `closest('.block-wrapper')` as a lookup: the first block with that identity, or none exactly when no block has it |
| Blocks.IndexOfUnique | script.js:293 | with unique identities, the block at position i is found at i |
| Blocks.RemoveInserted | script.js:295 | `insertAdjacentHTML('afterend')` puts the new block right after position i; removing it gives back the original sequence |
| Blocks.RemoveAtUnique | script.js:322 | `wrapper.remove()` keeps identities unique and drops exactly the removed block's identity |
| Blocks.InsertAfterUnique | script.js:295 | inserting a block with a fresh identity keeps identities unique and adds exactly that identity |
| Blocks.SameIds | script.js:349-350 | changing texts or markers in place keeps the set of identities and their uniqueness |
| Blocks.Materialize | script.js:245 | parsing stored content gives the same texts in order, unique fresh identities in [base, base + n), and no markers |
| Editing.CaretIndex | script.js:293-294 | the caret's block is found exactly when there is a selection and its block is still in the editor |
| Editing.EnterInsertsEmptyBlockAfter | script.js:291-298 | Enter adds exactly one block, empty and unmarked, right after the current one; every other block keeps its order |
| Editing.BackspaceGuard | script.js:308-312 | a block is removed exactly when its text is all white space, the editor holds more than one block, and the block has a predecessor; otherwise nothing changes; at least one block always remains |
| Editing.BackspaceKeepsNeighbours | script.js:310-322 | a removal keeps the predecessor and every earlier block in place, and the later blocks close up |
| Editing.EnterThenBackspaceRestores | script.js:291-325 | Enter then Backspace in the new block restores the original blocks and puts the caret at the end of the first block |
| Editing.ReplayKeepsOneBlock | script.js:289-327 | no sequence of Enter and Backspace keystrokes empties an editor that has a block |
| Drag.MoveBefore | script.js:358 | the reorder keeps the number of blocks |
| Drag.MovePermutes | script.js:358 | the reorder is a permutation of the blocks |
| Drag.MoveOntoSelfOrNowhere | script.js:358 | dropping a block onto itself, or with a block that is not in the editor, changes nothing |
| Drag.MoveUnique | script.js:358 | the reorder keeps identities unique and the same |
| Drag.MovePlacesBeforeTarget | script.js:358 | after a move between two distinct blocks, the dragged block sits immediately before the target |
| Drag.MoveKeepsOthersInOrder | script.js:358 | every block except the dragged one keeps its relative order |
| Drag.MoveSwapsAdjacent | script.js:358 | moving a block in front of its predecessor swaps the two |
| Drag.MoveBackRestores | script.js:358 | moving a block in front of its predecessor and then moving the predecessor back restores the original order |
| Drag.MoveKeepsMarkedCount | script.js:358 | the reorder keeps the number of drop markers |
| Drag.MarkedCountUpdate | script.js:350 | setting or clearing one block's marker changes the count by that block alone |
| Drag.ClearMarks | script.js:349 | the `forEach` removes every marker and changes nothing else |
| Drag.HoverMarksOnlyTarget | script.js:345-352 | `dragover` never changes identities or texts; over a block of the editor other than the drag subject, that block ends up the only marked one; when it changes anything, the target alone is marked and it is not the drag subject |
| Drag.DropKeepsBlocks | script.js:353-361 | `drop` keeps the identities (still unique), the number of blocks and the texts as a multiset, and never adds a marker |
| Drag.TextsOfPermutation | script.js:358 | permuting blocks permutes their stored texts |
| Pages.FindId | script.js:189 | `pages.find` by id: the first page with that id, or none exactly when no page has it |
| Pages.Without | script.js:220 | `pages.filter(p => p.id !== id)` keeps exactly the pages with another id |
| Pages.WithoutKeepsOrder | script.js:220 | the filter works element by element, so the kept pages stay in order |
| Pages.WithoutLength | script.js:220 | the filter drops exactly as many pages as carry the id |
| Pages.WithoutAbsent | script.js:220 | filtering out an id no page carries leaves the list unchanged |
| Pages.DistinctCountAtMostOne | script.js:220 | with distinct ids, an id is carried by at most one page, and by one exactly when it is present |
| Pages.WithoutDistinct | script.js:220 | the filter keeps ids distinct |
| Pages.DeleteLeavesAPage | script.js:213-221 | with distinct ids and at least two pages, deleting leaves at least one page, so `pages[0]` exists |
| Autosave.AtMostOnePending | script.js:229-233 | at most one save is ever pending |
| Autosave.Debounce | script.js:229-233 | `clearTimeout` then `setTimeout` leave exactly one pending save, under a new handle, and cancel the earlier one |
| Autosave.Fire | script.js:232 | once the pending save runs, nothing is pending |
| Autosave.BurstLeavesOnePending | script.js:229-233 | a burst of edits leaves exactly one save pending, under the last handle; every earlier one is cancelled |
| Autosave.NothingPendingNoSave | script.js:230-232 | with nothing pending, no timer expiry runs a save |
| Autosave.OnePendingOneSave | script.js:232 | with one save pending, the expiries run it once if they include it and never otherwise |
| Autosave.BurstYieldsOneSave | script.js:229-233 | a burst of edits causes at most one save, and exactly one once the last quiet period has elapsed |
| App.RenderShowsCurrentPage | script.js:236-247 | with the current page off screen, `renderUI` loads its title and content and drops the selection; with it on screen, nothing changes; the editor invariant is kept |
| App.CreatedPageShowsOneEmptyBlock | script.js:160-180 | a page just created and made current shows an empty title and one empty block |
| App.EnterKeepsViewValid | script.js:295 | Enter keeps the editor invariant and the new block's identity is fresh |
| App.RemoveKeepsViewValid | script.js:322 | removing a block keeps the editor invariant |
| App.HoverKeepsViewValid | script.js:345-352 | `dragover` keeps the editor invariant |
| App.DropKeepsViewValid | script.js:353-361 | `drop` keeps the editor invariant |
| App.Session.constructor | script.js:11-18 | the state at load has no pages, nothing current, an empty editor, no drag subject and no pending save |
| App.Session.DebounceSave | script.js:229-233 | shows "Cambios sin guardar..." and leaves exactly one save pending, under a new handle; nothing else changes |
| App.Session.SaveTimerFires | script.js:187-201 | the pending save runs: status "Guardando..."; if the current page exists, its local copy takes the title and the block texts and a request is sent; otherwise nothing else changes |
| App.Session.SaveCompletes | script.js:196-208 | the reply shows "Guardado" or "Error al guardar"; there is no retry and the local copy is kept |
| App.Session.RenderUI | script.js:236-250 | the editor becomes the page-switch guard's view of the current page; the page list is untouched |
| App.Session.CreatePage | script.js:160-184 | on success the new page goes to the front, becomes current and is rendered; on failure nothing changes |
| App.Session.LoadPages | script.js:141-157 | the list replaces the working set; an empty list triggers `createPage`; a falsy `currentPageId` (null or 0) becomes the first page; a failed request changes nothing |
| App.Session.SelectPage | script.js:265-270 | a click on a page makes it current and renders it |
| App.Session.DeletePage | script.js:212-226 | refuses with one page or less; cancels without confirmation; on success filters the id out, moves the selection to the first page when needed and renders; with distinct ids, a delete that does not overlap another never empties the working set |
| App.Session.EditText | script.js:330 | an edit changes the text of that block only and re-arms the save |
| App.Session.EditTitle | script.js:331-334 | a title edit changes the title and re-arms the save |
| App.Session.PressEnter | script.js:291-300 | without Shift and with the caret in a block, inserts an empty block after it, focuses it and re-arms the save; otherwise nothing changes |
| App.Session.PressBackspace | script.js:302-326 | intercepted exactly when the caret's block trims to empty and there is more than one block; then, only if a predecessor exists, removes the block, puts the caret at the end of the predecessor and re-arms the save; otherwise nothing changes |
| App.Session.DragStart | script.js:337-344 | a drag that starts on a handle makes that block the drag subject; any other drag changes nothing |
| App.Session.ClearMarkers | script.js:349 | the loop clears every marker and changes nothing else |
| App.Session.DragOver | script.js:345-352 | over a block other than the subject, clears the markers and marks that block; otherwise nothing changes |
| App.CaretAfterMove | script.js:358 | a selection inside the moved block is lost (it collapses onto the editor); any other selection is kept |
| App.MovedCaretFindsNoBlock | script.js:293 | after the caret's own block is moved, the caret is in no block, so a following Enter or Backspace leaves the blocks alone |
| App.Session.Drop | script.js:353-361 | with a subject and a target, unmarks the target, moves the subject in front of it, drops a selection that was inside the subject, and re-arms the save; the texts as a multiset and the identities are kept |
| App.Session.DragEnd | script.js:362-366 | clears every marker and forgets the drag subject |

## Left out

- Network, authentication and the JWT token (`apiCall`, the login form) are not
  modelled. API outcomes, the ids the server returns and the page lists it sends
  are parameters of the methods.
- Timers are not modelled in time. The expiry of a save timer is the separate
  method `SaveTimerFires`, and the reply to the PUT is `SaveCompletes`. The
  1000 ms quiet period is not modelled: any expiry order of the scheduled
  timers is allowed.
- `confirm` and `alert` are not modelled as dialogs. The answer to `confirm` is a
  parameter, and each alert is a `DeleteOutcome`.
- Rendering of the sidebar list, the breadcrumb, the menus, the mobile sidebar
  and the `dragging` class is left out. These change nothing the core reads back,
  except the page menu's delete action.
- The page menu's delete action is not modelled. It passes `activeMenuPageId`
  (script.js:392) to `deletePage` only behind `if(activeMenuPageId)`
  (script.js:404), so a page with id 0 is never deleted from the menu.
  `App.Session.DeletePage` takes the id directly.
- Page content is stored as the list of block texts. It does not keep the
  wrapper markup, nested elements or any inline formatting. A `drop-indicator`
  class that would be saved with the markup is not kept either.
- App.Session.PressBackspace: the caret is always in a block's editable part. A
  selection anchored inside a nested element of the block, which the
  `editable-block` class test rejects, is not modelled.
- App.Session.DeletePage: the `await` of the DELETE request is not split from the
  guard and the filter; the same holds for `App.Session.CreatePage` and
  `App.Session.LoadPages`. Overlapping calls are not covered. For example, with
  pages A(1) and B(2), deleting A and then B before either reply arrives passes
  both `pages.length <= 1` guards. The two filters then empty the list, and the
  second reply's `pages[0].id` ends in the alert.
- App.Session.Drop: a drag subject no longer in the editor is left where it is.
  It may have been removed by Backspace or replaced by a render. In the browser,
  `insertBefore` would put that detached node back.
- The editor content before the first `renderUI` is not modelled; the session
  starts with an empty editor.
- Page ids are numbers (`int`), as `Number(els.pageTitle.dataset.id) !== page.id`
  (script.js:242) assumes. With string ids the `renderUI` guard would reload the
  editor on every call; that case is not modelled.
- Concurrency between overlapping saves is reduced to an in-flight counter. The
  order in which replies arrive is not modelled.
- Focus and the browser's own text editing (Shift+Enter, typing) are not
  modelled. They arrive as `EditText` with the new text and caret offset.
