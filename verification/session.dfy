/** The editor session: the state the script keeps in the closure of its
    `DOMContentLoaded` handler, with one method per handler or function that changes
    it. API results, the `confirm` answer, timer expiry and the browser's own text
    editing arrive as parameters or as separate methods. */
module App {
  import opened Wrappers
  import opened Blocks
  import opened Editing
  import opened Drag
  import opened Pages
  import Autosave

  /** What the editor area shows: the title element's text and its `data-id`, the
      editor's blocks, the selection, and the next unused block identity. */
  datatype View = View(title: string, shownPageId: Option<int>, blocks: seq<Block>, caret: Option<Caret>, nextId: nat)

  /** Block identities are unique and all below `nextId`; at most one block is marked
      as drop target. */
  predicate ViewValid(v: View)
  {
    UniqueIds(v.blocks) && (forall b :: b in v.blocks ==> b.id < v.nextId) && MarkedCount(v.blocks) <= 1
  }

  /** `renderUI`: look up the current page; when it differs from the page on screen,
      load its title and content into the editor (fresh block elements, no selection).
      When it is already on screen nothing is touched, so typing is not interrupted. */
  function Render(pages: seq<Page>, current: Option<int>, v: View): View
  {
    match Find(pages, current)
    case None => v
    case Some(i) =>
      if v.shownPageId == Some(pages[i].id) then v
      else View(pages[i].title, Some(pages[i].id), Materialize(pages[i].content, v.nextId), None,
                v.nextId + |pages[i].content|)
  }

  /** After rendering, the current page (if it exists) is the one on screen; when it
      was not on screen before, the editor holds exactly its title and block texts and
      whatever was in the editor is gone; when it was, the view is untouched. */
  lemma RenderShowsCurrentPage(pages: seq<Page>, current: Option<int>, v: View)
    ensures Find(pages, current).None? ==> Render(pages, current, v) == v
    ensures v.shownPageId == current ==> Render(pages, current, v) == v
    ensures Find(pages, current).Some? ==> Render(pages, current, v).shownPageId == current
    ensures Find(pages, current).Some? && v.shownPageId != current ==>
      var p := pages[Find(pages, current).value];
      Render(pages, current, v).title == p.title && Texts(Render(pages, current, v).blocks) == p.content
      && Render(pages, current, v).caret.None?
    ensures ViewValid(v) ==> ViewValid(Render(pages, current, v))
    ensures Render(pages, current, v).nextId >= v.nextId
  {
    match Find(pages, current)
    case None =>
    case Some(i) =>
      var r := Render(pages, current, v);
      if v.shownPageId != Some(pages[i].id) {
        NoMarksCountZero(r.blocks);
      }
  }

  /** A page just created and made current shows its empty title and one empty block,
      unless a page with the same id was already on screen. */
  lemma CreatedPageShowsOneEmptyBlock(pages: seq<Page>, id: int, v: View)
    requires v.shownPageId != Some(id)
    ensures Render([NewPage(id)] + pages, Some(id), v).title == ""
    ensures Texts(Render([NewPage(id)] + pages, Some(id), v).blocks) == [""]
    ensures Render([NewPage(id)] + pages, Some(id), v).shownPageId == Some(id)
  {
    assert Find([NewPage(id)] + pages, Some(id)) == Some(0);
  }

  /** Enter keeps the editor invariant: the new block's identity `nextId` is fresh
      and it carries no marker. */
  lemma EnterKeepsViewValid(v: View, at: nat)
    requires ViewValid(v) && at < |v.blocks|
    ensures v.nextId !in Ids(v.blocks)
    ensures ViewValid(v.(blocks := Enter(v.blocks, at, v.nextId), caret := Some(Caret(v.nextId, 0)),
                         nextId := v.nextId + 1))
  {
    var b := EmptyBlock(v.nextId);
    InsertAfterUnique(v.blocks, at, b);
    assert InsertAfter(v.blocks, at, b) == Place(v.blocks, b, at + 1);
    MarkedCountPlace(v.blocks, b, at + 1);
  }

  /** Removing a block keeps the editor invariant, whatever the caret. */
  lemma RemoveKeepsViewValid(v: View, at: nat, c: Option<Caret>)
    requires ViewValid(v) && at < |v.blocks|
    ensures ViewValid(v.(blocks := RemoveAt(v.blocks, at), caret := c))
  {
    RemoveAtUnique(v.blocks, at);
    MarkedCountRemove(v.blocks, at);
    assert forall b :: b in RemoveAt(v.blocks, at) ==> b in v.blocks;
  }

  /** Replacing the blocks by ones with the same identities, position by position, and
      no more markers than allowed keeps the editor invariant. */
  lemma SameIdsKeepViewValid(v: View, r: seq<Block>)
    requires ViewValid(v) && |r| == |v.blocks| && MarkedCount(r) <= 1
    requires forall k :: 0 <= k < |r| ==> r[k].id == v.blocks[k].id
    ensures ViewValid(v.(blocks := r))
  {
    SameIds(v.blocks, r);
    forall b | b in r ensures b.id < v.nextId {
      var k :| 0 <= k < |r| && r[k] == b;
      assert v.blocks[k] in v.blocks;
    }
  }

  /** A hover keeps the editor invariant: at most one block stays marked. */
  lemma HoverKeepsViewValid(v: View, dragged: Option<nat>, target: Option<nat>)
    requires ViewValid(v)
    ensures ViewValid(v.(blocks := Hover(v.blocks, dragged, target)))
  {
    HoverMarksOnlyTarget(v.blocks, dragged, target);
    SameIdsKeepViewValid(v, Hover(v.blocks, dragged, target));
  }

  /** A drop keeps the editor invariant. */
  lemma DropKeepsViewValid(v: View, dragged: Option<nat>, target: Option<nat>)
    requires ViewValid(v)
    ensures ViewValid(v.(blocks := Drop(v.blocks, dragged, target)))
  {
    DropKeepsBlocks(v.blocks, dragged, target);
    var r := Drop(v.blocks, dragged, target);
    forall b | b in r ensures b.id < v.nextId {
      assert b.id in Ids(r);
      var c :| c in v.blocks && c.id == b.id;
    }
  }

  /** The selection after the block `moved` is taken out and put back by
      `insertBefore`: under the removing steps of the WHATWG DOM Living Standard a
      selection inside the moved block collapses onto the editor element itself,
      where no block wrapper is found; any other selection is kept. */
  function CaretAfterMove(caret: Option<Caret>, moved: nat): (c: Option<Caret>)
    ensures c.Some? ==> c == caret && c.value.block != moved
    ensures caret.Some? && caret.value.block != moved ==> c == caret
  {
    if caret.Some? && caret.value.block == moved then None else caret
  }

  /** After a drop that moved the caret's own block, the caret is in no block, so
      neither Enter nor Backspace changes the blocks. */
  lemma MovedCaretFindsNoBlock(s: seq<Block>, caret: Option<Caret>, moved: nat)
    requires caret.Some? && caret.value.block == moved
    ensures CaretIndex(s, CaretAfterMove(caret, moved)).None?
  {
  }

  /** How `deletePage` ends: refused by the last-page guard, cancelled at the
      confirmation, done, or reported by the "Error al borrar la página" alert. */
  datatype DeleteOutcome = RefusedLastPage | NotConfirmed | Deleted | DeleteFailed

  class Session {
    var pages: seq<Page>
    var currentPageId: Option<int>
    /** `pageTitle.innerText` and `pageTitle.dataset.id`. */
    var title: string
    var shownPageId: Option<int>
    /** The children of the editor element and the selection inside it. */
    var blocks: seq<Block>
    var caret: Option<Caret>
    var nextId: nat
    var dragged: Option<nat>
    var timer: Autosave.Timer
    var status: Autosave.Status
    /** Save requests sent and not yet answered. */
    var inFlight: nat

    ghost function ViewOf(): View
      reads this
    {
      View(title, shownPageId, blocks, caret, nextId)
    }

    ghost predicate Valid()
      reads this
    {
      ViewValid(ViewOf()) && Autosave.Valid(timer)
    }

    /** The state at load: no pages, nothing current, an empty editor, no drag,
        nothing scheduled. */
    constructor ()
      ensures Valid()
      ensures pages == [] && currentPageId.None? && shownPageId.None? && blocks == [] && caret.None?
      ensures dragged.None? && timer.scheduled == {} && status == Autosave.Untouched && inFlight == 0
    {
      pages, currentPageId := [], None;
      title, shownPageId := "", None;
      blocks, caret, nextId := [], None, 0;
      dragged := None;
      timer, status, inFlight := Autosave.Initial, Autosave.Untouched, 0;
    }

    /** `debounceSave`: cancel the pending save, show "Cambios sin guardar...", and
        schedule one save after the quiet period. */
    method DebounceSave()
      requires Valid()
      modifies this
      ensures Valid()
      ensures timer == Autosave.Debounce(old(timer)) && status == Autosave.Unsaved
      ensures Autosave.Label(status) == "Cambios sin guardar..."
      ensures timer.saveTimeout.Some? && timer.scheduled == {timer.saveTimeout.value}
      ensures ViewOf() == old(ViewOf()) && pages == old(pages) && currentPageId == old(currentPageId)
      ensures dragged == old(dragged) && inFlight == old(inFlight)
    {
      timer := Autosave.Debounce(timer);
      status := Autosave.Unsaved;
    }

    /** The save timer `h` expires and `saveCurrentPage` runs up to its request:
        "Guardando...", then, when the current page exists, its local copy takes the
        title and the editor's content and the request is sent. */
    method SaveTimerFires(h: nat)
      requires Valid() && h in timer.scheduled
      modifies this
      ensures Valid()
      ensures timer == Autosave.Fire(old(timer), h) && timer.scheduled == {}
      ensures status == Autosave.Saving && Autosave.Label(status) == "Guardando..."
      ensures Find(old(pages), old(currentPageId)).None? ==> pages == old(pages) && inFlight == old(inFlight)
      ensures Find(old(pages), old(currentPageId)).Some? ==>
        var i := Find(old(pages), old(currentPageId)).value;
        pages == old(pages)[i := old(pages)[i].(title := old(title), content := Texts(old(blocks)))]
        && inFlight == old(inFlight) + 1
      ensures ViewOf() == old(ViewOf()) && currentPageId == old(currentPageId) && dragged == old(dragged)
    {
      timer := Autosave.Fire(timer, h);
      status := Autosave.Saving;
      var i := Find(pages, currentPageId);
      if i.Some? {
        pages := pages[i.value := pages[i.value].(title := title, content := Texts(blocks))];
        inFlight := inFlight + 1;
      }
    }

    /** The save request answers: "Guardado" on success, "Error al guardar" on
        failure. Nothing is retried and the local copy is kept either way. */
    method SaveCompletes(ok: bool)
      requires Valid() && inFlight > 0
      modifies this
      ensures Valid()
      ensures inFlight == old(inFlight) - 1
      ensures status == if ok then Autosave.Saved else Autosave.SaveFailed
      ensures Autosave.Label(status) == if ok then "Guardado" else "Error al guardar"
      ensures timer == old(timer) && ViewOf() == old(ViewOf()) && pages == old(pages)
      ensures currentPageId == old(currentPageId) && dragged == old(dragged)
    {
      inFlight := inFlight - 1;
      status := if ok then Autosave.Saved else Autosave.SaveFailed;
    }

    /** `renderUI`, on the editor's state (the sidebar is not modelled). */
    method RenderUI()
      requires Valid()
      modifies this
      ensures Valid()
      ensures ViewOf() == Render(pages, currentPageId, old(ViewOf()))
      ensures pages == old(pages) && currentPageId == old(currentPageId) && dragged == old(dragged)
      ensures timer == old(timer) && status == old(status) && inFlight == old(inFlight)
    {
      RenderShowsCurrentPage(pages, currentPageId, ViewOf());
      ghost var v := Render(pages, currentPageId, ViewOf());
      var i := Find(pages, currentPageId);
      if i.Some? {
        var p := pages[i.value];
        if shownPageId != Some(p.id) {
          title, shownPageId := p.title, Some(p.id);
          blocks := Materialize(p.content, nextId);
          caret := None;
          nextId := nextId + |p.content|;
        }
      }
      assert ViewOf() == v;
    }

    /** `createPage`, given whether the POST succeeded and the id it returned: the
        new page goes to the front of the working set and becomes current. On
        failure nothing changes. */
    method CreatePage(ok: bool, newId: int)
      requires Valid()
      modifies this
      ensures Valid()
      ensures ok ==>
        pages == [NewPage(newId)] + old(pages) && currentPageId == Some(newId)
        && ViewOf() == Render(pages, currentPageId, old(ViewOf()))
      ensures !ok ==> pages == old(pages) && currentPageId == old(currentPageId) && ViewOf() == old(ViewOf())
      ensures dragged == old(dragged) && timer == old(timer) && status == old(status) && inFlight == old(inFlight)
    {
      if ok {
        pages := [NewPage(newId)] + pages;
        currentPageId := Some(newId);
        RenderUI();
      }
    }

    /** `loadPages`, given whether the GET succeeded and the list it returned (and,
        for an empty list, the outcome of the `createPage` it then awaits). */
    method LoadPages(ok: bool, data: seq<Page>, createOk: bool, newId: int)
      requires Valid()
      modifies this
      ensures Valid()
      ensures !ok ==> pages == old(pages) && currentPageId == old(currentPageId) && ViewOf() == old(ViewOf())
      ensures ok && data == [] && createOk ==>
        pages == [NewPage(newId)] && currentPageId == Some(newId)
        && ViewOf() == Render(pages, currentPageId, old(ViewOf()))
      ensures ok && data == [] && !createOk ==>
        pages == [] && currentPageId == old(currentPageId) && ViewOf() == old(ViewOf())
      ensures ok && data != [] ==>
        pages == data
        && currentPageId == (if Falsy(old(currentPageId)) then Some(data[0].id) else old(currentPageId))
        && ViewOf() == Render(pages, currentPageId, old(ViewOf()))
      ensures dragged == old(dragged) && timer == old(timer) && status == old(status) && inFlight == old(inFlight)
    {
      if !ok {
        return;
      }
      pages := data;
      if |pages| == 0 {
        CreatePage(createOk, newId);
      } else {
        if Falsy(currentPageId) {
          currentPageId := Some(pages[0].id);
        }
        RenderUI();
      }
    }

    /** A click on a page in the sidebar: it becomes current and is rendered. */
    method SelectPage(id: int)
      requires Valid()
      modifies this
      ensures Valid()
      ensures currentPageId == Some(id) && pages == old(pages)
      ensures ViewOf() == Render(pages, currentPageId, old(ViewOf()))
      ensures dragged == old(dragged) && timer == old(timer) && status == old(status) && inFlight == old(inFlight)
    {
      currentPageId := Some(id);
      RenderUI();
    }

    /** `deletePage(id)`, given the answer to the confirmation and whether the DELETE
        succeeded. With a single page it refuses; otherwise it removes every page with
        that id, keeping the others in order, and if the current page was removed the
        first remaining one becomes current. With distinct page ids the working set
        never becomes empty. */
    method DeletePage(id: int, confirmed: bool, apiOk: bool) returns (outcome: DeleteOutcome)
      requires Valid()
      modifies this
      ensures Valid()
      ensures |old(pages)| <= 1 ==> outcome == RefusedLastPage
      ensures |old(pages)| > 1 && !confirmed ==> outcome == NotConfirmed
      ensures |old(pages)| > 1 && confirmed && !apiOk ==> outcome == DeleteFailed
      ensures outcome in {RefusedLastPage, NotConfirmed} || (outcome == DeleteFailed && !apiOk) ==>
        pages == old(pages) && currentPageId == old(currentPageId) && ViewOf() == old(ViewOf())
      ensures |old(pages)| > 1 && confirmed && apiOk ==>
        pages == Without(old(pages), id)
        && (old(currentPageId) != Some(id) ==>
              outcome == Deleted && currentPageId == old(currentPageId)
              && ViewOf() == Render(pages, currentPageId, old(ViewOf())))
        && (old(currentPageId) == Some(id) && pages != [] ==>
              outcome == Deleted && currentPageId == Some(pages[0].id)
              && ViewOf() == Render(pages, currentPageId, old(ViewOf())))
        && (old(currentPageId) == Some(id) && pages == [] ==>
              outcome == DeleteFailed && currentPageId == old(currentPageId) && ViewOf() == old(ViewOf()))
      ensures DistinctIds(old(pages)) && |old(pages)| >= 1 ==> |pages| >= 1 && DistinctIds(pages)
      ensures dragged == old(dragged) && timer == old(timer) && status == old(status) && inFlight == old(inFlight)
    {
      if |pages| <= 1 {
        return RefusedLastPage;
      }
      if !confirmed {
        return NotConfirmed;
      }
      if !apiOk {
        return DeleteFailed;
      }
      if DistinctIds(pages) {
        DeleteLeavesAPage(pages, id);
      }
      pages := Without(pages, id);
      if currentPageId == Some(id) {
        if |pages| == 0 {
          // `pages[0].id` throws inside the try block; the catch shows the alert.
          return DeleteFailed;
        }
        currentPageId := Some(pages[0].id);
      }
      RenderUI();
      return Deleted;
    }

    /** The user moves the selection (a click or the arrow keys). */
    method MoveCaret(c: Option<Caret>)
      requires Valid()
      modifies this
      ensures Valid() && caret == c
      ensures blocks == old(blocks) && nextId == old(nextId) && title == old(title) && shownPageId == old(shownPageId)
      ensures pages == old(pages) && currentPageId == old(currentPageId) && dragged == old(dragged)
      ensures timer == old(timer) && status == old(status) && inFlight == old(inFlight)
    {
      caret := c;
    }

    /** An `input` event in the editor: the browser has changed the text of the block
        `id`, where the caret now is, and the save is re-armed. */
    method EditText(id: nat, text: string, offset: nat)
      requires Valid() && id in Ids(blocks)
      modifies this
      ensures Valid()
      ensures var i := IndexOf(old(blocks), id).value;
        blocks == old(blocks)[i := old(blocks)[i].(text := text)]
      ensures caret == Some(Caret(id, offset))
      ensures timer == Autosave.Debounce(old(timer)) && status == Autosave.Unsaved
      ensures nextId == old(nextId) && title == old(title) && shownPageId == old(shownPageId)
      ensures pages == old(pages) && currentPageId == old(currentPageId) && dragged == old(dragged)
      ensures inFlight == old(inFlight)
    {
      var i := IndexOf(blocks, id).value;
      var s := blocks[i := blocks[i].(text := text)];
      SameMarksSameCount(blocks, s);
      SameIds(blocks, s);
      assert forall b :: b in s ==> b.id < nextId by {
        forall b | b in s ensures b.id < nextId {
          var k :| 0 <= k < |s| && s[k] == b;
          assert blocks[k] in blocks;
        }
      }
      blocks := s;
      caret := Some(Caret(id, offset));
      DebounceSave();
    }

    /** An `input` event in the title: the text changes and the save is re-armed. */
    method EditTitle(t: string)
      requires Valid()
      modifies this
      ensures Valid()
      ensures title == t && timer == Autosave.Debounce(old(timer)) && status == Autosave.Unsaved
      ensures blocks == old(blocks) && caret == old(caret) && nextId == old(nextId) && shownPageId == old(shownPageId)
      ensures pages == old(pages) && currentPageId == old(currentPageId) && dragged == old(dragged)
      ensures inFlight == old(inFlight)
    {
      title := t;
      DebounceSave();
    }

    /** Enter in the editor. Without Shift, and with the caret in a block, one empty
        block is inserted right after that block, it takes the focus, and the save is
        re-armed; otherwise nothing changes (with Shift the browser's own line break
        follows as an `input` event). */
    method PressEnter(shift: bool)
      requires Valid()
      modifies this
      ensures Valid()
      ensures var at := CaretIndex(old(blocks), old(caret));
        if !shift && at.Some? then
          blocks == Enter(old(blocks), at.value, old(nextId)) && caret == Some(Caret(old(nextId), 0))
          && nextId == old(nextId) + 1 && old(nextId) !in Ids(old(blocks))
          && timer == Autosave.Debounce(old(timer)) && status == Autosave.Unsaved
        else
          blocks == old(blocks) && caret == old(caret) && nextId == old(nextId)
          && timer == old(timer) && status == old(status)
      ensures title == old(title) && shownPageId == old(shownPageId)
      ensures pages == old(pages) && currentPageId == old(currentPageId) && dragged == old(dragged)
      ensures inFlight == old(inFlight)
    {
      if !shift {
        var at := CaretIndex(blocks, caret);
        if at.Some? {
          EnterKeepsViewValid(ViewOf(), at.value);
          blocks := Enter(blocks, at.value, nextId);
          caret := Some(Caret(nextId, 0));
          nextId := nextId + 1;
          DebounceSave();
        }
      }
    }

    /** Backspace in the editor. It is intercepted when the caret's block trims to ""
        and the editor holds more than one block; it then removes that block only if
        a predecessor exists, putting the caret at the end of the predecessor's text,
        and re-arms the save. Otherwise nothing changes here and the browser edits
        the text as usual. */
    method PressBackspace() returns (intercepted: bool)
      requires Valid()
      modifies this
      ensures Valid()
      ensures var at := CaretIndex(old(blocks), old(caret));
        intercepted == (at.Some? && BackspaceIntercepted(old(blocks), at.value))
      ensures var at := CaretIndex(old(blocks), old(caret));
        at.Some? && BackspaceRemoves(old(blocks), at.value) ==>
          blocks == Backspace(old(blocks), at.value)
          && caret == Some(CaretAfterBackspace(old(blocks), at.value))
          && timer == Autosave.Debounce(old(timer)) && status == Autosave.Unsaved
      ensures var at := CaretIndex(old(blocks), old(caret));
        !(at.Some? && BackspaceRemoves(old(blocks), at.value)) ==>
          blocks == old(blocks) && caret == old(caret) && timer == old(timer) && status == old(status)
      ensures |old(blocks)| >= 1 ==> |blocks| >= 1
      ensures nextId == old(nextId) && title == old(title) && shownPageId == old(shownPageId)
      ensures pages == old(pages) && currentPageId == old(currentPageId) && dragged == old(dragged)
      ensures inFlight == old(inFlight)
    {
      var at := CaretIndex(blocks, caret);
      if at.None? {
        return false;
      }
      var i := at.value;
      intercepted := BackspaceIntercepted(blocks, i);
      if BackspaceRemoves(blocks, i) {
        var c := Some(CaretAfterBackspace(blocks, i));
        RemoveKeepsViewValid(ViewOf(), i, c);
        blocks, caret := Backspace(blocks, i), c;
        DebounceSave();
      }
    }

    /** `dragstart`: when the drag begins on a block's handle, that block becomes the
        drag subject; otherwise nothing changes. */
    method DragStart(onHandle: bool, block: nat)
      requires Valid()
      modifies this
      ensures Valid()
      ensures dragged == if onHandle then Some(block) else old(dragged)
      ensures ViewOf() == old(ViewOf()) && pages == old(pages) && currentPageId == old(currentPageId)
      ensures timer == old(timer) && status == old(status) && inFlight == old(inFlight)
    {
      if onHandle {
        dragged := Some(block);
      }
    }

    /** The `forEach` that removes the `drop-indicator` class from every element
        carrying it. */
    method ClearMarkers()
      requires Valid()
      modifies this
      ensures Valid()
      ensures blocks == ClearMarks(old(blocks))
      ensures caret == old(caret) && nextId == old(nextId) && title == old(title) && shownPageId == old(shownPageId)
      ensures pages == old(pages) && currentPageId == old(currentPageId) && dragged == old(dragged)
      ensures timer == old(timer) && status == old(status) && inFlight == old(inFlight)
    {
      var i := 0;
      while i < |blocks|
        invariant 0 <= i <= |blocks| == |old(blocks)|
        invariant forall k :: 0 <= k < i ==> blocks[k] == old(blocks)[k].(marked := false)
        invariant forall k :: i <= k < |blocks| ==> blocks[k] == old(blocks)[k]
        invariant caret == old(caret) && nextId == old(nextId) && title == old(title) && shownPageId == old(shownPageId)
        invariant pages == old(pages) && currentPageId == old(currentPageId) && dragged == old(dragged)
        invariant timer == old(timer) && status == old(status) && inFlight == old(inFlight)
      {
        blocks := blocks[i := blocks[i].(marked := false)];
        i := i + 1;
      }
      assert blocks == ClearMarks(old(blocks));
      SameIds(old(blocks), blocks);
      assert forall b :: b in blocks ==> b.id < nextId by {
        forall b | b in blocks ensures b.id < nextId {
          var k :| 0 <= k < |blocks| && blocks[k] == b;
          assert old(blocks)[k] in old(blocks);
        }
      }
    }

    /** `dragover` with the block `target` under the pointer (None when it is over no
        block). When the target is a block other than the drag subject, every marker
        is cleared and the target alone is marked. */
    method DragOver(target: Option<nat>)
      requires Valid()
      modifies this
      ensures Valid()
      ensures blocks == Hover(old(blocks), old(dragged), target)
      ensures caret == old(caret) && nextId == old(nextId) && title == old(title) && shownPageId == old(shownPageId)
      ensures pages == old(pages) && currentPageId == old(currentPageId) && dragged == old(dragged)
      ensures timer == old(timer) && status == old(status) && inFlight == old(inFlight)
    {
      HoverKeepsViewValid(ViewOf(), dragged, target);
      if target.Some? && target != dragged && target.value in Ids(blocks) {
        var j := IndexOf(blocks, target.value).value;
        ClearMarkers();
        blocks := blocks[j := blocks[j].(marked := true)];
      }
    }

    /** `drop` over the block `target`: with a drag subject, the target loses its
        marker, the subject is moved in front of it, and the save is re-armed. */
    method Drop(target: Option<nat>)
      requires Valid()
      modifies this
      ensures Valid()
      ensures DropApplies(old(blocks), old(dragged), target) ==>
        blocks == MoveBefore(Unmark(old(blocks), target.value), old(dragged).value, target.value)
        && timer == Autosave.Debounce(old(timer)) && status == Autosave.Unsaved
      ensures !DropApplies(old(blocks), old(dragged), target) ==>
        blocks == old(blocks) && timer == old(timer) && status == old(status)
      ensures multiset(Texts(blocks)) == multiset(Texts(old(blocks))) && Ids(blocks) == Ids(old(blocks))
      ensures caret == if DropApplies(old(blocks), old(dragged), target)
                       then CaretAfterMove(old(caret), old(dragged).value) else old(caret)
      ensures nextId == old(nextId) && title == old(title) && shownPageId == old(shownPageId)
      ensures pages == old(pages) && currentPageId == old(currentPageId) && dragged == old(dragged)
      ensures inFlight == old(inFlight)
    {
      if DropApplies(blocks, dragged, target) {
        DropKeepsBlocks(blocks, dragged, target);
        DropKeepsViewValid(ViewOf(), dragged, target);
        blocks := Unmark(blocks, target.value);
        blocks := MoveBefore(blocks, dragged.value, target.value);
        caret := CaretAfterMove(caret, dragged.value);
        DebounceSave();
      }
    }

    /** `dragend`: every marker is cleared and the drag subject is forgotten. */
    method DragEnd()
      requires Valid()
      modifies this
      ensures Valid()
      ensures blocks == ClearMarks(old(blocks)) && dragged.None?
      ensures caret == old(caret) && nextId == old(nextId) && title == old(title) && shownPageId == old(shownPageId)
      ensures pages == old(pages) && currentPageId == old(currentPageId)
      ensures timer == old(timer) && status == old(status) && inFlight == old(inFlight)
    {
      ClearMarkers();
      dragged := None;
    }
  }
}
