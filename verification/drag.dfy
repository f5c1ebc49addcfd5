/** Drag and drop of blocks: the reorder done by `insertBefore` and the
    `drop-indicator` markers set by `dragover`. */
module Drag {
  import opened Wrappers
  import opened Blocks

  /** `x` inserted in front of position `k` of `r` (at the end when `k == |r|`). */
  function Place(r: seq<Block>, x: Block, k: nat): seq<Block>
    requires k <= |r|
  {
    r[..k] + [x] + r[k..]
  }

  /** Where the dragged block lands once it has been taken out: in front of the
      target, whose position shifts down by one when it came after the dragged block. */
  function Landing(i: nat, j: nat): nat
    requires i != j
  {
    if j < i then j else j - 1
  }

  /** `editor.insertBefore(dragged, target)` under the pre-insert steps of the WHATWG
      DOM Living Standard: when the reference child is the node itself it is replaced
      by the node's next sibling; the node is then removed and inserted in front of
      the reference child. Blocks that are not children of the editor leave the order
      unchanged. */
  function MoveBefore(s: seq<Block>, dragged: nat, target: nat): (r: seq<Block>)
    ensures |r| == |s|
  {
    match IndexOf(s, dragged)
    case None => s
    case Some(i) =>
      match IndexOf(s, target)
      case None => s
      case Some(j) => if i == j then s else Place(RemoveAt(s, i), s[i], Landing(i, j))
  }

  /** The reorder loses and duplicates nothing: it is a permutation. */
  lemma MovePermutes(s: seq<Block>, dragged: nat, target: nat)
    ensures multiset(MoveBefore(s, dragged, target)) == multiset(s)
  {
    var di, ti := IndexOf(s, dragged), IndexOf(s, target);
    if di.Some? && ti.Some? && di.value != ti.value {
      var i := di.value;
      MultisetRemoveAt(s, i);
      MultisetPlace(RemoveAt(s, i), s[i], Landing(i, ti.value));
    }
  }

  lemma MultisetRemoveAt(s: seq<Block>, i: nat)
    requires i < |s|
    ensures multiset(RemoveAt(s, i)) + multiset{s[i]} == multiset(s)
  {
    SplitAt(s, i);
  }

  lemma MultisetPlace(r: seq<Block>, x: Block, k: nat)
    requires k <= |r|
    ensures multiset(Place(r, x, k)) == multiset(r) + multiset{x}
  {
    assert r == r[..k] + r[k..];
  }

  /** Dropping a block onto itself, or without a target in the editor, changes nothing. */
  lemma MoveOntoSelfOrNowhere(s: seq<Block>, dragged: nat, target: nat)
    requires dragged == target || target !in Ids(s) || dragged !in Ids(s)
    ensures MoveBefore(s, dragged, target) == s
  {
  }

  /** Placing a block with a fresh identity keeps identities unique. */
  lemma PlaceUnique(r: seq<Block>, x: Block, k: nat)
    requires k <= |r| && UniqueIds(r) && x.id !in Ids(r)
    ensures UniqueIds(Place(r, x, k))
  {
    var p := Place(r, x, k);
    assert forall m :: 0 <= m < |p| ==> p[m] == if m < k then r[m] else if m == k then x else r[m - 1];
    forall a, b | 0 <= a < b < |p| ensures p[a].id != p[b].id {
      if a == k { assert r[b - 1] in r; }
      if b == k { assert r[a] in r; }
    }
  }

  /** The reorder keeps identities unique. */
  lemma MoveUnique(s: seq<Block>, dragged: nat, target: nat)
    requires UniqueIds(s)
    ensures UniqueIds(MoveBefore(s, dragged, target))
    ensures Ids(MoveBefore(s, dragged, target)) == Ids(s)
  {
    MovePermutes(s, dragged, target);
    var r := MoveBefore(s, dragged, target);
    forall b ensures b in r <==> b in s {
      assert b in r <==> b in multiset(r);
      assert b in s <==> b in multiset(s);
    }
    var di, ti := IndexOf(s, dragged), IndexOf(s, target);
    if di.Some? && ti.Some? && di.value != ti.value {
      var i := di.value;
      RemoveAtUnique(s, i);
      PlaceUnique(RemoveAt(s, i), s[i], Landing(i, ti.value));
    }
  }

  /** A drop with both blocks in the editor and distinct leaves the dragged block
      immediately in front of the target. */
  lemma MovePlacesBeforeTarget(s: seq<Block>, dragged: nat, target: nat)
    requires UniqueIds(s) && dragged in Ids(s) && target in Ids(s) && dragged != target
    ensures IndexOf(MoveBefore(s, dragged, target), dragged).Some?
    ensures IndexOf(MoveBefore(s, dragged, target), target)
         == Some(IndexOf(MoveBefore(s, dragged, target), dragged).value + 1)
  {
    var i, j := IndexOf(s, dragged).value, IndexOf(s, target).value;
    var k := Landing(i, j);
    var r := MoveBefore(s, dragged, target);
    var q := RemoveAt(s, i);
    assert r == Place(q, s[i], k);
    assert q[k] == s[j];
    assert r[k] == s[i] && r[k + 1] == s[j];
    MoveUnique(s, dragged, target);
    IndexOfUnique(r, k);
    IndexOfUnique(r, k + 1);
  }

  /** Apart from the dragged block, every block keeps its relative order: taking the
      dragged block out of the result gives the same sequence as taking it out of the
      original. */
  lemma MoveKeepsOthersInOrder(s: seq<Block>, dragged: nat, target: nat)
    requires UniqueIds(s) && dragged in Ids(s)
    ensures IndexOf(MoveBefore(s, dragged, target), dragged).Some?
    ensures RemoveAt(MoveBefore(s, dragged, target), IndexOf(MoveBefore(s, dragged, target), dragged).value)
         == RemoveAt(s, IndexOf(s, dragged).value)
  {
    var i := IndexOf(s, dragged).value;
    var r := MoveBefore(s, dragged, target);
    MoveUnique(s, dragged, target);
    var ti := IndexOf(s, target);
    if ti.Some? && ti.value != i {
      var k := Landing(i, ti.value);
      var q := RemoveAt(s, i);
      assert r == Place(q, s[i], k);
      PlaceThenRemove(q, s[i], k);
      IndexOfUnique(r, k);
    }
  }

  lemma PlaceThenRemove(q: seq<Block>, x: Block, k: nat)
    requires k <= |q|
    ensures Place(q, x, k)[k] == x
    ensures RemoveAt(Place(q, x, k), k) == q
  {
    var p := Place(q, x, k);
    assert p[..k] == q[..k];
    assert p[k + 1..] == q[k..];
  }

  /** Moving the block at `k + 1` in front of the one at `k` swaps the two. */
  lemma PlaceSwaps(s: seq<Block>, k: nat)
    requires k + 1 < |s|
    ensures Place(RemoveAt(s, k + 1), s[k + 1], k) == Swapped(s, k)
  {
    var q := RemoveAt(s, k + 1);
    assert q[..k] == s[..k];
    assert q[k..] == [s[k]] + s[k + 2..];
  }

  /** Moving the block at `k + 1` in front of its predecessor swaps the two. */
  lemma MoveSwapsAdjacent(s: seq<Block>, k: nat)
    requires UniqueIds(s) && k + 1 < |s|
    ensures MoveBefore(s, s[k + 1].id, s[k].id) == Swapped(s, k)
  {
    IndexOfUnique(s, k);
    IndexOfUnique(s, k + 1);
    PlaceSwaps(s, k);
  }

  /** Moving `a` in front of the block `b` right before it, and then `b` back in
      front of `a`, restores the original order. */
  lemma MoveBackRestores(s: seq<Block>, k: nat)
    requires UniqueIds(s) && k + 1 < |s|
    ensures MoveBefore(MoveBefore(s, s[k + 1].id, s[k].id), s[k].id, s[k + 1].id) == s
  {
    MoveSwapsAdjacent(s, k);
    MoveUnique(s, s[k + 1].id, s[k].id);
    var u := Swapped(s, k);
    SwappedTwice(s, k);
    MoveSwapsAdjacent(u, k);
  }

  /** `s` with the blocks at `k` and `k + 1` exchanged. */
  function Swapped(s: seq<Block>, k: nat): (u: seq<Block>)
    requires k + 1 < |s|
    ensures |u| == |s| && u[k] == s[k + 1] && u[k + 1] == s[k]
  {
    s[..k] + [s[k + 1], s[k]] + s[k + 2..]
  }

  lemma SwappedTwice(s: seq<Block>, k: nat)
    requires k + 1 < |s|
    ensures Swapped(s, k)[..k] + [Swapped(s, k)[k + 1], Swapped(s, k)[k]] + Swapped(s, k)[k + 2..] == s
  {
    var u := Swapped(s, k);
    assert u[..k] == s[..k] && u[k + 2..] == s[k + 2..];
    assert s == s[..k] + [s[k], s[k + 1]] + s[k + 2..];
  }

  /** How many blocks carry the drop-indicator class. */
  function MarkedCount(s: seq<Block>): nat
  {
    if s == [] then 0 else (if s[0].marked then 1 else 0) + MarkedCount(s[1..])
  }

  lemma {:induction false} MarkedCountAppend(a: seq<Block>, b: seq<Block>)
    ensures MarkedCount(a + b) == MarkedCount(a) + MarkedCount(b)
    decreases |a|
  {
    if a == [] {
      assert a + b == b;
    } else {
      assert (a + b)[0] == a[0];
      assert (a + b)[1..] == a[1..] + b;
      MarkedCountAppend(a[1..], b);
    }
  }

  /** Setting or clearing the marker of one block changes the count by that block alone. */
  lemma {:induction false} MarkedCountUpdate(s: seq<Block>, i: nat, m: bool)
    requires i < |s|
    ensures MarkedCount(s[i := s[i].(marked := m)])
         == MarkedCount(s) - (if s[i].marked then 1 else 0) + (if m then 1 else 0)
    decreases |s|
  {
    if i > 0 {
      assert s[i := s[i].(marked := m)][1..] == s[1..][i - 1 := s[i].(marked := m)];
      MarkedCountUpdate(s[1..], i - 1, m);
    }
  }

  /** A sequence with no marked block has count zero. */
  lemma {:induction false} NoMarksCountZero(s: seq<Block>)
    requires forall k :: 0 <= k < |s| ==> !s[k].marked
    ensures MarkedCount(s) == 0
    decreases |s|
  {
    if s != [] {
      NoMarksCountZero(s[1..]);
    }
  }

  /** Changing texts without touching markers keeps the count. */
  lemma {:induction false} SameMarksSameCount(s: seq<Block>, r: seq<Block>)
    requires |s| == |r| && forall k :: 0 <= k < |s| ==> s[k].marked == r[k].marked
    ensures MarkedCount(s) == MarkedCount(r)
    decreases |s|
  {
    if s != [] {
      SameMarksSameCount(s[1..], r[1..]);
    }
  }

  lemma MarkedCountRemove(s: seq<Block>, i: nat)
    requires i < |s|
    ensures MarkedCount(RemoveAt(s, i)) + (if s[i].marked then 1 else 0) == MarkedCount(s)
  {
    SplitAt(s, i);
    MarkedCountSplit(s[..i], s[i], s[i + 1..]);
  }

  lemma MarkedCountPlace(q: seq<Block>, x: Block, k: nat)
    requires k <= |q|
    ensures MarkedCount(Place(q, x, k)) == MarkedCount(q) + (if x.marked then 1 else 0)
  {
    var a, c := q[..k], q[k..];
    assert q == a + c;
    MarkedCountSplit(a, x, c);
  }

  /** One block between two runs adds its own marker to theirs. */
  lemma MarkedCountSplit(a: seq<Block>, x: Block, c: seq<Block>)
    ensures MarkedCount(a + [x] + c) == MarkedCount(a + c) + (if x.marked then 1 else 0)
  {
    MarkedCountAppend(a + [x], c);
    MarkedCountAppend(a, [x]);
    MarkedCountAppend(a, c);
    assert [x][1..] == [];
  }

  /** The reorder keeps the number of markers. */
  lemma MoveKeepsMarkedCount(s: seq<Block>, dragged: nat, target: nat)
    ensures MarkedCount(MoveBefore(s, dragged, target)) == MarkedCount(s)
  {
    var di, ti := IndexOf(s, dragged), IndexOf(s, target);
    if di.Some? && ti.Some? && di.value != ti.value {
      var i := di.value;
      MarkedCountRemove(s, i);
      MarkedCountPlace(RemoveAt(s, i), s[i], Landing(i, ti.value));
    }
  }

  /** `querySelectorAll('.drop-indicator').forEach(el => el.classList.remove(...))`. */
  function ClearMarks(s: seq<Block>): (r: seq<Block>)
    ensures |r| == |s| && MarkedCount(r) == 0
    ensures forall k :: 0 <= k < |s| ==> r[k] == s[k].(marked := false)
  {
    var r := seq(|s|, k requires 0 <= k < |s| => s[k].(marked := false));
    NoMarksCountZero(r);
    r
  }

  /** `dragover` with `target` under the pointer: when the target is a block of the
      editor other than the drag subject, every marker is cleared and the target
      alone is marked; otherwise nothing changes. */
  function Hover(s: seq<Block>, dragged: Option<nat>, target: Option<nat>): seq<Block>
  {
    if target.None? || target == dragged then s
    else match IndexOf(s, target.value)
      case None => s
      case Some(j) => ClearMarks(s)[j := s[j].(marked := true)]
  }

  /** After a hover that changed anything exactly one block is marked, it is the
      target, and it is not the drag subject; identities and texts never change. */
  lemma HoverMarksOnlyTarget(s: seq<Block>, dragged: Option<nat>, target: Option<nat>)
    ensures |Hover(s, dragged, target)| == |s|
    ensures forall k :: 0 <= k < |s| ==>
      Hover(s, dragged, target)[k].id == s[k].id && Hover(s, dragged, target)[k].text == s[k].text
    ensures Hover(s, dragged, target) != s ==>
      target.Some? && target != dragged && MarkedCount(Hover(s, dragged, target)) == 1
      && forall k :: 0 <= k < |s| ==> (Hover(s, dragged, target)[k].marked <==> s[k].id == target.value && IndexOf(s, target.value) == Some(k))
    ensures MarkedCount(s) <= 1 ==> MarkedCount(Hover(s, dragged, target)) <= 1
    ensures UniqueIds(s) && target.Some? && target != dragged && target.value in Ids(s) ==>
      MarkedCount(Hover(s, dragged, target)) == 1
      && forall k :: 0 <= k < |s| ==> (Hover(s, dragged, target)[k].marked <==> s[k].id == target.value)
  {
    if target.Some? && target != dragged && IndexOf(s, target.value).Some? {
      var j := IndexOf(s, target.value).value;
      if UniqueIds(s) {
        IndexOfUnique(s, j);
      }
      MarkedCountUpdate(ClearMarks(s), j, true);
    }
  }

  /** `target.classList.remove('drop-indicator')` on the drop target. */
  function Unmark(s: seq<Block>, target: nat): seq<Block>
  {
    match IndexOf(s, target)
    case None => s
    case Some(j) => s[j := s[j].(marked := false)]
  }

  /** A drop happens when the pointer is over a block of the editor and a drag
      subject exists. */
  predicate DropApplies(s: seq<Block>, dragged: Option<nat>, target: Option<nat>)
  {
    target.Some? && target.value in Ids(s) && dragged.Some?
  }

  /** `drop`: the target loses its marker, then the subject is moved in front of it. */
  function Drop(s: seq<Block>, dragged: Option<nat>, target: Option<nat>): seq<Block>
  {
    if DropApplies(s, dragged, target)
    then MoveBefore(Unmark(s, target.value), dragged.value, target.value)
    else s
  }

  /** A drop is a reorder of the same blocks (up to the target's marker): it keeps
      the identities unique and the same, the texts as a multiset, and it never adds
      a marker. */
  lemma DropKeepsBlocks(s: seq<Block>, dragged: Option<nat>, target: Option<nat>)
    requires UniqueIds(s)
    ensures UniqueIds(Drop(s, dragged, target)) && Ids(Drop(s, dragged, target)) == Ids(s)
    ensures |Drop(s, dragged, target)| == |s|
    ensures multiset(Texts(Drop(s, dragged, target))) == multiset(Texts(s))
    ensures MarkedCount(Drop(s, dragged, target)) <= MarkedCount(s)
  {
    if DropApplies(s, dragged, target) {
      var u := Unmark(s, target.value);
      var j := IndexOf(s, target.value).value;
      MarkedCountUpdate(s, j, false);
      assert forall k :: 0 <= k < |s| ==> u[k].id == s[k].id && u[k].text == s[k].text;
      assert Texts(u) == Texts(s);
      SameIds(s, u);
      MoveUnique(u, dragged.value, target.value);
      MovePermutes(u, dragged.value, target.value);
      MoveKeepsMarkedCount(u, dragged.value, target.value);
      TextsOfPermutation(u, MoveBefore(u, dragged.value, target.value));
    }
  }

  lemma TextsAppend(a: seq<Block>, b: seq<Block>)
    ensures Texts(a + b) == Texts(a) + Texts(b)
  {
  }

  lemma TextsOfSplit(a: seq<Block>, x: Block, c: seq<Block>)
    ensures multiset(Texts(a + [x] + c)) == multiset(Texts(a + c)) + multiset{x.text}
  {
    TextsAppend(a, c);
    TextsAppend(a + [x], c);
    TextsAppend(a, [x]);
    assert Texts([x]) == [x.text];
  }

  lemma MultisetSplit(r: seq<Block>, k: nat, s: seq<Block>)
    requires k < |r| && s != [] && r[k] == s[0] && multiset(r) == multiset(s)
    ensures multiset(r[..k] + r[k + 1..]) == multiset(s[1..])
  {
    var a, c, x := r[..k], r[k + 1..], s[0];
    assert r == a + [x] + c;
    assert s == [x] + s[1..];
    calc {
      multiset(a + c) + multiset{x};
      multiset(a) + multiset(c) + multiset([x]);
      multiset(a + [x] + c);
      multiset([x] + s[1..]);
      multiset(s[1..]) + multiset{x};
    }
    var m, n := multiset(a + c), multiset(s[1..]);
    forall y ensures m[y] == n[y] {
      assert (m + multiset{x})[y] == (n + multiset{x})[y];
    }
  }

  /** Taking out the block at `k` takes its text out of the stored texts. */
  lemma TextsWithout(r: seq<Block>, k: nat)
    requires k < |r|
    ensures multiset(Texts(r)) == multiset(Texts(r[..k] + r[k + 1..])) + multiset{r[k].text}
  {
    assert r == r[..k] + [r[k]] + r[k + 1..];
    TextsOfSplit(r[..k], r[k], r[k + 1..]);
  }

  /** A position of `s[0]` in the permutation `r` of `s`. */
  lemma PositionOf(r: seq<Block>, s: seq<Block>) returns (k: nat)
    requires s != [] && multiset(r) == multiset(s)
    ensures k < |r| && r[k] == s[0]
  {
    assert s[0] in multiset(r);
    k :| 0 <= k < |r| && r[k] == s[0];
  }

  /** Putting `s[0]` back on both sides of a permutation of the rest. */
  lemma PutBack(s: seq<Block>, r: seq<Block>, k: nat)
    requires s != [] && k < |r| && r[k] == s[0]
    requires multiset(Texts(r[..k] + r[k + 1..])) == multiset(Texts(s[1..]))
    ensures multiset(Texts(r)) == multiset(Texts(s))
  {
    TextsWithout(r, k);
    TextsCons(s);
  }

  lemma TextsCons(s: seq<Block>)
    requires s != []
    ensures multiset(Texts(s)) == multiset(Texts(s[1..])) + multiset{s[0].text}
  {
    assert s == [s[0]] + s[1..];
    TextsAppend([s[0]], s[1..]);
    assert Texts([s[0]]) == [s[0].text];
  }

  /** Permuting blocks permutes their texts. */
  lemma {:induction false} TextsOfPermutation(s: seq<Block>, r: seq<Block>)
    requires multiset(r) == multiset(s)
    ensures multiset(Texts(r)) == multiset(Texts(s))
    decreases |s|
  {
    if s == [] {
      assert |r| == |multiset(r)| == 0;
    } else {
      var k := PositionOf(r, s);
      MultisetSplit(r, k, s);
      TextsOfPermutation(s[1..], r[..k] + r[k + 1..]);
      PutBack(s, r, k);
    }
  }
}
