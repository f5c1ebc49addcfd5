/** The children of the editor element: an ordered sequence of block wrappers, each
    holding one editable text. Live DOM node identity is replaced by an explicit `id`. */
module Blocks {
  import opened Wrappers

  /** One block wrapper: its identity, the text of its editable part, and whether it
      carries the `drop-indicator` class. */
  datatype Block = Block(id: nat, text: string, marked: bool)

  /** The block the empty-block template produces: no text and no marker. */
  function EmptyBlock(id: nat): Block
  {
    Block(id, "", false)
  }

  function Ids(s: seq<Block>): set<nat>
  {
    set b | b in s :: b.id
  }

  /** No two wrappers share an identity (they are distinct DOM nodes). */
  predicate UniqueIds(s: seq<Block>)
  {
    forall i, j :: 0 <= i < j < |s| ==> s[i].id != s[j].id
  }

  /** The texts of the blocks, in order: what a page stores as its content. */
  function Texts(s: seq<Block>): seq<string>
  {
    seq(|s|, k requires 0 <= k < |s| => s[k].text)
  }

  /** Position of the block with identity `id`, the first one if several share it. */
  function IndexOf(s: seq<Block>, id: nat): (r: Option<nat>)
    ensures r.Some? ==> r.value < |s| && s[r.value].id == id
    ensures r.Some? ==> forall k :: 0 <= k < r.value ==> s[k].id != id
    ensures r.None? <==> id !in Ids(s)
  {
    if |s| == 0 then None
    else if s[0].id == id then Some(0)
    else match IndexOf(s[1..], id)
      case None =>
        assert forall b :: b in s ==> b == s[0] || b in s[1..];
        None
      case Some(k) => Some(k + 1)
  }

  /** With unique identities, the block at position `i` is found at `i`. */
  lemma IndexOfUnique(s: seq<Block>, i: nat)
    requires UniqueIds(s) && i < |s|
    ensures IndexOf(s, s[i].id) == Some(i)
  {
    assert s[i] in s;
  }

  /** `wrapper.insertAdjacentHTML('afterend', ...)`: `b` becomes the next sibling of
      the wrapper at position `i`. */
  function InsertAfter(s: seq<Block>, i: nat, b: Block): (r: seq<Block>)
    requires i < |s|
  {
    s[..i + 1] + [b] + s[i + 1..]
  }

  /** `wrapper.remove()` of the wrapper at position `i`. */
  function RemoveAt(s: seq<Block>, i: nat): (r: seq<Block>)
    requires i < |s|
  {
    s[..i] + s[i + 1..]
  }

  /** Removing what was inserted gives back the original sequence, and the inserted
      block sits right after position `i`. */
  lemma RemoveInserted(s: seq<Block>, i: nat, b: Block)
    requires i < |s|
    ensures |InsertAfter(s, i, b)| == |s| + 1
    ensures InsertAfter(s, i, b)[i + 1] == b
    ensures RemoveAt(InsertAfter(s, i, b), i + 1) == s
  {
    var r := InsertAfter(s, i, b);
    assert r[..i + 1] == s[..i + 1];
    assert r[i + 2..] == s[i + 1..];
    assert s == s[..i + 1] + s[i + 1..];
  }

  /** Position by position, the sequence after a removal. */
  lemma RemoveAtShifts(s: seq<Block>, i: nat)
    requires i < |s|
    ensures |RemoveAt(s, i)| == |s| - 1
    ensures forall k :: 0 <= k < i ==> RemoveAt(s, i)[k] == s[k]
    ensures forall k :: i <= k < |s| - 1 ==> RemoveAt(s, i)[k] == s[k + 1]
  {
  }

  /** Position by position, the sequence after an insertion. */
  lemma InsertAfterShifts(s: seq<Block>, i: nat, b: Block)
    requires i < |s|
    ensures |InsertAfter(s, i, b)| == |s| + 1
    ensures forall k :: 0 <= k <= i ==> InsertAfter(s, i, b)[k] == s[k]
    ensures InsertAfter(s, i, b)[i + 1] == b
    ensures forall k :: i + 1 < k <= |s| ==> InsertAfter(s, i, b)[k] == s[k - 1]
  {
  }

  /** The block at `i` between what comes before and what comes after it. */
  lemma SplitAt(s: seq<Block>, i: nat)
    requires i < |s|
    ensures s == s[..i] + [s[i]] + s[i + 1..]
    ensures RemoveAt(s, i) == s[..i] + s[i + 1..]
  {
  }

  /** Removing a block keeps identities unique and drops exactly its identity. */
  lemma RemoveAtUnique(s: seq<Block>, i: nat)
    requires UniqueIds(s) && i < |s|
    ensures UniqueIds(RemoveAt(s, i))
    ensures Ids(RemoveAt(s, i)) == Ids(s) - {s[i].id}
  {
    RemoveAtShifts(s, i);
    RemoveAtIdsFewer(s, i);
    RemoveAtIdsKept(s, i);
  }

  lemma RemoveAtIdsFewer(s: seq<Block>, i: nat)
    requires UniqueIds(s) && i < |s|
    ensures Ids(RemoveAt(s, i)) <= Ids(s) - {s[i].id}
  {
    var r := RemoveAt(s, i);
    RemoveAtShifts(s, i);
    forall x | x in Ids(r) ensures x in Ids(s) - {s[i].id} {
      var b :| b in r && b.id == x;
      var k :| 0 <= k < |r| && r[k] == b;
      var m := if k < i then k else k + 1;
      assert s[m] == b && m != i;
    }
  }

  lemma RemoveAtIdsKept(s: seq<Block>, i: nat)
    requires i < |s|
    ensures Ids(s) - {s[i].id} <= Ids(RemoveAt(s, i))
  {
    var r := RemoveAt(s, i);
    RemoveAtShifts(s, i);
    forall x | x in Ids(s) - {s[i].id} ensures x in Ids(r) {
      var b :| b in s && b.id == x;
      var k :| 0 <= k < |s| && s[k] == b;
      assert r[if k < i then k else k - 1] == b;
    }
  }

  /** Inserting a block with a fresh identity keeps identities unique. */
  lemma InsertAfterUnique(s: seq<Block>, i: nat, b: Block)
    requires UniqueIds(s) && i < |s| && b.id !in Ids(s)
    ensures UniqueIds(InsertAfter(s, i, b))
    ensures Ids(InsertAfter(s, i, b)) == Ids(s) + {b.id}
  {
    InsertAfterDistinct(s, i, b);
    InsertAfterIdsFewer(s, i, b);
    InsertAfterIdsKept(s, i, b);
  }

  lemma InsertAfterDistinct(s: seq<Block>, i: nat, b: Block)
    requires UniqueIds(s) && i < |s| && b.id !in Ids(s)
    ensures UniqueIds(InsertAfter(s, i, b))
  {
    var r := InsertAfter(s, i, b);
    InsertAfterShifts(s, i, b);
    forall p, q | 0 <= p < q < |r| ensures r[p].id != r[q].id {
      if p == i + 1 { assert s[q - 1] in s; }
      if q == i + 1 { assert s[p] in s; }
    }
  }

  lemma InsertAfterIdsFewer(s: seq<Block>, i: nat, b: Block)
    requires i < |s|
    ensures Ids(InsertAfter(s, i, b)) <= Ids(s) + {b.id}
  {
    var r := InsertAfter(s, i, b);
    InsertAfterShifts(s, i, b);
    forall x | x in Ids(r) ensures x in Ids(s) + {b.id} {
      var c :| c in r && c.id == x;
      var k :| 0 <= k < |r| && r[k] == c;
      if k != i + 1 {
        assert s[if k <= i then k else k - 1] == c;
      }
    }
  }

  lemma InsertAfterIdsKept(s: seq<Block>, i: nat, b: Block)
    requires i < |s|
    ensures Ids(s) + {b.id} <= Ids(InsertAfter(s, i, b))
  {
    var r := InsertAfter(s, i, b);
    InsertAfterShifts(s, i, b);
    forall x | x in Ids(s) + {b.id} ensures x in Ids(r) {
      if x != b.id {
        var c :| c in s && c.id == x;
        var k :| 0 <= k < |s| && s[k] == c;
        assert r[if k <= i then k else k + 1] == c;
      } else {
        assert r[i + 1] == b;
      }
    }
  }

  /** Changing texts or markers in place keeps the identities. */
  lemma SameIds(s: seq<Block>, r: seq<Block>)
    requires |s| == |r| && forall k :: 0 <= k < |s| ==> r[k].id == s[k].id
    ensures Ids(r) == Ids(s)
    ensures UniqueIds(s) ==> UniqueIds(r)
  {
    forall x ensures x in Ids(r) <==> x in Ids(s) {
      if x in Ids(r) {
        var b :| b in r && b.id == x;
        var k :| 0 <= k < |r| && r[k] == b;
        assert s[k] in s;
      }
      if x in Ids(s) {
        var b :| b in s && b.id == x;
        var k :| 0 <= k < |s| && s[k] == b;
        assert r[k] in r;
      }
    }
  }

  /** `editor.innerHTML = content`: parsing the stored texts creates fresh wrappers,
      numbered from `base`, none of them marked. */
  function Materialize(texts: seq<string>, base: nat): (r: seq<Block>)
    ensures |r| == |texts| && Texts(r) == texts
    ensures UniqueIds(r)
    ensures forall b :: b in r ==> base <= b.id < base + |texts| && !b.marked
  {
    seq(|texts|, k requires 0 <= k < |texts| => Block(base + k, texts[k], false))
  }
}
