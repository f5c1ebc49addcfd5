/** The page working set (`pages`) and the list operations the script applies to it:
    `find`, `filter` and `unshift`. */
module Pages {
  import opened Wrappers

  /** A page as the server lists it. `content` is the stored editor content, kept
      here as the texts of its blocks in order. */
  datatype Page = Page(id: int, title: string, icon: string, content: seq<string>)

  /** The document glyph new pages get. */
  const DefaultIcon: string := "\U{1F4C4}"

  /** The page `createPage` adds: empty title, the document icon, one empty block. */
  function NewPage(id: int): Page
  {
    Page(id, "", DefaultIcon, [""])
  }

  /** `pages.find(p => p.id === id)`, as the position of the first match. */
  function FindId(pages: seq<Page>, id: int): (r: Option<nat>)
    ensures r.Some? ==> r.value < |pages| && pages[r.value].id == id
    ensures r.Some? ==> forall k :: 0 <= k < r.value ==> pages[k].id != id
    ensures r.None? ==> forall k :: 0 <= k < |pages| ==> pages[k].id != id
  {
    if pages == [] then None
    else if pages[0].id == id then Some(0)
    else match FindId(pages[1..], id)
      case None => None
      case Some(k) => Some(k + 1)
  }

  /** The same lookup for `currentPageId`, which may be `null`: no page has that id. */
  function Find(pages: seq<Page>, current: Option<int>): Option<nat>
  {
    if current.None? then None else FindId(pages, current.value)
  }

  /** `!currentPageId`: JavaScript treats both `null` and the number 0 as false. */
  predicate Falsy(current: Option<int>)
  {
    current.None? || current.value == 0
  }

  /** `pages.filter(p => p.id !== id)`. */
  function Without(pages: seq<Page>, id: int): (r: seq<Page>)
    ensures |r| <= |pages|
    ensures forall p :: p in r <==> p in pages && p.id != id
  {
    if pages == [] then []
    else (if pages[0].id == id then [] else [pages[0]]) + Without(pages[1..], id)
  }

  /** The filter works element by element, so the kept pages stay in their order. */
  lemma {:induction false} WithoutKeepsOrder(a: seq<Page>, b: seq<Page>, id: int)
    ensures Without(a + b, id) == Without(a, id) + Without(b, id)
    decreases |a|
  {
    if a == [] {
      assert a + b == b;
    } else {
      assert (a + b)[0] == a[0];
      assert (a + b)[1..] == a[1..] + b;
      WithoutKeepsOrder(a[1..], b, id);
    }
  }

  /** How many pages carry `id`. */
  function CountId(pages: seq<Page>, id: int): nat
  {
    if pages == [] then 0 else (if pages[0].id == id then 1 else 0) + CountId(pages[1..], id)
  }

  /** The filter drops exactly the pages that carry `id`. */
  lemma {:induction false} WithoutLength(pages: seq<Page>, id: int)
    ensures |Without(pages, id)| == |pages| - CountId(pages, id)
    decreases |pages|
  {
    if pages != [] {
      WithoutLength(pages[1..], id);
    }
  }

  /** Filtering out an id no page carries changes nothing. */
  lemma {:induction false} WithoutAbsent(pages: seq<Page>, id: int)
    requires forall k :: 0 <= k < |pages| ==> pages[k].id != id
    ensures Without(pages, id) == pages
    decreases |pages|
  {
    if pages != [] {
      WithoutAbsent(pages[1..], id);
    }
  }

  predicate DistinctIds(pages: seq<Page>)
  {
    forall i, j :: 0 <= i < j < |pages| ==> pages[i].id != pages[j].id
  }

  /** With distinct ids, an id is carried by at most one page. */
  lemma {:induction false} DistinctCountAtMostOne(pages: seq<Page>, id: int)
    requires DistinctIds(pages)
    ensures CountId(pages, id) <= 1
    ensures CountId(pages, id) == 1 <==> exists k :: 0 <= k < |pages| && pages[k].id == id
    decreases |pages|
  {
    if pages != [] {
      DistinctCountAtMostOne(pages[1..], id);
      if pages[0].id == id {
        WithoutAbsentCount(pages[1..], id);
      }
      if exists k :: 0 <= k < |pages| && pages[k].id == id {
        var k :| 0 <= k < |pages| && pages[k].id == id;
        if k > 0 { assert pages[1..][k - 1].id == id; }
      }
    }
  }

  lemma {:induction false} WithoutAbsentCount(pages: seq<Page>, id: int)
    requires forall k :: 0 <= k < |pages| ==> pages[k].id != id
    ensures CountId(pages, id) == 0
    decreases |pages|
  {
    if pages != [] {
      WithoutAbsentCount(pages[1..], id);
    }
  }

  /** With distinct ids and at least two pages, removing one id leaves a non-empty
      working set that still has distinct ids. */
  lemma DeleteLeavesAPage(pages: seq<Page>, id: int)
    requires DistinctIds(pages) && |pages| >= 2
    ensures |Without(pages, id)| >= |pages| - 1 >= 1
    ensures DistinctIds(Without(pages, id))
  {
    DistinctCountAtMostOne(pages, id);
    WithoutLength(pages, id);
    WithoutDistinct(pages, id);
  }

  lemma {:induction false} WithoutDistinct(pages: seq<Page>, id: int)
    requires DistinctIds(pages)
    ensures DistinctIds(Without(pages, id))
    decreases |pages|
  {
    if pages != [] {
      WithoutDistinct(pages[1..], id);
      var rest := Without(pages[1..], id);
      forall k | 0 <= k < |rest| ensures rest[k].id != pages[0].id {
        assert rest[k] in pages[1..];
      }
    }
  }
}
