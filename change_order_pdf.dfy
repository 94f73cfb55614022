/** The page reordering page (change_order_pdf.js): loading a PDF lists its
    pages as draggable items that remember their original index, and
    reordering copies the pages into a new document in list order. */
module ChangeOrderPdf {
  import opened Text
  import opened Documents
  import opened DragDrop
  import opened Naming

  /** One `<li>` of the page list: its text and its `data-original-index`
      attribute, which the DOM keeps as a string. */
  datatype PageItem = PageItem(text: string, originalIndex: string)

  /** The item created for page `i` (0-based): `ページ i+1`, index `i`. */
  function PageItemFor(i: nat): (r: PageItem)
    ensures ParseDigits(r.originalIndex) == Some(i)
    ensures |r.text| > 4 && r.text[..4] == "ページ " && ParseDigits(r.text[4..]) == Some(i + 1)
  {
    ParseNatToString(i);
    ParseNatToString(i + 1);
    var text := "ページ " + NatToString(i + 1);
    assert text[4..] == NatToString(i + 1);
    PageItem(text, NatToString(i))
  }

  /** The list right after loading a document of `n` pages. */
  function InitialPages(n: nat): (r: seq<PageItem>)
    ensures |r| == n
    ensures forall i :: 0 <= i < n ==> r[i] == PageItemFor(i)
  {
    seq(n, i requires 0 <= i < n => PageItemFor(i))
  }

  const NoneSelected: string := "選択されていません"

  /** What the status line says after a file was picked; `Cleared` when the
      log was only emptied. */
  datatype LoadStatus = Cleared | PagesFound(count: nat) | LoadFailed

  /** `handleFileSelect`: empties the list and the log; with no file it only
      resets the label, otherwise it shows the file name and, when the file
      loads, lists pages 1..n in ascending order. */
  method HandleFileSelect(list: SortableList<PageItem>, file: Option<File>)
    returns (caption: string, status: LoadStatus)
    modifies list
    ensures list.Valid() && list.dragged == old(list.dragged)
    ensures file.None? ==> caption == NoneSelected && status == Cleared && list.items == []
    ensures file.Some? ==> caption == file.value.name
    ensures file.Some? && file.value.pdf.None? ==> status == LoadFailed && list.items == []
    ensures file.Some? && file.value.pdf.Some? ==>
      status == PagesFound(|file.value.pdf.value|) && list.items == InitialPages(|file.value.pdf.value|)
  {
    list.Clear();
    if file.None? {
      return NoneSelected, Cleared;
    }
    caption := file.value.name;
    if file.value.pdf.None? {
      return caption, LoadFailed;
    }
    var pageCount := |file.value.pdf.value|;
    for i := 0 to pageCount
      invariant list.Valid() && list.dragged == old(list.dragged)
      invariant list.items == InitialPages(i)
    {
      forall j | 0 <= j < i ensures list.items[j] != PageItemFor(i) {
        NatToStringInjective(j, i);
      }
      list.Append(PageItemFor(i));
    }
    status := PagesFound(pageCount);
  }

  /** `newOrder`: `parseInt(li.dataset.originalIndex, 10)` for every item in
      list order, `None` standing for NaN. */
  function NewOrder(items: seq<PageItem>): (r: seq<Option<nat>>)
    ensures |r| == |items|
    ensures forall k :: 0 <= k < |items| ==> r[k] == ParseDigits(items[k].originalIndex)
  {
    seq(|items|, k requires 0 <= k < |items| => ParseDigits(items[k].originalIndex))
  }

  /** `newPdf.copyPages(originalPdf, newOrder)`: page k of the copy is
      original page `newOrder[k]`; any index that is NaN or past the last
      page makes the copy throw (`None`). */
  function CopyPages(pages: seq<Page>, order: seq<Option<nat>>): (r: Option<seq<Page>>)
    ensures r.Some? <==> forall k :: 0 <= k < |order| ==> order[k].Some? && order[k].value < |pages|
    ensures r.Some? ==> (|r.value| == |order|
      && forall k :: 0 <= k < |order| ==> r.value[k] == pages[order[k].value])
  {
    if forall k :: 0 <= k < |order| ==> order[k].Some? && order[k].value < |pages| then
      Some(seq(|order|, k requires 0 <= k < |order| => pages[order[k].value]))
    else
      None
  }

  /** The download name: the base name followed by `_reordered.pdf`. */
  function ReorderedName(name: string): (r: string)
    ensures |r| == |BaseName(name)| + 14 && r[..|BaseName(name)|] == BaseName(name)
    ensures r[|BaseName(name)|..] == "_reordered.pdf"
  {
    BaseName(name) + "_reordered.pdf"
  }

  datatype ReorderStatus = NoFileSelected | EmptyList | Reordered | Failed

  /** `reorderPdfPages`: with no file, or with an empty page list, it only
      reports that; otherwise it loads the file, copies its pages in list
      order into a new document, page by page, and offers the result as
      `<base>_reordered.pdf`. A load or copy that throws ends in `Failed`. */
  method ReorderPdfPages(file: Option<File>, items: seq<PageItem>)
    returns (status: ReorderStatus, download: Option<Download>)
    ensures file.None? ==> status == NoFileSelected && download == None
    ensures file.Some? && items == [] ==> status == EmptyList && download == None
    ensures file.Some? && items != [] && file.value.pdf.None? ==> status == Failed && download == None
    ensures file.Some? && items != [] && file.value.pdf.Some? ==>
      match CopyPages(file.value.pdf.value, NewOrder(items))
      case None => status == Failed && download == None
      case Some(copied) =>
        status == Reordered && download == Some(Download(ReorderedName(file.value.name), copied))
  {
    if file.None? {
      return NoFileSelected, None;
    }
    if |items| == 0 {
      return EmptyList, None;
    }
    if file.value.pdf.None? {
      return Failed, None;
    }
    var copied := CopyPages(file.value.pdf.value, NewOrder(items));
    if copied.None? {
      return Failed, None;
    }
    var newPdf: seq<Page> := [];
    for k := 0 to |copied.value|
      invariant newPdf == copied.value[..k]
    {
      newPdf := newPdf + [copied.value[k]];
    }
    assert newPdf == copied.value;
    status, download := Reordered, Some(Download(ReorderedName(file.value.name), newPdf));
  }

  /** `s.map(f)`. */
  function MapSeq<A, B>(f: A -> B, s: seq<A>): (r: seq<B>)
    ensures |r| == |s| && forall k :: 0 <= k < |s| ==> r[k] == f(s[k])
  {
    seq(|s|, k requires 0 <= k < |s| => f(s[k]))
  }

  /** Mapping distributes over concatenation. */
  lemma MapSeqAppend<A, B>(f: A -> B, a: seq<A>, b: seq<A>)
    ensures MapSeq(f, a + b) == MapSeq(f, a) + MapSeq(f, b)
  {
  }

  /** Taking element `i` out of a sequence takes one copy of it out of the
      multiset, before and after mapping. */
  lemma RemoveAt<A, B>(f: A -> B, t: seq<A>, i: nat, rest: seq<A>)
    requires i < |t| && rest == t[..i] + t[i + 1..]
    ensures multiset(rest) == multiset(t) - multiset{t[i]}
    ensures multiset(MapSeq(f, t)) == multiset(MapSeq(f, rest)) + multiset{f(t[i])}
  {
    var before, x, after := t[..i], t[i], t[i + 1..];
    assert t == before + [x] + after;
    MapSeqAppend(f, before + [x], after);
    MapSeqAppend(f, before, [x]);
    MapSeqAppend(f, before, after);
    assert MapSeq(f, [x]) == [f(x)];
    assert MapSeq(f, t) == MapSeq(f, before) + [f(x)] + MapSeq(f, after);
  }

  /** Mapping two permutations of each other gives two permutations of each
      other. */
  lemma {:induction false} MapPermutation<A, B>(f: A -> B, s: seq<A>, t: seq<A>)
    requires multiset(s) == multiset(t)
    ensures multiset(MapSeq(f, s)) == multiset(MapSeq(f, t))
  {
    if s == [] {
      assert |t| == |multiset(t)| == 0;
    } else {
      var x := s[0];
      assert x in multiset(t);
      var i :| 0 <= i < |t| && t[i] == x;
      var s', t' := s[1..], t[..i] + t[i + 1..];
      assert s' == s[..0] + s[1..];
      RemoveAt(f, s, 0, s');
      RemoveAt(f, t, i, t');
      MapPermutation(f, s', t');
    }
  }

  /** The indices `0..n-1`, each as a parsed (non-NaN) number. */
  function IndexRange(n: nat): (r: seq<Option<nat>>)
    ensures |r| == n && forall i :: 0 <= i < n ==> r[i] == Some(i)
  {
    seq(n, i requires 0 <= i < n => Some(i))
  }

  /** Whatever drags happened since loading a document of `n` pages, the
      list's new order holds every index `0..n-1` exactly once and nothing
      else: it is a permutation of the original page indices. */
  lemma NewOrderIsPermutation(items: seq<PageItem>, n: nat)
    requires multiset(items) == multiset(InitialPages(n))
    ensures multiset(NewOrder(items)) == multiset(IndexRange(n))
    ensures forall k :: 0 <= k < |items| ==> NewOrder(items)[k].Some? && NewOrder(items)[k].value < n
  {
    var parse := (item: PageItem) => ParseDigits(item.originalIndex);
    MapPermutation(parse, items, InitialPages(n));
    assert MapSeq(parse, items) == NewOrder(items);
    forall i | 0 <= i < n ensures MapSeq(parse, InitialPages(n))[i] == Some(i) {
      ParseNatToString(i);
    }
    assert MapSeq(parse, InitialPages(n)) == IndexRange(n);
    forall k | 0 <= k < |items|
      ensures NewOrder(items)[k].Some? && NewOrder(items)[k].value < n
    {
      assert NewOrder(items)[k] in multiset(IndexRange(n));
    }
  }

  /** Reordering after any drags succeeds and outputs a permutation of the
      document's pages: as many pages, each page as often as in the
      original. */
  lemma ReorderPermutesPages(pages: seq<Page>, items: seq<PageItem>)
    requires multiset(items) == multiset(InitialPages(|pages|))
    ensures CopyPages(pages, NewOrder(items)).Some?
    ensures multiset(CopyPages(pages, NewOrder(items)).value) == multiset(pages)
  {
    var n := |pages|;
    NewOrderIsPermutation(items, n);
    var order := NewOrder(items);
    var copied := CopyPages(pages, order);
    if n == 0 {
      assert |items| == |multiset(items)| == 0;
    } else {
      var pick := (o: Option<nat>) => if o.Some? && o.value < n then pages[o.value] else pages[0];
      MapPermutation(pick, order, IndexRange(n));
      assert MapSeq(pick, order) == copied.value;
      assert MapSeq(pick, IndexRange(n)) == pages;
    }
  }
}
