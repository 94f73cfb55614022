/** The splitting page (split_pdf.js): every page of the picked PDF becomes a
    one-page PDF of its own, and all of them are packed into one archive.
    JSZip is not modelled: the archive is its name and its list of entries. */
module SplitPdf {
  import opened Text
  import opened Documents
  import opened Naming

  /** One file of the archive: its name and the pages of its PDF. */
  datatype Entry = Entry(name: string, pages: seq<Page>)

  /** The archive offered for download. */
  datatype Archive = Archive(name: string, entries: seq<Entry>)

  datatype SplitStatus = NoFileSelected | NoPages | Done | Failed

  /** `targetPages`: `Array.from({ length: pageCount }, (_, i) => i)`, the
      indices of all pages in ascending order. */
  function TargetPages(pageCount: nat): (r: seq<nat>)
    ensures |r| == pageCount
    ensures forall i :: 0 <= i < pageCount ==> r[i] == i
  {
    seq(pageCount, i requires 0 <= i < pageCount => i)
  }

  /** `${originalName}_page${pageIndex + 1}.pdf`: entries are numbered from 1. */
  function PageEntryName(base: string, pageIndex: nat): (r: string)
    ensures |r| == |base| + 9 + |NatToString(pageIndex + 1)|
    ensures r[..|base|] == base && r[|base|..|base| + 5] == "_page" && r[|r| - 4..] == ".pdf"
    ensures r[|base| + 5..|r| - 4] == NatToString(pageIndex + 1)
  {
    base + "_page" + NatToString(pageIndex + 1) + ".pdf"
  }

  /** Different pages get different entry names, so no entry of the archive
      overwrites another. */
  lemma PageEntryNamesDistinct(base: string, i: nat, j: nat)
    requires i != j
    ensures PageEntryName(base, i) != PageEntryName(base, j)
  {
    NatToStringInjective(i + 1, j + 1);
    MiddleDiffers(base + "_page", NatToString(i + 1), NatToString(j + 1), ".pdf");
  }

  /** `${originalName}_split.zip`. */
  function ArchiveName(base: string): (r: string)
    ensures |r| == |base| + 10 && r[..|base|] == base && r[|base|..] == "_split.zip"
  {
    base + "_split.zip"
  }

  /** `splitPdf`: with no file it only says so; a file that does not load
      ends in `Failed`; a document without pages gets a message and no
      archive. Otherwise every page, in ascending order, becomes an entry
      `<base>_page<k+1>.pdf` holding just that page, and the archive is
      `<base>_split.zip`. */
  method SplitPdf(file: Option<File>) returns (status: SplitStatus, archive: Option<Archive>)
    ensures file.None? ==> status == NoFileSelected && archive == None
    ensures file.Some? && file.value.pdf.None? ==> status == Failed && archive == None
    ensures file.Some? && file.value.pdf == Some([]) ==> status == NoPages && archive == None
    ensures file.Some? && file.value.pdf.Some? && file.value.pdf.value != [] ==>
      var pages, base := file.value.pdf.value, BaseName(file.value.name);
      && status == Done
      && archive.Some?
      && archive.value.name == ArchiveName(base)
      && |archive.value.entries| == |pages|
      && (forall k :: 0 <= k < |pages| ==>
            archive.value.entries[k] == Entry(PageEntryName(base, k), [pages[k]]))
      && (forall i, j :: 0 <= i < j < |pages| ==>
            archive.value.entries[i].name != archive.value.entries[j].name)
  {
    if file.None? {
      return NoFileSelected, None;
    }
    if file.value.pdf.None? {
      return Failed, None;
    }
    var pages := file.value.pdf.value;
    var base := BaseName(file.value.name);
    var targetPages := TargetPages(|pages|);
    if |targetPages| == 0 {
      return NoPages, None;
    }
    var entries: seq<Entry> := [];
    for i := 0 to |targetPages|
      invariant |entries| == i
      invariant forall k :: 0 <= k < i ==> entries[k] == Entry(PageEntryName(base, k), [pages[k]])
    {
      var pageIndex := targetPages[i];
      entries := entries + [Entry(PageEntryName(base, pageIndex), [pages[pageIndex]])];
    }
    forall i, j | 0 <= i < j < |pages| ensures entries[i].name != entries[j].name {
      PageEntryNamesDistinct(base, i, j);
    }
    status, archive := Done, Some(Archive(ArchiveName(base), entries));
  }
}
