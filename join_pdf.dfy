/** The PDF merging page (join_pdf.js): the picked files are listed by name,
    the list is put in order by drag and drop, and merging concatenates the
    pages of the listed files in list order under a user-chosen name. */
module JoinPdf {
  import opened Text
  import opened Documents
  import opened DragDrop

  /** One `<li>` of the file list: the position of the file it was created
      for, which makes each item a distinct node, and its text, the name. */
  datatype ListEntry = ListEntry(node: nat, name: string)

  /** The list items the `change` handler creates, one per picked file. */
  function EntriesFor(files: seq<File>): (r: seq<ListEntry>)
    ensures |r| == |files|
    ensures forall k :: 0 <= k < |files| ==> r[k] == ListEntry(k, files[k].name)
  {
    seq(|files|, k requires 0 <= k < |files| => ListEntry(k, files[k].name))
  }

  const NoneSelected: string := "選択されていません"

  /** The item for file `i` is new to the list built so far. */
  lemma NextEntry(files: seq<File>, i: nat)
    requires i < |files|
    ensures EntriesFor(files)[i] !in EntriesFor(files)[..i]
    ensures EntriesFor(files)[..i + 1] == EntriesFor(files)[..i] + [EntriesFor(files)[i]]
  {
    var built := EntriesFor(files)[..i];
    assert forall e :: e in built ==> e.node < i;
  }

  /** The `change` handler of the file input: sets the label and refills the
      list with one draggable item per picked file, in picking order. */
  method SelectFiles(list: SortableList<ListEntry>, files: seq<File>) returns (caption: string)
    modifies list
    ensures list.Valid() && list.items == EntriesFor(files) && list.dragged == old(list.dragged)
    ensures |files| > 0 ==> caption == NatToString(|files|) + "個のファイルを選択中"
    ensures |files| == 0 ==> caption == NoneSelected
  {
    if |files| > 0 {
      caption := NatToString(|files|) + "個のファイルを選択中";
    } else {
      caption := NoneSelected;
    }
    list.Clear();
    for i := 0 to |files|
      invariant list.Valid() && list.dragged == old(list.dragged)
      invariant list.items == EntriesFor(files)[..i]
    {
      NextEntry(files, i);
      list.Append(EntriesFor(files)[i]);
    }
    assert EntriesFor(files)[..|files|] == EntriesFor(files);
  }

  /** `orderedFileNames`: the texts of the list items, in display order. */
  function NamesOf(items: seq<ListEntry>): (r: seq<string>)
    ensures |r| == |items|
    ensures forall k :: 0 <= k < |items| ==> r[k] == items[k].name
  {
    seq(|items|, k requires 0 <= k < |items| => items[k].name)
  }

  /** The position of the first file called `name`, as `Array.prototype.find`
      scans, or `None` when there is none. */
  function FindIndex(files: seq<File>, name: string): (r: Option<nat>)
    ensures r.None? <==> forall j :: 0 <= j < |files| ==> files[j].name != name
    ensures r.Some? ==> (r.value < |files| && files[r.value].name == name
      && forall j :: 0 <= j < r.value ==> files[j].name != name)
  {
    if files == [] then None
    else if files[0].name == name then Some(0)
    else match FindIndex(files[1..], name)
      case None => None
      case Some(j) => Some(j + 1)
  }

  /** `originalFiles.find(file => file.name === name)`. */
  function Find(files: seq<File>, name: string): (r: Option<File>)
    ensures r.None? <==> !HasFile(files, name)
    ensures r.Some? ==> r.value in files && r.value.name == name
    ensures r.Some? ==>
      exists i :: 0 <= i < |files| && files[i] == r.value && (forall j :: 0 <= j < i ==> files[j].name != name)
  {
    match FindIndex(files, name)
    case None => None
    case Some(j) => Some(files[j])
  }

  /** Whether some picked file is called `name`. */
  predicate HasFile(files: seq<File>, name: string) {
    exists j :: 0 <= j < |files| && files[j].name == name
  }

  /** The names of the list that some picked file carries, in list order. */
  function KnownNames(names: seq<string>, files: seq<File>): seq<string> {
    if names == [] then []
    else (if HasFile(files, names[0]) then [names[0]] else []) + KnownNames(names[1..], files)
  }

  /** `orderedFileNames.map(name => find(...)).filter(Boolean)`: the files to
      merge follow the list order, each is the first picked file with its
      name, names without a file are dropped, and there are never more of
      them than list items. */
  function FilesToMerge(names: seq<string>, files: seq<File>): (r: seq<File>)
    ensures |r| <= |names|
    ensures |r| == |KnownNames(names, files)|
    ensures forall k :: 0 <= k < |r| ==> r[k].name == KnownNames(names, files)[k]
    ensures forall k :: 0 <= k < |r| ==> Find(files, r[k].name) == Some(r[k])
  {
    if names == [] then []
    else
      var rest := FilesToMerge(names[1..], files);
      match Find(files, names[0])
      case None => rest
      case Some(f) => [f] + rest
  }

  /** When every name of the list is the name of a picked file, nothing is
      dropped: the k-th file to merge is the first file named like the k-th
      item. */
  lemma {:induction false} AllNamesFound(names: seq<string>, files: seq<File>)
    requires forall k :: 0 <= k < |names| ==> HasFile(files, names[k])
    ensures var r := FilesToMerge(names, files);
      |r| == |names| && forall k :: 0 <= k < |r| ==> r[k].name == names[k]
  {
    if names != [] {
      AllNamesFound(names[1..], files);
      assert KnownNames(names, files) == [names[0]] + KnownNames(names[1..], files);
    }
  }

  /** The names shown in the list, however they have been dragged around,
      are all names of picked files, so merging drops none of the listed
      items. */
  lemma ListedFilesAreAllMerged(items: seq<ListEntry>, files: seq<File>)
    requires multiset(items) == multiset(EntriesFor(files))
    ensures |FilesToMerge(NamesOf(items), files)| == |files|
  {
    var names := NamesOf(items);
    forall k | 0 <= k < |names| ensures HasFile(files, names[k]) {
      assert items[k] in multiset(EntriesFor(files));
      var j :| 0 <= j < |files| && EntriesFor(files)[j] == items[k];
      assert files[j].name == names[k];
    }
    AllNamesFound(names, files);
    assert |items| == |multiset(items)| == |EntriesFor(files)|;
  }

  /** Every file to merge loads as a PDF. */
  predicate AllLoad(files: seq<File>) {
    forall k :: 0 <= k < |files| ==> files[k].pdf.Some?
  }

  /** The pages of the merged document: each file's pages, file after file. */
  function MergedPages(files: seq<File>): (r: seq<Page>)
    requires AllLoad(files)
    ensures forall k :: 0 <= k < |files| ==> |files[k].pdf.value| <= |r|
  {
    if files == [] then []
    else MergedPages(files[..|files| - 1]) + files[|files| - 1].pdf.value
  }

  /** Merging two runs of files gives the two merged documents one after the
      other. */
  lemma {:induction false} MergedPagesAppend(a: seq<File>, b: seq<File>)
    requires AllLoad(a) && AllLoad(b)
    ensures AllLoad(a + b)
    ensures MergedPages(a + b) == MergedPages(a) + MergedPages(b)
  {
    assert AllLoad(a + b);
    if b != [] {
      var b' := b[..|b| - 1];
      assert (a + b)[..|a + b| - 1] == a + b';
      MergedPagesAppend(a, b');
    } else {
      assert a + b == a;
    }
  }

  /** Each file's pages appear whole and in their own order in the merged
      document, right after the pages of the files before it. */
  lemma MergedPagesOfFile(files: seq<File>, i: nat)
    requires AllLoad(files) && i < |files|
    ensures var start := |MergedPages(files[..i])|;
      var pages := files[i].pdf.value;
      start + |pages| <= |MergedPages(files)|
      && MergedPages(files)[start..start + |pages|] == pages
  {
    var before, file, after := files[..i], files[i], files[i + 1..];
    assert files == before + [file] + after;
    assert AllLoad(before) && AllLoad([file]) && AllLoad(after);
    MergedPagesAppend(before, [file]);
    MergedPagesAppend(before + [file], after);
    assert [file][..0] == [];
    assert MergedPages([file]) == file.pdf.value;
  }

  /** The `.pdf` suffix test of the output name: `toLowerCase()` then
      `endsWith('.pdf')`. */
  predicate EndsWithPdf(s: string): (b: bool)
    ensures b <==> (|s| >= 4 && s[|s| - 4] == '.'
      && s[|s| - 3] in "pP" && s[|s| - 2] in "dD" && s[|s| - 1] in "fF")
  {
    |s| >= 4 && LowerAsciiString(s[|s| - 4..]) == ".pdf"
  }

  /** The download name of the merged document, from the output-name field:
      the trimmed text, `merged.pdf` when that is empty, with `.pdf`
      appended unless it already ends with `.pdf` in some letter case. The
      result always ends with `.pdf`, has no whitespace at either end and
      starts with the trimmed text the user typed. */
  function OutputName(field: string): (r: string)
    ensures EndsWithPdf(r) && !IsJsWhitespace(r[0]) && !IsJsWhitespace(r[|r| - 1])
    ensures Trim(field) == [] ==> r == "merged.pdf"
    ensures Trim(field) != [] ==> |Trim(field)| <= |r| && r[..|Trim(field)|] == Trim(field)
    ensures Trim(field) != [] && EndsWithPdf(Trim(field)) ==> r == Trim(field)
    ensures Trim(field) != [] && !EndsWithPdf(Trim(field)) ==> r == Trim(field) + ".pdf"
  {
    var name := Trim(field);
    if name == [] then
      PdfSuffixLower();
      "merged.pdf"
    else if !EndsWithPdf(name) then
      PdfSuffixLower();
      name + ".pdf"
    else
      name
  }

  lemma PdfSuffixLower()
    ensures LowerAsciiString(".pdf") == ".pdf"
  {
    var l := LowerAsciiString(".pdf");
    assert l[0] == '.' && l[1] == 'p' && l[2] == 'd' && l[3] == 'f';
  }

  /** Normalising an already normalised name changes nothing. */
  lemma OutputNameIdempotent(field: string)
    ensures OutputName(OutputName(field)) == OutputName(field)
  {
    TrimUnchanged(OutputName(field));
  }

  datatype MergeStatus = NoFilesSelected | Merged | Failed

  /** The loop of `mergePdfs`: loads each file in turn and appends all its
      pages to the merged document; the first file that does not load ends
      the merge with nothing. */
  method CopyAllPages(toMerge: seq<File>) returns (merged: Option<seq<Page>>)
    ensures merged.Some? <==> AllLoad(toMerge)
    ensures merged.Some? ==> merged.value == MergedPages(toMerge)
  {
    var pages: seq<Page> := [];
    for i := 0 to |toMerge|
      invariant AllLoad(toMerge[..i])
      invariant pages == MergedPages(toMerge[..i])
    {
      var file := toMerge[i];
      if file.pdf.None? {
        return None;
      }
      assert toMerge[..i + 1][..i] == toMerge[..i];
      pages := pages + file.pdf.value;
    }
    assert toMerge[..|toMerge|] == toMerge;
    merged := Some(pages);
  }

  /** `mergePdfs`: looks up the files of the list, stops with a message when
      there are none, and otherwise copies the pages of every file into a
      new document, file by file; a file that does not load aborts the
      merge. On success the merged document is offered under the
      normalised output name. */
  method MergePdfs(items: seq<ListEntry>, files: seq<File>, field: string)
    returns (status: MergeStatus, download: Option<Download>)
    ensures var toMerge := FilesToMerge(NamesOf(items), files);
      && (toMerge == [] ==> status == NoFilesSelected && download == None)
      && (toMerge != [] && AllLoad(toMerge) ==>
            status == Merged && download == Some(Download(OutputName(field), MergedPages(toMerge))))
      && (!AllLoad(toMerge) ==> status == Failed && download == None)
  {
    var toMerge := FilesToMerge(NamesOf(items), files);
    if |toMerge| == 0 {
      return NoFilesSelected, None;
    }
    var merged := CopyAllPages(toMerge);
    if merged.None? {
      return Failed, None;
    }
    status, download := Merged, Some(Download(OutputName(field), merged.value));
  }
}
