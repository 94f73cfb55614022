# pdf_tool in Dafny

pdf_tool is a set of browser pages that work on PDF files on the client:
- merging several PDFs in an order chosen by drag and drop (join_pdf.js);
- reordering the pages of one PDF by drag and drop (change_order_pdf.js);
- splitting a PDF into one-page PDFs packed in a ZIP archive (split_pdf.js);
- converting PDF pages to JPEG images and images to a PDF (pdf_jpg.js).

The PDF libraries do the heavy work. These pages decide the rest:
- which files and pages go where, in what order;
- how the outputs are named;
- how the drag-and-drop list moves its items;
- how an image is placed on its page.

This project models those rules and proves what they guarantee.

A PDF is modelled as a sequence of pages, and a page (`Documents.Page`) is an opaque value. A picked file is its name plus `Some(pages)` when pdf-lib's `PDFDocument.load` accepts it, or `None` when that `load` throws. The JPEG export opens the file with pdf.js's `getDocument` instead (pdf_jpg.js:43-45), so `ConvertToJpg` takes pdf.js's outcome as a separate input. The ZIP archive is its name and its list of entries. Page geometry (`getBoundingClientRect`, A4 sizes, image sizes) is in exact reals.

Modules, one per source file plus shared helpers:
- `Text`: the JavaScript string built-ins the pages use. These are `trim`, ASCII `toLowerCase`/`toUpperCase`, `lastIndexOf`, `split`, `${n}` for naturals, and `parseInt(s, 10)` on digit strings.
- `Naming`: the base-name rule shared by the splitting and reordering pages.
- `Documents`: files, pages and downloads.
- `DragDrop`: the hit test `getDragAfterElement`, the `dragover` move, and the `SortableList` class. The class holds the list's items and the `draggedItem` state that the `dragstart`, `dragend` and `dragover` handlers update.
- `JoinPdf`, `ChangeOrderPdf`, `SplitPdf` and `PdfJpg`: the four pages.

The handlers that build lists or documents step by step are methods with loops. Each is proved against a function that states the result:
- `SelectFiles`, `HandleFileSelect`, `CopyAllPages`, `ReorderPdfPages`, `SplitPdf`, `ConvertToPdf`, `ConvertToJpg`.

The rules that are single expressions in the source are functions with lemmas:
- names, the hit test, `filesToMerge`, `newOrder`, and the fit-and-centre arithmetic.

split_pdf.js:51 always selects every page; there is no page-range input, so `SplitPdf.TargetPages` is all pages in ascending order.

## Model

| member | source | states |
|---|---|---|
| Text.TrimStart | join_pdf.js:116 | the result is a suffix of the input, everything dropped is whitespace, and it does not start with whitespace |
| Text.TrimEnd | join_pdf.js:116 | the result is a prefix of the input, everything dropped is whitespace, and it does not end with whitespace |
| Text.Trim | join_pdf.js:116 | a trimmed string neither starts nor ends with JavaScript whitespace |
| Text.TrimSpec | join_pdf.js:116 | the input is some whitespace, then the trimmed string, then some whitespace |
| Text.TrimUnchanged | join_pdf.js:116 | trimming a string with no whitespace at either end returns it unchanged |
| Text.LowerAsciiString | join_pdf.js:119 | same length; every character is mapped by ASCII lower-casing |
| Text.UpperAsciiString | pdf_jpg.js:134 | same length; every character is mapped by ASCII upper-casing |
| Text.LastIndexOf | split_pdf.js:46-48 | the result is the last index holding the character, or -1 exactly when the character does not occur |
| Text.Split | pdf_jpg.js:134 | `split` always yields at least one field |
| Text.JoinSplit | pdf_jpg.js:134 | joining the fields of `split(sep)` with `sep` gives back the string |
| Text.SplitFields | pdf_jpg.js:134 | no field contains the separator, and there is more than one field exactly when the separator occurs |
| Text.NatToString | change_order_pdf.js:34-36 | `${n}` is a non-empty string of decimal digits with no leading zero |
| Text.ParseDigits | change_order_pdf.js:113 | `parseInt` of the empty string, or of a string that does not start with a digit, is NaN |
| Text.ParseNatToString | change_order_pdf.js:113 | `parseInt(String(i), 10)` gives back `i`, so the stored page index reads back unchanged |
| Text.NatToStringInjective | split_pdf.js:72 | different numbers print differently |
| Naming.BaseName | change_order_pdf.js:130-132 | the base name is a prefix of the file name |
| Naming.BaseNameSpec | split_pdf.js:46-48 | either the name is cut just before its last `.` and that dot is not at index 0, or the name is kept whole because it has no dot after index 0 |
| DragDrop.ClosestBelow | join_pdf.js:61-69 | the fold returns nothing exactly when no offset is negative; otherwise it returns the largest negative offset and its index, the earliest one among equal offsets |
| DragDrop.Offsets | join_pdf.js:62-63 | item j's offset is `y - top - height/2` of its box |
| DragDrop.DragAfterElement | join_pdf.js:58-70 | a hit is an index into the non-dragged items whose midpoint is below the pointer |
| DragDrop.DragAfterElementSpec | change_order_pdf.js:73-85 | the hit test picks the item whose midpoint is below the pointer and nearest to it, the earliest among ties, and none when no midpoint is below the pointer |
| DragDrop.Without | join_pdf.js:59 | the items other than the dragged one: its multiset with the dragged item's count set to zero |
| DragDrop.DropAt | join_pdf.js:45-56 | after a move the list holds the dragged item, and has one item more than the list without it |
| DragDrop.DropAtPermutes | join_pdf.js:45-56 | a move keeps the list a permutation of itself and free of duplicates |
| DragDrop.DropAtKeepsOrder | join_pdf.js:45-56 | a move keeps the other items in their relative order |
| DragDrop.DropAtPlacement | change_order_pdf.js:64-70 | the dragged item lands immediately in front of the hit item, or last when there is none |
| DragDrop.SortableList.constructor | join_pdf.js:31 | the list starts empty with no dragged item |
| DragDrop.SortableList.Clear | join_pdf.js:21 | `innerHTML = ''` empties the list and leaves `draggedItem` alone |
| DragDrop.SortableList.Append | join_pdf.js:22-27 | a new item goes at the end and the list stays duplicate-free |
| DragDrop.SortableList.DragStart | change_order_pdf.js:48-53 | `dragstart` records the dragged item |
| DragDrop.SortableList.DragEnd | change_order_pdf.js:55-58 | `dragend` resets the dragged item to none |
| DragDrop.SortableList.DragOver | change_order_pdf.js:60-71 | `dragover` moves the dragged item as `DropAt` says when it is in the list, otherwise changes nothing; the items' multiset never changes |
| JoinPdf.EntriesFor | join_pdf.js:22-27 | one list item per picked file, in picking order, showing the file's name |
| JoinPdf.SelectFiles | join_pdf.js:13-28 | the label reads `N個のファイルを選択中` or `選択されていません`, and the list holds exactly one item per picked file, in order |
| JoinPdf.NamesOf | join_pdf.js:74 | the names read off the list, in display order |
| JoinPdf.FindIndex | join_pdf.js:79 | `find` gives the first file with the name, or none exactly when no file has it |
| JoinPdf.Find | join_pdf.js:79 | `find` gives none exactly when no picked file has the name; otherwise it gives the first picked file with that name |
| JoinPdf.FilesToMerge | join_pdf.js:78-80 | the files follow the list order; each is the first picked file with that name; unknown names are dropped; there are never more files than names |
| JoinPdf.AllNamesFound | join_pdf.js:78-80 | when every name is a picked file's name, nothing is dropped and the k-th file carries the k-th name |
| JoinPdf.ListedFilesAreAllMerged | join_pdf.js:74-80 | for a list that `SelectFiles` filled and drags then rearranged, merging takes as many files as were picked |
| JoinPdf.MergedPages | join_pdf.js:98-106 | the merged document is at least as long as any one file's pages |
| JoinPdf.MergedPagesAppend | join_pdf.js:98-106 | merging two runs of files gives the two merged page sequences one after the other |
| JoinPdf.MergedPagesOfFile | join_pdf.js:98-106 | every file's pages appear whole and in order in the merged document, right after the pages of the files before it |
| JoinPdf.EndsWithPdf | join_pdf.js:119 | the test holds exactly when the last four characters are `.`, then `p`, `d` and `f` in either case |
| JoinPdf.OutputName | join_pdf.js:116-121 | the name always ends with `.pdf` in some letter case and has no whitespace at either end; a blank field gives `merged.pdf`; a trimmed text already ending in `.pdf` is kept as it is; any other trimmed text gets `.pdf` appended |
| JoinPdf.OutputNameIdempotent | join_pdf.js:116-121 | normalising an already normalised name returns it unchanged |
| JoinPdf.CopyAllPages | join_pdf.js:98-106 | the loop succeeds exactly when every file loads, and then yields all their pages, file after file |
| JoinPdf.MergePdfs | join_pdf.js:72-133 | no files to merge gives a message and no download; a file that does not load gives failure and no download; otherwise the download is the concatenated pages under the normalised name |
| ChangeOrderPdf.PageItemFor | change_order_pdf.js:33-36 | the item for page i stores an index that parses back to i, and its text is `ページ ` followed by a number that parses to i+1 |
| ChangeOrderPdf.InitialPages | change_order_pdf.js:32-38 | after loading, item i reads `ページ i+1` and stores original index i, for i from 0 to n-1 |
| ChangeOrderPdf.HandleFileSelect | change_order_pdf.js:11-44 | the list is emptied; with no file the label is reset; with a file that loads, the list holds its pages in ascending order; with one that fails to load, the list stays empty |
| ChangeOrderPdf.NewOrder | change_order_pdf.js:113 | entry k is `parseInt` of item k's stored index |
| ChangeOrderPdf.CopyPages | change_order_pdf.js:118 | `copyPages` succeeds exactly when every index is a number within the document; then page k of the copy is original page `newOrder[k]` |
| ChangeOrderPdf.ReorderedName | change_order_pdf.js:134 | the download name is the base name followed by `_reordered.pdf` |
| ChangeOrderPdf.ReorderPdfPages | change_order_pdf.js:87-144 | no file or an empty list ends before any PDF work; a load or copy failure gives no download; otherwise the download holds the copied pages in list order |
| ChangeOrderPdf.MapSeq | change_order_pdf.js:113 | `map` keeps the length and applies the function to each element |
| ChangeOrderPdf.MapPermutation | change_order_pdf.js:113 | mapping two permutations of each other gives two permutations of each other |
| ChangeOrderPdf.NewOrderIsPermutation | change_order_pdf.js:60-71 | whatever drags happened since loading n pages, the new order is a permutation of 0..n-1 |
| ChangeOrderPdf.ReorderPermutesPages | change_order_pdf.js:113-123 | after any drags, reordering succeeds and outputs a permutation of the document's pages |
| SplitPdf.TargetPages | split_pdf.js:51 | the target pages are exactly 0..pageCount-1 in ascending order |
| SplitPdf.PageEntryName | split_pdf.js:72 | the entry name is the base name, `_page`, the 1-based page number and `.pdf` |
| SplitPdf.PageEntryNamesDistinct | split_pdf.js:72 | different pages get different entry names `<base>_page<k+1>.pdf` |
| SplitPdf.ArchiveName | split_pdf.js:83 | the archive name is the base name followed by `_split.zip` |
| SplitPdf.SplitPdf | split_pdf.js:22-92 | no file gives a message only; a file that does not load gives failure; zero pages gives a message and no archive; otherwise the archive has one entry per page, in ascending order, each holding only that page, under pairwise distinct names |
| PdfJpg.FileNameLabel | pdf_jpg.js:16-26 | zero files give `ファイルが選択されていません`, one file gives its name, and n >= 2 files give exactly `${n} 個のファイルが選択されました` |
| PdfJpg.CountLabelsDistinct | pdf_jpg.js:21 | selections of different sizes (two files or more) get different labels |
| PdfJpg.OrientationOf | pdf_jpg.js:106 | the orientation is landscape (`'l'`) exactly when the width is strictly greater than the height |
| PdfJpg.A4 | pdf_jpg.js:107-116 | an A4 page in either orientation has positive width and height |
| PdfJpg.PageFollowsImage | pdf_jpg.js:106 | the page is wider than tall exactly when the image is; a square image gets an upright page |
| PdfJpg.FitAndCentre | pdf_jpg.js:118-132 | the placed image fills the page's width or its height |
| PdfJpg.Centred | pdf_jpg.js:131-132 | the placement keeps the new size and leaves equal margins on opposite sides |
| PdfJpg.FitWidthBounds | pdf_jpg.js:122-124 | scaling to the page width keeps the height positive, within the page and in proportion |
| PdfJpg.FitHeightBounds | pdf_jpg.js:125-128 | scaling to the page height keeps the width positive, within the page and in proportion |
| PdfJpg.FitAndCentreSpec | pdf_jpg.js:118-132 | the fitted image lies within the page, fills its width or its height, keeps the aspect ratio, and has non-negative, equal margins on opposite sides |
| PdfJpg.FormatTag | pdf_jpg.js:134 | there is a tag exactly when the MIME type contains `/`; otherwise `[1]` is undefined and the call throws |
| PdfJpg.FormatTagDefined | pdf_jpg.js:134 | there is a format tag exactly when the MIME type contains `/`, and the tag contains none |
| PdfJpg.FormatTagOfMimeType | pdf_jpg.js:134 | the tag of `type/subtype` or `type/subtype/...` is the upper-cased subtype |
| PdfJpg.JpegTag | pdf_jpg.js:134 | `image/jpeg` is embedded as `JPEG` |
| PdfJpg.PageFor | pdf_jpg.js:106-136 | the page made for an image follows the image's orientation and holds that image alone, under its format tag |
| PdfJpg.PagesFor | pdf_jpg.js:109-136 | the document has one page per image, and page k holds image k alone |
| PdfJpg.PageForFits | pdf_jpg.js:106-136 | the page made for an image holds that image alone, inside the page |
| PdfJpg.AddedPageIsPageFor | pdf_jpg.js:109-136 | `addPage` followed by `addImage` builds exactly the page `PageFor` describes |
| PdfJpg.ConvertToPdf | pdf_jpg.js:77-151 | no images gives an alert only; an image whose type has no second `/`-field gives failure and no output; otherwise `output.pdf` has one page per image, in picking order, each holding its image fitted and centred |
| PdfJpg.PageImageName | pdf_jpg.js:63 | the file name is `page_`, the page number and `.jpg` |
| PdfJpg.PageImageNamesDistinct | pdf_jpg.js:63 | different page numbers give different `page_<i>.jpg` names |
| PdfJpg.ConvertToJpg | pdf_jpg.js:28-75 | no file gives an alert only; a file that pdf.js does not open saves nothing; otherwise one JPEG per page, in page order, named `page_1.jpg` to `page_N.jpg`, all distinct |

## Left out

- PDF parsing, page copying and saving (pdf-lib), opening and rendering for the JPEG export (pdf.js), image embedding (jsPDF) and ZIP generation (JSZip) are foreign libraries. A document is its page sequence, and a failing `load` is `None`. The only way `copyPages` can fail in the model is an index that is NaN or out of range.
- PdfJpg.ConvertToJpg: pdf.js's `getDocument` outcome is an independent input (`loaded`), so a file pdf-lib rejects (an owner-password-encrypted PDF, say) may still be exported page by page, and the reverse. The model does not relate the two libraries' page counts or their choice of which files to accept.
- DOM and I/O: `getElementById`, `innerHTML` for the log, status `<p>` texts and progress messages, `alert`, `FileReader`, `Blob`/`URL.createObjectURL`, `saveAs`, and button `disabled` toggling. Results are returned as status values and outputs.
- The `setTimeout`-deferred `dragging` class (change_order_pdf.js:50-52, join_pdf.js:35-37) is event-loop timing. `dragover` uses the item recorded by `dragstart` directly, so a `dragover` that arrives before the timeout has run is not modelled.
- The file-name label of split_pdf.js:13-20 is a two-way label with no rule beyond the one `FileNameLabel` already covers.
- common.js is not part of this model. It only toggles the menu's CSS class.
- Floating point: box sizes, A4 sizes and image sizes are exact reals. Rounding, and the `parseFloat` scale and JPEG quality of `convertToJpg`, are not modelled.
- PdfJpg.ConvertToPdf: takes images that have already decoded. A picked file that does not decode (a non-image file, say) never fires `img.onload` (pdf_jpg.js:100-104), so the conversion waits forever and the button stays disabled, because pdf_jpg.js:148-150 is never reached. That hang is not modelled.
- PdfJpg.ConvertToPdf: also requires positive image width and height, because the aspect-ratio division (pdf_jpg.js:118) is undefined otherwise. Decoded images of zero size are not modelled.
- PdfJpg.ConvertToJpg: a rendering or encoding failure in the middle of the page loop is not modelled, because the page renderer is a foreign library. A mid-loop failure would leave the images saved so far.
- PdfJpg.FormatTag: a tag that jsPDF does not support (for example one from `image/webp`) is not an error in the model; jsPDF's own format check is not part of this model.
- Text.ParseDigits: models `parseInt(s, 10)` only on the digit strings the pages write themselves. Leading signs, whitespace and trailing junk are not modelled, because the stored `data-original-index` is always `${i}`.
- Text.LowerAsciiString and Text.UpperAsciiString: only ASCII letters change case. That is enough for the `.pdf` suffix test and for MIME subtypes, which are ASCII.
- ChangeOrderPdf.HandleFileSelect: the handler is modelled as one atomic step. In the source it is async: it clears the list (change_order_pdf.js:12), waits for the load (change_order_pdf.js:28-29) and only then appends the pages (change_order_pdf.js:32-38). Picking a second file while the first is still loading lets both calls append, so the list holds the pages of both files. `reorderPdfPages` then uses the current file (change_order_pdf.js:89), and `copyPages` either throws on an out-of-range index or outputs duplicated pages. The model cannot represent that interleaving, because its list never holds an item twice. So `NewOrderIsPermutation` and `ReorderPermutesPages` hold only when one load finishes before the next file is picked.
- JoinPdf.FilesToMerge: with two picked files of the same name, `find` returns the first one for both list items, exactly as the code does. The model states this (each file is the first with its name) but proves no further property about duplicates.
