/** The image conversion page (pdf_jpg.js): PDF to JPEG saves one image per
    page, and images to PDF puts each image on its own A4 page, turned to
    match the image and scaled to fit, centred. Rendering (pdf.js) and image
    embedding (jsPDF) are not modelled; geometry is in exact reals. */
module PdfJpg {
  import opened Text
  import opened Documents

  const NoFileLabel: string := "ファイルが選択されていません"
  const CountLabelSuffix: string := " 個のファイルが選択されました"

  /** `updateFileName`: no file, one file's name, or how many files. */
  function FileNameLabel(names: seq<string>): (r: string)
    ensures |names| == 0 ==> r == NoFileLabel
    ensures |names| == 1 ==> r == names[0]
    ensures |names| >= 2 ==> r == NatToString(|names|) + CountLabelSuffix
    ensures |names| >= 2 ==> r != NoFileLabel && |r| > 0 && IsDigit(r[0])
  {
    if |names| > 0 then
      if |names| == 1 then names[0] else NatToString(|names|) + CountLabelSuffix
    else
      NoFileLabel
  }

  /** Selections of different sizes (two files or more) are told apart by
      their labels. */
  lemma CountLabelsDistinct(a: seq<string>, b: seq<string>)
    requires |a| >= 2 && |b| >= 2 && |a| != |b|
    ensures FileNameLabel(a) != FileNameLabel(b)
  {
    var x, y := NatToString(|a|), NatToString(|b|);
    NatToStringInjective(|a|, |b|);
    MiddleDiffers([], x, y, CountLabelSuffix);
    assert [] + x == x && [] + y == y;
  }

  /** jsPDF's `'l'` and `'p'`. */
  datatype Orientation = Landscape | Portrait

  /** `img.width > img.height ? 'l' : 'p'`. */
  function OrientationOf(width: real, height: real): (r: Orientation)
    ensures r == Landscape <==> width > height
  {
    if width > height then Landscape else Portrait
  }

  /** A4 as jsPDF defines it, in points, and its points-per-millimetre
      factor for `unit: 'mm'`. */
  const A4ShortPt: real := 595.28
  const A4LongPt: real := 841.89
  const PtPerMm: real := 72.0 / 25.4

  /** A page's size in millimetres. */
  datatype PageSize = PageSize(width: real, height: real)

  /** `doc.internal.pageSize` of an A4 page in the given orientation. */
  function A4(orientation: Orientation): (r: PageSize)
    ensures r.width > 0.0 && r.height > 0.0
  {
    match orientation
    case Portrait => PageSize(A4ShortPt / PtPerMm, A4LongPt / PtPerMm)
    case Landscape => PageSize(A4LongPt / PtPerMm, A4ShortPt / PtPerMm)
  }

  /** The page is wider than tall exactly when the image is; a square image
      gets an upright page. */
  lemma PageFollowsImage(width: real, height: real)
    ensures var page := A4(OrientationOf(width, height));
      page.width > page.height <==> width > height
  {
  }

  /** Where and how large an image is drawn on its page. */
  datatype Placement = Placement(x: real, y: real, width: real, height: real)

  /** The scaling and centring of `convertToPdf`: the image is scaled to the
      page's width when it is relatively wider than the page, else to the
      page's height, keeping its aspect ratio, and centred. */
  function FitAndCentre(width: real, height: real, page: PageSize): (r: Placement)
    requires height > 0.0 && page.width > 0.0 && page.height > 0.0
    ensures r.width == page.width || r.height == page.height
  {
    var aspectRatio := width / height;
    if width / page.width > height / page.height then
      var newWidth := page.width;
      var newHeight := newWidth / aspectRatio;
      Centred(page, newWidth, newHeight)
    else
      var newHeight := page.height;
      var newWidth := newHeight * aspectRatio;
      Centred(page, newWidth, newHeight)
  }

  /** A fitted image lies within the page, touches two opposite edges, keeps
      its aspect ratio, and has equal margins on either side. */
  lemma FitAndCentreSpec(width: real, height: real, page: PageSize)
    requires width > 0.0 && height > 0.0 && page.width > 0.0 && page.height > 0.0
    ensures var r := FitAndCentre(width, height, page);
      && 0.0 < r.width <= page.width && 0.0 < r.height <= page.height
      && (r.width == page.width || r.height == page.height)
      && r.width * height == r.height * width
      && r.x >= 0.0 && r.y >= 0.0
      && r.x + r.width + r.x == page.width && r.y + r.height + r.y == page.height
  {
    if width / page.width > height / page.height {
      FitWidthBounds(width, height, page);
    } else {
      FitHeightBounds(width, height, page);
    }
  }

  /** `x = (pdfPageWidth - newWidth) / 2`, `y = (pdfPageHeight - newHeight) / 2`. */
  function Centred(page: PageSize, newWidth: real, newHeight: real): (r: Placement)
    ensures r.width == newWidth && r.height == newHeight
    ensures r.x + r.width + r.x == page.width && r.y + r.height + r.y == page.height
  {
    Placement((page.width - newWidth) / 2.0, (page.height - newHeight) / 2.0, newWidth, newHeight)
  }

  /** Scaling to the page width keeps the height within the page. */
  lemma FitWidthBounds(width: real, height: real, page: PageSize)
    requires width > 0.0 && height > 0.0 && page.width > 0.0 && page.height > 0.0
    requires width / page.width > height / page.height
    ensures 0.0 < page.width / (width / height) < page.height
    ensures page.width / (width / height) * width == page.width * height
  {
    var a := width / height;
    var h := page.width / a;
    assert width == a * height;
    assert h * a == page.width;
    assert width * page.height > height * page.width by {
      var p, q := width / page.width, height / page.height;
      assert width == p * page.width && height == q * page.height;
      assert width * page.height == p * page.width * page.height;
      assert height * page.width == q * page.width * page.height;
      assert p * (page.width * page.height) > q * (page.width * page.height);
    }
    assert h * width == page.width * height by {
      assert h * width == h * a * height;
    }
    assert h * width < page.height * width;
  }

  /** Scaling to the page height keeps the width within the page. */
  lemma FitHeightBounds(width: real, height: real, page: PageSize)
    requires width > 0.0 && height > 0.0 && page.width > 0.0 && page.height > 0.0
    requires !(width / page.width > height / page.height)
    ensures 0.0 < page.height * (width / height) <= page.width
    ensures page.height * (width / height) * height == page.height * width
  {
    var a := width / height;
    var w := page.height * a;
    assert width == a * height;
    assert width * page.height <= height * page.width by {
      var p, q := width / page.width, height / page.height;
      assert width == p * page.width && height == q * page.height;
      assert width * page.height == p * page.width * page.height;
      assert height * page.width == q * page.width * page.height;
      assert p * (page.width * page.height) <= q * (page.width * page.height);
    }
    assert w * height == page.height * width;
    assert w * height <= page.width * height;
  }

  /** `file.type.split('/')[1].toUpperCase()`: the second `/`-separated
      field of the MIME type, upper-cased; `None` when there is no such field,
      where `[1]` is `undefined` and the call throws. */
  function FormatTag(mimeType: string): (r: Option<string>)
    ensures r.Some? <==> '/' in mimeType
  {
    SplitFields(mimeType, '/');
    var fields := Split(mimeType, '/');
    if |fields| < 2 then None else Some(UpperAsciiString(fields[1]))
  }

  /** There is a tag exactly when the MIME type has a `/`, and the tag has
      none. */
  lemma FormatTagDefined(mimeType: string)
    ensures FormatTag(mimeType).Some? <==> '/' in mimeType
    ensures FormatTag(mimeType).Some? ==> '/' !in FormatTag(mimeType).value
  {
    SplitFields(mimeType, '/');
    var fields := Split(mimeType, '/');
    if |fields| >= 2 {
      var tag := UpperAsciiString(fields[1]);
      forall i | 0 <= i < |tag| ensures tag[i] != '/' {
        assert fields[1][i] != '/';
      }
    }
  }

  /** The format tag of `type/subtype`, or of `type/subtype/...`, is the
      upper-cased subtype. */
  lemma FormatTagOfMimeType(kind: string, subtype: string, more: string)
    requires '/' !in kind && '/' !in subtype
    requires more == [] || more[0] == '/'
    ensures FormatTag(kind + "/" + subtype + more) == Some(UpperAsciiString(subtype))
  {
    var tail := subtype + more;
    assert kind + "/" + subtype + more == kind + ("/" + tail);
    SplitFieldPrefix(kind, "/" + tail, '/');
    assert ("/" + tail)[1..] == tail;
    assert Split("/" + tail, '/') == [[]] + Split(tail, '/');
    SplitFieldPrefix(subtype, more, '/');
    assert Split(more, '/')[0] == [];
    var fields := Split(kind + "/" + subtype + more, '/');
    assert fields[1..] == Split(tail, '/');
    assert fields[1] == subtype + [] == subtype;
  }

  /** `image/jpeg` is embedded as `JPEG`. */
  lemma JpegTag()
    ensures FormatTag("image/jpeg") == Some("JPEG")
  {
    assert "image" + "/" + "jpeg" + "" == "image/jpeg";
    FormatTagOfMimeType("image", "jpeg", "");
    UpperJpeg();
  }

  lemma UpperJpeg()
    ensures UpperAsciiString("jpeg") == "JPEG"
  {
    var u := UpperAsciiString("jpeg");
    assert u[0] == 'J' && u[1] == 'P' && u[2] == 'E' && u[3] == 'G';
  }

  /** A picked image once decoded: its natural size, its MIME type and its
      data URL. */
  datatype Image = Image(width: real, height: real, mimeType: string, data: seq<char>)

  /** An image drawn on a page by `addImage`. */
  datatype PlacedImage = PlacedImage(data: seq<char>, format: string, at: Placement)

  /** A page of the jsPDF document. */
  datatype PdfPage = PdfPage(orientation: Orientation, images: seq<PlacedImage>)

  /** The page `convertToPdf` makes for an image with a valid format tag. */
  function PageFor(image: Image): (r: PdfPage)
    requires image.width > 0.0 && image.height > 0.0 && FormatTag(image.mimeType).Some?
    ensures r.orientation == OrientationOf(image.width, image.height)
    ensures |r.images| == 1 && r.images[0].data == image.data
    ensures r.images[0].format == FormatTag(image.mimeType).value
  {
    var orientation := OrientationOf(image.width, image.height);
    var at := FitAndCentre(image.width, image.height, A4(orientation));
    PdfPage(orientation, [PlacedImage(image.data, FormatTag(image.mimeType).value, at)])
  }

  /** Each page made for an image holds that image alone, inside the page. */
  lemma PageForFits(image: Image)
    requires image.width > 0.0 && image.height > 0.0 && FormatTag(image.mimeType).Some?
    ensures var page := PageFor(image);
      var size := A4(page.orientation);
      |page.images| == 1
      && page.images[0].data == image.data
      && 0.0 <= page.images[0].at.x
      && page.images[0].at.x + page.images[0].at.width <= size.width
      && 0.0 <= page.images[0].at.y
      && page.images[0].at.y + page.images[0].at.height <= size.height
  {
    var orientation := OrientationOf(image.width, image.height);
    FitAndCentreSpec(image.width, image.height, A4(orientation));
  }

  /** The document `convertToPdf` makes from a run of images: one page per
      image, in order. */
  function PagesFor(images: seq<Image>): (r: seq<PdfPage>)
    requires forall k :: 0 <= k < |images| ==>
      images[k].width > 0.0 && images[k].height > 0.0 && FormatTag(images[k].mimeType).Some?
    ensures |r| == |images|
    ensures forall k :: 0 <= k < |images| ==>
      |r[k].images| == 1 && r[k].images[0].data == images[k].data
  {
    seq(|images|, k requires 0 <= k < |images| => PageFor(images[k]))
  }

  /** One more image adds its page at the end. */
  lemma PagesForSnoc(images: seq<Image>, i: nat)
    requires i < |images|
    requires forall k :: 0 <= k <= i ==>
      images[k].width > 0.0 && images[k].height > 0.0 && FormatTag(images[k].mimeType).Some?
    ensures PagesFor(images[..i + 1]) == PagesFor(images[..i]) + [PageFor(images[i])]
  {
    var prefix, longer := images[..i], images[..i + 1];
    assert forall k :: 0 <= k < i ==> longer[k] == prefix[k];
  }

  /** The page the loop of `convertToPdf` builds for an image in two steps,
      `addPage` and then `addImage`, is `PageFor` of that image. */
  lemma AddedPageIsPageFor(image: Image, current: PdfPage, at: Placement, format: Option<string>)
    requires image.width > 0.0 && image.height > 0.0
    requires current == PdfPage(OrientationOf(image.width, image.height), [])
    requires at == FitAndCentre(image.width, image.height, A4(current.orientation))
    requires format == FormatTag(image.mimeType) && format.Some?
    ensures PdfPage(current.orientation, current.images + [PlacedImage(image.data, format.value, at)])
      == PageFor(image)
  {
  }

  datatype ConvertStatus = NoImagesSelected | Converted | ConversionFailed

  /** The saved `output.pdf`. */
  datatype PdfOutput = PdfOutput(name: string, pages: seq<PdfPage>)

  /** `convertToPdf`: with no image it only alerts. Otherwise the first image
      creates the document and each later image adds a page, turned to
      match the image; the image is placed fitted and centred on it. An image
      whose MIME type has no `/` makes the conversion fail with no output.
      On success there is one page per image, in picking order. */
  method ConvertToPdf(images: seq<Image>) returns (status: ConvertStatus, output: Option<PdfOutput>)
    requires forall k :: 0 <= k < |images| ==> images[k].width > 0.0 && images[k].height > 0.0
    ensures |images| == 0 ==> status == NoImagesSelected && output == None
    ensures |images| > 0 && (exists k :: 0 <= k < |images| && FormatTag(images[k].mimeType).None?) ==>
      status == ConversionFailed && output == None
    ensures |images| > 0 && (forall k :: 0 <= k < |images| ==> FormatTag(images[k].mimeType).Some?) ==>
      && status == Converted
      && output.Some? && output.value.name == "output.pdf"
      && output.value.pages == PagesFor(images)
  {
    if |images| == 0 {
      return NoImagesSelected, None;
    }
    var doc: Option<seq<PdfPage>> := None;
    for i := 0 to |images|
      invariant doc.None? <==> i == 0
      invariant forall k :: 0 <= k < i ==> FormatTag(images[k].mimeType).Some?
      invariant doc.Some? ==> doc.value == PagesFor(images[..i])
    {
      var image := images[i];
      var orientation := OrientationOf(image.width, image.height);
      if doc.None? {
        doc := Some([PdfPage(orientation, [])]);
      } else {
        doc := Some(doc.value + [PdfPage(orientation, [])]);
      }
      var page := A4(orientation);
      var at := FitAndCentre(image.width, image.height, page);
      var format := FormatTag(image.mimeType);
      if format.None? {
        return ConversionFailed, None;
      }
      var pages := doc.value;
      var current := pages[|pages| - 1];
      AddedPageIsPageFor(image, current, at, format);
      PagesForSnoc(images, i);
      doc := Some(pages[..|pages| - 1]
        + [PdfPage(current.orientation, current.images + [PlacedImage(image.data, format.value, at)])]);
    }
    assert images[..|images|] == images;
    status, output := Converted, Some(PdfOutput("output.pdf", doc.value));
  }

  /** A JPEG saved by `convertToJpg`: its file name and the page it shows. */
  datatype JpgImage = JpgImage(name: string, page: Page)

  /** `page_${i}.jpg` for the 1-based page number `i`. */
  function PageImageName(pageNumber: nat): (r: string)
    ensures |r| == 9 + |NatToString(pageNumber)|
    ensures r[..5] == "page_" && r[|r| - 4..] == ".jpg"
    ensures r[5..|r| - 4] == NatToString(pageNumber)
  {
    "page_" + NatToString(pageNumber) + ".jpg"
  }

  /** Different pages are saved under different names. */
  lemma PageImageNamesDistinct(i: nat, j: nat)
    requires i != j
    ensures PageImageName(i) != PageImageName(j)
  {
    NatToStringInjective(i, j);
    MiddleDiffers("page_", NatToString(i), NatToString(j), ".jpg");
  }

  datatype JpgStatus = NoPdfSelected | Saved | LoadFailed

  /** `convertToJpg`: with no file it only alerts; a file that does not load
      fails before saving anything. Otherwise pages 1..n are rendered and
      saved in page order, page k as `page_k.jpg`, under distinct names.
      This page opens the file with pdf.js's `getDocument`, not with pdf-lib,
      so `loaded` is pdf.js's outcome for the file's bytes and is independent
      of `file.pdf`: a file one library rejects may load in the other. */
  method ConvertToJpg(file: Option<File>, loaded: Option<seq<Page>>) returns (status: JpgStatus, saved: seq<JpgImage>)
    ensures file.None? ==> status == NoPdfSelected && saved == []
    ensures file.Some? && loaded.None? ==> status == LoadFailed && saved == []
    ensures file.Some? && loaded.Some? ==>
      var pages := loaded.value;
      && status == Saved
      && |saved| == |pages|
      && (forall k :: 0 <= k < |pages| ==> saved[k] == JpgImage(PageImageName(k + 1), pages[k]))
      && (forall i, j :: 0 <= i < j < |saved| ==> saved[i].name != saved[j].name)
  {
    if file.None? {
      return NoPdfSelected, [];
    }
    if loaded.None? {
      return LoadFailed, [];
    }
    var pages := loaded.value;
    saved := [];
    var i := 1;
    while i <= |pages|
      invariant 1 <= i <= |pages| + 1
      invariant |saved| == i - 1
      invariant forall k :: 0 <= k < i - 1 ==> saved[k] == JpgImage(PageImageName(k + 1), pages[k])
    {
      saved := saved + [JpgImage(PageImageName(i), pages[i - 1])];
      i := i + 1;
    }
    forall a, b | 0 <= a < b < |saved| ensures saved[a].name != saved[b].name {
      PageImageNamesDistinct(a + 1, b + 1);
    }
    status := Saved;
  }
}
