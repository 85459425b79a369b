/** PDF generation: the checks made before anything is produced, the ".pdf"
    normalisation of the file name, and the plan of one page per stored
    image. The image decoder, the PDF library and the save dialog are
    parameters. */
module PdfAssembly {
  import opened Text
  import opened ImageCollection

  /** Left and top offset of every image on its page. */
  const ImageOffset: int := 10
  /** Width every image is scaled to. */
  const ImageWidth: int := 190

  /** Pixel dimensions of a decoded image; an unreadable file decodes to 0 x 0. */
  datatype Size = Size(width: nat, height: nat)

  /** One page of the document: the image file and where it is placed. */
  datatype Page = Page(image: string, x: int, y: int, w: int, h: real)

  /** The two errors reported before the save dialog is shown. */
  datatype InputError = NoImages | NoFilename

  datatype Result<T> = Ok(value: T) | Err(error: InputError)

  /** The exception that ended a run, and the image it was raised on. */
  datatype Failure =
    | PageError(path: string)       // the PDF library could not add the page for the image
    | ZeroWidthImage(path: string)  // the height computation divides by zero
    | EmbedError(path: string)      // the PDF library could not place the image on its page
    | WriteError                    // the PDF library could not write the file

  datatype Outcome =
    | Rejected(error: InputError)
    | Cancelled(proposedName: string)
    | Failed(proposedName: string, savePath: string, failure: Failure)
    | Written(proposedName: string, savePath: string, pages: seq<Page>)

  /** Appends ".pdf" unless the name already ends with it, in any case.
      The suffix is added at most once, and a name that already has it is
      left alone, so normalising twice changes nothing more. */
  function WithPdfSuffix(name: string): (r: string)
    ensures EndsWithIgnoringCase(r, ".pdf")
    ensures r == name || r == name + ".pdf"
    ensures r == name <==> EndsWithIgnoringCase(name, ".pdf")
  {
    if EndsWithIgnoringCase(name, ".pdf") then name
    else
      LowerAppend(name, ".pdf");
      assert Lower(".pdf") == ".pdf";
      name + ".pdf"
  }

  /** The checks before the save dialog: the image list comes first, then
      the stripped file name; on success the name to propose. */
  function CheckRequest(imagePaths: seq<string>, filenameText: string): (r: Result<string>)
    ensures r == Err(NoImages) <==> imagePaths == []
    ensures r == Err(NoFilename) <==> imagePaths != [] && AllSpace(filenameText)
    ensures r.Ok? ==> EndsWithIgnoringCase(r.value, ".pdf")
    ensures r.Ok? ==> r.value == Strip(filenameText) || r.value == Strip(filenameText) + ".pdf"
    ensures r.Ok? ==> (r.value == Strip(filenameText) <==> EndsWithIgnoringCase(Strip(filenameText), ".pdf"))
  {
    if imagePaths == [] then Err(NoImages)
    else
      var filename := Strip(filenameText);
      if filename == [] then Err(NoFilename)
      else Ok(WithPdfSuffix(filename))
  }

  /** The page for one image: fixed offset and width, and a height that
      keeps the image's aspect ratio. */
  function PlaceImage(path: string, size: Size): (p: Page)
    requires size.width > 0
    ensures p.image == path && p.x == ImageOffset && p.y == ImageOffset && p.w == ImageWidth
    ensures p.h * (size.width as real) == (ImageWidth as real) * (size.height as real)
  {
    Page(path, ImageOffset, ImageOffset, ImageWidth,
         (ImageWidth as real) * (size.height as real) / (size.width as real))
  }

  /** Whether the run gets past `path`: the PDF library adds its page, the
      image decodes to a positive width, and the library places it. */
  predicate Embeds(path: string, pixmapSize: string -> Size, pageOk: string -> bool, imageOk: string -> bool)
  {
    pageOk(path) && pixmapSize(path).width > 0 && imageOk(path)
  }

  /** The run stops at index `k` of `paths` with `failure`: every earlier
      image embeds, the one at `k` does not, and `failure` names it and the
      first of the three steps that raised, in the order they run: adding
      the page, computing the height, placing the image. */
  predicate FirstStop(paths: seq<string>, k: nat, pixmapSize: string -> Size,
                      pageOk: string -> bool, imageOk: string -> bool, failure: Failure)
    requires k < |paths|
  {
    var path := paths[k];
    && !Embeds(path, pixmapSize, pageOk, imageOk)
    && !failure.WriteError? && failure.path == path
    && (failure.PageError? <==> !pageOk(path))
    && (failure.ZeroWidthImage? <==> pageOk(path) && pixmapSize(path).width == 0)
    && (failure.EmbedError? <==> pageOk(path) && pixmapSize(path).width > 0 && !imageOk(path))
    && forall j :: 0 <= j < k ==> Embeds(paths[j], pixmapSize, pageOk, imageOk)
  }

  /** The stopping point is determined: at most one index and one failure
      satisfy `FirstStop`. */
  lemma FirstStopUnique(paths: seq<string>, pixmapSize: string -> Size, pageOk: string -> bool,
                        imageOk: string -> bool, k1: nat, f1: Failure, k2: nat, f2: Failure)
    requires k1 < |paths| && FirstStop(paths, k1, pixmapSize, pageOk, imageOk, f1)
    requires k2 < |paths| && FirstStop(paths, k2, pixmapSize, pageOk, imageOk, f2)
    ensures k1 == k2 && f1 == f2
  {
  }

  /** `add_page` runs before the height is computed: a zero-width image
      whose page the library cannot add stops the run with `PageError`. */
  lemma PageErrorBeforeZeroWidth(pixmapSize: string -> Size, pageOk: string -> bool,
                                 imageOk: string -> bool, f: Failure)
    requires pixmapSize("a.png") == Size(0, 0) && !pageOk("a.png")
    requires FirstStop(["a.png"], 0, pixmapSize, pageOk, imageOk, f)
    ensures f == PageError("a.png")
  {
  }

  /** How the page loop ended: every image placed, or stopped by the
      exception raised at `index`. */
  datatype Embedding = AllEmbedded(pages: seq<Page>) | StoppedAt(index: nat, failure: Failure)

  /** The page loop: one page per path, in order, until the first image
      whose page the library cannot add, that decodes to width 0, or that
      the library cannot place. */
  method EmbedImages(paths: seq<string>, pixmapSize: string -> Size, pageOk: string -> bool, imageOk: string -> bool)
    returns (e: Embedding)
    ensures e.AllEmbedded? <==> forall k :: 0 <= k < |paths| ==> Embeds(paths[k], pixmapSize, pageOk, imageOk)
    ensures e.AllEmbedded? ==>
              |e.pages| == |paths| &&
              forall k :: 0 <= k < |paths| ==>
                pixmapSize(paths[k]).width > 0 && e.pages[k] == PlaceImage(paths[k], pixmapSize(paths[k]))
    ensures e.StoppedAt? ==>
              e.index < |paths| && FirstStop(paths, e.index, pixmapSize, pageOk, imageOk, e.failure)
  {
    var pages: seq<Page> := [];
    var i := 0;
    while i < |paths|
      invariant 0 <= i <= |paths| && |pages| == i
      invariant forall k :: 0 <= k < i ==> Embeds(paths[k], pixmapSize, pageOk, imageOk)
      invariant forall k :: 0 <= k < i ==>
                  pixmapSize(paths[k]).width > 0 && pages[k] == PlaceImage(paths[k], pixmapSize(paths[k]))
    {
      var size := pixmapSize(paths[i]);
      if !pageOk(paths[i]) {
        return StoppedAt(i, PageError(paths[i]));
      }
      if size.width == 0 {
        return StoppedAt(i, ZeroWidthImage(paths[i]));
      }
      if !imageOk(paths[i]) {
        return StoppedAt(i, EmbedError(paths[i]));
      }
      pages := pages + [PlaceImage(paths[i], size)];
      i := i + 1;
    }
    return AllEmbedded(pages);
  }

  /** The main window; its drop target holds the collection. */
  class App {
    const dropArea: DropArea

    constructor ()
      ensures fresh(dropArea) && dropArea.imagePaths == [] && dropArea.Valid()
    {
      dropArea := new DropArea();
    }

    /** Generates the document from the current collection. `chooseSavePath`
        is the save dialog, offered the normalised name, answering "" when
        cancelled; `pixmapSize` decodes an image; `pageOk` and `imageOk` say
        whether the PDF library adds the page for a path and places the
        image on it without raising, and `writeOk` whether it writes the
        file. The images are handled one at
        a time in list order and the first exception ends the run. Nothing
        is modified: the collection stays as it was whatever the outcome. */
    method GeneratePdf(filenameText: string, chooseSavePath: string -> string,
                       pixmapSize: string -> Size, pageOk: string -> bool, imageOk: string -> bool,
                       writeOk: bool)
      returns (outcome: Outcome)
      ensures dropArea.imagePaths == [] ==> outcome == Rejected(NoImages)
      ensures outcome.Rejected? <==> CheckRequest(dropArea.imagePaths, filenameText).Err?
      ensures outcome.Rejected? ==> outcome.error == CheckRequest(dropArea.imagePaths, filenameText).error
      ensures !outcome.Rejected? ==> outcome.proposedName == CheckRequest(dropArea.imagePaths, filenameText).value
      ensures outcome.Cancelled? <==> !outcome.Rejected? && chooseSavePath(outcome.proposedName) == []
      ensures outcome.Failed? || outcome.Written? ==>
                outcome.savePath == chooseSavePath(outcome.proposedName) != []
      ensures outcome.Failed? && !outcome.failure.WriteError? ==>
                exists k :: 0 <= k < |dropArea.imagePaths| && dropArea.imagePaths[k] == outcome.failure.path &&
                  FirstStop(dropArea.imagePaths, k, pixmapSize, pageOk, imageOk, outcome.failure)
      ensures outcome.Failed? && outcome.failure.WriteError? ==>
                !writeOk && forall k :: 0 <= k < |dropArea.imagePaths| ==> Embeds(dropArea.imagePaths[k], pixmapSize, pageOk, imageOk)
      ensures outcome.Written? <==>
                CheckRequest(dropArea.imagePaths, filenameText).Ok? &&
                chooseSavePath(CheckRequest(dropArea.imagePaths, filenameText).value) != [] &&
                writeOk &&
                forall k :: 0 <= k < |dropArea.imagePaths| ==> Embeds(dropArea.imagePaths[k], pixmapSize, pageOk, imageOk)
      ensures outcome.Written? ==>
                |outcome.pages| == |dropArea.imagePaths| &&
                forall k :: 0 <= k < |dropArea.imagePaths| ==>
                  pixmapSize(dropArea.imagePaths[k]).width > 0 &&
                  outcome.pages[k] == PlaceImage(dropArea.imagePaths[k], pixmapSize(dropArea.imagePaths[k]))
      ensures outcome.Written? && dropArea.Valid() ==>
                forall i, j :: 0 <= i < j < |outcome.pages| ==> outcome.pages[i].image != outcome.pages[j].image
    {
      var paths := dropArea.imagePaths;
      var request := CheckRequest(paths, filenameText);
      if request.Err? {
        return Rejected(request.error);
      }
      var filename := request.value;
      var savePath := chooseSavePath(filename);
      if savePath == [] {
        return Cancelled(filename);
      }
      var embedding := EmbedImages(paths, pixmapSize, pageOk, imageOk);
      if embedding.StoppedAt? {
        assert FirstStop(paths, embedding.index, pixmapSize, pageOk, imageOk, embedding.failure);
        return Failed(filename, savePath, embedding.failure);
      }
      if !writeOk {
        return Failed(filename, savePath, WriteError);
      }
      return Written(filename, savePath, embedding.pages);
    }

    /** The "clear" button: empties the collection. */
    method ClearImages()
      modifies dropArea
      ensures dropArea.imagePaths == [] && dropArea.Valid()
    {
      dropArea.ClearImages();
    }
  }

  /** Two worked placements: an 800 x 600 image is 142.5 high on its page,
      a square one is as high as it is wide. */
  lemma PlaceImageExample()
    ensures PlaceImage("a.png", Size(800, 600)).h == 142.5
    ensures PlaceImage("b.png", Size(400, 400)).h == 190.0
  {
  }
}
