# pic2pdf in Dafny

pic2pdf is a small desktop tool. The user drops image files onto a drop
target, types a file name and presses "generate". The tool then writes one
PDF with one image per page. This project models the two parts of that
program that hold logic:

- **The image collection** (`ImageCollection`, `collection.dfy`). The drop
  target `DropArea` keeps an ordered list `imagePaths`. A drop appends each
  candidate path whose lower-cased form ends with `.png`, `.jpg`, `.jpeg`,
  `.bmp` or `.gif` and that is not stored yet. It counts the paths it
  appended. "Clear" empties the list. The class method `DropEvent` runs the
  source's loop. It is proved equal to the function `AddAll`, which takes
  the candidates one at a time. The lemmas about `AddAll` state the
  collection's promises: no duplicates, only image extensions, old contents
  kept as a prefix, exactly the first occurrence of each new image path
  appended in drop order, and the exact count. `Replay`
  runs a whole session of drops and clears from the empty start state.
- **Generation** (`PdfAssembly`, `assembler.dfy`). `CheckRequest` reports
  "no images" when the list is empty, checked first. It reports "no
  filename" when the stripped name is empty. Otherwise it returns the name
  with ".pdf" appended unless it already ends with it (`WithPdfSuffix`).
  `App.GeneratePdf` then asks the save dialog and loops over the stored
  paths. It plans one `Page` per image at x = 10, y = 10, width 190, and
  a height that keeps the aspect ratio (`PlaceImage`). It has no
  `modifies` clause, so generation never changes the collection.
- **String helpers** (`Text`, `text.dfy`). ASCII versions of `str.lower`,
  `str.endswith` and `str.strip`.

The program's collaborators are parameters of `App.GeneratePdf`:

- the save dialog is a function `chooseSavePath` from the proposed name to a
  path; the empty path means the user cancelled;
- image decoding (`QPixmap`) is a function `pixmapSize` from path to
  `Size`. An unreadable image decodes to width 0, which aborts the whole
  run, as the source's division by zero does;
- the PDF library is three inputs: `pageOk`, from path to whether
  `add_page` succeeds for that image; `imageOk`, from path to whether
  placing the image succeeds; and `writeOk`, whether writing the file
  succeeds. The images are handled one at a time in list order. For each
  one the page is added first, then the height is computed (which divides
  by the width), then the image is placed. The first exception ends the
  run in a `Failed` outcome, as the source's single `except` does. The
  program shows only the exception's text. The `Failure` record, which
  names the step that raised and the image, is the model's own account of
  that exception.

## Model

| member | source | states |
|---|---|---|
| ImageCollection.IsImagePath | pic2pdf.py:80 | the member is line 80's test itself: the lower-cased path ends with one of `.png`, `.jpg`, `.jpeg`, `.bmp`, `.gif`; its contract adds only that an accepted path has at least four characters. What the filter means for the collection is stated by `AddAllMembers`, `Admit` and `WellFormed` |
| ImageCollection.IsImagePathIgnoresCase | pic2pdf.py:80 | the filter ignores case: a path passes iff its lower-cased form passes |
| ImageCollection.Admit | pic2pdf.py:80-83 | one turn of the loop appends the candidate or leaves the list alone; it appends iff the candidate has an image extension and is not stored; it keeps the collection invariant |
| ImageCollection.AddAll | pic2pdf.py:78-83 | the list after a drop: the old list is a prefix of it, and it grows by at most the number of dropped paths |
| ImageCollection.FirstOccurrences | pic2pdf.py:78-83 | the paths a drop keeps, picked from the drop in order (a candidate is kept iff it has an image extension, is not stored and was not dropped earlier in the same drop); there are at most as many as dropped paths |
| ImageCollection.FirstOccurrencesMembers | pic2pdf.py:80-82 | a path is kept iff it was dropped, has an image extension and was not stored before |
| ImageCollection.DropArea.constructor | pic2pdf.py:35 | the collection starts empty and well formed |
| ImageCollection.DropArea.DropEvent | pic2pdf.py:77-83 | the new list is `AddAll(old list, candidates)`; the old list is a prefix of the new one; the returned count is the growth of the list, so it is 0 exactly when the list is unchanged; the invariant (image extensions only, no duplicates) is kept |
| ImageCollection.DropArea.ClearImages | pic2pdf.py:94-95 | the list is empty afterwards, whatever it held |
| ImageCollection.AddAllOrder | pic2pdf.py:78-83 | a drop appends exactly `FirstOccurrences` of the drop, so new paths keep drop order, and a path dropped twice is placed at its first occurrence |
| ImageCollection.AddAllMembers | pic2pdf.py:80-82 | after a drop, a path is stored iff it was stored before, or it was dropped and has an accepted extension (both directions) |
| ImageCollection.AddAllWellFormed | pic2pdf.py:80-82 | a drop onto a list without duplicates and with only image paths yields such a list again |
| ImageCollection.AddAllCount | pic2pdf.py:77-83 | the growth of the list equals the number of distinct dropped paths that have an image extension and were not stored before |
| ImageCollection.AddAllUnchanged | pic2pdf.py:80-83 | a drop leaves the list unchanged iff every dropped path is rejected by the filter or already stored (the empty drop included) |
| ImageCollection.AddAllIdempotent | pic2pdf.py:81-82 | dropping the same candidates a second time adds nothing |
| ImageCollection.AddAllConcat | pic2pdf.py:78-82 | two drops in a row leave the same list as one drop of both candidate lists |
| ImageCollection.Replay | pic2pdf.py:35-95 | after any sequence of drops and clears from the empty start, every stored path has an image extension and none is stored twice |
| Text.Lower | pic2pdf.py:80 | the result has the same length, has no upper-case ASCII letter, maps each upper-case letter to its lower-case partner and keeps every other character |
| Text.EndsWithIgnoringCase | pic2pdf.py:149 | `s.lower().endswith(suffix)` holds iff the tail of `s` as long as `suffix`, lower-cased, is `suffix` |
| Text.TrimStart | pic2pdf.py:143 | the result is a suffix of the input, everything removed is whitespace, and it is empty or starts with a non-whitespace character |
| Text.TrimEnd | pic2pdf.py:143 | the result is a prefix of the input, everything removed is whitespace, and it is empty or ends with a non-whitespace character |
| Text.Strip | pic2pdf.py:143 | the stripped name is empty iff the typed text is all whitespace; otherwise it neither starts nor ends with whitespace |
| Text.StripPadded | pic2pdf.py:143 | stripping recovers any text from between whitespace padding, when that text has non-whitespace ends |
| Text.LowerAppend | pic2pdf.py:149 | lower-casing distributes over concatenation |
| PdfAssembly.WithPdfSuffix | pic2pdf.py:149-150 | the result ends with ".pdf" ignoring case; it is the name itself or the name plus one ".pdf"; it is the name itself iff the name already ends with ".pdf", so normalising an already normalised name changes nothing |
| PdfAssembly.CheckRequest | pic2pdf.py:138-150 | "no images" iff the list is empty, whatever the name; "no filename" iff the list is not empty and the name is all whitespace; otherwise a name ending in ".pdf" that is the stripped name when that already ends with ".pdf" (ignoring case), and the stripped name plus ".pdf" when it does not |
| PdfAssembly.PlaceImage | pic2pdf.py:169-170 | each image is placed at x = 10, y = 10 with width 190, and height × image width = 190 × image height |
| PdfAssembly.EmbedImages | pic2pdf.py:165-170 | the page loop places every image iff for every image the page is added, the image decodes to a positive width and the image is placed; then there is one page per path, in order, each placed by `PlaceImage`; otherwise it stops at an image that does not get through, after exactly the images before it got through, and the failure names that image and the first step that raised, in the source's order: `add_page` (line 169), then the division by the width, then `pdf.image` (line 170) |
| PdfAssembly.FirstStopUnique | pic2pdf.py:165-170 | the stopping index and the failure of a run are determined: two stops satisfying the description are the same |
| PdfAssembly.PageErrorBeforeZeroWidth | pic2pdf.py:169-170 | a zero-width image whose `add_page` raises is reported as a page failure, not as a division by zero |
| PdfAssembly.PlaceImageExample | pic2pdf.py:170 | an 800 × 600 image is 142.5 high; a 400 × 400 image is 190 high |
| PdfAssembly.App.constructor | pic2pdf.py:109 | the window owns a new, empty drop target |
| PdfAssembly.App.GeneratePdf | pic2pdf.py:137-180 | an input error is returned iff `CheckRequest` reports one, and it is that error; otherwise the save dialog is offered the normalised name, and an empty answer cancels; images are processed in list order and the run fails at the first image whose page cannot be added, that decodes to width 0 or that cannot be placed, naming it and the first of those steps that raised; it fails on writing only when every image got through; the document is written iff the checks pass, the dialog gives a path, every image embeds and the write succeeds; then it has exactly one page per stored path, in list order, each placed by `PlaceImage`, and for a well-formed collection no image appears on two pages; the collection is not modified |
| PdfAssembly.App.ClearImages | pic2pdf.py:182-183 | the collection is empty afterwards |

## Left out

- All Qt presentation: style sheets, label and status texts and colours,
  `dragEnterEvent`/`dragLeaveEvent`, the window layout and the event loop.
  They only display state.
- `url.toLocalFile()`: candidates arrive as plain path strings.
- The default directory given to the save dialog (the user's home directory
  joined with "Desktop"). The dialog is the abstract `chooseSavePath`, which
  receives only the normalised name.
- Image decoding, PDF page creation and file output are foreign library
  calls. Sizes are inputs. Pages are records. Library failures are the
  inputs `pageOk` (per image, for `add_page`), `imageOk` (per image, for
  `pdf.image`) and `writeOk` (for the write).
- The page height is a Dafny `real`, not a floating-point number. Rounding
  is not modelled.
- The text of the exception in the failure message is not modelled. In
  its place the model's `Failure` records which step raised (adding the
  page, dividing by a zero width, placing the image, writing the file) and
  on which image.
- Whether `add_page` succeeds is modelled per image path. In a well-formed
  collection each path appears once, so this is the same as per page.
- Text.Strip: models Python's `str.strip` only for the ASCII whitespace
  that `str.isspace` accepts (codes 9-13, 28-31, 32). Non-ASCII whitespace,
  such as the ideographic space U+3000, is not stripped.
- Text.Lower: lower-cases ASCII letters only. Python's Unicode lower-casing
  can change non-ASCII letters and even the length of a string.
