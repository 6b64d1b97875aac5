# PDF <-> JPG converter, modelled in Dafny

The converter is a small desktop tool with two jobs:

- **pdf_to_jpg** renders a PDF page by page. Page k goes to `<dir>/<stem>/<stem>_page<k>.jpg`.
- **jpg_to_pdf** merges a user-ordered list of images into `<dir of first image>/合并输出.pdf`.

Around the two jobs, the window keeps:

- the list of chosen PDFs;
- the ordered list of chosen images, with a single selected row and "move up" / "move down" buttons;
- a batch driver that converts the chosen PDFs one after the other and stops at the first failure.

This project models these pieces and proves what they promise.

- `Paths` (paths.dfy) models Python's `posixpath` helpers over `'/'`-separated strings: `dirname`, `basename`, the root of `splitext`, and two-argument `join`. The functions are plain definitions. Their guarantees are lemmas: a basename is everything after the last slash, splitext takes off exactly the final extension, and joining a slash-free name onto a directory of the shape dirname returns gives back that directory and that name.
- `Formatting` (formatting.dfy) models `f"{k}"` for page numbers. It proves that reading the digits back gives the number, so different numbers give different strings.
- `Host` (host.dfy) models the world the jobs see as a value:
  - the located rendering engine, if any;
  - each PDF's page count and the pages whose rendering or saving raises;
  - each image's colour mode, or the error opening it raises;
  - the directories that cannot be created or written.

  A job returns the file-system changes it makes as an ordered list of `Effect`s. That list is what lets the model say "fails before the output folder is created" and "pages 1..k-1 stay on disk".
- `PdfToJpgJob` (pdf_to_jpg.dfy) models `pdf_to_jpg`. The method `PdfToJpg` and its page loop `ConvertPages` keep the source's control flow. They are proved equal to the specification function `Outcome`. The lemmas cover:
  - the all-or-nothing result;
  - the location of the output folder and of each page;
  - the order and distinctness of the returned paths;
  - the early failure when the engine is missing.
- `JpgToPdfJob` (jpg_to_pdf.dfy) models `jpg_to_pdf`. The method `JpgToPdf` keeps the source's loop, including the "No images selected." branch, which is proved unreachable. The lemmas cover:
  - rejection of an empty choice;
  - the exact success condition;
  - pages that follow the chosen images one for one and in order, with RGBA and palette images turned into RGB;
  - the output location.
- `App` (app.dfy) has two layers:
  - Pure specifications: the ordering list (`JpgList`, `MovedUp`, `MovedDown`) and the batch (`Batch`, over the per-PDF runs).
  - The class `ConverterApp`, whose methods update the window state in place as the source's methods do. The state is the chosen PDFs, their listbox rows, the chosen images, their rows, and the selection. `MoveUp` and `MoveDown` are proved to act as `MovedUp` and `MovedDown`. `DoPdf2Jpg` is proved to act as `Batch`.

The comment at pdf_jpg_converter1.1.py:63 says every image is to end up RGB, and mentions grayscale and transparent images. The code converts only the modes `RGBA` and `P` (line 64). Grayscale (`L`), `LA`, `CMYK` and every other mode pass through unchanged. The model follows the code: see `JpgToPdfJob.Normalized`, whose contract keeps every mode other than `RGBA` and `P`.

## Model

| member | source | states |
|---|---|---|
| Paths.LastIndexOfFinds | pdf_jpg_converter1.1.py:33-34 | The last-separator search used by dirname/basename returns a position holding the character, and no later position holds it; -1 only when it does not occur |
| Paths.TrimmedShape | pdf_jpg_converter1.1.py:33 | rstrip('/') keeps a prefix, removes only slashes, and leaves no trailing slash |
| Paths.BasenameShape | pdf_jpg_converter1.1.py:34 | basename is the part after the last slash: a slash-free suffix of the path preceded by a slash, or the whole path when it has no slash |
| Paths.DirnameShape | pdf_jpg_converter1.1.py:33 | dirname is the head before the basename with its trailing slashes removed (only slashes lie between the two), except that a head of slashes only is kept whole |
| Paths.SplitextRootShape | pdf_jpg_converter1.1.py:34 | splitext's root is a prefix, non-empty for a non-empty path; what it drops starts with the last '.', holds no other dot and no slash |
| Paths.SplitextOfExtension | pdf_jpg_converter1.1.py:34 | the root of `<r>.<e>` is r, for a slash-free r that is not only dots and an extension e without dot or slash |
| Paths.StemShape | pdf_jpg_converter1.1.py:34 | the stem holds no slash, is a prefix of the basename, is non-empty when the basename is, and leaves off only a final extension (a dot followed by no other dot) |
| Paths.BasenameOfJoin | pdf_jpg_converter1.1.py:35 | basename(join(d, n)) == n for every slash-free name n |
| Paths.DirnameOfJoin | pdf_jpg_converter1.1.py:35 | dirname(join(d, n)) == d for every directory d of dirname's shape and slash-free n |
| Paths.StemOfJoin | pdf_jpg_converter1.1.py:34 | the stem of `<d>/<r>.<e>` is r: the output folder is named after the PDF without its extension |
| Formatting.DecimalString | pdf_jpg_converter1.1.py:47 | f"{k}" is a non-empty string of digits with no leading zero, one digit exactly when k < 10 |
| Formatting.DecimalStringValue | pdf_jpg_converter1.1.py:47 | the digits of f"{k}" read back as k |
| Formatting.DecimalStringInjective | pdf_jpg_converter1.1.py:47 | different page numbers are written differently |
| PdfToJpgJob.PagePathsAt | pdf_jpg_converter1.1.py:41-50 | entry i of the collected list is the path of page i + 1 |
| PdfToJpgJob.PageWritesAt | pdf_jpg_converter1.1.py:41-49 | the i-th JPEG written is page i + 1 of the PDF, at the requested DPI, under that page's path |
| PdfToJpgJob.FirstFailingPage | pdf_jpg_converter1.1.py:41-49 | finds the first page whose rendering or saving raises; none exactly when every page succeeds |
| PdfToJpgJob.PdfToJpg | pdf_jpg_converter1.1.py:24-54 | the job, with the source's checks and loop, returns exactly Outcome's result and file-system changes |
| PdfToJpgJob.ConvertPages | pdf_jpg_converter1.1.py:40-51 | the page loop writes pages 1..N in order and collects their paths, or stops at the first failing page k with its error after writing pages 1..k-1 |
| PdfToJpgJob.EngineMissingFailsFirst | pdf_jpg_converter1.1.py:31-32 | without the engine every job fails with the same message and changes nothing |
| PdfToJpgJob.OutcomeSucceeds | pdf_jpg_converter1.1.py:29-54 | success exactly when the engine is found, the folder can be made, the page count is read and every page renders and saves; then it returns out_dir and one path per page in order |
| PdfToJpgJob.OutcomeEffects | pdf_jpg_converter1.1.py:36-51 | the output folder is made first, then pages are written in order; a failing page k leaves pages 1..k-1 written and reports its error |
| PdfToJpgJob.OutDirLocation | pdf_jpg_converter1.1.py:33-35 | the output folder lies in the PDF's directory and is named after the PDF's stem |
| PdfToJpgJob.PagePathLocation | pdf_jpg_converter1.1.py:47-48 | page k is saved inside the output folder as `<stem>_page<k>.jpg` |
| PdfToJpgJob.PagePathsDistinct | pdf_jpg_converter1.1.py:47-48 | different pages are saved under different paths |
| PdfToJpgJob.OutFilesArePages | pdf_jpg_converter1.1.py:39-52 | on success the list has num_pages entries, page k's path at position k - 1, pairwise distinct |
| JpgToPdfJob.Normalized | pdf_jpg_converter1.1.py:64-65 | RGBA and P images become RGB, every other mode is kept, the source file is kept; no result is RGBA or P |
| JpgToPdfJob.FirstUnreadable | pdf_jpg_converter1.1.py:61-62 | finds the first image that fails to open; none exactly when every image opens |
| JpgToPdfJob.PagesAt | pdf_jpg_converter1.1.py:60-66 | entry i of the collected images is the i-th chosen image, normalised |
| JpgToPdfJob.JpgToPdf | pdf_jpg_converter1.1.py:56-74 | the job, with the source's checks and loop, returns exactly Outcome's result and written file |
| JpgToPdfJob.EmptyChoiceRejected | pdf_jpg_converter1.1.py:58-59 | an empty choice fails with its message and writes nothing |
| JpgToPdfJob.OutcomeSucceeds | pdf_jpg_converter1.1.py:56-74 | success exactly when something was chosen, every image opens and the first image's directory is writable; a failure writes nothing |
| JpgToPdfJob.MergedPages | pdf_jpg_converter1.1.py:60-71 | on success one PDF is written with one page per chosen image, in order, the first image as page 1, none left RGBA or P, other modes kept |
| JpgToPdfJob.OutputLocation | pdf_jpg_converter1.1.py:69-72 | the merged PDF is `合并输出.pdf` in the first image's directory, which is the reported out_dir |
| App.Swap | pdf_jpg_converter1.1.py:178 | exchanging two entries keeps the length and every other entry |
| App.SwapIsPermutation | pdf_jpg_converter1.1.py:178 | exchanging two entries keeps the multiset of entries |
| App.SwapTwice | pdf_jpg_converter1.1.py:178 | exchanging the same two entries twice restores the list |
| App.MovedUp | pdf_jpg_converter1.1.py:173-180 | no selection or the first row: nothing changes; otherwise rows i-1 and i trade places, all others stay, the selection moves to i-1 with the item |
| App.MovedDown | pdf_jpg_converter1.1.py:182-189 | no selection or the last row: nothing changes; otherwise rows i and i+1 trade places, all others stay, the selection moves to i+1 with the item |
| App.MovesArePermutations | pdf_jpg_converter1.1.py:178 | both moves only reorder the image list |
| App.MoveUpThenDown | pdf_jpg_converter1.1.py:178 | moving up then down restores the list and the selection |
| App.MoveDownThenUp | pdf_jpg_converter1.1.py:187 | moving down then up restores the list and the selection |
| App.RowsFollowSwap | pdf_jpg_converter1.1.py:179-181 | swapping two files swaps their listbox rows, so each shown name stays with its file |
| App.RowsAreNames | pdf_jpg_converter1.1.py:137 | no listbox row holds a slash |
| App.RunAt | pdf_jpg_converter1.1.py:152-153 | the i-th run of the batch is pdf_to_jpg on the i-th chosen PDF |
| App.FirstFailure | pdf_jpg_converter1.1.py:152-157 | finds the first failed run; none exactly when every run succeeded |
| App.BatchReportsFirstFailure | pdf_jpg_converter1.1.py:152-159 | completion is reported exactly when every PDF converts; otherwise the report names the first failing PDF by basename with its message, and every earlier PDF converted |
| App.BatchIgnoresLaterRuns | pdf_jpg_converter1.1.py:154-157 | after a failed run, further runs change neither the report nor the changes |
| App.BatchStopsAtFailure | pdf_jpg_converter1.1.py:152-157 | once a PDF fails, PDFs chosen after it are never converted |
| App.BatchExtendsCompleted | pdf_jpg_converter1.1.py:152-159 | one more successful run after a completed batch appends only its own changes |
| App.BatchInOrder | pdf_jpg_converter1.1.py:152-159 | the changes of a completed batch are each PDF's changes in selection order |
| App.SwappedPages | pdf_jpg_converter1.1.py:60-71 | exchanging two chosen images exchanges their pages in the merged PDF; its location changes only if the first image changes |
| App.MoveUpReordersPages | pdf_jpg_converter1.1.py:173-180 | moving an image up moves its page up by one in the merged PDF |
| App.MoveDownReordersPages | pdf_jpg_converter1.1.py:182-189 | moving an image down moves its page down by one in the merged PDF |
| App.ConvertNth | pdf_jpg_converter1.1.py:153 | one batch step returns the run of the idx-th PDF |
| App.ConverterApp.constructor | pdf_jpg_converter1.1.py:92-108 | the window starts with no PDFs, no images, no selection |
| App.ConverterApp.SelectPdfFiles | pdf_jpg_converter1.1.py:131-137 | a non-empty choice replaces the PDFs and their rows; an empty one changes nothing |
| App.ConverterApp.RefreshJpgListbox | pdf_jpg_converter1.1.py:168-171 | the rows are rebuilt as the images' basenames and the selection is cleared; the lists are kept |
| App.ConverterApp.SelectJpgFiles | pdf_jpg_converter1.1.py:162-166 | a non-empty choice replaces the images, in the dialog's order, and clears the selection; an empty one changes nothing |
| App.ConverterApp.Click | pdf_jpg_converter1.1.py:119 | a click selects that single row |
| App.ConverterApp.MoveUp | pdf_jpg_converter1.1.py:173-180 | the window's list and selection change as MovedUp says; rows stay the images' basenames |
| App.ConverterApp.MoveDown | pdf_jpg_converter1.1.py:182-189 | the window's list and selection change as MovedDown says; rows stay the images' basenames |
| App.ConverterApp.DoPdf2Jpg | pdf_jpg_converter1.1.py:151-159 | the loop returns exactly Batch's report and changes for the chosen PDFs |
| App.ConverterApp.DoJpg2Pdf | pdf_jpg_converter1.1.py:198-199 | merging uses the image list in its current order |

## Left out

- The Tk window is not modelled: widgets, tabs, file dialogs, message boxes and progress bars (pdf_jpg_converter1.1.py:76-137, 206-212). A dialog's answer and a click are parameters. The batch's dialog text is kept as data: the report carries the failing PDF's basename and message.
- Threads are not modelled (`run_pdf2jpg`, `run_jpg2pdf`). Nor are the guards there: the empty-choice warning and the DPI parse. The jobs run sequentially, and the DPI is passed through unchecked.
- The rendering engine, PyPDF2 and Pillow are opaque:
  - A PDF is its page count plus the pages whose rendering or saving raises. Rendering and saving of one page are one step.
  - An image is its colour mode, or the error opening it raises. Errors Pillow raises later, while converting or saving, are folded into the output directory's entry in `unwritable`.
  - A failing `import PyPDF2` is not modelled.
- The search for the engine directory (`get_poppler_path`, `sys._MEIPASS`) is an optional engine path in the world.
- `os.makedirs(exist_ok=True)` and overwriting are not modelled in detail. A directory either can be created and written, or has an error message in `unwritable`. The same map decides whether the merged PDF can be saved.
- The world is static within a batch: files written by one PDF's conversion do not change what later conversions see.
- Exception texts raised by the libraries are opaque strings taken from the world. The source's own messages are constants: the missing engine, the empty choice, and "No images selected.". A missing PDF or image gives Python's FileNotFoundError text, which names the path.
- Host.FileNotFoundMessage: quotes the path as Python's repr does only for paths without quote characters, backslashes or unprintable characters; repr's other quoting and escaping is not modelled.
- Path functions follow POSIX `posixpath` with '/' only. Windows separators and drive letters are not modelled, and `join` takes two components.
- `Image.MAX_IMAGE_PIXELS = None` (line 9) concerns image size limits inside Pillow and has no counterpart here.
- The completion dialog of `do_jpg2pdf` (lines 200-204) is UI.
- App.MoveUpReordersPages: requires the new first image's directory to be writable. Moving an image into first place moves the merged PDF too (App.SwappedPages states the exact condition).
