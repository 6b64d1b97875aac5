/** pdf_to_jpg: render a PDF page by page into `<dir>/<stem>/<stem>_page<k>.jpg`. */
module PdfToJpgJob {
  import opened Host
  import opened Paths
  import opened Formatting

  /** The error raised when the rendering engine was not located. */
  const EngineMissingMessage := "未找到poppler，请确认poppler目录与脚本同级，并包含bin文件夹"

  /** The folder the pages go to: named after the PDF's stem, beside the PDF. */
  function OutDir(pdf: string): string
  {
    Join(Dirname(pdf), Stem(pdf))
  }

  function PageFileName(stem: string, page: nat): string
  {
    stem + "_page" + DecimalString(page) + ".jpg"
  }

  function PagePath(pdf: string, page: nat): string
  {
    Join(OutDir(pdf), PageFileName(Stem(pdf), page))
  }

  /** The paths of pages 1..n, in page order. */
  function PagePaths(pdf: string, n: nat): (r: seq<string>)
    ensures |r| == n
  {
    if n == 0 then [] else PagePaths(pdf, n - 1) + [PagePath(pdf, n)]
  }

  /** The JPEG files written for pages 1..n, in page order. */
  function PageWrites(pdf: string, n: nat, dpi: int): (r: seq<Effect>)
    ensures |r| == n
  {
    if n == 0 then [] else PageWrites(pdf, n - 1, dpi) + [WriteJpeg(PagePath(pdf, n), pdf, n, dpi)]
  }

  /** Entry i of the list is page i + 1's path. */
  lemma {:induction false} PagePathsAt(pdf: string, n: nat, i: nat)
    requires i < n
    ensures PagePaths(pdf, n)[i] == PagePath(pdf, i + 1)
  {
    if i < n - 1 {
      PagePathsAt(pdf, n - 1, i);
    }
  }

  /** The i-th write saves page i + 1, at the requested resolution, under that page's path. */
  lemma {:induction false} PageWritesAt(pdf: string, n: nat, dpi: int, i: nat)
    requires i < n
    ensures PageWrites(pdf, n, dpi)[i] == WriteJpeg(PagePath(pdf, i + 1), pdf, i + 1, dpi)
  {
    if i < n - 1 {
      PageWritesAt(pdf, n - 1, dpi, i);
    }
  }

  /** The first of pages 1..n whose rendering or saving fails. */
  function FirstFailingPage(w: World, pdf: string, n: nat): (r: Option<nat>)
    ensures r.None? <==> forall k :: 1 <= k <= n ==> RenderError(w, pdf, k).None?
    ensures r.Some? ==> 1 <= r.value <= n && RenderError(w, pdf, r.value).Some?
    ensures r.Some? ==> forall k :: 1 <= k < r.value ==> RenderError(w, pdf, k).None?
  {
    if n == 0 then None
    else match FirstFailingPage(w, pdf, n - 1)
      case Some(k) => Some(k)
      case None => if RenderError(w, pdf, n).Some? then Some(n) else None
  }

  lemma FirstFailingPageIs(w: World, pdf: string, n: nat, k: nat)
    requires 1 <= k <= n && RenderError(w, pdf, k).Some?
    requires forall j :: 1 <= j < k ==> RenderError(w, pdf, j).None?
    ensures FirstFailingPage(w, pdf, n) == Some(k)
  {
  }

  /** What pdf_to_jpg returns, and the file-system changes it makes, in `w`. */
  function Outcome(w: World, pdf: string, dpi: int): (JobResult<seq<string>>, seq<Effect>)
  {
    if w.engine.None? then (Failed(EngineMissingMessage), [])
    else
      var outDir := OutDir(pdf);
      if outDir in w.unwritable then (Failed(w.unwritable[outDir]), [])
      else match PageCount(w, pdf)
        case Err(e) => (Failed(e), [MakeDir(outDir)])
        case Ok(n) =>
          match FirstFailingPage(w, pdf, n)
          case None => (Succeeded(PagePaths(pdf, n), outDir), [MakeDir(outDir)] + PageWrites(pdf, n, dpi))
          case Some(k) =>
            (Failed(RenderError(w, pdf, k).value), [MakeDir(outDir)] + PageWrites(pdf, k - 1, dpi))
  }

  /** pdf_to_jpg(pdf_path, dpi): checks for the engine, creates the output folder, counts the
      pages, then renders and saves them one at a time; any error ends the job. */
  method PdfToJpg(w: World, pdfPath: string, dpi: int) returns (result: JobResult<seq<string>>, effects: seq<Effect>)
    ensures (result, effects) == Outcome(w, pdfPath, dpi)
  {
    effects := [];
    if w.engine.None? {
      return Failed(EngineMissingMessage), effects;
    }
    var pdfDir := Dirname(pdfPath);
    var pdfName := Stem(pdfPath);
    var outDir := Join(pdfDir, pdfName);
    if outDir in w.unwritable {
      return Failed(w.unwritable[outDir]), effects;
    }
    effects := [MakeDir(outDir)];
    var count := PageCount(w, pdfPath);
    if count.Err? {
      return Failed(count.error), effects;
    }
    var failure, outFiles, writes := ConvertPages(w, pdfPath, dpi, outDir, pdfName, count.value);
    effects := effects + writes;
    if failure.Some? {
      return Failed(failure.value), effects;
    }
    return Succeeded(outFiles, outDir), effects;
  }

  /** The page loop of pdf_to_jpg: renders and saves pages 1..numPages in order into outDir,
      collecting their paths; the first page that fails stops it, with that page's error. */
  method ConvertPages(w: World, pdfPath: string, dpi: int, outDir: string, pdfName: string, numPages: nat)
    returns (failure: Option<string>, outFiles: seq<string>, writes: seq<Effect>)
    requires outDir == OutDir(pdfPath) && pdfName == Stem(pdfPath)
    ensures match FirstFailingPage(w, pdfPath, numPages)
      case None => failure.None? && outFiles == PagePaths(pdfPath, numPages) && writes == PageWrites(pdfPath, numPages, dpi)
      case Some(k) => failure == RenderError(w, pdfPath, k) && writes == PageWrites(pdfPath, k - 1, dpi)
  {
    outFiles, writes := [], [];
    for pageNumber := 1 to numPages + 1
      invariant outFiles == PagePaths(pdfPath, pageNumber - 1)
      invariant writes == PageWrites(pdfPath, pageNumber - 1, dpi)
      invariant forall k :: 1 <= k < pageNumber ==> RenderError(w, pdfPath, k).None?
    {
      failure := RenderError(w, pdfPath, pageNumber);
      if failure.Some? {
        FirstFailingPageIs(w, pdfPath, numPages, pageNumber);
        return;
      }
      var fname := PageFileName(pdfName, pageNumber);
      var outPath := Join(outDir, fname);
      var written := WriteJpeg(outPath, pdfPath, pageNumber, dpi);
      writes := writes + [written];
      outFiles := outFiles + [outPath];
    }
    failure := None;
  }

  /** Without the rendering engine every job fails with the same message, before the output
      folder is created. */
  lemma EngineMissingFailsFirst(w: World, pdf: string, dpi: int)
    requires w.engine.None?
    ensures Outcome(w, pdf, dpi) == (Failed(EngineMissingMessage), [])
  {
  }

  /** All or nothing: the job succeeds exactly when every step for every page succeeds, and then
      it returns one path per page, in page order, inside the output folder. */
  lemma OutcomeSucceeds(w: World, pdf: string, dpi: int)
    ensures Outcome(w, pdf, dpi).0.Succeeded? <==>
      && w.engine.Some?
      && OutDir(pdf) !in w.unwritable
      && PageCount(w, pdf).Ok?
      && forall k :: 1 <= k <= PageCount(w, pdf).value ==> RenderError(w, pdf, k).None?
    ensures Outcome(w, pdf, dpi).0.Succeeded? ==>
      && Outcome(w, pdf, dpi).0.outDir == OutDir(pdf)
      && Outcome(w, pdf, dpi).0.value == PagePaths(pdf, PageCount(w, pdf).value)
      && Outcome(w, pdf, dpi).1 == [MakeDir(OutDir(pdf))] + PageWrites(pdf, PageCount(w, pdf).value, dpi)
  {
  }

  /** Whatever happens, the output folder is created before anything is written into it, and
      then pages 1, 2, ... are written in order; a failing page k leaves pages 1..k-1 on disk and
      reports that page's error. */
  lemma OutcomeEffects(w: World, pdf: string, dpi: int)
    ensures var e := Outcome(w, pdf, dpi).1;
      e == [] || (e[0] == MakeDir(OutDir(pdf)) && e[1..] == PageWrites(pdf, |e| - 1, dpi))
    ensures w.engine.Some? && OutDir(pdf) !in w.unwritable && PageCount(w, pdf).Ok? ==>
      match FirstFailingPage(w, pdf, PageCount(w, pdf).value)
      case Some(k) =>
        Outcome(w, pdf, dpi) ==
          (Failed(RenderError(w, pdf, k).value), [MakeDir(OutDir(pdf))] + PageWrites(pdf, k - 1, dpi))
      case None => Outcome(w, pdf, dpi).0.Succeeded?
  {
    var e := Outcome(w, pdf, dpi).1;
    if e != [] {
      assert e[1..] == PageWrites(pdf, |e| - 1, dpi);
    }
  }

  lemma NoSlashInPageFileName(stem: string, page: nat)
    requires '/' !in stem
    ensures '/' !in PageFileName(stem, page)
  {
    var digits := DecimalString(page);
    assert forall i :: 0 <= i < |digits| ==> digits[i] != '/';
  }

  /** The output folder lies in the PDF's own directory and is named after the PDF's stem. */
  lemma OutDirLocation(pdf: string)
    ensures Dirname(OutDir(pdf)) == Dirname(pdf)
    ensures Basename(OutDir(pdf)) == Stem(pdf)
  {
    DirnameShape(pdf);
    StemShape(pdf);
    DirnameOfJoin(Dirname(pdf), Stem(pdf));
    BasenameOfJoin(Dirname(pdf), Stem(pdf));
  }

  /** Page k is saved in the output folder as `<stem>_page<k>.jpg`. */
  lemma PagePathLocation(pdf: string, page: nat)
    requires Basename(pdf) != ""
    ensures Dirname(PagePath(pdf, page)) == OutDir(pdf)
    ensures Basename(PagePath(pdf, page)) == Stem(pdf) + "_page" + DecimalString(page) + ".jpg"
  {
    var stem := Stem(pdf);
    StemShape(pdf);
    NoSlashInPageFileName(stem, page);
    BasenameOfJoin(OutDir(pdf), PageFileName(stem, page));
    var d := OutDir(pdf);
    JoinEndsWith(Dirname(pdf), stem);
    assert d[|d| - 1] == stem[|stem| - 1];
    assert stem[|stem| - 1] in stem;
    DirnameOfJoin(d, PageFileName(stem, page));
  }

  /** Different pages are saved under different paths. */
  lemma PagePathsDistinct(pdf: string, j: nat, k: nat)
    requires j != k
    ensures PagePath(pdf, j) != PagePath(pdf, k)
  {
    var stem := Stem(pdf);
    StemShape(pdf);
    NoSlashInPageFileName(stem, j);
    NoSlashInPageFileName(stem, k);
    BasenameOfJoin(OutDir(pdf), PageFileName(stem, j));
    BasenameOfJoin(OutDir(pdf), PageFileName(stem, k));
    var a, b := DecimalString(j), DecimalString(k);
    var na, nb := PageFileName(stem, j), PageFileName(stem, k);
    if na == nb {
      var start := |stem| + 5;
      assert |a| == |b|;
      assert na[start..start + |a|] == a;
      assert nb[start..start + |b|] == b;
      DecimalStringInjective(j, k);
    }
  }

  /** On success the list holds one path per page, page k's path at position k - 1, and no path
      twice. */
  lemma OutFilesArePages(w: World, pdf: string, dpi: int)
    requires Outcome(w, pdf, dpi).0.Succeeded?
    ensures var files := Outcome(w, pdf, dpi).0.value;
      && PageCount(w, pdf).Ok? && |files| == PageCount(w, pdf).value
      && (forall i :: 0 <= i < |files| ==> files[i] == PagePath(pdf, i + 1))
      && (forall i, j :: 0 <= i < j < |files| ==> files[i] != files[j])
  {
    OutcomeSucceeds(w, pdf, dpi);
    var n := PageCount(w, pdf).value;
    var files := Outcome(w, pdf, dpi).0.value;
    assert files == PagePaths(pdf, n);
    forall i | 0 <= i < n ensures files[i] == PagePath(pdf, i + 1) {
      PagePathsAt(pdf, n, i);
    }
    forall i, j | 0 <= i < j < n ensures files[i] != files[j] {
      PagePathsAt(pdf, n, i);
      PagePathsAt(pdf, n, j);
      PagePathsDistinct(pdf, i + 1, j + 1);
    }
  }
}
