/** jpg_to_pdf: merge the chosen images, in the chosen order, into `<dir of first>/合并输出.pdf`. */
module JpgToPdfJob {
  import opened Host
  import opened Paths

  const NoJpgSelectedMessage := "未选择JPG文件"
  const NoImagesSelectedMessage := "No images selected."
  /** The fixed name of the merged document. */
  const MergedPdfName := "合并输出.pdf"

  /** The modes the job converts to RGB before saving. */
  predicate NeedsRgb(mode: string)
  {
    mode == "RGBA" || mode == "P"
  }

  /** An opened image as it goes into the PDF: RGBA and palette images become RGB, every other
      mode (L, CMYK, LA, ...) is kept. */
  function Normalized(img: Image): (r: Image)
    ensures r.source == img.source
    ensures !NeedsRgb(r.mode)
    ensures NeedsRgb(img.mode) ==> r.mode == "RGB"
    ensures !NeedsRgb(img.mode) ==> r == img
  {
    if NeedsRgb(img.mode) then Convert(img, "RGB") else img
  }

  /** The position of the first of the first n paths the image library cannot open. */
  function FirstUnreadable(w: World, paths: seq<string>, n: nat): (r: Option<nat>)
    requires n <= |paths|
    ensures r.None? <==> forall i :: 0 <= i < n ==> OpenImage(w, paths[i]).Ok?
    ensures r.Some? ==> r.value < n && OpenImage(w, paths[r.value]).Err?
    ensures r.Some? ==> forall i :: 0 <= i < r.value ==> OpenImage(w, paths[i]).Ok?
  {
    if n == 0 then None
    else match FirstUnreadable(w, paths, n - 1)
      case Some(i) => Some(i)
      case None => if OpenImage(w, paths[n - 1]).Err? then Some(n - 1) else None
  }

  lemma FirstUnreadableIs(w: World, paths: seq<string>, i: nat)
    requires i < |paths| && OpenImage(w, paths[i]).Err?
    requires forall j :: 0 <= j < i ==> OpenImage(w, paths[j]).Ok?
    ensures FirstUnreadable(w, paths, |paths|) == Some(i)
  {
  }

  /** The normalised images of the first n paths, in the order of the paths. */
  function Pages(w: World, paths: seq<string>, n: nat): (r: seq<Image>)
    requires n <= |paths|
    requires forall i :: 0 <= i < n ==> OpenImage(w, paths[i]).Ok?
    ensures |r| == n
  {
    if n == 0 then [] else Pages(w, paths, n - 1) + [Normalized(OpenImage(w, paths[n - 1]).value)]
  }

  /** Page i + 1 is the i-th chosen image, normalised. */
  lemma {:induction false} PagesAt(w: World, paths: seq<string>, n: nat, i: nat)
    requires i < n <= |paths|
    requires forall j :: 0 <= j < n ==> OpenImage(w, paths[j]).Ok?
    ensures Pages(w, paths, n)[i] == Normalized(OpenImage(w, paths[i]).value)
  {
    if i < n - 1 {
      PagesAt(w, paths, n - 1, i);
    }
  }

  /** The directory the merged document goes to: the first image's directory. */
  function OutDir(paths: seq<string>): string
    requires paths != []
  {
    Dirname(paths[0])
  }

  function OutFile(paths: seq<string>): string
    requires paths != []
  {
    Join(OutDir(paths), MergedPdfName)
  }

  /** What jpg_to_pdf returns, and the file it writes, in `w`. */
  function Outcome(w: World, paths: seq<string>): (JobResult<string>, seq<Effect>)
  {
    if paths == [] then (Failed(NoJpgSelectedMessage), [])
    else match FirstUnreadable(w, paths, |paths|)
      case Some(i) => (Failed(OpenImage(w, paths[i]).error), [])
      case None =>
        if OutDir(paths) in w.unwritable then (Failed(w.unwritable[OutDir(paths)]), [])
        else (Succeeded(OutFile(paths), OutDir(paths)), [WritePdf(OutFile(paths), Pages(w, paths, |paths|))])
  }

  /** jpg_to_pdf(jpg_paths): rejects an empty choice, opens every image in order (converting RGBA
      and palette images to RGB), then saves them as one PDF beside the first image. */
  method JpgToPdf(w: World, jpgPaths: seq<string>) returns (result: JobResult<string>, effects: seq<Effect>)
    ensures (result, effects) == Outcome(w, jpgPaths)
  {
    effects := [];
    if jpgPaths == [] {
      return Failed(NoJpgSelectedMessage), effects;
    }
    var images: seq<Image> := [];
    for i := 0 to |jpgPaths|
      invariant forall j :: 0 <= j < i ==> OpenImage(w, jpgPaths[j]).Ok?
      invariant images == Pages(w, jpgPaths, i)
    {
      var open := OpenImage(w, jpgPaths[i]);
      if open.Err? {
        FirstUnreadableIs(w, jpgPaths, i);
        return Failed(open.error), effects;
      }
      var img := open.value;
      if img.mode == "RGBA" || img.mode == "P" {
        img := Convert(img, "RGB");
      }
      images := images + [img];
    }
    if images == [] {
      assert false;
      return Failed(NoImagesSelectedMessage), effects;
    }
    var outDir := Dirname(jpgPaths[0]);
    var outFile := Join(outDir, MergedPdfName);
    if outDir in w.unwritable {
      return Failed(w.unwritable[outDir]), effects;
    }
    assert [images[0]] + images[1..] == images;
    effects := [WritePdf(outFile, [images[0]] + images[1..])];
    return Succeeded(outFile, outDir), effects;
  }

  /** An empty choice is rejected before any file is opened, and nothing is written. */
  lemma EmptyChoiceRejected(w: World)
    ensures Outcome(w, []) == (Failed(NoJpgSelectedMessage), [])
  {
  }

  /** The job succeeds exactly when something was chosen, every image opens, and the first
      image's directory is writable; it writes nothing unless it succeeds. */
  lemma OutcomeSucceeds(w: World, paths: seq<string>)
    ensures Outcome(w, paths).0.Succeeded? <==>
      && paths != []
      && (forall i :: 0 <= i < |paths| ==> OpenImage(w, paths[i]).Ok?)
      && Dirname(paths[0]) !in w.unwritable
    ensures Outcome(w, paths).0.Failed? ==> Outcome(w, paths).1 == []
  {
  }

  /** On success one PDF is written whose pages are the chosen images, one per path, in the
      chosen order, with the first image as page 1, none left in RGBA or palette mode. */
  lemma MergedPages(w: World, paths: seq<string>)
    requires Outcome(w, paths).0.Succeeded?
    ensures |Outcome(w, paths).1| == 1 && Outcome(w, paths).1[0].WritePdf?
    ensures var pages := Outcome(w, paths).1[0].pages;
      && |pages| == |paths|
      && pages[0].source == paths[0]
      && (forall i :: 0 <= i < |paths| ==> pages[i].source == paths[i] && !NeedsRgb(pages[i].mode))
      && (forall i :: 0 <= i < |paths| && !NeedsRgb(w.images[paths[i]].mode) ==>
            pages[i].mode == w.images[paths[i]].mode)
  {
    var pages := Outcome(w, paths).1[0].pages;
    assert pages == Pages(w, paths, |paths|);
    forall i | 0 <= i < |paths| ensures pages[i] == Normalized(OpenImage(w, paths[i]).value) {
      PagesAt(w, paths, |paths|, i);
    }
  }

  /** The merged document is `合并输出.pdf` in the first image's directory, and the job reports
      that directory. */
  lemma OutputLocation(w: World, paths: seq<string>)
    requires Outcome(w, paths).0.Succeeded?
    ensures Outcome(w, paths).0.outDir == Dirname(paths[0])
    ensures Dirname(Outcome(w, paths).0.value) == Dirname(paths[0])
    ensures Basename(Outcome(w, paths).0.value) == MergedPdfName
    ensures Outcome(w, paths).1[0].path == Outcome(w, paths).0.value
  {
    assert '/' !in MergedPdfName;
    DirnameShape(paths[0]);
    DirnameOfJoin(Dirname(paths[0]), MergedPdfName);
    BasenameOfJoin(Dirname(paths[0]), MergedPdfName);
  }
}
