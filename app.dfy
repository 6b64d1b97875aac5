/** The converter window's state: the chosen PDFs, the ordered list of chosen images with its
    single selection, and the batch run over the PDFs. Widgets, dialogs and threads are not
    modelled; a dialog's answer and a click are parameters. */
module App {
  import opened Host
  import opened Paths
  import PdfToJpgJob
  import JpgToPdfJob

  /** s with the entries at i and j exchanged. */
  function Swap<T>(s: seq<T>, i: nat, j: nat): (r: seq<T>)
    requires i < |s| && j < |s|
    ensures |r| == |s|
    ensures r[i] == s[j] && r[j] == s[i]
    ensures forall k :: 0 <= k < |s| && k != i && k != j ==> r[k] == s[k]
  {
    s[i := s[j]][j := s[i]]
  }

  /** Exchanging two entries keeps every element, as often as before. */
  lemma SwapIsPermutation<T>(s: seq<T>, i: nat, j: nat)
    requires i < |s| && j < |s|
    ensures multiset(Swap(s, i, j)) == multiset(s)
  {
    var t := s[i := s[j]];
    assert t[j] == s[j];
    assert multiset(t) == multiset(s) - multiset{s[i]} + multiset{s[j]};
    assert multiset(t[j := s[i]]) == multiset(t) - multiset{t[j]} + multiset{s[i]};
  }

  /** The ordering list: the chosen images, in merge order, and the listbox's selected row. */
  datatype JpgList = JpgList(files: seq<string>, selection: Option<nat>)
  {
    /** The selection can only be a row of the listbox. */
    predicate WellFormed()
    {
      selection.Some? ==> selection.value < |files|
    }
  }

  /** move_up: with no selection, or the first row selected, nothing changes; otherwise the
      selected image trades places with the one above it and stays selected. */
  function MovedUp(l: JpgList): (r: JpgList)
    requires l.WellFormed()
    ensures r.WellFormed()
    ensures l.selection.None? || l.selection.value == 0 ==> r == l
    ensures l.selection.Some? && l.selection.value > 0 ==>
      var i := l.selection.value;
      && |r.files| == |l.files|
      && r.files[i - 1] == l.files[i] && r.files[i] == l.files[i - 1]
      && (forall k :: 0 <= k < |l.files| && k != i - 1 && k != i ==> r.files[k] == l.files[k])
      && r.selection == Some(i - 1)
    ensures r.selection.Some? ==> r.files[r.selection.value] == l.files[l.selection.value]
  {
    if l.selection.None? || l.selection.value == 0 then l
    else
      var i := l.selection.value;
      JpgList(Swap(l.files, i - 1, i), Some(i - 1))
  }

  /** move_down: with no selection, or the last row selected, nothing changes; otherwise the
      selected image trades places with the one below it and stays selected. */
  function MovedDown(l: JpgList): (r: JpgList)
    requires l.WellFormed()
    ensures r.WellFormed()
    ensures l.selection.None? || l.selection.value == |l.files| - 1 ==> r == l
    ensures l.selection.Some? && l.selection.value < |l.files| - 1 ==>
      var i := l.selection.value;
      && |r.files| == |l.files|
      && r.files[i + 1] == l.files[i] && r.files[i] == l.files[i + 1]
      && (forall k :: 0 <= k < |l.files| && k != i && k != i + 1 ==> r.files[k] == l.files[k])
      && r.selection == Some(i + 1)
    ensures r.selection.Some? ==> r.files[r.selection.value] == l.files[l.selection.value]
  {
    if l.selection.None? || l.selection.value == |l.files| - 1 then l
    else
      var i := l.selection.value;
      JpgList(Swap(l.files, i + 1, i), Some(i + 1))
  }

  /** Both moves only reorder the list: every image stays in it as often as before. */
  lemma MovesArePermutations(l: JpgList)
    requires l.WellFormed()
    ensures multiset(MovedUp(l).files) == multiset(l.files)
    ensures multiset(MovedDown(l).files) == multiset(l.files)
  {
    if l.selection.Some? {
      var i := l.selection.value;
      if i > 0 {
        SwapIsPermutation(l.files, i - 1, i);
      }
      if i < |l.files| - 1 {
        SwapIsPermutation(l.files, i + 1, i);
      }
    }
  }

  /** Exchanging the same two entries twice restores the sequence. */
  lemma SwapTwice<T>(s: seq<T>, i: nat, j: nat)
    requires i < |s| && j < |s|
    ensures Swap(Swap(s, i, j), j, i) == s
  {
    var t := Swap(Swap(s, i, j), j, i);
    forall k | 0 <= k < |s| ensures t[k] == s[k] {
    }
  }

  /** Moving the selected image up and then down again restores the list and the selection. */
  lemma MoveUpThenDown(l: JpgList)
    requires l.WellFormed() && l.selection.Some? && l.selection.value > 0
    ensures MovedDown(MovedUp(l)) == l
  {
    var i := l.selection.value;
    assert MovedUp(l) == JpgList(Swap(l.files, i - 1, i), Some(i - 1));
    SwapTwice(l.files, i - 1, i);
  }

  /** Moving the selected image down and then up again restores the list and the selection. */
  lemma MoveDownThenUp(l: JpgList)
    requires l.WellFormed() && l.selection.Some? && l.selection.value < |l.files| - 1
    ensures MovedUp(MovedDown(l)) == l
  {
    var i := l.selection.value;
    assert MovedDown(l) == JpgList(Swap(l.files, i + 1, i), Some(i + 1));
    SwapTwice(l.files, i + 1, i);
  }

  /** The listbox rows: the base name of each file, in order. */
  function Rows(files: seq<string>): (r: seq<string>)
    ensures |r| == |files|
    ensures forall i :: 0 <= i < |files| ==> r[i] == Basename(files[i])
  {
    seq(|files|, i requires 0 <= i < |files| => Basename(files[i]))
  }

  /** Swapping two files swaps their rows: after a move the shown name goes with its file. */
  lemma RowsFollowSwap(files: seq<string>, i: nat, j: nat)
    requires i < |files| && j < |files|
    ensures Rows(Swap(files, i, j)) == Swap(Rows(files), i, j)
  {
  }

  /** No listbox row holds a slash. */
  lemma RowsAreNames(files: seq<string>)
    ensures forall i :: 0 <= i < |files| ==> '/' !in Rows(files)[i]
  {
    forall i | 0 <= i < |files| ensures '/' !in Rows(files)[i] {
      BasenameNoSlash(files[i]);
    }
  }

  /** What a batch run reports: the completion notice, or the first PDF that failed (its position,
      its base name and the job's message). */
  datatype BatchReport = Completed | Aborted(index: nat, name: string, message: string)

  /** One PDF's conversion as the batch sees it: what the job returned and what it changed. */
  type Run = (JobResult<seq<string>>, seq<Effect>)

  /** Converting each PDF on its own in `w`. */
  function Runs(w: World, files: seq<string>, dpi: int): (r: seq<Run>)
    ensures |r| == |files|
  {
    if files == [] then [] else Runs(w, files[..|files| - 1], dpi) + [PdfToJpgJob.Outcome(w, files[|files| - 1], dpi)]
  }

  lemma {:induction false} RunAt(w: World, files: seq<string>, dpi: int, i: nat)
    requires i < |files|
    ensures Runs(w, files, dpi)[i] == PdfToJpgJob.Outcome(w, files[i], dpi)
  {
    if i < |files| - 1 {
      RunAt(w, files[..|files| - 1], dpi, i);
    }
  }

  /** The position of the first of the first n runs that failed. */
  function FirstFailure(runs: seq<Run>, n: nat): (r: Option<nat>)
    requires n <= |runs|
    ensures r.None? <==> forall i :: 0 <= i < n ==> runs[i].0.Succeeded?
    ensures r.Some? ==> r.value < n && runs[r.value].0.Failed?
    ensures r.Some? ==> forall i :: 0 <= i < r.value ==> runs[i].0.Succeeded?
  {
    if n == 0 then None
    else match FirstFailure(runs, n - 1)
      case Some(i) => Some(i)
      case None => if runs[n - 1].0.Failed? then Some(n - 1) else None
  }

  lemma FirstFailureIs(runs: seq<Run>, n: nat, i: nat)
    requires i < n <= |runs| && runs[i].0.Failed?
    requires forall j :: 0 <= j < i ==> runs[j].0.Succeeded?
    ensures FirstFailure(runs, n) == Some(i)
  {
  }

  /** The file-system changes of the first n runs, one after the other. */
  function BatchEffects(runs: seq<Run>, n: nat): seq<Effect>
    requires n <= |runs|
  {
    if n == 0 then [] else BatchEffects(runs, n - 1) + runs[n - 1].1
  }

  /** What do_pdf2jpg reports, and the changes it makes, running the conversions of `files` in
      order and stopping at the first failure. */
  function Batch(files: seq<string>, runs: seq<Run>): (BatchReport, seq<Effect>)
    requires |runs| == |files|
  {
    match FirstFailure(runs, |runs|)
    case None => (Completed, BatchEffects(runs, |runs|))
    case Some(i) => (Aborted(i, Basename(files[i]), runs[i].0.message), BatchEffects(runs, i + 1))
  }

  /** Completion is reported exactly when every PDF converts; otherwise the report names the
      first PDF that failed, every PDF before it converted, and the message is that job's. */
  lemma BatchReportsFirstFailure(w: World, files: seq<string>, dpi: int)
    ensures var report := Batch(files, Runs(w, files, dpi)).0;
      report.Completed? <==>
        forall i :: 0 <= i < |files| ==> PdfToJpgJob.Outcome(w, files[i], dpi).0.Succeeded?
    ensures var report := Batch(files, Runs(w, files, dpi)).0;
      report.Aborted? ==>
        && report.index < |files|
        && (forall j :: 0 <= j < report.index ==> PdfToJpgJob.Outcome(w, files[j], dpi).0.Succeeded?)
        && PdfToJpgJob.Outcome(w, files[report.index], dpi).0 == Failed(report.message)
        && report.name == Basename(files[report.index])
  {
    forall i | 0 <= i < |files| {
      RunAt(w, files, dpi, i);
    }
  }

  /** The changes of the first n runs do not depend on the runs after them. */
  lemma {:induction false} BatchEffectsPrefix(runs: seq<Run>, more: seq<Run>, n: nat)
    requires n <= |runs|
    ensures BatchEffects(runs + more, n) == BatchEffects(runs, n)
  {
    if n > 0 {
      BatchEffectsPrefix(runs, more, n - 1);
      assert (runs + more)[n - 1] == runs[n - 1];
    }
  }

  lemma RunsAppend(w: World, files: seq<string>, more: seq<string>, dpi: int)
    ensures Runs(w, files + more, dpi) == Runs(w, files, dpi) + Runs(w, more, dpi)
  {
    var all := files + more;
    var r, s := Runs(w, all, dpi), Runs(w, files, dpi) + Runs(w, more, dpi);
    forall i | 0 <= i < |all| ensures r[i] == s[i] {
      RunAt(w, all, dpi, i);
      if i < |files| {
        RunAt(w, files, dpi, i);
        assert all[i] == files[i];
      } else {
        RunAt(w, more, dpi, i - |files|);
        assert all[i] == more[i - |files|];
      }
    }
  }

  /** One conversion of the batch: pdf_to_jpg on the idx-th PDF. */
  method ConvertNth(w: World, files: seq<string>, dpi: int, idx: nat) returns (result: JobResult<seq<string>>, changes: seq<Effect>)
    requires idx < |files|
    ensures (result, changes) == Runs(w, files, dpi)[idx]
  {
    result, changes := PdfToJpgJob.PdfToJpg(w, files[idx], dpi);
    RunAt(w, files, dpi, idx);
  }

  /** A failed run ends the batch whatever runs would have followed it. */
  lemma BatchIgnoresLaterRuns(files: seq<string>, runs: seq<Run>, more: seq<string>, extra: seq<Run>)
    requires |runs| == |files| && |extra| == |more|
    requires Batch(files, runs).0.Aborted?
    ensures Batch(files + more, runs + extra) == Batch(files, runs)
  {
    var i := FirstFailure(runs, |runs|).value;
    var all := runs + extra;
    assert all[i] == runs[i];
    assert (files + more)[i] == files[i];
    assert forall j :: 0 <= j < i ==> all[j] == runs[j];
    FirstFailureIs(all, |all|, i);
    BatchEffectsPrefix(runs, extra, i + 1);
  }

  /** After a completed batch, one more successful run only adds its own changes at the end. */
  lemma BatchExtendsCompleted(files: seq<string>, runs: seq<Run>, pdf: string, run: Run)
    requires |runs| == |files|
    requires Batch(files, runs).0.Completed? && run.0.Succeeded?
    ensures Batch(files + [pdf], runs + [run]) == (Completed, Batch(files, runs).1 + run.1)
  {
    var all := runs + [run];
    assert all[|runs|] == run;
    assert forall j :: 0 <= j < |runs| ==> all[j] == runs[j];
    assert FirstFailure(all, |all|).None?;
    BatchEffectsPrefix(runs, [run], |runs|);
  }

  /** Once a PDF fails, the PDFs after it are never touched: appending more PDFs to the batch
      changes neither the report nor the file-system changes. */
  lemma BatchStopsAtFailure(w: World, files: seq<string>, more: seq<string>, dpi: int)
    requires Batch(files, Runs(w, files, dpi)).0.Aborted?
    ensures Batch(files + more, Runs(w, files + more, dpi)) == Batch(files, Runs(w, files, dpi))
  {
    RunsAppend(w, files, more, dpi);
    BatchIgnoresLaterRuns(files, Runs(w, files, dpi), more, Runs(w, more, dpi));
  }

  /** When every PDF converts, the changes are each PDF's output folder and pages, PDF by PDF in
      the order they were chosen. */
  lemma BatchInOrder(w: World, files: seq<string>, pdf: string, dpi: int)
    requires Batch(files, Runs(w, files, dpi)).0.Completed?
    requires PdfToJpgJob.Outcome(w, pdf, dpi).0.Succeeded?
    ensures Batch(files + [pdf], Runs(w, files + [pdf], dpi)) ==
      (Completed, Batch(files, Runs(w, files, dpi)).1 + PdfToJpgJob.Outcome(w, pdf, dpi).1)
  {
    RunsAppend(w, files, [pdf], dpi);
    RunAt(w, [pdf], dpi, 0);
    BatchExtendsCompleted(files, Runs(w, files, dpi), pdf, Runs(w, [pdf], dpi)[0]);
    assert Runs(w, [pdf], dpi) == [Runs(w, [pdf], dpi)[0]];
  }

  /** Exchanging two chosen images exchanges their pages in the merged PDF and nothing else. The
      merged PDF goes beside the first image, so it can only move when the first image does. */
  lemma SwappedPages(w: World, files: seq<string>, i: nat, j: nat)
    requires i < |files| && j < |files|
    requires JpgToPdfJob.Outcome(w, files).0.Succeeded?
    ensures var swapped := Swap(files, i, j);
      JpgToPdfJob.Outcome(w, swapped).0.Succeeded? <==> Dirname(swapped[0]) !in w.unwritable
    ensures 0 < i && 0 < j ==> JpgToPdfJob.Outcome(w, Swap(files, i, j)).0 == JpgToPdfJob.Outcome(w, files).0
    ensures JpgToPdfJob.Outcome(w, Swap(files, i, j)).0.Succeeded? ==>
      JpgToPdfJob.Outcome(w, Swap(files, i, j)).1[0].pages == Swap(JpgToPdfJob.Outcome(w, files).1[0].pages, i, j)
  {
    var swapped := Swap(files, i, j);
    JpgToPdfJob.OutcomeSucceeds(w, files);
    assert forall k :: 0 <= k < |swapped| ==> OpenImage(w, swapped[k]).Ok? by {
      forall k | 0 <= k < |swapped| ensures OpenImage(w, swapped[k]).Ok? {
        if k == i { assert swapped[k] == files[j]; }
        else if k == j { assert swapped[k] == files[i]; }
        else { assert swapped[k] == files[k]; }
      }
    }
    JpgToPdfJob.OutcomeSucceeds(w, swapped);
    if 0 < i && 0 < j {
      assert swapped[0] == files[0];
    }
    if JpgToPdfJob.Outcome(w, swapped).0.Succeeded? {
      var p := JpgToPdfJob.Pages(w, files, |files|);
      var q := JpgToPdfJob.Pages(w, swapped, |swapped|);
      assert JpgToPdfJob.Outcome(w, files).1[0].pages == p;
      assert JpgToPdfJob.Outcome(w, swapped).1[0].pages == q;
      var s := Swap(p, i, j);
      forall k | 0 <= k < |q| ensures q[k] == s[k] {
        JpgToPdfJob.PagesAt(w, swapped, |swapped|, k);
        JpgToPdfJob.PagesAt(w, files, |files|, k);
        JpgToPdfJob.PagesAt(w, files, |files|, i);
        JpgToPdfJob.PagesAt(w, files, |files|, j);
        if k == i { assert swapped[k] == files[j]; }
        else if k == j { assert swapped[k] == files[i]; }
        else { assert swapped[k] == files[k]; }
      }
      assert q == s;
    }
  }

  /** Moving the selected image up moves its page up in the merged PDF by the same step. */
  lemma MoveUpReordersPages(w: World, l: JpgList)
    requires l.WellFormed() && l.selection.Some? && l.selection.value > 0
    requires JpgToPdfJob.Outcome(w, l.files).0.Succeeded?
    requires Dirname(MovedUp(l).files[0]) !in w.unwritable
    ensures JpgToPdfJob.Outcome(w, MovedUp(l).files).0.Succeeded?
    ensures JpgToPdfJob.Outcome(w, MovedUp(l).files).1[0].pages ==
      Swap(JpgToPdfJob.Outcome(w, l.files).1[0].pages, l.selection.value - 1, l.selection.value)
  {
    var i := l.selection.value;
    assert MovedUp(l).files == Swap(l.files, i - 1, i);
    SwappedPages(w, l.files, i - 1, i);
  }

  /** Moving the selected image down moves its page down in the merged PDF by the same step. */
  lemma MoveDownReordersPages(w: World, l: JpgList)
    requires l.WellFormed() && l.selection.Some? && l.selection.value < |l.files| - 1
    requires JpgToPdfJob.Outcome(w, l.files).0.Succeeded?
    requires Dirname(MovedDown(l).files[0]) !in w.unwritable
    ensures JpgToPdfJob.Outcome(w, MovedDown(l).files).0.Succeeded?
    ensures JpgToPdfJob.Outcome(w, MovedDown(l).files).1[0].pages ==
      Swap(JpgToPdfJob.Outcome(w, l.files).1[0].pages, l.selection.value + 1, l.selection.value)
  {
    var i := l.selection.value;
    assert MovedDown(l).files == Swap(l.files, i + 1, i);
    SwappedPages(w, l.files, i + 1, i);
  }

  /** The window state the core touches. */
  class ConverterApp {
    var pdfFiles: seq<string>
    var pdfRows: seq<string>
    var jpgFiles: seq<string>
    var jpgRows: seq<string>
    var jpgSelection: Option<nat>

    /** The listboxes show the base names of the chosen files, and a selection is one of the rows. */
    predicate Valid()
      reads this
    {
      && pdfRows == Rows(pdfFiles)
      && jpgRows == Rows(jpgFiles)
      && JpgList(jpgFiles, jpgSelection).WellFormed()
    }

    function JpgState(): JpgList
      reads this
    {
      JpgList(jpgFiles, jpgSelection)
    }

    constructor ()
      ensures Valid()
      ensures pdfFiles == [] && jpgFiles == [] && jpgSelection.None?
    {
      pdfFiles, pdfRows := [], [];
      jpgFiles, jpgRows := [], [];
      jpgSelection := None;
    }

    /** select_pdf_files: a non-empty choice replaces the PDFs and the listbox rows; cancelling
        the dialog keeps the previous choice. */
    method SelectPdfFiles(chosen: seq<string>)
      modifies this
      requires Valid()
      ensures Valid()
      ensures pdfFiles == (if chosen == [] then old(pdfFiles) else chosen)
      ensures jpgFiles == old(jpgFiles) && jpgSelection == old(jpgSelection)
    {
      if chosen != [] {
        pdfFiles := chosen;
        pdfRows := [];
        for i := 0 to |chosen|
          invariant pdfFiles == chosen && pdfRows == Rows(chosen[..i])
          invariant jpgFiles == old(jpgFiles) && jpgRows == old(jpgRows) && jpgSelection == old(jpgSelection)
        {
          assert Rows(chosen[..i + 1]) == Rows(chosen[..i]) + [Basename(chosen[i])];
          pdfRows := pdfRows + [Basename(chosen[i])];
        }
        assert chosen[..|chosen|] == chosen;
      }
    }

    /** refresh_jpg_listbox: the rows are rebuilt from the image list; clearing the listbox drops
        its selection. */
    method RefreshJpgListbox()
      modifies this
      ensures jpgRows == Rows(jpgFiles)
      ensures jpgSelection.None?
      ensures jpgFiles == old(jpgFiles) && pdfFiles == old(pdfFiles) && pdfRows == old(pdfRows)
    {
      jpgRows := [];
      jpgSelection := None;
      for i := 0 to |jpgFiles|
        invariant jpgFiles == old(jpgFiles) && pdfFiles == old(pdfFiles) && pdfRows == old(pdfRows)
        invariant jpgRows == Rows(jpgFiles[..i]) && jpgSelection.None?
      {
        assert Rows(jpgFiles[..i + 1]) == Rows(jpgFiles[..i]) + [Basename(jpgFiles[i])];
        jpgRows := jpgRows + [Basename(jpgFiles[i])];
      }
      assert jpgFiles[..|jpgFiles|] == jpgFiles;
    }

    /** select_jpg_files: a non-empty choice replaces the image list, in the dialog's order. */
    method SelectJpgFiles(chosen: seq<string>)
      modifies this
      requires Valid()
      ensures Valid()
      ensures chosen != [] ==> jpgFiles == chosen && jpgSelection.None?
      ensures chosen == [] ==> jpgFiles == old(jpgFiles) && jpgSelection == old(jpgSelection)
      ensures pdfFiles == old(pdfFiles)
    {
      if chosen != [] {
        jpgFiles := chosen;
        RefreshJpgListbox();
      }
    }

    /** A click on row i of the image listbox selects that row alone. */
    method Click(i: nat)
      modifies this
      requires Valid() && i < |jpgRows|
      ensures Valid()
      ensures jpgFiles == old(jpgFiles) && jpgSelection == Some(i)
      ensures pdfFiles == old(pdfFiles)
    {
      jpgSelection := Some(i);
    }

    /** move_up, on the window's state. */
    method MoveUp()
      modifies this
      requires Valid()
      ensures Valid()
      ensures JpgState() == MovedUp(old(JpgState()))
      ensures pdfFiles == old(pdfFiles)
    {
      if jpgSelection.None? || jpgSelection.value == 0 {
        return;
      }
      var idx := jpgSelection.value;
      jpgFiles := jpgFiles[idx - 1 := jpgFiles[idx]][idx := jpgFiles[idx - 1]];
      RefreshJpgListbox();
      jpgSelection := Some(idx - 1);
    }

    /** move_down, on the window's state. */
    method MoveDown()
      modifies this
      requires Valid()
      ensures Valid()
      ensures JpgState() == MovedDown(old(JpgState()))
      ensures pdfFiles == old(pdfFiles)
    {
      if jpgSelection.None? || jpgSelection.value == |jpgFiles| - 1 {
        return;
      }
      var idx := jpgSelection.value;
      jpgFiles := jpgFiles[idx + 1 := jpgFiles[idx]][idx := jpgFiles[idx + 1]];
      RefreshJpgListbox();
      jpgSelection := Some(idx + 1);
    }

    /** do_pdf2jpg: converts the chosen PDFs in order and stops at the first failure. */
    method DoPdf2Jpg(w: World, dpi: int) returns (report: BatchReport, effects: seq<Effect>)
      ensures (report, effects) == Batch(pdfFiles, Runs(w, pdfFiles, dpi))
    {
      ghost var runs := Runs(w, pdfFiles, dpi);
      effects := [];
      for idx := 0 to |pdfFiles|
        invariant forall j :: 0 <= j < idx ==> runs[j].0.Succeeded?
        invariant effects == BatchEffects(runs, idx)
      {
        var pdf := pdfFiles[idx];
        var result, changes := ConvertNth(w, pdfFiles, dpi, idx);
        effects := effects + changes;
        if result.Failed? {
          FirstFailureIs(runs, |runs|, idx);
          return Aborted(idx, Basename(pdf), result.message), effects;
        }
      }
      return Completed, effects;
    }

    /** do_jpg2pdf: merges the images in the list's current order. */
    method DoJpg2Pdf(w: World) returns (result: JobResult<string>, effects: seq<Effect>)
      ensures (result, effects) == JpgToPdfJob.Outcome(w, jpgFiles)
    {
      result, effects := JpgToPdfJob.JpgToPdf(w, jpgFiles);
    }
  }
}
