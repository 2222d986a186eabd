/**
 * Main: the forward run. Scan the IMG folder, record the ledger, then
 * recognize each image in scan order and rename it after its text.
 */
module RenamePipeline {
  import opened JavaText
  import opened FileTree
  import opened FileRenamer
  import opened OcrService
  import opened ImageScanner
  import opened FileRestorer

  /**
   * One iteration of the loop: the file, the text `recognizeText`
   * returned, and what `renameFileWithOCRResult` returned, None when the
   * text was empty and no rename was attempted.
   */
  datatype Visit = Visit(file: FileRef, recognizedText: Str, renamed: Option<bool>)

  /** The IMG folder and the visits after some iterations of the loop. */
  datatype Forward = Forward(img: Option<Node>, visits: seq<Visit>)

  /** `recognizeText` on a file of the IMG folder in a given state. */
  type RecognizeFn = (Option<Node>, FileRef) -> Str

  /** `renameFileWithOCRResult` on a file of the IMG folder in a given state. */
  type RenameFn = (Option<Node>, FileRef, Str) -> Outcome

  /** The recognizer the loop calls: OCRService with a given engine, threshold and character classes. */
  function Recognize(imgPath: Str, engine: FileId -> Option<Str>, threshold: real, cc: CharClasses): RecognizeFn {
    (m: Option<Node>, f: FileRef) => RecognizedText(m, imgPath, f, engine, threshold, cc)
  }

  /** The renamer the loop calls. */
  function Rename(): RenameFn {
    (m: Option<Node>, f: FileRef, text: Str) => RenameWithOcrResult(m, f, text)
  }

  /**
   * The first `k` iterations of the loop over the scanned files: each
   * recognizes its file on the current folder and, when the text is not
   * empty, renames the file with it.
   */
  function ForwardSteps(img: Option<Node>, files: seq<FileRef>, recognize: RecognizeFn, rename: RenameFn, k: nat): Forward
    requires k <= |files|
    decreases k
  {
    if k == 0 then Forward(img, [])
    else ForwardStep(ForwardSteps(img, files, recognize, rename, k - 1), files[k - 1], recognize, rename)
  }

  /** One iteration of the loop, on the file `file`. */
  function ForwardStep(p: Forward, file: FileRef, recognize: RecognizeFn, rename: RenameFn): Forward {
    var text := recognize(p.img, file);
    if text == [] then Forward(p.img, p.visits + [Visit(file, text, None)])
    else
      var o := rename(p.img, file, text);
      Forward(o.img, p.visits + [Visit(file, text, Some(o.ok))])
  }

  /** How `Main.main` ends: no images found, or the ledger outcome and the visits. */
  datatype RenamerReport = NoImages | Processed(ledgerWritten: bool, visits: seq<Visit>)

  datatype RenamerRun = RenamerRun(report: RenamerReport, img: Option<Node>, ledger: Option<Str>)

  /**
   * `Main.main` on the IMG folder `img` and the ledger content `ledger`;
   * `ledgerWriteFails` is whether writing OldNames.txt throws.
   */
  function RenamerMain(imgPath: Str, img: Option<Node>, ledger: Option<Str>, engine: FileId -> Option<Str>,
                       threshold: real, cc: CharClasses, ledgerWriteFails: bool): RenamerRun
  {
    var files := ScanResult(img);
    if files == [] then RenamerRun(NoImages, img, ledger)
    else
      var newLedger := if ledgerWriteFails then None else Some(LedgerContent(files));
      var f := ForwardSteps(img, files, Recognize(imgPath, engine, threshold, cc), Rename(), |files|);
      RenamerRun(Processed(!ledgerWriteFails, f.visits), f.img, newLedger)
  }

  /** `Main.main`, with the OCR engine as a function of the file's contents. */
  method RunRenamer(fs: FileSystem, ocr: Recognizer, engine: FileId -> Option<Str>, cc: CharClasses,
                    ledgerWriteFails: bool) returns (report: RenamerReport)
    modifies fs
    ensures RenamerRun(report, fs.img, fs.oldNames) ==
      RenamerMain(fs.imgPath, old(fs.img), old(fs.oldNames), engine, ocr.confidenceThreshold, cc, ledgerWriteFails)
  {
    var imageFiles := ScanImages(fs);
    if imageFiles == [] {
      return NoImages;
    }
    var recorded := RecordOldFileNames(fs, imageFiles, ledgerWriteFails);
    ghost var img0 := fs.img;
    var visits: seq<Visit> := [];
    for i := 0 to |imageFiles|
      invariant Forward(fs.img, visits) ==
        ForwardSteps(img0, imageFiles, Recognize(fs.imgPath, engine, ocr.confidenceThreshold, cc), Rename(), i)
      invariant fs.oldNames == if ledgerWriteFails then None else Some(LedgerContent(imageFiles))
    {
      visits := VisitImage(fs, ocr, engine, cc, imageFiles[i], visits);
    }
    report := Processed(recorded, visits);
  }

  /** The body of the loop: recognize one image and, if any text came back, rename it. */
  method VisitImage(fs: FileSystem, ocr: Recognizer, engine: FileId -> Option<Str>, cc: CharClasses,
                    imageFile: FileRef, visits: seq<Visit>) returns (visits': seq<Visit>)
    modifies fs
    ensures Forward(fs.img, visits') ==
      ForwardStep(Forward(old(fs.img), visits), imageFile, Recognize(fs.imgPath, engine, ocr.confidenceThreshold, cc), Rename())
    ensures fs.oldNames == old(fs.oldNames)
  {
    var recognizedText := ocr.RecognizeText(fs, imageFile, engine, cc);
    if recognizedText == [] {
      visits' := visits + [Visit(imageFile, recognizedText, None)];
    } else {
      var ok := RenameFileWithOcrResult(fs, imageFile, recognizedText);
      visits' := visits + [Visit(imageFile, recognizedText, Some(ok))];
    }
  }

  // ---------------------------------------------------------------------
  // The loop

  /**
   * The visit `v` is the one an iteration over `file` makes on the folder
   * `before`: the text is what the recognizer returns there, and a rename
   * is attempted, with its result recorded, exactly when that text is
   * non-empty.
   */
  predicate VisitMade(v: Visit, before: Option<Node>, file: FileRef, recognize: RecognizeFn, rename: RenameFn) {
    v.file == file &&
    v.recognizedText == recognize(before, file) &&
    (v.renamed.Some? <==> v.recognizedText != []) &&
    (v.renamed.Some? ==> v.renamed.value == rename(before, file, v.recognizedText).ok)
  }

  /** The visits of a shorter run are a prefix of those of a longer one. */
  lemma {:induction false} ForwardPrefix(img: Option<Node>, files: seq<FileRef>, recognize: RecognizeFn,
                                         rename: RenameFn, j: nat, k: nat)
    requires j <= k <= |files|
    ensures var vs := ForwardSteps(img, files, recognize, rename, k).visits;
      |vs| == k && ForwardSteps(img, files, recognize, rename, j).visits == vs[..j]
    decreases k
  {
    if k > 0 {
      var before := ForwardSteps(img, files, recognize, rename, k - 1).visits;
      var vs := ForwardSteps(img, files, recognize, rename, k).visits;
      if j < k {
        ForwardPrefix(img, files, recognize, rename, j, k - 1);
        assert vs[..k - 1] == before;
        assert vs[..j] == vs[..k - 1][..j];
      } else {
        ForwardPrefix(img, files, recognize, rename, k - 1, k - 1);
      }
    }
  }

  /**
   * Each scanned file is visited exactly once, in scan order: iteration
   * `i` visits the i-th file on the folder as the first `i` iterations
   * left it, whatever the earlier renames returned.
   */
  lemma ForwardVisitsInOrder(img: Option<Node>, files: seq<FileRef>, recognize: RecognizeFn, rename: RenameFn,
                             k: nat, i: nat)
    requires i < k <= |files|
    ensures var vs := ForwardSteps(img, files, recognize, rename, k).visits;
      |vs| == k && VisitMade(vs[i], ForwardSteps(img, files, recognize, rename, i).img, files[i], recognize, rename)
  {
    ForwardPrefix(img, files, recognize, rename, i + 1, k);
    ForwardPrefix(img, files, recognize, rename, i, i);
    var vs := ForwardSteps(img, files, recognize, rename, k).visits;
    assert vs[i] == vs[..i + 1][i];
  }

  /**
   * An empty scan ends the run before the ledger is written or any file
   * is touched. Otherwise the ledger holds the scanned names joined by
   * "/", taken before the first rename, and whether its write fails
   * changes neither the visits nor the IMG folder.
   */
  lemma RenamerMainShape(imgPath: Str, img: Option<Node>, ledger: Option<Str>, engine: FileId -> Option<Str>,
                         threshold: real, cc: CharClasses, ledgerWriteFails: bool)
    ensures var r := RenamerMain(imgPath, img, ledger, engine, threshold, cc, ledgerWriteFails);
      var files := ScanResult(img);
      (files == [] <==> r.report.NoImages?) &&
      (files == [] ==> r.img == img && r.ledger == ledger) &&
      (files != [] ==>
        r.ledger == (if ledgerWriteFails then None else Some(Join(Names(files), SLASH))) &&
        r.report.ledgerWritten == !ledgerWriteFails &&
        |r.report.visits| == |files| &&
        var other := RenamerMain(imgPath, img, ledger, engine, threshold, cc, !ledgerWriteFails);
        other.img == r.img && other.report.visits == r.report.visits)
  {
    var files := ScanResult(img);
    if files != [] {
      ForwardPrefix(img, files, Recognize(imgPath, engine, threshold, cc), Rename(), 0, |files|);
    }
  }

  /**
   * The text `recognizeText` hands to the renamer is already free of the
   * reserved characters, so cleaning changes nothing and the proposed name
   * is exactly the text followed by the file's extension.
   */
  lemma RecognizedTextNeedsNoCleaning(img: Option<Node>, imgPath: Str, file: FileRef,
                                      engine: FileId -> Option<Str>, threshold: real, cc: CharClasses)
    requires UnicodeConsistent(cc)
    ensures var text := RecognizedText(img, imgPath, file, engine, threshold, cc);
      CleanInvalidChars(text) == text &&
      (text != [] ==> TargetName(file.name, text) == Some(text + Extension(file.name)))
  {
    RecognizedTextSafe(img, imgPath, file, engine, threshold, cc);
    CleanInvalidCharsIdentity(RecognizedText(img, imgPath, file, engine, threshold, cc));
  }

  // ---------------------------------------------------------------------
  // Renaming and restoring a flat folder

  /**
   * The name the forward run gives the i-th entry of a flat folder: its
   * recognized text followed by its extension, or its own name when no
   * text is recognized.
   */
  function FinalNames(imgPath: Str, es: seq<Entry>, engine: FileId -> Option<Str>, threshold: real, cc: CharClasses): (c: seq<Str>)
    ensures |c| == |es|
  {
    seq(|es|, i requires 0 <= i < |es| =>
      var text := RecognizedText(Some(Dir(es, true)), imgPath, FileRef([], es[i].name), engine, threshold, cc);
      if text == [] then es[i].name else text + Extension(es[i].name))
  }

  /** The new names are pairwise distinct and none is the original name of another entry. */
  predicate NamesFree(es: seq<Entry>, c: seq<Str>) {
    |c| == |es| &&
    (forall i, j | 0 <= i < j < |c| :: c[i] != c[j]) &&
    (forall i, j | 0 <= i < |c| && 0 <= j < |es| && i != j :: c[i] != es[j].name)
  }

  /** Part-way through, the folder's names are still pairwise distinct. */
  lemma RelabelUnique(es: seq<Entry>, c: seq<Str>, k: nat)
    requires UniqueNames(es) && NamesFree(es, c) && k <= |es|
    ensures UniqueNames(Relabel(es, c, k))
  {
    var cur := Relabel(es, c, k);
    forall i, j | 0 <= i < j < |cur|
      ensures cur[i].name != cur[j].name
    {
    }
  }

  /** In the folder part-way through, entry `k` still carries its original name and node. */
  lemma RelabelFinds(es: seq<Entry>, c: seq<Str>, k: nat)
    requires UniqueNames(es) && NamesFree(es, c) && k < |es|
    ensures Resolve(Some(Dir(Relabel(es, c, k), true)), [es[k].name]) == Some(es[k].node)
    ensures Resolve(Some(Dir(es, true)), [es[k].name]) == Some(es[k].node)
  {
    var cur := Relabel(es, c, k);
    RelabelUnique(es, c, k);
    FindUnique(cur, k);
    FindUnique(es, k);
    assert [es[k].name] == [es[k].name] + [];
    LookupThrough(Dir(cur, true), es[k].name, []);
    LookupThrough(Dir(es, true), es[k].name, []);
  }

  /**
   * Renaming entry `k` of a flat folder whose first `k` entries carry their
   * new names, with text that yields the new name `c[k]` and cannot form
   * "." or "..", succeeds and gives entry `k` its new name.
   */
  lemma FlatRename(es: seq<Entry>, c: seq<Str>, k: nat, text: Str)
    requires WellFormed(Dir(es, true)) && NamesFree(es, c) && k < |es|
    requires text != [] && text[0] != DOT
    requires forall i | 0 <= i < |text| :: !IsReservedChar(text[i])
    requires c[k] == text + Extension(es[k].name)
    ensures RenameWithOcrResult(Some(Dir(Relabel(es, c, k), true)), FileRef([], es[k].name), text) ==
      Outcome(Some(Dir(Relabel(es, c, k + 1), true)), true)
  {
    var cur := Relabel(es, c, k);
    CleanInvalidCharsIdentity(text);
    assert TargetName(es[k].name, text) == Some(c[k]);
    assert !IsDotName(c[k]) by {
      assert c[k][0] == text[0];
    }
    RelabelUnique(es, c, k);
    RenameInListing(cur, k, text);
    assert Relabel(es, c, k + 1) == cur[k := Entry(c[k], cur[k].node)];
  }

  /**
   * A rename forward iteration `k` attempts on a flat folder whose first
   * `k` entries carry their new names succeeds and gives entry `k` its new
   * name.
   */
  lemma ForwardFlatRename(imgPath: Str, es: seq<Entry>, engine: FileId -> Option<Str>, threshold: real,
                          cc: CharClasses, k: nat)
    requires WellFormed(Dir(es, true)) && UnicodeConsistent(cc) && k < |es|
    requires NamesFree(es, FinalNames(imgPath, es, engine, threshold, cc))
    requires RecognizedText(Some(Dir(es, true)), imgPath, FileRef([], es[k].name), engine, threshold, cc) != []
    ensures var c := FinalNames(imgPath, es, engine, threshold, cc);
      var text := RecognizedText(Some(Dir(es, true)), imgPath, FileRef([], es[k].name), engine, threshold, cc);
      RenameWithOcrResult(Some(Dir(Relabel(es, c, k), true)), FileRef([], es[k].name), text) ==
        Outcome(Some(Dir(Relabel(es, c, k + 1), true)), true)
  {
    var c := FinalNames(imgPath, es, engine, threshold, cc);
    var text := RecognizedText(Some(Dir(es, true)), imgPath, FileRef([], es[k].name), engine, threshold, cc);
    RecognizedTextSafe(Some(Dir(es, true)), imgPath, FileRef([], es[k].name), engine, threshold, cc);
    assert c[k] == text + Extension(es[k].name);
    FlatRename(es, c, k, text);
  }

  /**
   * One forward iteration on a flat folder whose first `k` entries carry
   * their new names: it recognizes the same text as on the untouched
   * folder, and leaves the first `k + 1` entries with their new names.
   */
  lemma ForwardFlatStep(imgPath: Str, es: seq<Entry>, engine: FileId -> Option<Str>, threshold: real,
                        cc: CharClasses, k: nat)
    requires WellFormed(Dir(es, true)) && UnicodeConsistent(cc) && k < |es|
    requires NamesFree(es, FinalNames(imgPath, es, engine, threshold, cc))
    ensures var c := FinalNames(imgPath, es, engine, threshold, cc);
      var cur := Some(Dir(Relabel(es, c, k), true));
      var next := Some(Dir(Relabel(es, c, k + 1), true));
      var file := FileRef([], es[k].name);
      var text := RecognizedText(cur, imgPath, file, engine, threshold, cc);
      text == RecognizedText(Some(Dir(es, true)), imgPath, file, engine, threshold, cc) &&
      (text == [] ==> next == cur) &&
      (text != [] ==> RenameWithOcrResult(cur, file, text) == Outcome(next, true))
  {
    var c := FinalNames(imgPath, es, engine, threshold, cc);
    var cur := Relabel(es, c, k);
    var file := FileRef([], es[k].name);
    assert PathOf(file) == [es[k].name];
    RelabelFinds(es, c, k);
    RecognizedTextLocal(Some(Dir(cur, true)), Some(Dir(es, true)), imgPath, file, engine, threshold, cc);
    var text := RecognizedText(Some(Dir(es, true)), imgPath, file, engine, threshold, cc);
    if text == [] {
      assert Relabel(es, c, k + 1) == cur;
    } else {
      ForwardFlatRename(imgPath, es, engine, threshold, cc, k);
    }
  }

  /** No rename the loop attempted failed. */
  predicate NoFailedRename(visits: seq<Visit>) {
    forall i | 0 <= i < |visits| :: visits[i].renamed != Some(false)
  }

  lemma NoFailedRenameExtend(visits: seq<Visit>, visits': seq<Visit>)
    requires NoFailedRename(visits)
    requires |visits'| == |visits| + 1 && visits'[..|visits|] == visits
    requires visits'[|visits|].renamed != Some(false)
    ensures NoFailedRename(visits')
  {
    forall i | 0 <= i < |visits'|
      ensures visits'[i].renamed != Some(false)
    {
      if i < |visits| {
        assert visits'[i] == visits'[..|visits|][i];
      }
    }
  }

  /** An iteration appends its one visit to those before; what it does does not depend on them. */
  lemma ForwardStepAppends(p: Forward, file: FileRef, recognize: RecognizeFn, rename: RenameFn)
    ensures var q := ForwardStep(Forward(p.img, []), file, recognize, rename);
      |q.visits| == 1 && ForwardStep(p, file, recognize, rename) == Forward(q.img, p.visits + q.visits)
  {
  }

  /**
   * Iteration `j` over a flat folder whose first `j` entries carry their
   * new names `c`: it gives entry `j` its new name, and its visit records
   * no failed rename.
   */
  predicate FlatStepOk(es: seq<Entry>, c: seq<Str>, files: seq<FileRef>, recognize: RecognizeFn, rename: RenameFn, j: nat)
    requires j < |es| && |c| == |es| && |files| == |es|
  {
    var p := ForwardStep(Forward(Some(Dir(Relabel(es, c, j), true)), []), files[j], recognize, rename);
    p.img == Some(Dir(Relabel(es, c, j + 1), true)) && NoFailedRename(p.visits)
  }

  /** When every iteration over a flat folder behaves so, the first `k` leave `k` entries renamed and no failed rename. */
  lemma {:induction false} FlatFold(es: seq<Entry>, c: seq<Str>, files: seq<FileRef>, recognize: RecognizeFn,
                                    rename: RenameFn, k: nat)
    requires |c| == |es| && |files| == |es| && k <= |es|
    requires forall j | 0 <= j < |es| :: FlatStepOk(es, c, files, recognize, rename, j)
    ensures var f := ForwardSteps(Some(Dir(es, true)), files, recognize, rename, k);
      f.img == Some(Dir(Relabel(es, c, k), true)) && |f.visits| == k && NoFailedRename(f.visits)
    decreases k
  {
    if k == 0 {
      assert Relabel(es, c, 0) == es;
    } else {
      FlatFold(es, c, files, recognize, rename, k - 1);
      var before := ForwardSteps(Some(Dir(es, true)), files, recognize, rename, k - 1);
      ForwardStepAppends(before, files[k - 1], recognize, rename);
      assert FlatStepOk(es, c, files, recognize, rename, k - 1);
      var q := ForwardStep(Forward(before.img, []), files[k - 1], recognize, rename);
      var after := ForwardSteps(Some(Dir(es, true)), files, recognize, rename, k);
      assert after.visits == before.visits + q.visits;
      assert after.visits[..|before.visits|] == before.visits;
      NoFailedRenameExtend(before.visits, after.visits);
    }
  }

  /** The forward run's iteration over entry `k` of a flat folder behaves as `FlatStepOk` says. */
  lemma ForwardFlatVisit(imgPath: Str, es: seq<Entry>, engine: FileId -> Option<Str>, threshold: real,
                         cc: CharClasses, k: nat)
    requires WellFormed(Dir(es, true)) && UnicodeConsistent(cc) && k < |es|
    requires NamesFree(es, FinalNames(imgPath, es, engine, threshold, cc))
    ensures FlatStepOk(es, FinalNames(imgPath, es, engine, threshold, cc), EntryRefs(es, []),
                       Recognize(imgPath, engine, threshold, cc), Rename(), k)
  {
    assert EntryRefs(es, [])[k] == FileRef([], es[k].name);
    ForwardFlatStep(imgPath, es, engine, threshold, cc, k);
  }

  /** The forward run over a flat folder renames every entry to its new name and fails no rename. */
  lemma ForwardFlatSteps(imgPath: Str, es: seq<Entry>, engine: FileId -> Option<Str>, threshold: real, cc: CharClasses)
    requires WellFormed(Dir(es, true)) && UnicodeConsistent(cc)
    requires NamesFree(es, FinalNames(imgPath, es, engine, threshold, cc))
    ensures var c := FinalNames(imgPath, es, engine, threshold, cc);
      var f := ForwardSteps(Some(Dir(es, true)), EntryRefs(es, []), Recognize(imgPath, engine, threshold, cc), Rename(), |es|);
      f.img == Some(Dir(Relabel(es, c, |es|), true)) &&
      |f.visits| == |es| &&
      NoFailedRename(f.visits)
  {
    var c := FinalNames(imgPath, es, engine, threshold, cc);
    var files := EntryRefs(es, []);
    var recognize := Recognize(imgPath, engine, threshold, cc);
    forall j | 0 <= j < |es|
      ensures FlatStepOk(es, c, files, recognize, Rename(), j)
    {
      ForwardFlatVisit(imgPath, es, engine, threshold, cc, j);
    }
    FlatFold(es, c, files, recognize, Rename(), |es|);
  }

  /**
   * The forward run over a flat folder of supported images: it records the
   * listing in the ledger, renames every entry to its new name and fails
   * no rename.
   */
  lemma ForwardFlatFolder(imgPath: Str, es: seq<Entry>, ledger: Option<Str>, engine: FileId -> Option<Str>,
                          threshold: real, cc: CharClasses)
    requires es != [] && WellFormed(Dir(es, true)) && FlatImageFolder(Dir(es, true))
    requires UnicodeConsistent(cc)
    requires NamesFree(es, FinalNames(imgPath, es, engine, threshold, cc))
    ensures var fwd := RenamerMain(imgPath, Some(Dir(es, true)), ledger, engine, threshold, cc, false);
      fwd.report.Processed? &&
      fwd.img == Some(Dir(Relabel(es, FinalNames(imgPath, es, engine, threshold, cc), |es|), true)) &&
      NoFailedRename(fwd.report.visits) &&
      fwd.ledger == Some(LedgerContent(EntryRefs(es, [])))
  {
    ScanFlatFolder(Dir(es, true), []);
    assert ScanResult(Some(Dir(es, true))) == EntryRefs(es, []);
    ForwardFlatSteps(imgPath, es, engine, threshold, cc);
  }

  /**
   * Restoring the renamed flat folder from the ledger the forward run wrote
   * gives every file its original name back, with no failure and no
   * count mismatch.
   */
  lemma RestoreRenamedFolder(es: seq<Entry>, c: seq<Str>)
    requires es != [] && WellFormed(Dir(es, true))
    requires forall i | 0 <= i < |es| :: es[i].node.File? && IsTrimmed(es[i].name)
    requires NamesFree(es, c)
    ensures RestoreMain(Some(Dir(Relabel(es, c, |es|), true)), Some(LedgerContent(EntryRefs(es, [])))) ==
      RestoreRun(Finished(|es|, 0, false), Some(Dir(es, true)))
  {
    var names := Names(EntryRefs(es, []));
    var renamed := Relabel(es, c, |es|);
    RelabelUnique(es, c, |es|);
    RestoreFlatFolder(renamed, names);
    assert Relabel(renamed, names, |es|) == es;
  }

  /**
   * The round trip. Take a flat IMG folder of supported images whose names
   * are trimmed, whose listing order the two runs share, and whose new
   * names are pairwise distinct and clash with no other original name.
   * Then the forward run renames every image it recognizes and fails no
   * rename, and the restore run that follows fails nothing, reports no
   * count mismatch and gives back the original folder exactly.
   */
  lemma RoundTrip(imgPath: Str, es: seq<Entry>, ledger: Option<Str>, engine: FileId -> Option<Str>,
                  threshold: real, cc: CharClasses)
    requires es != [] && WellFormed(Dir(es, true)) && FlatImageFolder(Dir(es, true))
    requires forall i | 0 <= i < |es| :: IsTrimmed(es[i].name)
    requires UnicodeConsistent(cc)
    requires NamesFree(es, FinalNames(imgPath, es, engine, threshold, cc))
    ensures var fwd := RenamerMain(imgPath, Some(Dir(es, true)), ledger, engine, threshold, cc, false);
      fwd.report.Processed? &&
      fwd.img == Some(Dir(Relabel(es, FinalNames(imgPath, es, engine, threshold, cc), |es|), true)) &&
      NoFailedRename(fwd.report.visits) &&
      RestoreMain(fwd.img, fwd.ledger) == RestoreRun(Finished(|es|, 0, false), Some(Dir(es, true)))
  {
    ForwardFlatFolder(imgPath, es, ledger, engine, threshold, cc);
    RestoreRenamedFolder(es, FinalNames(imgPath, es, engine, threshold, cc));
  }
}
