/**
 * FileRestorer: read the ledger, list the IMG folder, and rename the i-th
 * listed file back to the i-th recorded name.
 */
module FileRestorer {
  import opened JavaText
  import opened FileTree
  import opened FileRenamer

  // ---------------------------------------------------------------------
  // readOldFileNames

  /** The pieces, each trimmed, the empty ones dropped, in order. */
  function KeepNames(pieces: seq<Str>): (names: seq<Str>)
    ensures |names| <= |pieces|
    ensures forall i | 0 <= i < |names| :: names[i] != [] && IsTrimmed(names[i])
    decreases |pieces|
  {
    if pieces == [] then []
    else
      var init := KeepNames(pieces[..|pieces| - 1]);
      var trimmedName := Trim(pieces[|pieces| - 1]);
      if trimmedName == [] then init else init + [trimmedName]
  }

  /** One more piece: its trimmed form is appended unless it is empty. */
  lemma KeepNamesSnoc(pieces: seq<Str>, piece: Str)
    ensures KeepNames(pieces + [piece]) ==
      if Trim(piece) == [] then KeepNames(pieces) else KeepNames(pieces) + [Trim(piece)]
  {
    assert (pieces + [piece])[..|pieces|] == pieces;
  }

  /** Some piece trims to `x`. */
  predicate SomePieceTrimsTo(pieces: seq<Str>, x: Str) {
    exists i | 0 <= i < |pieces| :: Trim(pieces[i]) == x
  }

  lemma SomePieceTrimsToSnoc(pieces: seq<Str>, piece: Str, x: Str)
    ensures SomePieceTrimsTo(pieces + [piece], x) <==> SomePieceTrimsTo(pieces, x) || Trim(piece) == x
  {
    var ps := pieces + [piece];
    if SomePieceTrimsTo(pieces, x) {
      var i :| 0 <= i < |pieces| && Trim(pieces[i]) == x;
      assert ps[i] == pieces[i];
    }
    if Trim(piece) == x {
      assert ps[|pieces|] == piece;
    }
    if SomePieceTrimsTo(ps, x) {
      var i :| 0 <= i < |ps| && Trim(ps[i]) == x;
      if i < |pieces| {
        assert ps[i] == pieces[i];
      }
    }
  }

  /** The kept names are exactly the non-empty trimmed forms of the pieces. */
  lemma {:induction false} KeepNamesMembers(pieces: seq<Str>, x: Str)
    ensures x in KeepNames(pieces) <==> x != [] && SomePieceTrimsTo(pieces, x)
    decreases |pieces|
  {
    if pieces != [] {
      var n := |pieces| - 1;
      KeepNamesMembers(pieces[..n], x);
      assert pieces == pieces[..n] + [pieces[n]];
      KeepNamesSnoc(pieces[..n], pieces[n]);
      SomePieceTrimsToSnoc(pieces[..n], pieces[n], x);
    }
  }

  /** Trimming only drops code units, so names kept from "/"-free pieces are "/"-free. */
  lemma {:induction false} KeepNamesSlashFree(pieces: seq<Str>)
    requires forall i | 0 <= i < |pieces| :: SLASH !in pieces[i]
    ensures forall i | 0 <= i < |KeepNames(pieces)| :: SLASH !in KeepNames(pieces)[i]
    decreases |pieces|
  {
    if pieces != [] {
      var last := pieces[|pieces| - 1];
      KeepNamesSlashFree(pieces[..|pieces| - 1]);
      if SLASH in Trim(last) {
        SubsequenceElements(Trim(last), last, SLASH);
      }
    }
  }

  /**
   * `readOldFileNames` on the ledger content (None when OldNames.txt does
   * not exist): a blank ledger gives no names, otherwise the pieces between
   * "/" separators, trimmed, empty ones dropped, in order.
   */
  function ParseLedger(content: Option<Str>): (names: seq<Str>)
    ensures content.None? ==> names == []
    ensures content.Some? && (forall i | 0 <= i < |content.value| :: IsTrimChar(content.value[i])) ==> names == []
    ensures forall i | 0 <= i < |names| :: names[i] != [] && IsTrimmed(names[i]) && SLASH !in names[i]
  {
    match content
    case None => []
    case Some(text) =>
      if Trim(text) == [] then []
      else
        KeepNamesSlashFree(Split(text, SLASH));
        KeepNames(Split(text, SLASH))
  }

  /** `readOldFileNames(oldNamesPath)`. */
  method ReadOldFileNames(fs: FileSystem) returns (fileNames: seq<Str>)
    ensures fileNames == ParseLedger(fs.oldNames)
  {
    fileNames := [];
    if fs.oldNames.None? {
      return;
    }
    var content := fs.oldNames.value;
    if Trim(content) == [] {
      return;
    }
    var names := Split(content, SLASH);
    KeepNamesSlashFree(names);
    fileNames := TrimmedNames(names);
  }

  /** The loop of `readOldFileNames`: keep each piece, trimmed, unless it is empty. */
  method TrimmedNames(names: seq<Str>) returns (fileNames: seq<Str>)
    ensures fileNames == KeepNames(names)
  {
    fileNames := [];
    for i := 0 to |names|
      invariant fileNames == KeepNames(names[..i])
    {
      var trimmedName := Trim(names[i]);
      assert names[..i + 1] == names[..i] + [names[i]];
      KeepNamesSnoc(names[..i], names[i]);
      if trimmedName != [] {
        fileNames := fileNames + [trimmedName];
      }
    }
    assert names[..|names|] == names;
  }

  lemma {:induction false} KeepNamesIdentity(names: seq<Str>)
    requires forall i | 0 <= i < |names| :: names[i] != [] && IsTrimmed(names[i])
    ensures KeepNames(names) == names
    decreases |names|
  {
    if names != [] {
      var init := names[..|names| - 1];
      KeepNamesIdentity(init);
      assert names == init + [names[|names| - 1]];
      KeepNamesSnoc(init, names[|names| - 1]);
    }
  }

  lemma JoinStartsWithFirst(names: seq<Str>, sep: CodeUnit)
    requires |names| >= 1 && names[0] != []
    ensures Join(names, sep) != [] && Join(names, sep)[0] == names[0][0]
  {
  }

  /**
   * The ledger round trip: parsing the "/"-join of names that are
   * non-empty, free of "/" and trimmed gives back exactly those names.
   */
  lemma {:induction false} LedgerRoundTrip(names: seq<Str>)
    requires forall i | 0 <= i < |names| :: names[i] != [] && SLASH !in names[i] && IsTrimmed(names[i])
    ensures ParseLedger(Some(Join(names, SLASH))) == names
  {
    if names != [] {
      var content := Join(names, SLASH);
      JoinStartsWithFirst(names, SLASH);
      assert !IsTrimChar(content[0]);
      assert Trim(content) != [];
      SplitJoin(names, SLASH);
      KeepNamesIdentity(names);
    }
  }

  // ---------------------------------------------------------------------
  // scanIMGFolder

  /** The regular files of a listing, at the top of the IMG folder, in listing order. */
  function TopFiles(es: seq<Entry>): seq<FileRef>
    decreases |es|
  {
    if es == [] then []
    else
      var e := es[|es| - 1];
      TopFiles(es[..|es| - 1]) + (if e.node.File? then [FileRef([], e.name)] else [])
  }

  /** What `scanIMGFolder(imgFolder)` returns for the state `img` of the IMG folder. */
  function TopLevelFiles(img: Option<Node>): seq<FileRef> {
    if img.Some? && img.value.Dir? && img.value.listable then TopFiles(img.value.entries) else []
  }

  /** `scanIMGFolder`: the regular files directly in the IMG folder, neither recursing nor filtering. */
  method ScanImgFolder(fs: FileSystem) returns (files: seq<FileRef>)
    ensures files == TopLevelFiles(fs.img)
  {
    files := [];
    if fs.img.None? || !fs.img.value.Dir? {
      return;
    }
    var fileArray := fs.img.value;
    if fileArray.listable {
      for i := 0 to |fileArray.entries|
        invariant files == TopFiles(fileArray.entries[..i])
      {
        var file := fileArray.entries[i];
        assert fileArray.entries[..i + 1][..i] == fileArray.entries[..i];
        if file.node.File? {
          files := files + [FileRef([], file.name)];
        }
      }
      assert fileArray.entries[..|fileArray.entries|] == fileArray.entries;
    }
  }

  lemma {:induction false} TopFilesExactly(es: seq<Entry>, f: FileRef)
    requires UniqueNames(es)
    ensures f in TopFiles(es) <==>
      f.parent == [] && exists i | 0 <= i < |es| :: es[i].name == f.name && es[i].node.File?
    decreases |es|
  {
    if es != [] {
      var init := es[..|es| - 1];
      TopFilesExactly(init, f);
      if f.parent == [] && f.name == es[|es| - 1].name {
        forall i | 0 <= i < |init|
          ensures init[i].name != f.name
        {
        }
      }
      if exists i | 0 <= i < |init| :: init[i].name == f.name && init[i].node.File? {
        var i :| 0 <= i < |init| && init[i].name == f.name && init[i].node.File?;
        assert es[i] == init[i];
      }
      if exists i | 0 <= i < |es| :: es[i].name == f.name && es[i].node.File? {
        var i :| 0 <= i < |es| && es[i].name == f.name && es[i].node.File?;
        if i < |init| {
          assert init[i] == es[i];
        }
      }
    }
  }

  /**
   * `scanIMGFolder` returns exactly the regular files directly in the IMG
   * folder: named by their entry, at the top, and only when listed.
   */
  lemma TopLevelFilesExactly(img: Option<Node>, f: FileRef)
    requires img.Some? && WellFormed(img.value)
    ensures f in TopLevelFiles(img) <==>
      img.value.Dir? && img.value.listable && f.parent == [] && FileAt(img.value, [f.name]).Some?
  {
    if img.value.Dir? && img.value.listable {
      var es := img.value.entries;
      TopFilesExactly(es, f);
      if Find(es, f.name).Some? {
        assert [f.name] == [f.name] + [];
        LookupThrough(img.value, f.name, []);
      }
      if f.parent == [] && FileAt(img.value, [f.name]).Some? {
        var i := Find(es, f.name).value;
        assert es[i].name == f.name && es[i].node.File?;
      }
      if f in TopLevelFiles(img) {
        var i :| 0 <= i < |es| && es[i].name == f.name && es[i].node.File?;
        FindUnique(es, i);
      }
    }
  }

  /** On a listed folder holding only regular files, the scan lists every entry in listing order. */
  lemma {:induction false} TopFilesAllFiles(es: seq<Entry>)
    requires forall i | 0 <= i < |es| :: es[i].node.File?
    ensures TopFiles(es) == EntryRefs(es, [])
    decreases |es|
  {
    if es != [] {
      TopFilesAllFiles(es[..|es| - 1]);
    }
  }

  // ---------------------------------------------------------------------
  // restoreFileName

  /** `restoreFileName(currentFile, originalFileName)` on the state `img`. */
  function RestoreOutcome(img: Option<Node>, currentFile: FileRef, originalFileName: Str): Outcome {
    if currentFile.name == originalFileName then Outcome(img, true)
    else if NameTaken(img, currentFile.parent, originalFileName) then Outcome(img, false)
    else if !Exists(img, currentFile) then Outcome(img, false)
    else Outcome(Move(img, currentFile, originalFileName), true)
  }

  /**
   * A restore succeeds exactly when the name is already right, or the file
   * exists and the name is free; it changes the IMG folder only by a move.
   */
  lemma RestoreSucceedsWhen(img: Option<Node>, currentFile: FileRef, originalFileName: Str)
    ensures var o := RestoreOutcome(img, currentFile, originalFileName);
      (o.ok <==> currentFile.name == originalFileName ||
                 (Exists(img, currentFile) && !NameTaken(img, currentFile.parent, originalFileName))) &&
      (currentFile.name == originalFileName || !o.ok ==> o.img == img)
  {
  }

  /**
   * A successful restore to a new name: the original name now holds the
   * file the current name held, the current name holds nothing, and every
   * other path names the same regular file as before.
   */
  lemma RestoreMovesOneBinding(img: Option<Node>, currentFile: FileRef, originalFileName: Str, q: Path)
    requires img.Some? && WellFormed(img.value)
    requires RestoreOutcome(img, currentFile, originalFileName).ok && currentFile.name != originalFileName
    ensures var o := RestoreOutcome(img, currentFile, originalFileName);
      var d := currentFile.parent;
      o.img.Some? &&
      FileAt(o.img.value, q) ==
        (if |q| > |d| && q[..|d| + 1] == d + [originalFileName] then FileAt(img.value, d + [currentFile.name] + q[|d| + 1..])
         else if |q| > |d| && q[..|d| + 1] == d + [currentFile.name] then None
         else FileAt(img.value, q))
  {
    RenameAtFiles(img.value, currentFile.parent, currentFile.name, originalFileName, q);
  }

  /** A restore to a name read from the ledger keeps the tree well formed. */
  lemma RestoreKeepsWellFormed(img: Option<Node>, currentFile: FileRef, originalFileName: Str)
    requires img.Some? && WellFormed(img.value)
    requires originalFileName != [] && SLASH !in originalFileName
    ensures var o := RestoreOutcome(img, currentFile, originalFileName);
      o.img.Some? && WellFormed(o.img.value)
  {
    var o := RestoreOutcome(img, currentFile, originalFileName);
    if o.ok && currentFile.name != originalFileName {
      LookupParent(img.value, currentFile.parent, currentFile.name);
      assert !IsDotName(originalFileName);
      RenameAtWellFormed(img.value, currentFile.parent, currentFile.name, originalFileName);
    }
  }

  /** `restoreFileName`. */
  method RestoreFileName(fs: FileSystem, currentFile: FileRef, originalFileName: Str) returns (ok: bool)
    modifies fs
    ensures Outcome(fs.img, ok) == RestoreOutcome(old(fs.img), currentFile, originalFileName)
    ensures fs.oldNames == old(fs.oldNames)
  {
    if currentFile.name == originalFileName {
      return true;
    }
    if NameTaken(fs.img, currentFile.parent, originalFileName) {
      return false;
    }
    if !Exists(fs.img, currentFile) {
      return false;
    }
    fs.img := Move(fs.img, currentFile, originalFileName);
    ok := true;
  }

  // ---------------------------------------------------------------------
  // The restore loop of main

  /** The IMG folder and the two counters after some iterations of the restore loop. */
  datatype Tally = Tally(img: Option<Node>, successCount: nat, failCount: nat)

  /** The first `k` iterations: the i-th listed file is restored to the i-th ledger name. */
  function RestoreSteps(img: Option<Node>, files: seq<FileRef>, names: seq<Str>, k: nat): Tally
    requires k <= |files| && k <= |names|
    decreases k
  {
    if k == 0 then Tally(img, 0, 0)
    else RestoreTally(RestoreSteps(img, files, names, k - 1), files[k - 1], names[k - 1])
  }

  /** One iteration: restore `currentFile` to `originalFileName` and count the result. */
  function RestoreTally(t: Tally, currentFile: FileRef, originalFileName: Str): Tally {
    var o := RestoreOutcome(t.img, currentFile, originalFileName);
    if o.ok then Tally(o.img, t.successCount + 1, t.failCount)
    else Tally(o.img, t.successCount, t.failCount + 1)
  }

  function Min(a: nat, b: nat): nat {
    if a < b then a else b
  }

  /** How `FileRestorer.main` ends: an early return, or the two counts and the size-mismatch warning. */
  datatype RestoreReport = NoLedger | NoFiles | Finished(successCount: nat, failCount: nat, countMismatch: bool)

  datatype RestoreRun = RestoreRun(report: RestoreReport, img: Option<Node>)

  /** `FileRestorer.main` on the IMG folder `img` and the ledger content `ledger`. */
  function RestoreMain(img: Option<Node>, ledger: Option<Str>): RestoreRun {
    var names := ParseLedger(ledger);
    if names == [] then RestoreRun(NoLedger, img)
    else
      var files := TopLevelFiles(img);
      if files == [] then RestoreRun(NoFiles, img)
      else
        var t := RestoreSteps(img, files, names, Min(|files|, |names|));
        RestoreRun(Finished(t.successCount, t.failCount, |files| != |names|), t.img)
  }

  /** `FileRestorer.main`, after the ledger and the IMG folder have been located. */
  method RunRestore(fs: FileSystem) returns (report: RestoreReport)
    modifies fs
    ensures RestoreRun(report, fs.img) == RestoreMain(old(fs.img), old(fs.oldNames))
    ensures fs.oldNames == old(fs.oldNames)
  {
    var originalFileNames := ReadOldFileNames(fs);
    if originalFileNames == [] {
      return NoLedger;
    }
    var currentFiles := ScanImgFolder(fs);
    if currentFiles == [] {
      return NoFiles;
    }
    var countMismatch := |currentFiles| != |originalFileNames|;
    ghost var img0 := fs.img;
    var successCount, failCount := RestorePairs(fs, currentFiles, originalFileNames);
    RestoreMainOf(img0, fs.oldNames, currentFiles, originalFileNames);
    report := Finished(successCount, failCount, countMismatch);
  }

  /** The loop of `main`: restore the i-th file to the i-th name while both lists last. */
  method RestorePairs(fs: FileSystem, currentFiles: seq<FileRef>, originalFileNames: seq<Str>)
    returns (successCount: nat, failCount: nat)
    modifies fs
    ensures Tally(fs.img, successCount, failCount) ==
      RestoreSteps(old(fs.img), currentFiles, originalFileNames, Min(|currentFiles|, |originalFileNames|))
    ensures fs.oldNames == old(fs.oldNames)
  {
    successCount, failCount := 0, 0;
    var i := 0;
    while i < |currentFiles| && i < |originalFileNames|
      invariant i <= Min(|currentFiles|, |originalFileNames|)
      invariant Tally(fs.img, successCount, failCount) == RestoreSteps(old(fs.img), currentFiles, originalFileNames, i)
      invariant fs.oldNames == old(fs.oldNames)
      decreases |currentFiles| - i
    {
      successCount, failCount := RestoreAndCount(fs, currentFiles[i], originalFileNames[i], successCount, failCount);
      i := i + 1;
    }
  }

  /** The body of the restore loop: restore one file and bump the matching counter. */
  method RestoreAndCount(fs: FileSystem, currentFile: FileRef, originalFileName: Str, successCount: nat, failCount: nat)
    returns (successCount': nat, failCount': nat)
    modifies fs
    ensures Tally(fs.img, successCount', failCount') ==
      RestoreTally(Tally(old(fs.img), successCount, failCount), currentFile, originalFileName)
    ensures fs.oldNames == old(fs.oldNames)
  {
    var ok := RestoreFileName(fs, currentFile, originalFileName);
    if ok {
      successCount', failCount' := successCount + 1, failCount;
    } else {
      successCount', failCount' := successCount, failCount + 1;
    }
  }

  /** `RestoreMain` once the ledger's names and the folder's files are known and both are non-empty. */
  lemma RestoreMainOf(img: Option<Node>, ledger: Option<Str>, files: seq<FileRef>, names: seq<Str>)
    requires ParseLedger(ledger) == names && TopLevelFiles(img) == files
    requires names != [] && files != []
    ensures var t := RestoreSteps(img, files, names, Min(|files|, |names|));
      RestoreMain(img, ledger) == RestoreRun(Finished(t.successCount, t.failCount, |files| != |names|), t.img)
  {
  }

  lemma {:induction false} RestoreStepsCount(img: Option<Node>, files: seq<FileRef>, names: seq<Str>, k: nat)
    requires k <= |files| && k <= |names|
    ensures var t := RestoreSteps(img, files, names, k); t.successCount + t.failCount == k
    decreases k
  {
    if k > 0 {
      RestoreStepsCount(img, files, names, k - 1);
    }
  }

  /**
   * An empty ledger or an empty folder ends the run before any rename;
   * otherwise every one of the min(files, names) pairs is counted exactly
   * once, and a size mismatch is only reported.
   */
  lemma RestoreMainCounts(img: Option<Node>, ledger: Option<Str>)
    ensures var r := RestoreMain(img, ledger);
      (r.report.NoLedger? <==> ParseLedger(ledger) == []) &&
      (r.report.NoFiles? <==> ParseLedger(ledger) != [] && TopLevelFiles(img) == []) &&
      (r.report.NoLedger? || r.report.NoFiles? ==> r.img == img) &&
      (r.report.Finished? ==>
        r.report.successCount + r.report.failCount == Min(|TopLevelFiles(img)|, |ParseLedger(ledger)|) &&
        (r.report.countMismatch <==> |TopLevelFiles(img)| != |ParseLedger(ledger)|))
  {
    var names := ParseLedger(ledger);
    var files := TopLevelFiles(img);
    if names != [] && files != [] {
      RestoreStepsCount(img, files, names, Min(|files|, |names|));
    }
  }

  /**
   * One iteration on a flat folder whose first `k` entries already carry
   * their target names: the (k+1)-th is renamed to its target.
   */
  lemma RestoreFlatStep(es: seq<Entry>, listable: bool, names: seq<Str>, k: nat)
    requires UniqueNames(es) && |names| == |es| && k < |es|
    requires forall i | 0 <= i < |names| :: ValidName(names[i])
    requires forall i, j | 0 <= i < j < |names| :: names[i] != names[j]
    requires forall i, j | 0 <= i < j < |es| :: es[j].name != names[i]
    ensures RestoreOutcome(Some(Dir(Relabel(es, names, k), listable)), FileRef([], es[k].name), names[k]) ==
      Outcome(Some(Dir(Relabel(es, names, k + 1), listable)), true)
  {
    var cur := Relabel(es, names, k);
    var next := Relabel(es, names, k + 1);
    if es[k].name == names[k] {
      assert next == cur;
    } else {
      assert [] + [names[k]] == [names[k]] && [] + [es[k].name] == [es[k].name];
      assert Find(cur, names[k]).None? by {
        forall i | 0 <= i < |cur|
          ensures cur[i].name != names[k]
        {
        }
      }
      assert UniqueNames(cur) by {
        forall i, j | 0 <= i < j < |cur|
          ensures cur[i].name != cur[j].name
        {
        }
      }
      FindUnique(cur, k);
      assert Lookup(Dir(cur, listable), [es[k].name]).Some? by {
        LookupThrough(Dir(cur, listable), es[k].name, []);
      }
      assert next == cur[k := Entry(names[k], cur[k].node)];
    }
  }

  lemma {:induction false} RestoreFlatSteps(es: seq<Entry>, listable: bool, names: seq<Str>, k: nat)
    requires UniqueNames(es) && |names| == |es| && k <= |es|
    requires forall i | 0 <= i < |names| :: ValidName(names[i])
    requires forall i, j | 0 <= i < j < |names| :: names[i] != names[j]
    requires forall i, j | 0 <= i < j < |es| :: es[j].name != names[i]
    ensures RestoreSteps(Some(Dir(es, listable)), EntryRefs(es, []), names, k) ==
      Tally(Some(Dir(Relabel(es, names, k), listable)), k, 0)
    decreases k
  {
    if k == 0 {
      assert Relabel(es, names, 0) == es;
    } else {
      var files := EntryRefs(es, []);
      RestoreFlatSteps(es, listable, names, k - 1);
      RestoreFlatStep(es, listable, names, k - 1);
      assert files[k - 1] == FileRef([], es[k - 1].name);
      var o := RestoreOutcome(Some(Dir(Relabel(es, names, k - 1), listable)), files[k - 1], names[k - 1]);
      assert o == Outcome(Some(Dir(Relabel(es, names, k), listable)), true);
    }
  }

  /**
   * Restoring a flat folder of regular files from a ledger that lists one
   * valid, distinct, trimmed name per entry, where no entry still carries
   * a name the ledger gives an earlier entry: every file gets its ledger
   * name back, in place, with no failure and no mismatch.
   */
  lemma RestoreFlatFolder(es: seq<Entry>, names: seq<Str>)
    requires es != [] && UniqueNames(es) && |names| == |es|
    requires forall i | 0 <= i < |es| :: es[i].node.File?
    requires forall i | 0 <= i < |names| :: ValidName(names[i]) && IsTrimmed(names[i])
    requires forall i, j | 0 <= i < j < |names| :: names[i] != names[j]
    requires forall i, j | 0 <= i < j < |es| :: es[j].name != names[i]
    ensures RestoreMain(Some(Dir(es, true)), Some(Join(names, SLASH))) ==
      RestoreRun(Finished(|es|, 0, false), Some(Dir(Relabel(es, names, |es|), true)))
  {
    var img := Some(Dir(es, true));
    var ledger := Some(Join(names, SLASH));
    LedgerRoundTrip(names);
    TopFilesAllFiles(es);
    RestoreMainOf(img, ledger, EntryRefs(es, []), names);
    RestoreFlatSteps(es, true, names, |es|);
  }
}
