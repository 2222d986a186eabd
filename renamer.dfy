/**
 * FileRenamer: the ledger writer and the OCR-driven rename.
 */
module FileRenamer {
  import opened JavaText
  import opened FileTree

  function NotReserved(c: CodeUnit): bool {
    !IsReservedChar(c)
  }

  /** `replaceAll("[<>:\"/\\\\|?*]", "")`. */
  function CleanInvalidChars(text: Str): (r: Str)
    ensures forall i | 0 <= i < |r| :: !IsReservedChar(r[i])
    ensures IsSubsequence(r, text)
  {
    Filter(text, NotReserved)
  }

  /** Exactly the nine reserved characters go; every other code unit stays, as often as it occurs. */
  lemma CleanInvalidCharsExact(text: Str, c: CodeUnit)
    ensures multiset(CleanInvalidChars(text))[c] == if IsReservedChar(c) then 0 else multiset(text)[c]
  {
    FilterExact(text, NotReserved, c);
  }

  /** Cleaning is the identity on text free of reserved characters, so it is idempotent. */
  lemma CleanInvalidCharsIdentity(text: Str)
    requires forall i | 0 <= i < |text| :: !IsReservedChar(text[i])
    ensures CleanInvalidChars(text) == text
  {
  }

  lemma CleanInvalidCharsIdempotent(text: Str)
    ensures CleanInvalidChars(CleanInvalidChars(text)) == CleanInvalidChars(text)
  {
    CleanInvalidCharsIdentity(CleanInvalidChars(text));
  }

  /**
   * The extension kept by a rename: from the last "." to the end, when that
   * dot is not the first code unit; otherwise nothing.
   */
  function Extension(name: Str): (ext: Str)
    ensures ext == [] <==> forall i | 0 < i < |name| :: name[i] != DOT
    ensures ext != [] ==>
      |ext| < |name| && ext == name[|name| - |ext|..] && ext[0] == DOT && DOT !in ext[1..]
  {
    var k := LastIndexOf(name, DOT);
    if k > 0 then name[k..] else []
  }

  /**
   * A name keeps the suffix from its last dot; a leading dot or no dot
   * gives no extension: "cat.png" keeps ".png", "a.b.jpeg" keeps ".jpeg",
   * ".png" and "noext" keep nothing (the names written as code units).
   */
  lemma ExtensionExamples()
    ensures Extension([0x63, 0x61, 0x74, DOT, 0x70, 0x6E, 0x67]) == [DOT, 0x70, 0x6E, 0x67]
    ensures Extension([0x61, DOT, 0x62, DOT, 0x6A, 0x70, 0x65, 0x67]) == [DOT, 0x6A, 0x70, 0x65, 0x67]
    ensures Extension([DOT, 0x70, 0x6E, 0x67]) == []
    ensures Extension([0x6E, 0x6F, 0x65, 0x78, 0x74]) == []
  {
    var s: Str := [0x61, DOT, 0x62, DOT, 0x6A, 0x70, 0x65, 0x67];
    assert LastIndexOf(s, DOT) == 3 by {
      assert s[3] == DOT && s[4] != DOT && s[5] != DOT && s[6] != DOT && s[7] != DOT;
    }
    var t: Str := [0x63, 0x61, 0x74, DOT, 0x70, 0x6E, 0x67];
    assert LastIndexOf(t, DOT) == 3 by {
      assert t[3] == DOT && t[4] != DOT && t[5] != DOT && t[6] != DOT;
    }
  }

  /** The name a rename proposes: the cleaned text followed by the extension, if any text is left. */
  function TargetName(fileName: Str, recognizedText: Str): (r: Option<Str>)
    ensures r.Some? <==> CleanInvalidChars(recognizedText) != []
    ensures r.Some? ==> r.value == CleanInvalidChars(recognizedText) + Extension(fileName)
  {
    if recognizedText == [] then None
    else
      var cleanedText := CleanInvalidChars(recognizedText);
      if cleanedText == [] then None else Some(cleanedText + Extension(fileName))
  }

  /** The state of the IMG folder after a rename or restore, and what the call returned. */
  datatype Outcome = Outcome(img: Option<Node>, ok: bool)

  /** `renameFileWithOCRResult(imageFile, recognizedText)` on the state `img`. */
  function RenameWithOcrResult(img: Option<Node>, file: FileRef, recognizedText: Str): Outcome {
    match TargetName(file.name, recognizedText)
    case None => Outcome(img, false)
    case Some(newFileName) =>
      if NameTaken(img, file.parent, newFileName) && newFileName != file.name then Outcome(img, false)
      else if !Exists(img, file) then Outcome(img, false)
      else if newFileName == file.name then Outcome(img, true)
      else Outcome(Move(img, file, newFileName), true)
  }

  /** A rename that fails leaves the IMG folder as it was. */
  lemma RenameFailureChangesNothing(img: Option<Node>, file: FileRef, recognizedText: Str)
    requires !RenameWithOcrResult(img, file, recognizedText).ok
    ensures RenameWithOcrResult(img, file, recognizedText).img == img
  {
  }

  /**
   * The rename succeeds exactly when text survives cleaning, the file
   * exists, and the target name is its own or free.
   */
  lemma RenameSucceedsWhen(img: Option<Node>, file: FileRef, recognizedText: Str)
    ensures RenameWithOcrResult(img, file, recognizedText).ok <==>
      CleanInvalidChars(recognizedText) != [] && Exists(img, file) &&
      var target := CleanInvalidChars(recognizedText) + Extension(file.name);
      (target == file.name || !NameTaken(img, file.parent, target))
  {
  }

  /**
   * A successful rename to a new name: the target name now holds the file
   * the source name held, the source name holds nothing, every other path
   * names the same regular file as before, and the tree stays well formed.
   */
  lemma RenameMovesOneBinding(img: Option<Node>, file: FileRef, recognizedText: Str, q: Path)
    requires img.Some? && WellFormed(img.value)
    requires RenameWithOcrResult(img, file, recognizedText).ok
    requires TargetName(file.name, recognizedText).value != file.name
    ensures var o := RenameWithOcrResult(img, file, recognizedText);
      var target := TargetName(file.name, recognizedText).value;
      var d := file.parent;
      o.img.Some? &&
      FileAt(o.img.value, q) ==
        (if |q| > |d| && q[..|d| + 1] == d + [target] then FileAt(img.value, d + [file.name] + q[|d| + 1..])
         else if |q| > |d| && q[..|d| + 1] == d + [file.name] then None
         else FileAt(img.value, q))
  {
    var target := TargetName(file.name, recognizedText).value;
    RenameAtFiles(img.value, file.parent, file.name, target, q);
  }

  /** The new name is legal for a directory entry, so a successful rename keeps the tree well formed. */
  lemma RenameKeepsWellFormed(img: Option<Node>, file: FileRef, recognizedText: Str)
    requires img.Some? && WellFormed(img.value)
    requires RenameWithOcrResult(img, file, recognizedText).ok
    ensures var o := RenameWithOcrResult(img, file, recognizedText);
      o.img.Some? && WellFormed(o.img.value)
  {
    var target := TargetName(file.name, recognizedText).value;
    if target != file.name {
      LookupNameValid(img.value, file.parent, file.name);
      var cleaned := CleanInvalidChars(recognizedText);
      var ext := Extension(file.name);
      assert IsReservedChar(SLASH);
      assert SLASH !in cleaned;
      assert SLASH !in ext by {
        if ext != [] {
          assert forall c | c in ext :: c in file.name;
        }
      }
      assert SLASH !in target;
      LookupParent(img.value, file.parent, file.name);
      assert !IsDotName(target);
      RenameAtWellFormed(img.value, file.parent, file.name, target);
    }
  }

  /**
   * In a top-level listing with distinct names, a rename whose target is
   * neither "." nor ".." and is the file's own name or a name no other
   * entry holds succeeds and renames that entry in place.
   */
  lemma RenameInListing(es: seq<Entry>, k: nat, recognizedText: Str)
    requires UniqueNames(es) && k < |es|
    requires TargetName(es[k].name, recognizedText).Some?
    requires var target := TargetName(es[k].name, recognizedText).value;
      !IsDotName(target) && forall i | 0 <= i < |es| && i != k :: es[i].name != target
    ensures var target := TargetName(es[k].name, recognizedText).value;
      RenameWithOcrResult(Some(Dir(es, true)), FileRef([], es[k].name), recognizedText) ==
        Outcome(Some(Dir(es[k := Entry(target, es[k].node)], true)), true)
  {
    var target := TargetName(es[k].name, recognizedText).value;
    if target == es[k].name {
      FindUnique(es, k);
      assert PathOf(FileRef([], es[k].name)) == [es[k].name] + [];
      LookupThrough(Dir(es, true), es[k].name, []);
      assert es[k := Entry(target, es[k].node)] == es;
    } else {
      TopMove(es, true, k, target);
    }
  }

  /**
   * `renameFileWithOCRResult`: rename the file to the cleaned recognized
   * text plus its extension, in the same directory, unless nothing is left
   * of the text or the name belongs to another file.
   */
  method RenameFileWithOcrResult(fs: FileSystem, imageFile: FileRef, recognizedText: Str) returns (ok: bool)
    modifies fs
    ensures Outcome(fs.img, ok) == RenameWithOcrResult(old(fs.img), imageFile, recognizedText)
    ensures fs.oldNames == old(fs.oldNames)
  {
    if recognizedText == [] {
      return false;
    }
    var fileName := imageFile.name;
    var lastDotIndex := LastIndexOf(fileName, DOT);
    var fileExtension := if lastDotIndex > 0 then fileName[lastDotIndex..] else [];
    var cleanedText := CleanInvalidChars(recognizedText);
    if cleanedText == [] {
      return false;
    }
    var newFileName := cleanedText + fileExtension;
    if NameTaken(fs.img, imageFile.parent, newFileName) && newFileName != fileName {
      return false;
    }
    if !Exists(fs.img, imageFile) {
      return false;
    }
    if newFileName != fileName {
      fs.img := Move(fs.img, imageFile, newFileName);
    }
    ok := true;
  }

  function Names(files: seq<FileRef>): (names: seq<Str>)
    ensures |names| == |files|
    ensures forall i | 0 <= i < |files| :: names[i] == files[i].name
  {
    seq(|files|, i requires 0 <= i < |files| => files[i].name)
  }

  /** What OldNames.txt holds after a successful `recordOldFileNames`. */
  function LedgerContent(files: seq<FileRef>): Str {
    Join(Names(files), SLASH)
  }

  /**
   * `recordOldFileNames`: replace OldNames.txt by the names of the files,
   * in list order, joined by "/". `writeFails` stands for the IOException
   * of opening or writing the file; the old ledger was deleted before.
   */
  method RecordOldFileNames(fs: FileSystem, imageFiles: seq<FileRef>, writeFails: bool) returns (ok: bool)
    modifies fs
    ensures ok == !writeFails
    ensures fs.oldNames == if ok then Some(LedgerContent(imageFiles)) else None
    ensures fs.img == old(fs.img)
  {
    fs.oldNames := None;
    if writeFails {
      return false;
    }
    var fileNames: seq<Str> := [];
    for i := 0 to |imageFiles|
      invariant fileNames == Names(imageFiles[..i])
    {
      fileNames := fileNames + [imageFiles[i].name];
    }
    assert imageFiles[..|imageFiles|] == imageFiles;
    var content := Join(fileNames, SLASH);
    fs.oldNames := Some(content);
    ok := true;
  }
}
