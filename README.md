# Memes Renamer OCR — a verified model of the reversible rename pipeline

Memes Renamer OCR renames the meme images in a project's `IMG` folder and can undo
that. A forward run (`Main`) does four things in order:

- it walks `IMG` for supported images (`ImageScanner`);
- it records their names, in scan order and joined by `/`, in the ledger `OldNames.txt`;
- it reads each image's text with OCR (`OCRService`);
- it renames each image whose text is accepted, using the cleaned text plus the
  file's extension (`FileRenamer`).

A restore run (`FileRestorer`) reads the ledger back and lists the regular files
directly in `IMG`. It then renames the i-th listed file to the i-th recorded name.

The model makes these modelling choices:
- Java strings are sequences of UTF-16 code units.
- The file system is a tree of directories. Each directory lists its named entries in
  listing order, and a rename keeps an entry's place in the listing.
- Along with the tree, the model tracks the ledger's content.
- The OCR engine is a function from a file's contents to `Option<text>`. `None`
  stands for any exception it throws.
- `Character.isLetter` and `Character.isDigit` are function-valued parameters.
  `UnicodeConsistent` states the one fact about them the proofs need: no code unit at
  or below U+0020 (white space and the C0 controls), no `\s` unit, surrogate half, `.`
  or reserved character is a letter or a digit. DEL and the C1 controls are not
  among them; no proof needs them.

Modules:

| file | module | models |
|---|---|---|
| `text.dfy` | `JavaText` | the `java.lang.String` operations used: `\s` removal, `trim`, ASCII `toLowerCase`, `endsWith`, `lastIndexOf`, `split`, `String.join` |
| `filetree.dfy` | `FileTree` | the directory tree, `File.exists`, the same-directory `renameTo`, the `FileSystem` state (IMG tree and ledger) |
| `ocr.dfy` | `OcrService` | `OCRService`: normalization, the confidence filter, `isChinese`, `isSupportedFormat`, the accept decision, the threshold |
| `renamer.dfy` | `FileRenamer` | `FileRenamer`: `cleanInvalidChars`, the extension, `renameFileWithOCRResult`, `recordOldFileNames` |
| `scanner.dfy` | `ImageScanner` | `ImageScanner`: `scanImages`, `scanImagesRecursive`, `isSupportedFormat` |
| `restorer.dfy` | `FileRestorer` | `FileRestorer`: `readOldFileNames`, `scanIMGFolder`, `restoreFileName`, the restore loop of `main` |
| `pipeline.dfy` | `RenamePipeline` | `Main.main`: scan, record, recognize and rename; and the round trip with `FileRestorer.main` |

Each imperative Java method is a Dafny `method`, and each loop is a `while` or `for`
loop. Each method is proved against a specification function, and the lemmas are
proved about those functions.

The code and its comments disagree on the default confidence threshold. The comments
at `OCRService.java:14` and `OCRService.java:200` say 50, but the field is
initialised to 90 (`OCRService.java:15`). The model follows the code: the
`Recognizer` constructor sets 90.

## Model

| member | source | states |
|---|---|---|
| JavaText.Filter | src/main/java/LDS/Person/OCRService.java:136-151 | keeping the code units that satisfy a test: the result is no longer than the input, every kept unit passes, it is a subsequence of the input, and the input comes back unchanged when every unit passes |
| JavaText.FilterExact | src/main/java/LDS/Person/OCRService.java:142-148 | each code unit occurs in the filtered text exactly as often as in the input if it passes the test, and not at all otherwise |
| JavaText.FilterSnoc | src/main/java/LDS/Person/OCRService.java:142-148 | appending one code unit to the input appends it to the filtered text exactly when it passes the test (the loop step of the builder) |
| JavaText.FilterIdempotent | src/main/java/LDS/Person/OCRService.java:142-148 | filtering twice equals filtering once |
| JavaText.Trim | src/main/java/LDS/Person/OCRService.java:125 | `trim()`: the result has no leading or trailing unit at or below U+0020, is a subsequence of the input, leaves trimmed input alone, and is empty exactly when every unit is at or below U+0020 |
| JavaText.TrimSlice | src/main/java/LDS/Person/OCRService.java:125 | the trimmed string is the contiguous slice of the input that starts after its leading units at or below U+0020, and only such units follow it |
| JavaText.TrimKeepsOthers | src/main/java/LDS/Person/OCRService.java:125 | trimming keeps every unit above U+0020, as often as it occurs in the input |
| JavaText.ToLowerCase | src/main/java/LDS/Person/OCRService.java:178 | lower-casing keeps the length, leaves no ASCII upper-case letter, keeps every unit outside A–Z, and maps A–Z to a–z |
| JavaText.LastIndexOf | src/main/java/LDS/Person/FileRenamer.java:84 | `lastIndexOf`: -1 or an index holding the unit, with no later index holding it |
| JavaText.SplitJoin | src/main/java/LDS/Person/FileRestorer.java:132 | splitting on `/` undoes `String.join("/", names)` when no name holds `/` |
| JavaText.JoinSplit | src/main/java/LDS/Person/FileRestorer.java:132 | joining the pieces of a split with the separator gives back the original text |
| FileTree.RenameAtWellFormed | src/main/java/LDS/Person/FileRenamer.java:109 | a same-directory rename of an existing entry to a free, legal name keeps every directory's names legal and pairwise distinct |
| FileTree.RenameAtFiles | src/main/java/LDS/Person/FileRenamer.java:109 | after renaming `d/from` to a free `d/to`, a path below `d/to` names what the same path below `d/from` named, nothing remains below `d/from`, and every other path names the same file as before |
| FileTree.TopMove | src/main/java/LDS/Person/FileRenamer.java:109 | in a top-level listing with distinct names, moving an entry to a name no entry holds renames that entry in place and leaves the rest of the listing as it was |
| OcrService.IsChineseInBmp | src/main/java/LDS/Person/OCRService.java:159-169 | of the eight CJK blocks only Extension A, the Unified Ideographs and the Compatibility Ideographs can hold a single `char` |
| OcrService.NormalizeText | src/main/java/LDS/Person/OCRService.java:120-126 | empty input gives empty output; the result holds no `\s` unit, has no leading or trailing unit at or below U+0020, and is a subsequence of the input |
| OcrService.NormalizeTextKeepsOthers | src/main/java/LDS/Person/OCRService.java:120-126 | normalizing keeps every unit above U+0020: each occurs in the result exactly as often as in the input |
| OcrService.NormalizeTextIdempotent | src/main/java/LDS/Person/OCRService.java:125 | normalizing twice equals normalizing once |
| OcrService.FilterLowConfidenceChars | src/main/java/LDS/Person/OCRService.java:136-151 | the builder loop returns exactly the confidence filter of the input: in order, the units that are Chinese, letters or digits |
| OcrService.FilterLowConfidenceExact | src/main/java/LDS/Person/OCRService.java:144 | a unit occurs in the filtered text exactly as often as in the input if it is Chinese, a letter or a digit, and not at all otherwise |
| OcrService.FilterLowConfidenceIdempotent | src/main/java/LDS/Person/OCRService.java:142-148 | filtering twice equals filtering once |
| OcrService.FilteredTextSafe | src/main/java/LDS/Person/OCRService.java:142-148 | with consistent Unicode lookups, filtered text holds no reserved file-name character, no white space, no unit `trim` strips, and no `.` |
| OcrService.RatioBelow | src/main/java/LDS/Person/OCRService.java:78-81 | `kept / total * 100 < threshold` holds exactly when `100 * kept >= threshold * total` fails |
| OcrService.AssessAcceptsWhen | src/main/java/LDS/Person/OCRService.java:58-92 | the OCR text is accepted exactly when the normalized text is non-empty, the filtered text is non-empty and `100 * filtered >= threshold * normalized`; what is accepted is then the filtered text |
| OcrService.AssessAcceptsFullyConfident | src/main/java/LDS/Person/OCRService.java:58-92 | at a threshold of at most 100, non-empty normalized text made only of Chinese characters, letters and digits is accepted whole |
| OcrService.ThresholdBoundary | src/main/java/LDS/Person/OCRService.java:81 | in exact arithmetic, a ratio exactly equal to the threshold is accepted, and one below it is rejected as low confidence; Java's `double` ratio can fall just short of an equal threshold (see "## Left out") |
| OcrService.RecognizedTextWhen | src/main/java/LDS/Person/OCRService.java:41-111 | `recognizeText` returns non-empty text exactly when the file exists, has a supported extension, is a regular file the engine reads, and its text passes the three tests; the result is then the filtered text |
| OcrService.RecognizeFailuresGiveEmpty | src/main/java/LDS/Person/OCRService.java:44-53 | a missing file, an unsupported extension, a directory or an engine exception gives "" |
| OcrService.RecognizedTextSafe | src/main/java/LDS/Person/OCRService.java:92 | with consistent Unicode lookups, returned text holds no reserved character, no unit `trim` strips, and no `.` |
| OcrService.RecognizedTextLocal | src/main/java/LDS/Person/OCRService.java:43-55 | the result depends only on what the file's path names in the folder |
| OcrService.Recognizer.SetConfidenceThreshold | src/main/java/LDS/Person/OCRService.java:205-221 | a value outside [0, 100] leaves the threshold, as the getter reports it, unchanged; any other value replaces it; a valid threshold stays valid |
| OcrService.Recognizer.AcceptText | src/main/java/LDS/Person/OCRService.java:58-92 | the three tests on the engine's text return the filtered text when it is accepted at the current threshold, and "" otherwise; while the threshold is a valid percentage, fully confident text is returned whole |
| OcrService.Recognizer.RecognizeText | src/main/java/LDS/Person/OCRService.java:41-111 | the method's early returns and final return compute exactly the recognized text for the current threshold |
| FileRenamer.CleanInvalidChars | src/main/java/LDS/Person/FileRenamer.java:135-141 | the cleaned text holds none of `< > : " / \ \| ? *` and is a subsequence of the input |
| FileRenamer.CleanInvalidCharsExact | src/main/java/LDS/Person/FileRenamer.java:140 | the nine reserved characters are removed, and every other unit stays as often as it occurs |
| FileRenamer.CleanInvalidCharsIdentity | src/main/java/LDS/Person/FileRenamer.java:140 | cleaning text free of the nine characters changes nothing |
| FileRenamer.CleanInvalidCharsIdempotent | src/main/java/LDS/Person/FileRenamer.java:140 | cleaning twice equals cleaning once |
| FileRenamer.Extension | src/main/java/LDS/Person/FileRenamer.java:84-85 | the extension is empty exactly when no `.` follows the first unit; otherwise it is a proper suffix that starts at the last `.` |
| FileRenamer.ExtensionExamples | src/main/java/LDS/Person/FileRenamer.java:84-85 | `cat.png` keeps `.png`, `a.b.jpeg` keeps `.jpeg`, and `.png` and `noext` keep nothing |
| FileRenamer.TargetName | src/main/java/LDS/Person/FileRenamer.java:76-96 | a new name is proposed exactly when the cleaned text is non-empty, and it is the cleaned text followed by the extension |
| FileRenamer.RenameFailureChangesNothing | src/main/java/LDS/Person/FileRenamer.java:76-106 | a rename that returns false leaves the folder untouched |
| FileRenamer.RenameSucceedsWhen | src/main/java/LDS/Person/FileRenamer.java:75-126 | the rename succeeds exactly when the cleaned text is non-empty, the file exists, and the target `cleaned + extension` is its own name or free in its parent |
| FileRenamer.RenameMovesOneBinding | src/main/java/LDS/Person/FileRenamer.java:96-116 | after a successful rename to a new name, the target names what the source named, the source names nothing, and every other path names the same regular file as before |
| FileRenamer.RenameKeepsWellFormed | src/main/java/LDS/Person/FileRenamer.java:96-116 | a successful rename keeps the tree's names legal and pairwise distinct |
| FileRenamer.RenameInListing | src/main/java/LDS/Person/FileRenamer.java:75-126 | in a top-level listing with distinct names, a rename whose target is legal and held by no other entry succeeds and renames that entry in place |
| FileRenamer.RenameFileWithOcrResult | src/main/java/LDS/Person/FileRenamer.java:75-126 | the method's new folder and return value are those of the rename specification, and the ledger is untouched |
| FileRenamer.RecordOldFileNames | src/main/java/LDS/Person/FileRenamer.java:28-65 | the old ledger is replaced by the names joined by `/`, in list order, or is gone when the write throws; the result reports which; the IMG folder is untouched |
| ImageScanner.IsSupportedFormat | src/main/java/LDS/Person/ImageScanner.java:60-68 | the early-return loop answers true exactly when the lower-cased name ends with one of `.png .jpg .jpeg .bmp .tiff .gif` |
| ImageScanner.SupportedCases | src/main/java/LDS/Person/ImageScanner.java:60-68 | a name is supported exactly when its lower-cased form ends with one of the six extensions |
| ImageScanner.ScanImagesRecursive | src/main/java/LDS/Person/ImageScanner.java:39-52 | the caller's list comes back with the directory's images appended, depth first in listing order |
| ImageScanner.ScanImages | src/main/java/LDS/Person/ImageScanner.java:20-31 | a missing folder or one that is not a directory gives no images; otherwise the result is its recursive scan |
| ImageScanner.SupportedAgreesWithOcr | src/main/java/LDS/Person/ImageScanner.java:60-68 | the scanner's test on a name agrees with `OCRService.isSupportedFormat` on the file's absolute path |
| ImageScanner.ImagesSound | src/main/java/LDS/Person/ImageScanner.java:45-50 | everything the walk returns is a supported regular file reachable through listed directories |
| ImageScanner.ImagesComplete | src/main/java/LDS/Person/ImageScanner.java:45-50 | every supported regular file reachable through listed directories is returned |
| ImageScanner.ScanFindsExactly | src/main/java/LDS/Person/ImageScanner.java:20-52 | a file is in the scan of the IMG folder exactly when it is a supported regular file reachable through listed directories |
| ImageScanner.ScanFlatFolder | src/main/java/LDS/Person/ImageScanner.java:45-50 | on a listed folder holding only supported regular files, the walk returns every entry in listing order |
| FileRestorer.KeepNames | src/main/java/LDS/Person/FileRestorer.java:133-138 | the kept pieces are non-empty and trimmed, and at most as many as the pieces |
| FileRestorer.KeepNamesMembers | src/main/java/LDS/Person/FileRestorer.java:133-138 | a name is kept exactly when it is non-empty and some piece trims to it |
| FileRestorer.KeepNamesSlashFree | src/main/java/LDS/Person/FileRestorer.java:133-138 | names kept from pieces free of `/` are free of `/` |
| FileRestorer.ParseLedger | src/main/java/LDS/Person/FileRestorer.java:113-146 | a missing or blank ledger gives no names; every name is non-empty, trimmed and free of `/` |
| FileRestorer.ReadOldFileNames | src/main/java/LDS/Person/FileRestorer.java:113-146 | the parsing loop returns exactly the parsed ledger |
| FileRestorer.TrimmedNames | src/main/java/LDS/Person/FileRestorer.java:133-138 | the loop over the pieces returns exactly the kept names |
| FileRestorer.LedgerRoundTrip | src/main/java/LDS/Person/FileRestorer.java:131-138 | parsing the `/`-join of non-empty, trimmed names free of `/` gives back exactly those names, in order |
| FileRestorer.ScanImgFolder | src/main/java/LDS/Person/FileRestorer.java:154-173 | the listing loop returns exactly the folder's top-level regular files |
| FileRestorer.TopLevelFilesExactly | src/main/java/LDS/Person/FileRestorer.java:154-173 | a file is listed exactly when the folder is a listed directory and the file is a regular file directly in it, with no recursion and no extension filter |
| FileRestorer.TopFilesAllFiles | src/main/java/LDS/Person/FileRestorer.java:163-170 | on a folder of regular files the scan returns every entry in listing order |
| FileRestorer.RestoreSucceedsWhen | src/main/java/LDS/Person/FileRestorer.java:182-212 | the restore succeeds exactly when the name is already right, or the file exists and the name is free; a name that is already right changes nothing, and a failure changes nothing |
| FileRestorer.RestoreMovesOneBinding | src/main/java/LDS/Person/FileRestorer.java:194-205 | after a successful restore to a new name, the original name names what the current name named, the current name names nothing, and every other path names the same regular file as before |
| FileRestorer.RestoreKeepsWellFormed | src/main/java/LDS/Person/FileRestorer.java:194-205 | a restore to a non-empty name free of `/` keeps the tree's names legal and pairwise distinct |
| FileRestorer.RestoreFileName | src/main/java/LDS/Person/FileRestorer.java:182-212 | the method's new folder and return value are those of the restore specification, and the ledger is untouched |
| FileRestorer.RestoreStepsCount | src/main/java/LDS/Person/FileRestorer.java:80-96 | after k iterations the success and failure counts add up to k |
| FileRestorer.RestoreMainCounts | src/main/java/LDS/Person/FileRestorer.java:35-96 | an empty ledger or empty folder ends the run with the folder untouched; otherwise the counts add up to the smaller of the two sizes, and a mismatch is only reported |
| FileRestorer.RunRestore | src/main/java/LDS/Person/FileRestorer.java:20-105 | the counting loop yields exactly the report and folder of the restore specification, and the ledger is untouched |
| FileRestorer.RestorePairs | src/main/java/LDS/Person/FileRestorer.java:80-96 | the loop restores the i-th file to the i-th name while both lists last, and its counts and folder are those of that many restore steps |
| FileRestorer.RestoreAndCount | src/main/java/LDS/Person/FileRestorer.java:88-94 | one iteration restores the file and adds one to the success count or to the failure count, as the restore specification says |
| FileRestorer.RestoreFlatFolder | src/main/java/LDS/Person/FileRestorer.java:80-96 | on a flat folder with one distinct, legal, trimmed ledger name per file, and no file still holding a name meant for an earlier one, every file gets its name back in place, with no failure and no mismatch |
| RenamePipeline.RunRenamer | src/main/java/LDS/Person/Main.java:11-84 | the forward loop yields exactly the report, folder and ledger of the forward specification for the recognizer's current threshold |
| RenamePipeline.VisitImage | src/main/java/LDS/Person/Main.java:52-75 | one iteration recognizes the file on the current folder and renames it only when the text is non-empty |
| RenamePipeline.ForwardPrefix | src/main/java/LDS/Person/Main.java:51 | the visits of a shorter run are a prefix of those of a longer one |
| RenamePipeline.ForwardVisitsInOrder | src/main/java/LDS/Person/Main.java:51-77 | the i-th visit is of the i-th scanned file, on the folder as the earlier iterations left it, whatever they returned; a rename is tried exactly when its text is non-empty |
| RenamePipeline.RenamerMainShape | src/main/java/LDS/Person/Main.java:32-77 | an empty scan stops before the ledger or any file is touched; otherwise the ledger holds the scanned names joined by `/` (or none when its write throws), there is one visit per scanned file, and a failed write changes neither the visits nor the folder |
| RenamePipeline.RecognizedTextNeedsNoCleaning | src/main/java/LDS/Person/Main.java:61-74 | recognized text is already free of reserved characters, so cleaning leaves it unchanged and the proposed name is the text followed by the extension |
| RenamePipeline.ForwardFlatSteps | src/main/java/LDS/Person/Main.java:51-77 | on a flat folder whose new names are distinct and clash with no other original name, the loop renames every entry in place to its new name, one visit per entry, and no rename fails |
| RenamePipeline.ForwardFlatFolder | src/main/java/LDS/Person/Main.java:32-77 | on such a folder of supported images the forward run records the listing in the ledger, renames every entry to its new name and fails no rename |
| RenamePipeline.RestoreRenamedFolder | src/main/java/LDS/Person/FileRestorer.java:20-105 | restoring the renamed flat folder from the ledger the forward run wrote gives every file its original name, with no failure and no mismatch |
| RenamePipeline.RoundTrip | src/main/java/LDS/Person/Main.java:32-77 | on a flat folder of supported images with trimmed names and new names that are distinct and clash with no other original name: the forward run renames every recognized image, fails no rename, and the restore run that follows fails nothing, reports no mismatch and gives back the original folder exactly |

## Left out

- Tesseract is left out: the static initializer with its `tessdata` lookup, `setLanguage` and `doOCR`. These are calls into a foreign library. The engine is a parameter that maps a regular file's contents to some text or to `None`.
- The classification of exception messages in `recognizeText` is left out. It only chooses console text, and every exception gives "".
- Console output, timing and file sizes are left out, along with the unused `getOldNamesContent` and `scanProjectRootImages`.
- `OcrConfig` is not part of this model; `Main` never reads it.
- OcrService.Assess: the ratio and the threshold are `double` in Java; the model compares exact reals, so floating-point rounding near the threshold and a NaN threshold are not modelled.
- OcrService.ThresholdBoundary: holds in exact arithmetic only. In Java, `(double) kept / total * 100` can round below an equal threshold: 29 kept of 100 gives 28.999999999999996, which is rejected at threshold 29, and thresholds 57 (57 of 100) and 58 (29 of 50) behave the same way.
- OcrService.Recognizer.SetConfidenceThreshold: the threshold is an exact real, so a NaN argument, which passes Java's `< 0 || > 100` guard and is stored, is not modelled; after it Java's percentage test never rejects, since every comparison with NaN is false.
- OcrService.CharClasses: `Character.isLetter`, `Character.isDigit` and the Unicode database are parameters, and `UnicodeConsistent` states what the proofs assume of them.
- JavaText.ToLowerCase: only A–Z are lowered, and the default locale is taken not to be Turkish or Azerbaijani. Under those locales `toLowerCase()` maps `I` to U+0131 (dotless i), so Java would reject "A.GIF" and "B.TIFF", which the model accepts. Locale-sensitive lowering of non-ASCII characters is not modelled; it can never produce the ASCII extensions tested for.
- JavaText.Split: the model keeps Java's trailing empty pieces. Every caller drops empty pieces, so the results agree.
- FileRenamer.RenameFileWithOcrResult: when the target name is free, `renameTo` is assumed to succeed. Platform refusals, case-insensitive file systems, symbolic links and special files are not modelled. Same-directory paths are equal exactly when the names are.
- FileRestorer.RestoreFileName: `renameTo` is assumed to succeed in the same way.
- FileRenamer.RecordOldFileNames: a ledger that cannot be deleted and is then also not rewritten is modelled as absent. So is a ledger that `FileWriter` has already opened (and so emptied) when `write` or `flush` throws (`FileRenamer.java:42-51`): Java then leaves an empty or truncated `OldNames.txt`. An empty ledger makes a restore rename nothing, as an absent one does; a truncated one would restore the names it still holds, which the model does not capture. The UTF-8 encoding of the ledger is not modelled, so a name with an unpaired surrogate half would not survive the round trip in Java.
- FileRestorer.ReadOldFileNames: an `IOException` while reading an existing ledger is not modelled.
- ImageScanner.ScanImagesRecursive: the caller's `ArrayList` is passed in and returned as a value rather than mutated in place. The callers see no difference, because the list is not aliased. The folder is a finite tree, so symbolic links are not modelled: `isDirectory()` follows a link to a directory, and a link to an ancestor makes the Java recursion go on until the stack overflows.
- RenamePipeline.RoundTrip: the two runs see the same listing order because a rename keeps an entry's place. A file system that reorders listings after a rename is not modelled.
