/**
 * OCRService: what becomes of the text the OCR engine reads from an image
 * before a rename may use it, and the confidence threshold that decides it.
 */
module OcrService {
  import opened JavaText
  import opened FileTree

  // ---------------------------------------------------------------------
  // Character classes

  /**
   * `Character.isLetter(char)` and `Character.isDigit(char)`, which consult
   * the Unicode character database; the model takes them as parameters.
   */
  datatype CharClasses = CharClasses(isLetter: CodeUnit -> bool, isDigit: CodeUnit -> bool)

  predicate IsSurrogate(c: CodeUnit) {
    0xD800 <= c <= 0xDFFF
  }

  /**
   * What the Unicode database guarantees of those two lookups and the model
   * relies on: no code unit at or below U+0020 (white space and the C0
   * controls), no `\s` unit, surrogate half, "." or file-name-reserved
   * character is a letter or a digit. DEL and the C1 controls are not
   * among them: nothing here needs them.
   */
  predicate UnicodeConsistent(cc: CharClasses) {
    forall c: CodeUnit | IsTrimChar(c) || IsRegexSpace(c) || IsReservedChar(c) || IsSurrogate(c) || c == DOT ::
      !cc.isLetter(c) && !cc.isDigit(c)
  }

  /**
   * The eight blocks `isChinese` accepts, as code point ranges: CJK Unified
   * Ideographs, Extensions A to F, and CJK Compatibility Ideographs.
   */
  const CJK_BLOCKS: seq<(int, int)> := [
    (0x4E00, 0x9FFF), (0x3400, 0x4DBF), (0x20000, 0x2A6DF), (0x2A700, 0x2B73F),
    (0x2B740, 0x2B81F), (0x2B820, 0x2CEAF), (0x2CEB0, 0x2EBEF), (0xF900, 0xFAFF)]

  /** `isChinese(char)`: `UnicodeBlock.of(c)` is one of the eight CJK blocks. */
  predicate IsChinese(c: CodeUnit) {
    exists i | 0 <= i < |CJK_BLOCKS| :: CJK_BLOCKS[i].0 <= c <= CJK_BLOCKS[i].1
  }

  /**
   * A `char` is a single UTF-16 code unit, so the five supplementary
   * blocks can never match: only Extension A, the Unified Ideographs and
   * the Compatibility Ideographs are reachable.
   */
  lemma IsChineseInBmp(c: CodeUnit)
    ensures IsChinese(c) <==> 0x3400 <= c <= 0x4DBF || 0x4E00 <= c <= 0x9FFF || 0xF900 <= c <= 0xFAFF
  {
    if 0x4E00 <= c <= 0x9FFF {
      assert CJK_BLOCKS[0].0 <= c <= CJK_BLOCKS[0].1;
    } else if 0x3400 <= c <= 0x4DBF {
      assert CJK_BLOCKS[1].0 <= c <= CJK_BLOCKS[1].1;
    } else if 0xF900 <= c <= 0xFAFF {
      assert CJK_BLOCKS[7].0 <= c <= CJK_BLOCKS[7].1;
    }
  }

  /** The code units `filterLowConfidenceChars` keeps. */
  function Confident(cc: CharClasses): CodeUnit -> bool {
    (c: CodeUnit) => IsChinese(c) || cc.isLetter(c) || cc.isDigit(c)
  }

  // ---------------------------------------------------------------------
  // normalizeText

  function NotRegexSpace(c: CodeUnit): bool {
    !IsRegexSpace(c)
  }

  /** `normalizeText`: delete every `\s` code unit, then `trim()`. */
  function NormalizeText(text: Str): (r: Str)
    ensures text == [] ==> r == []
    ensures forall i | 0 <= i < |r| :: !IsRegexSpace(r[i])
    ensures IsTrimmed(r)
    ensures IsSubsequence(r, text)
  {
    var spaceless := Filter(text, NotRegexSpace);
    var r := Trim(spaceless);
    SubsequenceTransitive(r, spaceless, text);
    forall i | 0 <= i < |r|
      ensures !IsRegexSpace(r[i])
    {
      SubsequenceElements(r, spaceless, r[i]);
    }
    r
  }

  /**
   * Normalizing keeps every code unit above U+0020: each survives, as often
   * as it occurs.
   */
  lemma NormalizeTextKeepsOthers(text: Str)
    ensures forall c | !IsTrimChar(c) :: multiset(NormalizeText(text))[c] == multiset(text)[c]
  {
    var spaceless := Filter(text, NotRegexSpace);
    TrimKeepsOthers(spaceless);
    forall c | !IsTrimChar(c)
      ensures multiset(spaceless)[c] == multiset(text)[c]
    {
      FilterExact(text, NotRegexSpace, c);
    }
  }

  /** Normalizing twice is normalizing once. */
  lemma NormalizeTextIdempotent(text: Str)
    ensures NormalizeText(NormalizeText(text)) == NormalizeText(text)
  {
  }

  // ---------------------------------------------------------------------
  // filterLowConfidenceChars

  /**
   * `filterLowConfidenceChars`: append to a builder, in order, every code
   * unit that is Chinese, a letter or a digit.
   */
  method FilterLowConfidenceChars(text: Str, cc: CharClasses) returns (result: Str)
    ensures result == Filter(text, Confident(cc))
  {
    if text == [] {
      return [];
    }
    result := [];
    for i := 0 to |text|
      invariant result == Filter(text[..i], Confident(cc))
    {
      var c := text[i];
      FilterSnoc(text[..i], c, Confident(cc));
      assert text[..i + 1] == text[..i] + [c];
      if IsChinese(c) || cc.isLetter(c) || cc.isDigit(c) {
        result := result + [c];
      }
    }
    assert text[..|text|] == text;
  }

  /**
   * The filter keeps each confident code unit as often as the input holds
   * it and drops every other; with the ensures of `Filter` (order, length,
   * subsequence) this pins the result down.
   */
  lemma FilterLowConfidenceExact(text: Str, cc: CharClasses, c: CodeUnit)
    ensures multiset(Filter(text, Confident(cc)))[c] ==
      if IsChinese(c) || cc.isLetter(c) || cc.isDigit(c) then multiset(text)[c] else 0
  {
    FilterExact(text, Confident(cc), c);
  }

  lemma FilterLowConfidenceIdempotent(text: Str, cc: CharClasses)
    ensures Filter(Filter(text, Confident(cc)), Confident(cc)) == Filter(text, Confident(cc))
  {
    FilterIdempotent(text, Confident(cc));
  }

  /**
   * Filtered text holds no file-name-reserved character, no white space,
   * no code unit `trim()` strips and no ".".
   */
  lemma FilteredTextSafe(text: Str, cc: CharClasses)
    requires UnicodeConsistent(cc)
    ensures forall i | 0 <= i < |Filter(text, Confident(cc))| ::
      var c := Filter(text, Confident(cc))[i];
      !IsReservedChar(c) && !IsRegexSpace(c) && !IsTrimChar(c) && c != DOT
  {
    var f := Filter(text, Confident(cc));
    forall i | 0 <= i < |f|
      ensures !IsReservedChar(f[i]) && !IsRegexSpace(f[i]) && !IsTrimChar(f[i]) && f[i] != DOT
    {
      assert Confident(cc)(f[i]);
      IsChineseInBmp(f[i]);
    }
  }

  // ---------------------------------------------------------------------
  // isSupportedFormat

  /** `OCRService.isSupportedFormat(path)`: the lower-cased path ends with a supported extension. */
  predicate IsSupportedFormat(filePath: Str) {
    var lowerPath := ToLowerCase(filePath);
    EndsWith(lowerPath, Ascii(".png")) || EndsWith(lowerPath, Ascii(".jpg")) ||
    EndsWith(lowerPath, Ascii(".jpeg")) || EndsWith(lowerPath, Ascii(".bmp")) ||
    EndsWith(lowerPath, Ascii(".tiff")) || EndsWith(lowerPath, Ascii(".gif"))
  }

  // ---------------------------------------------------------------------
  // The accept decision of recognizeText

  /** Why `recognizeText` does or does not return the engine's text. */
  datatype Verdict = Accepted(text: Str) | NoText | NoValidChars | LowConfidence

  /**
   * The decision on the engine's raw text: normalize, reject if nothing is
   * left, filter, reject if nothing is left, reject if the percentage of
   * code units kept is below the threshold.
   */
  function Assess(raw: Str, threshold: real, cc: CharClasses): Verdict {
    var normalized := NormalizeText(raw);
    if normalized == [] then NoText
    else
      var filtered := Filter(normalized, Confident(cc));
      if filtered == [] then NoValidChars
      else if ValidCharRatio(|filtered|, |normalized|) < threshold then LowConfidence
      else Accepted(filtered)
  }

  /** `(double) kept / total * 100`, computed exactly. */
  function ValidCharRatio(kept: nat, total: nat): real
    requires total > 0
  {
    (kept as real) / (total as real) * 100.0
  }

  /** The acceptance condition stated without division: `100 * kept >= threshold * total`. */
  predicate MeetsThreshold(kept: nat, total: nat, threshold: real) {
    100.0 * (kept as real) >= threshold * (total as real)
  }

  /** The percentage test is the negation of `MeetsThreshold`. */
  lemma RatioBelow(kept: nat, total: nat, threshold: real)
    requires total > 0
    ensures ValidCharRatio(kept, total) < threshold <==> !MeetsThreshold(kept, total, threshold)
  {
    var q := (kept as real) / (total as real);
    assert q * (total as real) == kept as real;
    if q * 100.0 < threshold {
      assert q * 100.0 * (total as real) < threshold * (total as real);
    } else {
      assert q * 100.0 * (total as real) >= threshold * (total as real);
    }
  }

  /**
   * The text is accepted exactly when normalizing and filtering both leave
   * something and `100 * |filtered| >= threshold * |normalized|`; what is
   * accepted is then the filtered text itself.
   */
  lemma AssessAcceptsWhen(raw: Str, threshold: real, cc: CharClasses)
    ensures var n := NormalizeText(raw);
      var f := Filter(n, Confident(cc));
      var v := Assess(raw, threshold, cc);
      (v.Accepted? <==> n != [] && f != [] && MeetsThreshold(|f|, |n|, threshold)) &&
      (v.Accepted? ==> v.text == f)
  {
    var n := NormalizeText(raw);
    var f := Filter(n, Confident(cc));
    if n != [] && f != [] {
      RatioBelow(|f|, |n|, threshold);
    }
  }

  /**
   * The threshold boundary: a percentage exactly equal to the threshold is
   * accepted (the rejecting test is a strict `<`), one below it is not.
   */
  lemma ThresholdBoundary(raw: Str, threshold: real, cc: CharClasses)
    requires NormalizeText(raw) != [] && Filter(NormalizeText(raw), Confident(cc)) != []
    ensures var n := |NormalizeText(raw)| as real;
      var f := |Filter(NormalizeText(raw), Confident(cc))| as real;
      (100.0 * f == threshold * n ==> Assess(raw, threshold, cc).Accepted?) &&
      (100.0 * f < threshold * n ==> Assess(raw, threshold, cc) == LowConfidence)
  {
    var n := NormalizeText(raw);
    RatioBelow(|Filter(n, Confident(cc))|, |n|, threshold);
  }

  // ---------------------------------------------------------------------
  // recognizeText

  /** Keeping everything meets any threshold of at most 100 percent. */
  lemma MeetsThresholdWhole(total: nat, threshold: real)
    requires threshold <= 100.0
    ensures MeetsThreshold(total, total, threshold)
  {
    assert (100.0 - threshold) * (total as real) >= 0.0;
  }

  /**
   * With a threshold of at most 100 percent, non-empty text made only of
   * Chinese characters, letters and digits is accepted whole.
   */
  lemma AssessAcceptsFullyConfident(raw: Str, threshold: real, cc: CharClasses)
    requires threshold <= 100.0
    requires NormalizeText(raw) != []
    requires forall i | 0 <= i < |NormalizeText(raw)| :: Confident(cc)(NormalizeText(raw)[i])
    ensures Assess(raw, threshold, cc) == Accepted(NormalizeText(raw))
  {
    var n := NormalizeText(raw);
    assert Filter(n, Confident(cc)) == n;
    MeetsThresholdWhole(|n|, threshold);
    AssessAcceptsWhen(raw, threshold, cc);
  }


  /**
   * `recognizeText(path)` for the file `file` of the IMG folder. `engine`
   * is Tesseract's `doOCR` on a regular file's contents: None stands for
   * any exception it throws; on a directory `doOCR` always throws.
   */
  function RecognizedText(img: Option<Node>, imgPath: Str, file: FileRef,
                          engine: FileId -> Option<Str>, threshold: real, cc: CharClasses): Str
  {
    if !Exists(img, file) then []
    else if !IsSupportedFormat(AbsolutePath(imgPath, file)) then []
    else match Resolve(img, PathOf(file)).value
      case Dir(_, _) => []
      case File(id) =>
        match engine(id)
        case None => []
        case Some(raw) =>
          match Assess(raw, threshold, cc)
          case Accepted(text) => text
          case _ => []
  }

  /**
   * `recognizeText` returns non-empty text exactly when the file exists,
   * has a supported extension, is a regular file the engine reads, and its
   * text passes the three tests; the text is then the filtered text.
   */
  lemma RecognizedTextWhen(img: Option<Node>, imgPath: Str, file: FileRef,
                           engine: FileId -> Option<Str>, threshold: real, cc: CharClasses)
    ensures var r := RecognizedText(img, imgPath, file, engine, threshold, cc);
      r != [] <==>
        Exists(img, file) && IsSupportedFormat(AbsolutePath(imgPath, file)) &&
        Resolve(img, PathOf(file)).value.File? &&
        engine(Resolve(img, PathOf(file)).value.id).Some? &&
        var n := NormalizeText(engine(Resolve(img, PathOf(file)).value.id).value);
        var f := Filter(n, Confident(cc));
        n != [] && f != [] && MeetsThreshold(|f|, |n|, threshold) && r == f
  {
    if Exists(img, file) && IsSupportedFormat(AbsolutePath(imgPath, file)) {
      var node := Resolve(img, PathOf(file)).value;
      if node.File? && engine(node.id).Some? {
        AssessAcceptsWhen(engine(node.id).value, threshold, cc);
      }
    }
  }

  /** A missing file, an unsupported extension, a directory and an engine exception all give "". */
  lemma RecognizeFailuresGiveEmpty(img: Option<Node>, imgPath: Str, file: FileRef,
                                   engine: FileId -> Option<Str>, threshold: real, cc: CharClasses)
    requires !Exists(img, file) || !IsSupportedFormat(AbsolutePath(imgPath, file)) ||
      Resolve(img, PathOf(file)).value.Dir? ||
      engine(Resolve(img, PathOf(file)).value.id).None?
    ensures RecognizedText(img, imgPath, file, engine, threshold, cc) == []
  {
  }

  /**
   * What `recognizeText` returns is safe to put in a file name: no
   * reserved character, white space, trimmed code unit or ".".
   */
  lemma RecognizedTextSafe(img: Option<Node>, imgPath: Str, file: FileRef,
                           engine: FileId -> Option<Str>, threshold: real, cc: CharClasses)
    requires UnicodeConsistent(cc)
    ensures var r := RecognizedText(img, imgPath, file, engine, threshold, cc);
      forall i | 0 <= i < |r| :: !IsReservedChar(r[i]) && !IsTrimChar(r[i]) && r[i] != DOT
  {
    RecognizedTextWhen(img, imgPath, file, engine, threshold, cc);
    var r := RecognizedText(img, imgPath, file, engine, threshold, cc);
    if r != [] {
      var raw := engine(Resolve(img, PathOf(file)).value.id).value;
      FilteredTextSafe(NormalizeText(raw), cc);
    }
  }

  /** What `recognizeText` returns depends only on what the file's path names. */
  lemma RecognizedTextLocal(img: Option<Node>, img': Option<Node>, imgPath: Str, file: FileRef,
                            engine: FileId -> Option<Str>, threshold: real, cc: CharClasses)
    requires Resolve(img, PathOf(file)) == Resolve(img', PathOf(file))
    ensures RecognizedText(img, imgPath, file, engine, threshold, cc) == RecognizedText(img', imgPath, file, engine, threshold, cc)
  {
  }

  /**
   * The static state of OCRService: the confidence threshold, a
   * percentage that starts at 90.
   */
  class Recognizer {
    var confidenceThreshold: real

    /** The threshold is a percentage. */
    predicate Valid()
      reads this
    {
      0.0 <= confidenceThreshold <= 100.0
    }

    constructor ()
      ensures confidenceThreshold == 90.0 && Valid()
    {
      confidenceThreshold := 90.0;
    }

    function GetConfidenceThreshold(): real
      reads this
    {
      confidenceThreshold
    }

    /** `setConfidenceThreshold`: a value outside [0, 100] is refused and the old one kept. */
    method SetConfidenceThreshold(threshold: real)
      modifies this
      ensures GetConfidenceThreshold() ==
        if threshold < 0.0 || threshold > 100.0 then old(GetConfidenceThreshold()) else threshold
      ensures old(Valid()) ==> Valid()
    {
      if threshold < 0.0 || threshold > 100.0 {
        return;
      }
      confidenceThreshold := threshold;
    }

    /** `recognizeText(imageFile.getAbsolutePath())` with the current threshold. */
    method RecognizeText(fs: FileSystem, imageFile: FileRef, engine: FileId -> Option<Str>, cc: CharClasses)
      returns (text: Str)
      ensures text == RecognizedText(fs.img, fs.imgPath, imageFile, engine, confidenceThreshold, cc)
    {
      if !Exists(fs.img, imageFile) {
        return [];
      }
      var imagePath := AbsolutePath(fs.imgPath, imageFile);
      if !IsSupportedFormat(imagePath) {
        return [];
      }
      var node := Resolve(fs.img, PathOf(imageFile)).value;
      if node.Dir? {
        return [];
      }
      var recognizedText := engine(node.id);
      if recognizedText.None? {
        return [];
      }
      text := AcceptText(recognizedText.value, cc);
    }

    /**
     * The second half of `recognizeText`: normalize the engine's text,
     * filter it, and return it only if enough of it survives.
     */
    method AcceptText(recognizedText: Str, cc: CharClasses) returns (text: Str)
      ensures text == match Assess(recognizedText, confidenceThreshold, cc)
        case Accepted(t) => t
        case _ => []
      ensures (Valid() && NormalizeText(recognizedText) != [] &&
                 forall i | 0 <= i < |NormalizeText(recognizedText)| :: Confident(cc)(NormalizeText(recognizedText)[i]))
        ==> text == NormalizeText(recognizedText)
    {
      var normalized := NormalizeText(recognizedText);
      if Valid() && normalized != [] && forall i | 0 <= i < |normalized| :: Confident(cc)(normalized[i]) {
        AssessAcceptsFullyConfident(recognizedText, confidenceThreshold, cc);
      }
      if normalized == [] {
        return [];
      }
      var filtered := FilterLowConfidenceChars(normalized, cc);
      if filtered == [] {
        return [];
      }
      var validCharRatio := ValidCharRatio(|filtered|, |normalized|);
      if validCharRatio < confidenceThreshold {
        return [];
      }
      text := filtered;
    }
  }
}
