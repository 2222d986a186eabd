/**
 * ImageScanner: the recursive, extension-filtered walk that finds the
 * images of the IMG folder.
 */
module ImageScanner {
  import opened JavaText
  import opened FileTree
  import OcrService

  const SUPPORTED_FORMATS: seq<Str> :=
    [Ascii(".png"), Ascii(".jpg"), Ascii(".jpeg"), Ascii(".bmp"), Ascii(".tiff"), Ascii(".gif")]

  /** The lower-cased file name ends with one of the supported extensions. */
  predicate Supported(fileName: Str) {
    exists k | 0 <= k < |SUPPORTED_FORMATS| :: EndsWith(ToLowerCase(fileName), SUPPORTED_FORMATS[k])
  }

  /** `isSupportedFormat(fileName)`: try each extension in turn and stop at the first that matches. */
  method IsSupportedFormat(fileName: Str) returns (b: bool)
    ensures b == Supported(fileName)
  {
    var lowerName := ToLowerCase(fileName);
    for k := 0 to |SUPPORTED_FORMATS|
      invariant forall j | 0 <= j < k :: !EndsWith(lowerName, SUPPORTED_FORMATS[j])
    {
      if EndsWith(lowerName, SUPPORTED_FORMATS[k]) {
        return true;
      }
    }
    return false;
  }

  /**
   * The images `scanImagesRecursive` appends for the directory `dir` found
   * at path `at`: nothing when the listing is null, otherwise the entries
   * in listing order, each directory replaced by its own images and each
   * other entry kept when its name is supported.
   */
  function Images(dir: Node, at: Path): seq<FileRef>
    requires dir.Dir?
    decreases dir, 1
  {
    if !dir.listable then [] else ImagesAmong(dir, |dir.entries|, at)
  }

  /** The images contributed by the first `k` entries of `dir`. */
  function ImagesAmong(dir: Node, k: nat, at: Path): seq<FileRef>
    requires dir.Dir? && k <= |dir.entries|
    decreases dir, 0, k
  {
    if k == 0 then []
    else
      var e := dir.entries[k - 1];
      assert e in dir.entries;
      ImagesAmong(dir, k - 1, at) + EntryImages(e, at)
  }

  /** What one entry of a listing contributes. */
  function EntryImages(e: Entry, at: Path): seq<FileRef>
    decreases e.node, 2
  {
    if e.node.Dir? then Images(e.node, at + [e.name])
    else if Supported(e.name) then [FileRef(at, e.name)]
    else []
  }

  /** What `scanImages(imgFolder)` returns for the state `img` of the IMG folder. */
  function ScanResult(img: Option<Node>): seq<FileRef> {
    if img.Some? && img.value.Dir? then Images(img.value, []) else []
  }

  /**
   * `scanImagesRecursive(directory, imageFiles)`: the caller's list comes
   * back with the images of `directory` appended.
   */
  method ScanImagesRecursive(directory: Node, at: Path, imageFiles: seq<FileRef>) returns (result: seq<FileRef>)
    requires directory.Dir?
    ensures result == imageFiles + Images(directory, at)
    decreases directory
  {
    if !directory.listable {
      return imageFiles;
    }
    result := imageFiles;
    for i := 0 to |directory.entries|
      invariant result == imageFiles + ImagesAmong(directory, i, at)
    {
      var file := directory.entries[i];
      assert file in directory.entries;
      if file.node.Dir? {
        result := ScanImagesRecursive(file.node, at + [file.name], result);
      } else {
        var supported := IsSupportedFormat(file.name);
        if supported {
          result := result + [FileRef(at, file.name)];
        }
      }
    }
  }

  /** `scanImages(imgFolder)`: empty when the folder is missing or not a directory. */
  method ScanImages(fs: FileSystem) returns (imageFiles: seq<FileRef>)
    ensures imageFiles == ScanResult(fs.img)
  {
    imageFiles := [];
    if fs.img.None? || !fs.img.value.Dir? {
      return;
    }
    imageFiles := ScanImagesRecursive(fs.img.value, [], imageFiles);
  }

  // ---------------------------------------------------------------------
  // Agreement with OCRService.isSupportedFormat

  lemma FormatsSlashFree()
    ensures forall k | 0 <= k < |SUPPORTED_FORMATS| :: SLASH !in SUPPORTED_FORMATS[k]
  {
    forall k, j | 0 <= k < |SUPPORTED_FORMATS| && 0 <= j < |SUPPORTED_FORMATS[k]|
      ensures SUPPORTED_FORMATS[k][j] != SLASH
    {
    }
  }

  /** On a path that ends with "/" and a name, a slash-free suffix matches the path iff it matches the name. */
  lemma EndsWithAfterSlash(prefix: Str, name: Str, suffix: Str)
    requires SLASH !in suffix
    ensures EndsWith(ToLowerCase(prefix + [SLASH] + name), suffix) == EndsWith(ToLowerCase(name), suffix)
  {
    var head := ToLowerCase(prefix + [SLASH]);
    var ln := ToLowerCase(name);
    var lp := ToLowerCase(prefix + [SLASH] + name);
    assert lp == head + ln by {
      assert |lp| == |head + ln|;
      forall j | 0 <= j < |lp|
        ensures lp[j] == (head + ln)[j]
      {
        if j < |head| {
          assert (prefix + [SLASH] + name)[j] == (prefix + [SLASH])[j];
        } else {
          assert (prefix + [SLASH] + name)[j] == name[j - |head|];
        }
      }
    }
    assert head[|head| - 1] == SLASH by {
      assert (prefix + [SLASH])[|prefix|] == SLASH;
    }
    if |suffix| <= |ln| {
      assert lp[|lp| - |suffix|..] == ln[|ln| - |suffix|..];
    } else if |suffix| <= |lp| {
      assert lp[|lp| - |suffix|..][|suffix| - |ln| - 1] == SLASH;
    }
  }

  /** `Supported` spelled out: the name ends with one of the six extensions, tried in order. */
  lemma SupportedCases(fileName: Str)
    ensures var ln := ToLowerCase(fileName);
      Supported(fileName) ==
        (EndsWith(ln, SUPPORTED_FORMATS[0]) || EndsWith(ln, SUPPORTED_FORMATS[1]) ||
         EndsWith(ln, SUPPORTED_FORMATS[2]) || EndsWith(ln, SUPPORTED_FORMATS[3]) ||
         EndsWith(ln, SUPPORTED_FORMATS[4]) || EndsWith(ln, SUPPORTED_FORMATS[5]))
  {
  }

  /**
   * `ImageScanner.isSupportedFormat` on a name agrees with
   * `OCRService.isSupportedFormat` on the absolute path of that name.
   */
  lemma SupportedAgreesWithOcr(imgPath: Str, f: FileRef)
    ensures OcrService.IsSupportedFormat(AbsolutePath(imgPath, f)) == Supported(f.name)
  {
    var prefix := PathText(imgPath, f.parent);
    var path := AbsolutePath(imgPath, f);
    assert path == prefix + [SLASH] + f.name;
    FormatsSlashFree();
    assert SLASH !in SUPPORTED_FORMATS[0] && SLASH !in SUPPORTED_FORMATS[1] && SLASH !in SUPPORTED_FORMATS[2];
    assert SLASH !in SUPPORTED_FORMATS[3] && SLASH !in SUPPORTED_FORMATS[4] && SLASH !in SUPPORTED_FORMATS[5];
    EndsWithAfterSlash(prefix, f.name, SUPPORTED_FORMATS[0]);
    EndsWithAfterSlash(prefix, f.name, SUPPORTED_FORMATS[1]);
    EndsWithAfterSlash(prefix, f.name, SUPPORTED_FORMATS[2]);
    EndsWithAfterSlash(prefix, f.name, SUPPORTED_FORMATS[3]);
    EndsWithAfterSlash(prefix, f.name, SUPPORTED_FORMATS[4]);
    EndsWithAfterSlash(prefix, f.name, SUPPORTED_FORMATS[5]);
    SupportedCases(f.name);
  }

  // ---------------------------------------------------------------------
  // What the walk finds

  /** Every directory the path passes through returns a listing (not null). */
  predicate Listed(n: Node, p: Path)
    decreases |p|
  {
    p == [] ||
    (n.Dir? && n.listable &&
     match Find(n.entries, p[0])
     case None => false
     case Some(i) => Listed(n.entries[i].node, p[1..]))
  }

  /** The relative path, below the directory at `at`, of the file `f`. */
  function RelativePath(at: Path, f: FileRef): Path
    requires |at| <= |f.parent|
  {
    f.parent[|at|..] + [f.name]
  }

  /**
   * `f` is an image the walk can reach from the directory `n` found at
   * `at`: it lies below `at`, every directory on the way is listed, the
   * path names a regular file, and its name is supported.
   */
  predicate ImageAt(n: Node, at: Path, f: FileRef) {
    |at| <= |f.parent| && f.parent[..|at|] == at &&
    Listed(n, RelativePath(at, f)) && FileAt(n, RelativePath(at, f)).Some? && Supported(f.name)
  }

  /** An entry's images are among the images of any longer prefix of the listing. */
  lemma {:induction false} AmongContains(dir: Node, k: nat, at: Path, i: nat, f: FileRef)
    requires dir.Dir? && i < k <= |dir.entries|
    requires f in EntryImages(dir.entries[i], at)
    ensures f in ImagesAmong(dir, k, at)
    decreases k
  {
    if i < k - 1 {
      AmongContains(dir, k - 1, at, i, f);
    }
  }

  /** An image found in a directory's entry `i` lies below it through that entry. */
  lemma ImageThroughEntry(dir: Node, at: Path, i: nat, f: FileRef)
    requires dir.Dir? && dir.listable && WellFormed(dir) && i < |dir.entries|
    requires ImageAt(dir.entries[i].node, at + [dir.entries[i].name], f)
    ensures ImageAt(dir, at, f)
  {
    var e := dir.entries[i];
    var at' := at + [e.name];
    FindUnique(dir.entries, i);
    assert f.parent[..|at|] == f.parent[..|at'|][..|at|];
    var q := RelativePath(at, f);
    assert q[0] == e.name;
    assert q[1..] == RelativePath(at', f);
  }

  lemma {:induction false} ImagesSound(dir: Node, at: Path, f: FileRef)
    requires dir.Dir? && WellFormed(dir) && f in Images(dir, at)
    ensures ImageAt(dir, at, f)
    decreases dir, 1
  {
    ImagesAmongSound(dir, |dir.entries|, at, f);
  }

  lemma {:induction false} ImagesAmongSound(dir: Node, k: nat, at: Path, f: FileRef)
    requires dir.Dir? && dir.listable && WellFormed(dir) && k <= |dir.entries|
    requires f in ImagesAmong(dir, k, at)
    ensures ImageAt(dir, at, f)
    decreases dir, 0, k
  {
    var e := dir.entries[k - 1];
    assert e in dir.entries;
    if f in ImagesAmong(dir, k - 1, at) {
      ImagesAmongSound(dir, k - 1, at, f);
    } else if e.node.Dir? {
      ImagesSound(e.node, at + [e.name], f);
      ImageThroughEntry(dir, at, k - 1, f);
    } else {
      FindUnique(dir.entries, k - 1);
      assert f == FileRef(at, e.name);
      assert RelativePath(at, f) == [e.name] + [];
      LookupThrough(dir, e.name, []);
    }
  }

  lemma {:induction false} ImagesComplete(dir: Node, at: Path, f: FileRef)
    requires dir.Dir? && ImageAt(dir, at, f)
    ensures f in Images(dir, at)
    decreases dir
  {
    var q := RelativePath(at, f);
    var i := Find(dir.entries, q[0]).value;
    var e := dir.entries[i];
    assert e in dir.entries;
    assert q == [e.name] + q[1..];
    LookupThrough(dir, e.name, q[1..]);
    if |f.parent| == |at| {
      assert f.parent == at;
      assert q == [e.name];
      assert f == FileRef(at, e.name);
      assert f in EntryImages(e, at);
    } else {
      var at' := at + [e.name];
      assert f.parent[..|at'|] == at' by {
        assert f.parent[..|at'|] == f.parent[..|at|] + [f.parent[|at|]];
      }
      assert q[1..] == RelativePath(at', f);
      ImagesComplete(e.node, at', f);
    }
    AmongContains(dir, |dir.entries|, at, i, f);
  }

  /**
   * `scanImages` returns exactly the supported regular files reachable
   * from the IMG folder through listed directories.
   */
  lemma ScanFindsExactly(img: Option<Node>, f: FileRef)
    requires img.Some? && img.value.Dir? && WellFormed(img.value)
    ensures f in ScanResult(img) <==> ImageAt(img.value, [], f)
  {
    if f in ScanResult(img) {
      ImagesSound(img.value, [], f);
    }
    if ImageAt(img.value, [], f) {
      ImagesComplete(img.value, [], f);
    }
  }

  /** A listed folder whose entries are all regular files with supported names. */
  predicate FlatImageFolder(dir: Node) {
    dir.Dir? && dir.listable &&
    forall i | 0 <= i < |dir.entries| :: dir.entries[i].node.File? && Supported(dir.entries[i].name)
  }

  lemma {:induction false} FlatImagesAmong(dir: Node, k: nat, at: Path)
    requires FlatImageFolder(dir) && k <= |dir.entries|
    ensures ImagesAmong(dir, k, at) == EntryRefs(dir.entries[..k], at)
    decreases k
  {
    if k > 0 {
      FlatImagesAmong(dir, k - 1, at);
      assert dir.entries[..k] == dir.entries[..k - 1] + [dir.entries[k - 1]];
    }
  }

  /** On a flat folder of images the walk lists every entry, in listing order. */
  lemma ScanFlatFolder(dir: Node, at: Path)
    requires FlatImageFolder(dir)
    ensures Images(dir, at) == EntryRefs(dir.entries, at)
  {
    FlatImagesAmong(dir, |dir.entries|, at);
    assert dir.entries[..|dir.entries|] == dir.entries;
  }
}
