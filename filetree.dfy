/**
 * An abstract file system as the rename pipeline sees it: the IMG folder as
 * a tree whose directories list named entries in listing order, and the
 * ledger file OldNames.txt beside it in the project root.
 */
module FileTree {
  import opened JavaText

  /** The identity of a regular file (its contents, for the OCR engine). */
  type FileId = nat

  /**
   * A directory lists its entries in the order `File.listFiles()` returns
   * them; `listable` is false when that call returns null (an I/O error).
   */
  datatype Node = File(id: FileId) | Dir(entries: seq<Entry>, listable: bool)
  datatype Entry = Entry(name: Str, node: Node)

  /** A path relative to the IMG folder, one name per directory level. */
  type Path = seq<Str>

  /** A `java.io.File`: the parent directory's path and the last name. */
  datatype FileRef = FileRef(parent: Path, name: Str)

  /** The characters that cannot appear in a Windows file name: < > : " / \ | ? * */
  predicate IsReservedChar(c: CodeUnit) {
    c == 0x3C || c == 0x3E || c == 0x3A || c == 0x22 || c == 0x2F ||
    c == 0x5C || c == 0x7C || c == 0x3F || c == 0x2A
  }

  /** "." and "..", which every existing directory resolves. */
  predicate IsDotName(name: Str) {
    name == [DOT] || name == [DOT, DOT]
  }

  /** A name a directory entry can carry. */
  predicate ValidName(name: Str) {
    name != [] && SLASH !in name && !IsDotName(name)
  }

  predicate UniqueNames(es: seq<Entry>) {
    forall i, j | 0 <= i < j < |es| :: es[i].name != es[j].name
  }

  /** Every directory of the tree holds valid, pairwise distinct names. */
  predicate WellFormed(n: Node)
    decreases n
  {
    match n
    case File(_) => true
    case Dir(es, _) =>
      UniqueNames(es) &&
      forall i | 0 <= i < |es| :: ValidName(es[i].name) && WellFormed(es[i].node)
  }

  /** The position of the entry called `name`, if there is one. */
  function Find(es: seq<Entry>, name: Str): (r: Option<nat>)
    ensures r.Some? ==> r.value < |es| && es[r.value].name == name
    ensures r.None? <==> forall i | 0 <= i < |es| :: es[i].name != name
    decreases |es|
  {
    if es == [] then None
    else if es[0].name == name then Some(0)
    else match Find(es[1..], name)
      case None => None
      case Some(i) => Some(i + 1)
  }

  lemma FindUnique(es: seq<Entry>, i: nat)
    requires UniqueNames(es) && i < |es|
    ensures Find(es, es[i].name) == Some(i)
  {
  }

  /** Find looks only at names: two listings with the same names agree. */
  lemma {:induction false} FindByNames(es: seq<Entry>, fs: seq<Entry>, name: Str)
    requires |es| == |fs|
    requires forall k | 0 <= k < |es| :: es[k].name == fs[k].name
    ensures Find(es, name) == Find(fs, name)
    decreases |es|
  {
    if es != [] {
      FindByNames(es[1..], fs[1..], name);
    }
  }

  function Lookup(n: Node, p: Path): Option<Node>
    decreases |p|
  {
    if p == [] then Some(n)
    else match n
      case File(_) => None
      case Dir(es, _) =>
        match Find(es, p[0])
        case None => None
        case Some(i) => Lookup(es[i].node, p[1..])
  }

  /** What a path names in the IMG folder, which may be missing. */
  function Resolve(img: Option<Node>, p: Path): Option<Node> {
    match img
    case None => None
    case Some(n) => Lookup(n, p)
  }

  function PathOf(f: FileRef): Path {
    f.parent + [f.name]
  }

  /** `file.exists()`. */
  predicate Exists(img: Option<Node>, f: FileRef) {
    Resolve(img, PathOf(f)).Some?
  }

  predicate IsDirectory(img: Option<Node>, p: Path) {
    Resolve(img, p).Some? && Resolve(img, p).value.Dir?
  }

  /** `new File(parent, name).exists()`: an entry, or "." / ".." of an existing directory. */
  predicate NameTaken(img: Option<Node>, parent: Path, name: Str) {
    Resolve(img, parent + [name]).Some? || (IsDotName(name) && IsDirectory(img, parent))
  }

  /** Whatever a path names lies in a directory that its parent path names. */
  lemma {:induction false} LookupParent(n: Node, p: Path, x: Str)
    requires Lookup(n, p + [x]).Some?
    ensures Lookup(n, p).Some? && Lookup(n, p).value.Dir?
    decreases |p|
  {
    if p != [] {
      assert (p + [x])[1..] == p[1..] + [x];
      var i := Find(n.entries, p[0]).value;
      LookupParent(n.entries[i].node, p[1..], x);
    }
  }

  /** In a well-formed tree, the last name of a path that names something is a valid entry name. */
  lemma {:induction false} LookupNameValid(n: Node, p: Path, x: Str)
    requires WellFormed(n) && Lookup(n, p + [x]).Some?
    ensures ValidName(x)
    decreases |p|
  {
    var i := Find(n.entries, (p + [x])[0]).value;
    if p != [] {
      assert (p + [x])[1..] == p[1..] + [x];
      LookupNameValid(n.entries[i].node, p[1..], x);
    }
  }

  /** The regular file a path names, if it names one. */
  function FileAt(n: Node, p: Path): Option<FileId> {
    match Lookup(n, p)
    case Some(File(id)) => Some(id)
    case _ => None
  }

  /**
   * `renameTo` within one directory: the entry `from` of directory `d` is
   * renamed to `to` and keeps its place in the listing.
   */
  function RenameAt(n: Node, d: Path, from: Str, to: Str): Node
    decreases |d|
  {
    match n
    case File(_) => n
    case Dir(es, listable) =>
      if d == [] then
        match Find(es, from)
        case None => n
        case Some(i) => Dir(es[i := Entry(to, es[i].node)], listable)
      else
        match Find(es, d[0])
        case None => n
        case Some(i) => Dir(es[i := Entry(es[i].name, RenameAt(es[i].node, d[1..], from, to))], listable)
  }

  function Move(img: Option<Node>, f: FileRef, to: Str): Option<Node> {
    match img
    case None => None
    case Some(n) => Some(RenameAt(n, f.parent, f.name, to))
  }

  /**
   * In a top-level listing with distinct names, entry `k` exists, a fresh
   * name other than "." and ".." is free, and moving entry `k` to it
   * renames that entry in place.
   */
  lemma TopMove(es: seq<Entry>, listable: bool, k: nat, to: Str)
    requires UniqueNames(es) && k < |es| && !IsDotName(to)
    requires forall i | 0 <= i < |es| :: es[i].name != to
    ensures Exists(Some(Dir(es, listable)), FileRef([], es[k].name))
    ensures !NameTaken(Some(Dir(es, listable)), [], to)
    ensures Move(Some(Dir(es, listable)), FileRef([], es[k].name), to) ==
      Some(Dir(es[k := Entry(to, es[k].node)], listable))
  {
    FindUnique(es, k);
    assert PathOf(FileRef([], es[k].name)) == [es[k].name] + [];
    LookupThrough(Dir(es, listable), es[k].name, []);
    assert [] + [to] == [to];
    assert Find(es, to).None?;
  }

  /** Renaming one entry of a listing to a fresh name keeps the names distinct. */
  lemma RenameEntryUnique(es: seq<Entry>, i: nat, to: Str)
    requires UniqueNames(es) && i < |es|
    requires forall k | 0 <= k < |es| :: es[k].name != to
    ensures UniqueNames(es[i := Entry(to, es[i].node)])
  {
  }

  /** A rename to a fresh valid name keeps the tree well formed. */
  lemma {:induction false} RenameAtWellFormed(n: Node, d: Path, from: Str, to: Str)
    requires WellFormed(n) && ValidName(to)
    requires Lookup(n, d + [from]).Some? && Lookup(n, d + [to]).None?
    ensures WellFormed(RenameAt(n, d, from, to))
    decreases |d|
  {
    var es := n.entries;
    if d == [] {
      var i := Find(es, from).value;
      assert Find(es, to).None? by { assert [to][1..] == []; }
      RenameEntryUnique(es, i, to);
    } else {
      var i := Find(es, d[0]).value;
      assert (d + [from])[1..] == d[1..] + [from] && (d + [to])[1..] == d[1..] + [to];
      RenameAtWellFormed(es[i].node, d[1..], from, to);
    }
  }

  /** The case of `RenameAtFiles` where the renamed entry is in the top directory. */
  lemma RenameHereFiles(n: Node, from: Str, to: Str, q: Path)
    requires WellFormed(n)
    requires Lookup(n, [from]).Some? && Lookup(n, [to]).None?
    ensures FileAt(RenameAt(n, [], from, to), q) ==
      if |q| > 0 && q[0] == to then FileAt(n, [from] + q[1..])
      else if |q| > 0 && q[0] == from then None
      else FileAt(n, q)
  {
    var es := n.entries;
    var i := Find(es, from).value;
    var es' := es[i := Entry(to, es[i].node)];
    var m := RenameAt(n, [], from, to);
    assert m == Dir(es', n.listable);
    if q != [] {
      assert Find(es, to).None? by { assert [to][1..] == []; }
      RenameEntryUnique(es, i, to);
      var x := q[0];
      if x == to {
        FindUnique(es', i);
        FindUnique(es, i);
        assert ([from] + q[1..])[1..] == q[1..];
        assert Lookup(n, [from] + q[1..]) == Lookup(es[i].node, q[1..]);
      } else if x == from {
        assert Find(es', from).None?;
      } else {
        match Find(es, x)
        case None => {
          assert Find(es', x).None?;
        }
        case Some(k) => {
          FindUnique(es', k);
        }
      }
    }
  }

  /** One directory level of `RenameAtFiles`, for a path outside the renamed directory's parent. */
  lemma RenameBelowOther(n: Node, d: Path, from: Str, to: Str, q: Path)
    requires n.Dir? && d != [] && Find(n.entries, d[0]).Some?
    requires q != [] && q[0] != d[0]
    ensures FileAt(RenameAt(n, d, from, to), q) == FileAt(n, q)
  {
    var es := n.entries;
    var i := Find(es, d[0]).value;
    var es' := es[i := Entry(es[i].name, RenameAt(es[i].node, d[1..], from, to))];
    assert RenameAt(n, d, from, to) == Dir(es', n.listable);
    FindByNames(es, es', q[0]);
  }

  /** What `RenameAtFiles` promises a path `q` names after the rename. */
  function FileAfterRename(n: Node, d: Path, from: Str, to: Str, q: Path): Option<FileId> {
    if |q| > |d| && q[..|d| + 1] == d + [to] then FileAt(n, d + [from] + q[|d| + 1..])
    else if |q| > |d| && q[..|d| + 1] == d + [from] then None
    else FileAt(n, q)
  }

  lemma PrefixStep(d: Path, q: Path, x: Str)
    requires d != [] && q != [] && q[0] == d[0]
    ensures (|q| > |d| && q[..|d| + 1] == d + [x]) <==>
            (|q[1..]| > |d[1..]| && q[1..][..|d[1..]| + 1] == d[1..] + [x])
  {
    if |q| > |d| {
      assert q[..|d| + 1] == [q[0]] + q[1..][..|d[1..]| + 1];
      assert d + [x] == [d[0]] + (d[1..] + [x]);
    }
  }

  lemma LookupThrough(n: Node, name: Str, p: Path)
    requires n.Dir? && Find(n.entries, name).Some?
    ensures Lookup(n, [name] + p) == Lookup(n.entries[Find(n.entries, name).value].node, p)
  {
    assert ([name] + p)[1..] == p;
  }

  /** Renaming below entry `d[0]` changes, of the paths through that entry, only what the entry's subtree holds. */
  lemma RenameThroughChild(n: Node, d: Path, from: Str, to: Str, q: Path)
    requires n.Dir? && d != [] && Find(n.entries, d[0]).Some?
    requires q != [] && q[0] == d[0]
    ensures var child := n.entries[Find(n.entries, d[0]).value].node;
      FileAt(RenameAt(n, d, from, to), q) == FileAt(RenameAt(child, d[1..], from, to), q[1..])
  {
    var es := n.entries;
    var i := Find(es, d[0]).value;
    var child := es[i].node;
    var es' := es[i := Entry(es[i].name, RenameAt(child, d[1..], from, to))];
    assert q == [q[0]] + q[1..];
    assert RenameAt(n, d, from, to) == Dir(es', n.listable);
    FindByNames(es, es', q[0]);
    LookupThrough(RenameAt(n, d, from, to), q[0], q[1..]);
  }

  /** The expected file at a path through entry `d[0]` is the expected file in that entry's subtree. */
  lemma AfterRenameThroughChild(n: Node, d: Path, from: Str, to: Str, q: Path)
    requires n.Dir? && d != [] && Find(n.entries, d[0]).Some?
    requires q != [] && q[0] == d[0]
    ensures var child := n.entries[Find(n.entries, d[0]).value].node;
      FileAfterRename(n, d, from, to, q) == FileAfterRename(child, d[1..], from, to, q[1..])
  {
    var child := n.entries[Find(n.entries, d[0]).value].node;
    PrefixStep(d, q, to);
    PrefixStep(d, q, from);
    if |q| > |d| {
      RenamedPathThroughChild(n, d, from, q);
    }
    assert FileAt(n, q) == FileAt(child, q[1..]) by {
      assert q == [q[0]] + q[1..];
      LookupThrough(n, q[0], q[1..]);
    }
  }

  /** The source path a path through entry `d[0]` maps to, one level down. */
  lemma RenamedPathThroughChild(n: Node, d: Path, from: Str, q: Path)
    requires n.Dir? && d != [] && Find(n.entries, d[0]).Some?
    requires q != [] && q[0] == d[0] && |q| > |d|
    ensures var child := n.entries[Find(n.entries, d[0]).value].node;
      FileAt(n, d + [from] + q[|d| + 1..]) == FileAt(child, d[1..] + [from] + q[1..][|d[1..]| + 1..])
  {
    var rest := q[|d| + 1..];
    assert rest == q[1..][|d[1..]| + 1..];
    assert d + [from] + rest == [d[0]] + (d[1..] + [from] + rest);
    LookupThrough(n, d[0], d[1..] + [from] + rest);
  }

  /** One directory level of `RenameAtFiles`, for a path through the renamed entry's ancestor. */
  lemma RenameBelowSame(n: Node, d: Path, from: Str, to: Str, q: Path)
    requires n.Dir? && d != [] && Find(n.entries, d[0]).Some?
    requires q != [] && q[0] == d[0]
    requires var child := n.entries[Find(n.entries, d[0]).value].node;
      FileAt(RenameAt(child, d[1..], from, to), q[1..]) == FileAfterRename(child, d[1..], from, to, q[1..])
    ensures FileAt(RenameAt(n, d, from, to), q) == FileAfterRename(n, d, from, to, q)
  {
    RenameThroughChild(n, d, from, to, q);
    AfterRenameThroughChild(n, d, from, to, q);
  }

  /**
   * Nothing else changes: after renaming `d/from` to the fresh name `d/to`,
   * a path under `d/to` names what the same path under `d/from` named
   * before, nothing is left under `d/from`, and every other path names the
   * same file as before.
   */
  lemma {:induction false} RenameAtFiles(n: Node, d: Path, from: Str, to: Str, q: Path)
    requires WellFormed(n)
    requires Lookup(n, d + [from]).Some? && Lookup(n, d + [to]).None?
    ensures FileAt(RenameAt(n, d, from, to), q) ==
      if |q| > |d| && q[..|d| + 1] == d + [to] then FileAt(n, d + [from] + q[|d| + 1..])
      else if |q| > |d| && q[..|d| + 1] == d + [from] then None
      else FileAt(n, q)
    decreases |d|
  {
    if d == [] {
      assert [] + [from] == [from] && [] + [to] == [to];
      RenameHereFiles(n, from, to, q);
      if |q| > 0 {
        assert q[..1] == [q[0]];
        assert [] + [from] + q[1..] == [from] + q[1..];
      }
    } else if q == [] {
    } else if q[0] != d[0] {
      RenameBelowOther(n, d, from, to, q);
      if |q| > |d| {
        assert q[..|d| + 1][0] == q[0];
      }
    } else {
      var i := Find(n.entries, d[0]).value;
      var child := n.entries[i].node;
      assert (d + [from])[1..] == d[1..] + [from] && (d + [to])[1..] == d[1..] + [to];
      assert Lookup(child, d[1..] + [from]).Some? && Lookup(child, d[1..] + [to]).None?;
      RenameAtFiles(child, d[1..], from, to, q[1..]);
      RenameBelowSame(n, d, from, to, q);
    }
  }

  /** The `File` objects of a listing's entries, in listing order, for a directory at `at`. */
  function EntryRefs(es: seq<Entry>, at: Path): (r: seq<FileRef>)
    ensures |r| == |es|
    ensures forall i | 0 <= i < |es| :: r[i] == FileRef(at, es[i].name)
  {
    seq(|es|, i requires 0 <= i < |es| => FileRef(at, es[i].name))
  }

  /** The listing `es` with its first `k` entries renamed to `names`, each keeping its place and node. */
  function Relabel(es: seq<Entry>, names: seq<Str>, k: nat): (r: seq<Entry>)
    requires k <= |es| && k <= |names|
    ensures |r| == |es|
    ensures forall i | 0 <= i < |es| :: r[i] == if i < k then Entry(names[i], es[i].node) else es[i]
  {
    seq(|es|, i requires 0 <= i < |es| => if i < k then Entry(names[i], es[i].node) else es[i])
  }

  /**
   * The file system state the core reads and changes: the IMG folder (its
   * absolute path text, and the tree, None when the folder is missing) and
   * the content of OldNames.txt (None when that file is missing).
   */
  class FileSystem {
    const imgPath: Str
    var img: Option<Node>
    var oldNames: Option<Str>

    constructor (imgPath: Str, img: Option<Node>, oldNames: Option<Str>)
      ensures this.imgPath == imgPath && this.img == img && this.oldNames == oldNames
    {
      this.imgPath := imgPath;
      this.img := img;
      this.oldNames := oldNames;
    }
  }

  /** The text of a file's absolute path: the IMG folder's path, then "/" and each name. */
  function PathText(imgPath: Str, p: Path): Str
    decreases |p|
  {
    if p == [] then imgPath else PathText(imgPath, p[..|p| - 1]) + [SLASH] + p[|p| - 1]
  }

  function AbsolutePath(imgPath: Str, f: FileRef): (r: Str)
    ensures r == PathText(imgPath, f.parent) + [SLASH] + f.name
  {
    assert (f.parent + [f.name])[..|f.parent|] == f.parent;
    PathText(imgPath, f.parent + [f.name])
  }
}
