/**
 * The java.lang.String operations the rename pipeline relies on, over
 * UTF-16 code units: whitespace removal with the regex class `\s`,
 * `trim()`, `toLowerCase()` (ASCII part), `endsWith`, `lastIndexOf`,
 * `split` on a one-character separator and `String.join`.
 */
module JavaText {

  datatype Option<T> = None | Some(value: T)

  /** A Java `char`: one UTF-16 code unit, surrogate halves included. */
  type CodeUnit = c: int | 0 <= c < 0x1_0000

  /** A Java `String` as the sequence of its code units. */
  type Str = seq<CodeUnit>

  const SLASH: CodeUnit := 0x2F
  const DOT: CodeUnit := 0x2E

  /** The code units of a 7-bit ASCII literal. */
  function Ascii(s: string): Str
    requires forall i | 0 <= i < |s| :: s[i] as int < 0x80
  {
    seq(|s|, i requires 0 <= i < |s| => s[i] as int)
  }

  /** Java's regex class `\s` without UNICODE_CHARACTER_CLASS: [ \t\n\x0B\f\r]. */
  predicate IsRegexSpace(c: CodeUnit) {
    c == 0x20 || 0x09 <= c <= 0x0D
  }

  /** What `String.trim()` strips: every code unit up to U+0020. */
  predicate IsTrimChar(c: CodeUnit) {
    c <= 0x20
  }

  predicate IsTrimmed(s: Str) {
    s == [] || (!IsTrimChar(s[0]) && !IsTrimChar(s[|s| - 1]))
  }

  // ---------------------------------------------------------------------
  // Subsequences

  /** `a` can be obtained from `b` by deleting code units (greedy matching). */
  predicate IsSubsequence<T(==)>(a: seq<T>, b: seq<T>)
    decreases |b|
  {
    if a == [] then true
    else if b == [] then false
    else if a[0] == b[0] then IsSubsequence(a[1..], b[1..])
    else IsSubsequence(a, b[1..])
  }

  lemma {:induction false} SubsequenceDropFirst<T>(a: seq<T>, b: seq<T>)
    requires a != [] && IsSubsequence(a, b)
    ensures IsSubsequence(a[1..], b)
    decreases |b|
  {
    if a[0] == b[0] {
      if a[1..] != [] && a[1] == b[0] {
        SubsequenceDropFirst(a[1..], b[1..]);
        assert a[1..][1..] == a[2..];
      }
    } else {
      SubsequenceDropFirst(a, b[1..]);
      if a[1..] != [] && a[1] == b[0] {
        SubsequenceDropFirst(a[1..], b[1..]);
        assert a[1..][1..] == a[2..];
      }
    }
  }

  lemma {:induction false} SubsequenceTransitive<T>(a: seq<T>, b: seq<T>, c: seq<T>)
    requires IsSubsequence(a, b) && IsSubsequence(b, c)
    ensures IsSubsequence(a, c)
    decreases |c|
  {
    if a == [] || b == [] {
    } else if b[0] == c[0] {
      if a[0] == b[0] {
        SubsequenceTransitive(a[1..], b[1..], c[1..]);
      } else {
        SubsequenceTransitive(a, b[1..], c[1..]);
      }
    } else {
      SubsequenceTransitive(a, b, c[1..]);
      if a[0] == c[0] {
        SubsequenceDropFirst(a, c[1..]);
      }
    }
  }

  /** Every prefix of `u + v` is a subsequence of it; in particular `t` of `t + v`. */
  lemma {:induction false} SubsequenceOfExtension<T>(t: seq<T>, v: seq<T>)
    ensures IsSubsequence(t, t + v)
    decreases |t|
  {
    if t != [] {
      assert (t + v)[1..] == t[1..] + v;
      SubsequenceOfExtension(t[1..], v);
    }
  }

  lemma {:induction false} SubsequenceOfLongerStart<T>(u: seq<T>, t: seq<T>)
    ensures IsSubsequence(t, u + t)
    decreases |u|
  {
    if u == [] {
      SubsequenceOfExtension(t, []);
      assert t + [] == t && u + t == t;
    } else {
      assert (u + t)[1..] == u[1..] + t;
      SubsequenceOfLongerStart(u[1..], t);
      if t != [] && t[0] == u[0] {
        SubsequenceDropFirst(t, u[1..] + t);
      }
    }
  }

  /** Whatever a subsequence holds, the longer sequence holds too. */
  lemma {:induction false} SubsequenceElements<T>(a: seq<T>, b: seq<T>, x: T)
    requires IsSubsequence(a, b) && x in a
    ensures x in b
    decreases |b|
  {
    if a[0] == b[0] {
      if x != a[0] {
        assert a == [a[0]] + a[1..];
        SubsequenceElements(a[1..], b[1..], x);
      }
    } else {
      SubsequenceElements(a, b[1..], x);
    }
  }

  /** A contiguous slice is a subsequence. */
  lemma SliceIsSubsequence<T>(s: seq<T>, lo: nat, hi: nat)
    requires lo <= hi <= |s|
    ensures IsSubsequence(s[lo..hi], s)
  {
    SubsequenceOfExtension(s[lo..hi], s[hi..]);
    assert s[lo..hi] + s[hi..] == s[lo..];
    SubsequenceOfLongerStart(s[..lo], s[lo..]);
    assert s[..lo] + s[lo..] == s;
    SubsequenceTransitive(s[lo..hi], s[lo..], s);
  }

  // ---------------------------------------------------------------------
  // Filtering (the shape of `replaceAll("[class]", "")` and of a
  // StringBuilder loop that appends the code units it keeps)

  function Filter(s: Str, keep: CodeUnit -> bool): (r: Str)
    ensures |r| <= |s|
    ensures forall i | 0 <= i < |r| :: keep(r[i])
    ensures IsSubsequence(r, s)
    ensures (forall i | 0 <= i < |s| :: keep(s[i])) ==> r == s
    decreases |s|
  {
    if s == [] then []
    else if keep(s[0]) then [s[0]] + Filter(s[1..], keep)
    else Filter(s[1..], keep)
  }

  /** Filtering a string extended by one code unit: the loop step. */
  lemma {:induction false} FilterSnoc(s: Str, c: CodeUnit, keep: CodeUnit -> bool)
    ensures Filter(s + [c], keep) == Filter(s, keep) + (if keep(c) then [c] else [])
    decreases |s|
  {
    if s != [] {
      assert (s + [c])[1..] == s[1..] + [c];
      FilterSnoc(s[1..], c, keep);
    }
  }

  /**
   * Filter keeps exactly the code units satisfying `keep`, each as often as
   * in the input; together with being a subsequence this pins the result down.
   */
  lemma {:induction false} FilterExact(s: Str, keep: CodeUnit -> bool, c: CodeUnit)
    ensures multiset(Filter(s, keep))[c] == if keep(c) then multiset(s)[c] else 0
    decreases |s|
  {
    if s != [] {
      FilterExact(s[1..], keep, c);
      assert s == [s[0]] + s[1..];
      assert multiset(s) == multiset([s[0]]) + multiset(s[1..]);
      if keep(s[0]) {
        assert Filter(s, keep) == [s[0]] + Filter(s[1..], keep);
        assert multiset(Filter(s, keep)) == multiset([s[0]]) + multiset(Filter(s[1..], keep));
      } else {
        assert Filter(s, keep) == Filter(s[1..], keep);
      }
    }
  }

  lemma FilterIdempotent(s: Str, keep: CodeUnit -> bool)
    ensures Filter(Filter(s, keep), keep) == Filter(s, keep)
  {
  }

  // ---------------------------------------------------------------------
  // trim()

  function TrimStart(s: Str): (r: Str)
    ensures |r| <= |s| && r == s[|s| - |r|..]
    ensures r == [] || !IsTrimChar(r[0])
    ensures forall i | 0 <= i < |s| - |r| :: IsTrimChar(s[i])
    decreases |s|
  {
    if s != [] && IsTrimChar(s[0]) then TrimStart(s[1..]) else s
  }

  function TrimEnd(s: Str): (r: Str)
    ensures |r| <= |s| && r == s[..|r|]
    ensures r == [] || !IsTrimChar(r[|r| - 1])
    ensures forall i | |r| <= i < |s| :: IsTrimChar(s[i])
    decreases |s|
  {
    if s != [] && IsTrimChar(s[|s| - 1]) then TrimEnd(s[..|s| - 1]) else s
  }

  /** Cutting off runs of units <= U+0020 at both ends keeps every other unit, as often as it occurs. */
  lemma TrimmedEndsKeepOthers(s: Str, lo: nat, hi: nat, r: Str)
    requires lo <= hi <= |s| && r == s[lo..hi]
    requires forall i | 0 <= i < lo :: IsTrimChar(s[i])
    requires forall i | hi <= i < |s| :: IsTrimChar(s[i])
    ensures forall c | !IsTrimChar(c) :: multiset(r)[c] == multiset(s)[c]
  {
    assert s == s[..lo] + r + s[hi..];
    forall c | !IsTrimChar(c)
      ensures multiset(r)[c] == multiset(s)[c]
    {
      assert c !in s[..lo];
      assert c !in s[hi..];
    }
  }

  /** How many code units <= U+0020 the string starts with. */
  function LeadingBlanks(s: Str): (n: nat)
    ensures n <= |s|
    ensures forall i | 0 <= i < n :: IsTrimChar(s[i])
    ensures n == |s| || !IsTrimChar(s[n])
  {
    |s| - |TrimStart(s)|
  }

  /** `String.trim()`: drop every leading and trailing code unit <= U+0020. */
  function Trim(s: Str): (r: Str)
    ensures IsTrimmed(r)
    ensures IsSubsequence(r, s)
    ensures IsTrimmed(s) ==> r == s
    ensures r == [] <==> forall i | 0 <= i < |s| :: IsTrimChar(s[i])
  {
    var t := TrimStart(s);
    var r := TrimEnd(t);
    SliceIsSubsequence(s, |s| - |t|, |s| - |t| + |r|);
    assert s[|s| - |t|..|s| - |t| + |r|] == r;
    assert r == [] ==> t == [];
    r
  }

  /** A prefix `r` of the suffix `t == s[lo..]`, followed in `t` only by blanks. */
  lemma PrefixOfSuffix(s: Str, lo: nat, t: Str, r: Str)
    requires lo <= |s| && t == s[lo..]
    requires |r| <= |t| && r == t[..|r|]
    requires forall i | |r| <= i < |t| :: IsTrimChar(t[i])
    ensures lo + |r| <= |s| && r == s[lo..lo + |r|]
    ensures forall i | lo + |r| <= i < |s| :: IsTrimChar(s[i])
  {
    forall i | lo + |r| <= i < |s|
      ensures IsTrimChar(s[i])
    {
      assert s[i] == t[i - lo];
    }
  }

  /** The trimmed string is the slice of `s` after its leading blanks, and only blanks follow it. */
  lemma TrimSlice(s: Str)
    ensures LeadingBlanks(s) + |Trim(s)| <= |s|
    ensures Trim(s) == s[LeadingBlanks(s)..LeadingBlanks(s) + |Trim(s)|]
    ensures forall i | LeadingBlanks(s) + |Trim(s)| <= i < |s| :: IsTrimChar(s[i])
  {
    var t := TrimStart(s);
    PrefixOfSuffix(s, |s| - |t|, t, TrimEnd(t));
  }

  /** Trimming keeps every code unit above U+0020, as often as it occurs. */
  lemma TrimKeepsOthers(s: Str)
    ensures forall c | !IsTrimChar(c) :: multiset(Trim(s))[c] == multiset(s)[c]
  {
    var lo, r := LeadingBlanks(s), Trim(s);
    TrimSlice(s);
    TrimmedEndsKeepOthers(s, lo, lo + |r|, r);
  }

  // ---------------------------------------------------------------------
  // toLowerCase(), endsWith, lastIndexOf

  /** `Character.toLowerCase` restricted to ASCII: only A-Z change. */
  function LowerAscii(c: CodeUnit): (r: CodeUnit)
  {
    if 0x41 <= c <= 0x5A then c + 0x20 else c
  }

  function ToLowerCase(s: Str): (r: Str)
    ensures |r| == |s|
    ensures forall i | 0 <= i < |r| :: !(0x41 <= r[i] <= 0x5A)
    ensures forall i | 0 <= i < |s| :: !(0x41 <= s[i] <= 0x5A) ==> r[i] == s[i]
    ensures forall i | 0 <= i < |s| :: 0x41 <= s[i] <= 0x5A ==> r[i] == s[i] + 0x20
  {
    seq(|s|, i requires 0 <= i < |s| => LowerAscii(s[i]))
  }

  predicate EndsWith(s: Str, suffix: Str) {
    |suffix| <= |s| && s[|s| - |suffix|..] == suffix
  }

  /** `s.lastIndexOf(c)`: the largest index holding `c`, or -1. */
  function LastIndexOf(s: Str, c: CodeUnit): (r: int)
    ensures -1 <= r < |s|
    ensures r >= 0 ==> s[r] == c
    ensures forall j | r < j < |s| :: s[j] != c
    decreases |s|
  {
    if s == [] then -1
    else if s[|s| - 1] == c then |s| - 1
    else LastIndexOf(s[..|s| - 1], c)
  }

  // ---------------------------------------------------------------------
  // split on a one-character separator, and String.join

  /**
   * Every piece between separators, empty pieces included. Java's
   * `split` also drops trailing empty pieces; every caller here drops
   * empty pieces anyway, so the two agree wherever they are used.
   */
  function Split(s: Str, sep: CodeUnit): (r: seq<Str>)
    ensures |r| >= 1
    ensures forall i | 0 <= i < |r| :: sep !in r[i]
    decreases |s|
  {
    if s == [] then [[]]
    else
      var rest := Split(s[1..], sep);
      if s[0] == sep then [[]] + rest else [[s[0]] + rest[0]] + rest[1..]
  }

  /** `String.join(sep, xs)`. */
  function Join(xs: seq<Str>, sep: CodeUnit): Str
    decreases |xs|
  {
    if |xs| == 0 then []
    else if |xs| == 1 then xs[0]
    else xs[0] + [sep] + Join(xs[1..], sep)
  }

  lemma {:induction false} SplitAfterSeparatorFree(a: Str, t: Str, sep: CodeUnit)
    requires sep !in a
    ensures Split(a + t, sep) == [a + Split(t, sep)[0]] + Split(t, sep)[1..]
    decreases |a|
  {
    if a != [] {
      assert (a + t)[1..] == a[1..] + t;
      SplitAfterSeparatorFree(a[1..], t, sep);
      var rest := Split(a[1..] + t, sep);
      var pieces := Split(t, sep);
      assert a[0] != sep by { assert a[0] in a; }
      assert Split(a + t, sep) == [[a[0]] + rest[0]] + rest[1..];
      assert rest[0] == a[1..] + pieces[0] && rest[1..] == pieces[1..];
      assert [a[0]] + (a[1..] + pieces[0]) == a + pieces[0];
    } else {
      var pieces := Split(t, sep);
      assert a + t == t && a + pieces[0] == pieces[0];
      assert [pieces[0]] + pieces[1..] == pieces;
    }
  }

  /** Splitting undoes joining when no piece holds the separator. */
  lemma {:induction false} SplitJoin(xs: seq<Str>, sep: CodeUnit)
    requires |xs| >= 1
    requires forall i | 0 <= i < |xs| :: sep !in xs[i]
    ensures Split(Join(xs, sep), sep) == xs
    decreases |xs|
  {
    if |xs| == 1 {
      SplitAfterSeparatorFree(xs[0], [], sep);
      assert xs[0] + [] == xs[0];
    } else {
      var j := Join(xs[1..], sep);
      SplitJoin(xs[1..], sep);
      assert xs[0] + [sep] + j == xs[0] + ([sep] + j);
      SplitAfterSeparatorFree(xs[0], [sep] + j, sep);
      assert ([sep] + j)[1..] == j;
      assert Split([sep] + j, sep) == [[]] + xs[1..];
      assert xs[0] + [] == xs[0];
      assert [xs[0]] + xs[1..] == xs;
    }
  }

  /** Joining undoes splitting: no code unit is lost or moved. */
  lemma {:induction false} JoinSplit(s: Str, sep: CodeUnit)
    ensures Join(Split(s, sep), sep) == s
    decreases |s|
  {
    if s != [] {
      var rest := Split(s[1..], sep);
      JoinSplit(s[1..], sep);
      if s[0] == sep {
        assert Split(s, sep)[1..] == rest;
        assert s == [sep] + s[1..];
      } else {
        var r := Split(s, sep);
        assert r[0] == [s[0]] + rest[0] && r[1..] == rest[1..];
        if |rest| == 1 {
          assert s == [s[0]] + rest[0];
        } else {
          assert Join(rest, sep) == rest[0] + [sep] + Join(rest[1..], sep);
          assert s == [s[0]] + rest[0] + [sep] + Join(rest[1..], sep);
        }
      }
    }
  }
}
