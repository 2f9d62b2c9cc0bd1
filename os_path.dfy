/**
 * The `os.path` functions the installer calls: `basename`, `join` of two
 * parts and `splitext`, over one abstract separator.
 */
module OsPath {
  import opened PyStr

  /** The one path separator of the model. */
  const Sep: char := '/'

  /** The extension separator of `os.path.splitext`. */
  const ExtSep: char := '.'

  /**
   * `os.path.basename(p)`: the text after the last separator, or all of `p`
   * when it has none.
   */
  function Basename(p: string): (b: string)
    ensures Sep !in b && EndsWith(p, b)
    ensures Sep in p ==> EndsWith(p, [Sep] + b)
  {
    LastPieceIsTail(p, Sep);
    LastPiece(p, Sep)
  }

  /**
   * `os.path.join(a, b)`: `b` alone when it is absolute, `a + b` when `a` is
   * empty or already ends with the separator, `a + sep + b` otherwise.
   */
  function Join(a: string, b: string): string {
    if StartsWith(b, [Sep]) then b
    else if a == "" || EndsWith(a, [Sep]) then a + b
    else a + [Sep] + b
  }

  /** `s.rfind(c)`: the position of the last `c` in `s`, or -1. */
  function RFind(s: string, c: char): (r: int)
    ensures -1 <= r < |s|
    decreases |s|
  {
    if |s| == 0 then -1
    else if s[|s| - 1] == c then |s| - 1
    else RFind(s[..|s| - 1], c)
  }

  /** Every character of `s` is the extension separator. */
  predicate AllDots(s: string) {
    forall k :: 0 <= k < |s| ==> s[k] == ExtSep
  }

  /**
   * `os.path.splitext(p)`: cut at the last `.` of the final component,
   * unless everything before that `.` in the component is dots (so that a
   * leading dot does not start an extension).
   */
  function SplitExt(p: string): (string, string) {
    var sepIndex := RFind(p, Sep);
    var dotIndex := RFind(p, ExtSep);
    if dotIndex > sepIndex && !AllDots(p[sepIndex + 1..dotIndex]) then
      (p[..dotIndex], p[dotIndex..])
    else
      (p, "")
  }

  /** `RFind` finds a `c` when there is one, and none comes after it. */
  lemma RFindLast(s: string, c: char)
    ensures RFind(s, c) >= 0 ==> s[RFind(s, c)] == c
    ensures c !in s[RFind(s, c) + 1..]
  {
    RFindHit(s, c);
    RFindNoneAfter(s, c);
  }

  /** What `RFind` finds is a `c`. */
  lemma {:induction false} RFindHit(s: string, c: char)
    ensures RFind(s, c) >= 0 ==> s[RFind(s, c)] == c
    decreases |s|
  {
    if |s| > 0 && s[|s| - 1] != c {
      var p := s[..|s| - 1];
      RFindHit(p, c);
      assert RFind(s, c) == RFind(p, c);
    }
  }

  /** No `c` comes after the one `RFind` finds. */
  lemma {:induction false} RFindNoneAfter(s: string, c: char)
    ensures c !in s[RFind(s, c) + 1..]
    decreases |s|
  {
    if |s| > 0 && s[|s| - 1] != c {
      var p, x := s[..|s| - 1], s[|s| - 1];
      RFindNoneAfter(p, c);
      var r := RFind(p, c);
      assert RFind(s, c) == r;
      assert s[r + 1..] == p[r + 1..] + [x];
    }
  }

  /**
   * The two halves of `splitext` put back together give the path; the
   * extension is empty or a `.` followed by neither a `.` nor a separator.
   */
  lemma SplitExtParts(p: string)
    ensures SplitExt(p).0 + SplitExt(p).1 == p
    ensures ExtensionShape(SplitExt(p).1)
  {
    var sepIndex, dotIndex := RFind(p, Sep), RFind(p, ExtSep);
    if dotIndex > sepIndex && !AllDots(p[sepIndex + 1..dotIndex]) {
      assert SplitExt(p) == (p[..dotIndex], p[dotIndex..]);
      ExtensionAfterLastDot(p, sepIndex, dotIndex);
    } else {
      assert SplitExt(p) == (p, "");
    }
  }

  /**
   * A name with a character other than `.` before its last `.` is cut at
   * that dot: the stem is everything before it, the extension the rest.
   */
  lemma SplitExtCutsAtLastDot(stem: string, ext: string)
    requires Sep !in stem && Sep !in ext && ExtSep !in ext
    requires exists k :: 0 <= k < |stem| && stem[k] != ExtSep
    ensures SplitExt(stem + [ExtSep] + ext) == (stem, [ExtSep] + ext)
  {
    var p := stem + [ExtSep] + ext;
    RFindAbsent(p, Sep);
    RFindAfter(stem, ExtSep, ext);
    assert p[..|stem|] == stem && p[|stem|..] == [ExtSep] + ext;
    assert p[0..|stem|] == stem;
  }

  /** The text from the last `.`, when that `.` follows the last separator, is an extension. */
  lemma ExtensionAfterLastDot(p: string, sepIndex: int, dotIndex: int)
    requires sepIndex == RFind(p, Sep) && dotIndex == RFind(p, ExtSep) && sepIndex < dotIndex
    ensures p[..dotIndex] + p[dotIndex..] == p
    ensures ExtensionShape(p[dotIndex..])
  {
    var ext := p[dotIndex..];
    assert ext[0] == ExtSep && ExtSep !in ext[1..] by {
      RFindLast(p, ExtSep);
      assert ext[1..] == p[dotIndex + 1..];
    }
    assert Sep !in ext by {
      RFindLast(p, Sep);
      NotInSuffix(p, sepIndex + 1, dotIndex, Sep);
    }
  }

  /** What `splitext` may return as an extension. */
  predicate ExtensionShape(ext: string) {
    ext == "" || (ext[0] == ExtSep && ExtSep !in ext[1..] && Sep !in ext)
  }

  /** A character missing from a suffix is missing from every shorter suffix. */
  lemma NotInSuffix(s: string, i: nat, j: nat, c: char)
    requires i <= j <= |s| && c !in s[i..]
    ensures c !in s[j..]
  {
    assert s[j..] == s[i..][j - i..];
  }

  /**
   * A name whose only dots lead it, such as `.zip` or `..zip`, has no
   * extension: the stem is the whole name.
   */
  lemma LeadingDotsAreNoExtension(dots: string, rest: string)
    requires |dots| > 0 && AllDots(dots)
    requires ExtSep !in rest && Sep !in rest && Sep !in dots
    ensures SplitExt(dots + rest) == (dots + rest, "")
  {
    var p := dots + rest;
    RFindLast(p, Sep);
    RFindLast(p, ExtSep);
    var dotIndex := RFind(p, ExtSep);
    assert p[0] == ExtSep;
    assert Sep !in p;
    assert AllDots(p[..dotIndex]);
  }

  /** A relative name without separators is the base name of what it is joined to. */
  lemma JoinBasename(a: string, b: string)
    requires b != "" && Sep !in b
    ensures StartsWith(Join(a, b), a)
    ensures Basename(Join(a, b)) == b
  {
    assert !StartsWith(b, [Sep]) by {
      assert b[0] != Sep;
    }
    if a == "" {
      LastPieceFree(b, Sep);
    } else if EndsWith(a, [Sep]) {
      var a' := a[..|a| - 1];
      assert a == a' + [Sep];
      LastPieceAfter(a', Sep, b);
      assert (a + b)[..|a|] == a;
    } else {
      LastPieceAfter(a, Sep, b);
      assert (a + [Sep] + b)[..|a|] == a;
    }
  }

  /** `RFind` gives -1 exactly when there is no `c`. */
  lemma {:induction false} RFindAbsent(s: string, c: char)
    requires c !in s
    ensures RFind(s, c) == -1
    decreases |s|
  {
    if |s| > 0 {
      RFindAbsent(s[..|s| - 1], c);
    }
  }

  /** A `c` followed by text without `c` is the last `c`. */
  lemma {:induction false} RFindAfter(x: string, c: char, y: string)
    requires c !in y
    ensures RFind(x + [c] + y, c) == |x|
    decreases |y|
  {
    var s := x + [c] + y;
    if |y| > 0 {
      var y' := y[..|y| - 1];
      assert s[..|s| - 1] == x + [c] + y';
      RFindAfter(x, c, y');
    }
  }
}
