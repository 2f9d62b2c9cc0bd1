/**
 * The few operations of Python's `str` that the installer relies on, over
 * `seq<char>`: `startswith`, `endswith`, `split` with a one-character
 * separator, `split(c)[-1]`, and `lower()` restricted to ASCII letters.
 */
module PyStr {

  /** `s.startswith(p)` */
  predicate StartsWith(s: string, p: string) {
    |p| <= |s| && s[..|p|] == p
  }

  /** `s.endswith(p)` */
  predicate EndsWith(s: string, p: string) {
    |p| <= |s| && s[|s| - |p|..] == p
  }

  /** `s.index(c)`: the position of the first `c` in `s`. */
  function IndexOf(s: string, c: char): (i: nat)
    requires c in s
    ensures i < |s|
  {
    if s[0] == c then 0 else 1 + IndexOf(s[1..], c)
  }

  /** `IndexOf` finds a `c`, and no `c` comes before it. */
  lemma {:induction false} IndexOfFirst(s: string, c: char)
    requires c in s
    ensures s[IndexOf(s, c)] == c && c !in s[..IndexOf(s, c)]
  {
    if s[0] != c {
      IndexOfFirst(s[1..], c);
      var i := IndexOf(s[1..], c);
      assert s[..i + 1] == [s[0]] + s[1..][..i];
    }
  }

  /**
   * `s.split(c)`: the pieces between the occurrences of `c`, empty pieces
   * included, so there is always one more piece than there are separators.
   */
  function Split(s: string, c: char): (parts: seq<string>)
    ensures |parts| >= 1
    decreases |s|
  {
    if c !in s then [s]
    else
      var i := IndexOf(s, c);
      [s[..i]] + Split(s[i + 1..], c)
  }

  /**
   * No piece holds the separator, and there is more than one piece exactly
   * when the separator occurs.
   */
  lemma {:induction false} SplitPieces(s: string, c: char)
    ensures forall k :: 0 <= k < |Split(s, c)| ==> c !in Split(s, c)[k]
    ensures |Split(s, c)| > 1 <==> c in s
    decreases |s|
  {
    if c in s {
      var i := IndexOf(s, c);
      IndexOfFirst(s, c);
      SplitPieces(s[i + 1..], c);
    }
  }

  /** `c.join(parts)` */
  function JoinWith(parts: seq<string>, c: char): string
    decreases |parts|
  {
    if |parts| == 0 then ""
    else if |parts| == 1 then parts[0]
    else parts[0] + [c] + JoinWith(parts[1..], c)
  }

  /**
   * `s.split(c)[-1]`: the text after the last `c`, or all of `s` when it has
   * none, built from the end of `s`.
   */
  function LastPiece(s: string, c: char): string
    decreases |s|
  {
    if |s| == 0 || s[|s| - 1] == c then ""
    else LastPiece(s[..|s| - 1], c) + [s[|s| - 1]]
  }

  /** `LastPiece` is the last piece `Split` gives. */
  lemma {:induction false} LastPieceIsLastSplit(s: string, c: char)
    ensures LastPiece(s, c) == Split(s, c)[|Split(s, c)| - 1]
    decreases |s|
  {
    if c !in s {
      LastPieceFree(s, c);
    } else {
      var i := IndexOf(s, c);
      IndexOfFirst(s, c);
      var rest := s[i + 1..];
      LastPieceIsLastSplit(rest, c);
      assert s == s[..i] + [c] + rest;
      LastPieceDropsPrefix(s[..i], c, rest);
    }
  }

  /** A string without `c` is its own last piece. */
  lemma {:induction false} LastPieceFree(s: string, c: char)
    requires c !in s
    ensures LastPiece(s, c) == s
    decreases |s|
  {
    if |s| > 0 {
      LastPieceFree(s[..|s| - 1], c);
      assert s == s[..|s| - 1] + [s[|s| - 1]];
    }
  }

  /** Everything up to and including a `c` does not matter to the last piece. */
  lemma {:induction false} LastPieceDropsPrefix(x: string, c: char, y: string)
    ensures LastPiece(x + [c] + y, c) == LastPiece(y, c)
    decreases |y|
  {
    var s := x + [c] + y;
    if |y| > 0 && y[|y| - 1] != c {
      var y' := y[..|y| - 1];
      assert s[..|s| - 1] == x + [c] + y';
      LastPieceDropsPrefix(x, c, y');
    }
  }

  /** One character of `str.lower()`, for the ASCII letters only. */
  function LowerChar(ch: char): (r: char)
    ensures !('A' <= r <= 'Z')
    ensures !('A' <= ch <= 'Z') ==> r == ch
    ensures 'A' <= ch <= 'Z' ==> 'a' <= r <= 'z' && r as int - ch as int == 'a' as int - 'A' as int
  {
    if 'A' <= ch <= 'Z' then (ch as int - 'A' as int + 'a' as int) as char else ch
  }

  /** `s.lower()`, restricted to ASCII. */
  function Lower(s: string): (r: string)
    ensures |r| == |s|
  {
    if |s| == 0 then "" else [LowerChar(s[0])] + Lower(s[1..])
  }

  /** `Lower` works character by character. */
  lemma {:induction false} LowerAt(s: string, i: nat)
    requires i < |s|
    ensures Lower(s)[i] == LowerChar(s[i])
  {
    if i > 0 {
      LowerAt(s[1..], i - 1);
    }
  }

  /** Lower-casing the end of a string lower-cases its suffix. */
  lemma {:induction false} LowerSuffix(s: string, k: nat)
    requires k <= |s|
    ensures Lower(s)[k..] == Lower(s[k..])
    decreases k
  {
    if k > 0 {
      LowerSuffix(s[1..], k - 1);
      assert s[1..][k - 1..] == s[k..];
    }
  }

  /** Splitting and joining again gives back the original string. */
  lemma {:induction false} SplitJoinRoundTrip(s: string, c: char)
    ensures JoinWith(Split(s, c), c) == s
    decreases |s|
  {
    if c in s {
      var i := IndexOf(s, c);
      var rest := Split(s[i + 1..], c);
      assert JoinWith(rest, c) == s[i + 1..] by {
        SplitJoinRoundTrip(s[i + 1..], c);
      }
      assert JoinWith(Split(s, c), c) == s[..i] + [c] + JoinWith(rest, c) by {
        assert Split(s, c)[1..] == rest;
      }
      assert s == s[..i] + [c] + s[i + 1..] by {
        IndexOfFirst(s, c);
      }
    }
  }

  /** A prefix `t + [c]` with `c` not in `t` puts the first `c` right after `t`. */
  lemma IndexOfUnique(s: string, t: string, c: char)
    requires c !in t && StartsWith(s, t + [c])
    ensures c in s && IndexOf(s, c) == |t|
  {
    assert s[|t|] == (t + [c])[|t|];
    var i := IndexOf(s, c);
    IndexOfFirst(s, c);
    assert s[..|t|] == t;
  }

  /** The first piece of a string that holds `c` is what comes before its first `c`. */
  lemma SplitHead(s: string, c: char)
    requires c in s
    ensures StartsWith(s, Split(s, c)[0] + [c])
  {
    var i := IndexOf(s, c);
    IndexOfFirst(s, c);
    assert s[..i + 1] == s[..i] + [c];
  }

  /** Conversely, a prefix `t + [c]` with `c` not in `t` fixes the first piece as `t`. */
  lemma SplitHeadUnique(s: string, t: string, c: char)
    requires c !in t && StartsWith(s, t + [c])
    ensures |Split(s, c)| > 1 && Split(s, c)[0] == t
  {
    IndexOfUnique(s, t, c);
    SplitPieces(s, c);
    assert s[..|t|] == (t + [c])[..|t|] == t;
  }

  /**
   * The last piece is the text after the last `c`: it holds no `c`, `s` ends
   * with it, and when `s` holds a `c` that `c` comes right before it.
   */
  lemma {:induction false} LastPieceIsTail(s: string, c: char)
    ensures c !in LastPiece(s, c)
    ensures EndsWith(s, LastPiece(s, c))
    ensures c in s ==> EndsWith(s, [c] + LastPiece(s, c))
    decreases |s|
  {
    if |s| > 0 {
      var p, x := s[..|s| - 1], s[|s| - 1];
      if x == c {
        assert s[|s| - 1..] == [c];
      } else {
        LastPieceIsTail(p, c);
        var t := LastPiece(p, c);
        assert LastPiece(s, c) == t + [x];
        LastPieceSnocFacts(s, p, x, t, c);
      }
    }
  }

  /** The step of `LastPieceIsTail` for a last character other than `c`. */
  lemma LastPieceSnocFacts(s: string, p: string, x: char, t: string, c: char)
    requires s == p + [x] && x != c
    requires c !in t && EndsWith(p, t) && (c in p ==> EndsWith(p, [c] + t))
    ensures c !in t + [x]
    ensures EndsWith(s, t + [x])
    ensures c in s ==> EndsWith(s, [c] + (t + [x]))
  {
    EndsWithSnoc(p, t, x);
    if c in p {
      EndsWithSnoc(p, [c] + t, x);
      assert [c] + t + [x] == [c] + (t + [x]);
    }
  }

  /** Appending the same character to a string and to its suffix keeps the suffix. */
  lemma EndsWithSnoc(p: string, t: string, x: char)
    requires EndsWith(p, t)
    ensures EndsWith(p + [x], t + [x])
  {
    assert (p + [x])[|p| - |t|..] == p[|p| - |t|..] + [x];
  }

  /** When `s` ends with `c` followed by text without `c`, that text is the last piece. */
  lemma {:induction false} LastPieceAfter(x: string, c: char, y: string)
    requires c !in y
    ensures LastPiece(x + [c] + y, c) == y
    decreases |y|
  {
    var s := x + [c] + y;
    if |y| > 0 {
      var y' := y[..|y| - 1];
      assert s[..|s| - 1] == x + [c] + y';
      LastPieceAfter(x, c, y');
      assert y == y' + [y[|y| - 1]];
    }
  }
}
