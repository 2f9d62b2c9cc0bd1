/**
 * The list of installed mods `refresh_installed_mods` builds: the entries
 * of the mods folder that are folders, sorted as Python sorts strings.
 */
module ModListing {
  import opened OsPath

  /** `a <= b` for Python strings: lexicographic by code point, a prefix first. */
  predicate Below(a: string, b: string)
    decreases |a|
  {
    |a| == 0 || (|b| > 0 && (a[0] < b[0] || (a[0] == b[0] && Below(a[1..], b[1..]))))
  }

  /** Any two strings are ordered one way or the other. */
  lemma {:induction false} BelowTotal(a: string, b: string)
    ensures Below(a, b) || Below(b, a)
    decreases |a|
  {
    if |a| > 0 && |b| > 0 && a[0] == b[0] {
      BelowTotal(a[1..], b[1..]);
    }
  }

  /** The order is transitive. */
  lemma {:induction false} BelowTrans(a: string, b: string, c: string)
    requires Below(a, b) && Below(b, c)
    ensures Below(a, c)
    decreases |a|
  {
    if |a| > 0 && a[0] == b[0] && b[0] == c[0] {
      BelowTrans(a[1..], b[1..], c[1..]);
    }
  }

  /** Strings ordered both ways are equal. */
  lemma {:induction false} BelowAntisym(a: string, b: string)
    requires Below(a, b) && Below(b, a)
    ensures a == b
    decreases |a|
  {
    if |a| > 0 {
      BelowAntisym(a[1..], b[1..]);
      assert a == [a[0]] + a[1..] && b == [b[0]] + b[1..];
    }
  }

  /** Every string is below itself. */
  lemma {:induction false} BelowRefl(a: string)
    ensures Below(a, a)
    decreases |a|
  {
    if |a| > 0 {
      BelowRefl(a[1..]);
    }
  }

  /** Ascending order. */
  predicate Sorted(s: seq<string>) {
    forall i, j :: 0 <= i < j < |s| ==> Below(s[i], s[j])
  }

  /** `x` placed before the first element it is below. */
  function Insert(x: string, s: seq<string>): seq<string> {
    if |s| == 0 then [x]
    else if Below(x, s[0]) then [x] + s
    else [s[0]] + Insert(x, s[1..])
  }

  /** The order `mods.sort()` leaves the names in, written as insertion sort. */
  function SortNames(s: seq<string>): seq<string> {
    if |s| == 0 then [] else Insert(s[0], SortNames(s[1..]))
  }

  /** Inserting adds exactly `x`. */
  lemma {:induction false} InsertPermutes(x: string, s: seq<string>)
    ensures multiset(Insert(x, s)) == multiset(s) + multiset{x}
  {
    if |s| > 0 && !Below(x, s[0]) {
      InsertPermutes(x, s[1..]);
      assert s == [s[0]] + s[1..];
    }
  }

  /** Inserting into a sorted sequence keeps it sorted. */
  lemma {:induction false} InsertSorted(x: string, s: seq<string>)
    requires Sorted(s)
    ensures Sorted(Insert(x, s))
  {
    if |s| == 0 {
    } else if Below(x, s[0]) {
      forall j | 0 <= j < |s|
        ensures Below(x, s[j])
      {
        if j > 0 {
          BelowTrans(x, s[0], s[j]);
        }
      }
      SortedCons(x, s);
    } else {
      var rest := s[1..];
      InsertSorted(x, rest);
      InsertPermutes(x, rest);
      var tail := Insert(x, rest);
      BelowTotal(x, s[0]);
      forall j | 0 <= j < |tail|
        ensures Below(s[0], tail[j])
      {
        assert tail[j] in multiset(tail);
        if tail[j] != x {
          assert tail[j] in multiset(rest);
          var k :| 0 <= k < |rest| && rest[k] == tail[j];
          assert s[k + 1] == tail[j];
        }
      }
      SortedCons(s[0], tail);
    }
  }

  /** An element below everything in a sorted sequence can go in front of it. */
  lemma SortedCons(x: string, s: seq<string>)
    requires Sorted(s)
    requires forall j :: 0 <= j < |s| ==> Below(x, s[j])
    ensures Sorted([x] + s)
  {
    var r := [x] + s;
    forall i, j | 0 <= i < j < |r|
      ensures Below(r[i], r[j])
    {
      assert r[j] == s[j - 1];
      if i > 0 {
        assert r[i] == s[i - 1];
      }
    }
  }

  /** Sorting gives an ascending sequence with the same elements. */
  lemma {:induction false} SortNamesSortsAndPermutes(s: seq<string>)
    ensures Sorted(SortNames(s))
    ensures multiset(SortNames(s)) == multiset(s)
  {
    if |s| > 0 {
      SortNamesSortsAndPermutes(s[1..]);
      InsertSorted(s[0], SortNames(s[1..]));
      InsertPermutes(s[0], SortNames(s[1..]));
      assert s == [s[0]] + s[1..];
    }
  }

  /**
   * Two ascending sequences with the same elements are the same sequence:
   * the sorted order does not depend on the order the elements came in.
   */
  lemma {:induction false} SortedUnique(a: seq<string>, b: seq<string>)
    requires Sorted(a) && Sorted(b) && multiset(a) == multiset(b)
    ensures a == b
    decreases |a|
  {
    SameLength(a, b);
    if |a| > 0 {
      SortedHeadsEqual(a, b);
      TailsSameElements(a, b);
      SortedTail(a);
      SortedTail(b);
      SortedUnique(a[1..], b[1..]);
      assert a == [a[0]] + a[1..] && b == [b[0]] + b[1..];
    }
  }

  /** Sequences with the same elements have the same length. */
  lemma SameLength(a: seq<string>, b: seq<string>)
    requires multiset(a) == multiset(b)
    ensures |a| == |b|
  {
    assert |a| == |multiset(a)| && |b| == |multiset(b)|;
  }

  /** The tail of an ascending sequence is ascending. */
  lemma SortedTail(a: seq<string>)
    requires Sorted(a) && |a| > 0
    ensures Sorted(a[1..])
  {
    var t := a[1..];
    forall i, j | 0 <= i < j < |t|
      ensures Below(t[i], t[j])
    {
      assert t[i] == a[i + 1] && t[j] == a[j + 1];
    }
  }

  /** Sequences with the same elements and the same head have tails with the same elements. */
  lemma TailsSameElements(a: seq<string>, b: seq<string>)
    requires multiset(a) == multiset(b) && |a| > 0 && |b| > 0 && a[0] == b[0]
    ensures multiset(a[1..]) == multiset(b[1..])
  {
    assert a == [a[0]] + a[1..] && b == [b[0]] + b[1..];
    assert multiset(a[1..]) == multiset(a) - multiset{a[0]};
    assert multiset(b[1..]) == multiset(b) - multiset{b[0]};
  }

  /** Two ascending sequences with the same elements start with the same element. */
  lemma SortedHeadsEqual(a: seq<string>, b: seq<string>)
    requires Sorted(a) && Sorted(b) && multiset(a) == multiset(b) && |a| > 0 && |b| > 0
    ensures a[0] == b[0]
  {
    assert a[0] in multiset(b) && b[0] in multiset(a);
    var i :| 0 <= i < |b| && b[i] == a[0];
    var j :| 0 <= j < |a| && a[j] == b[0];
    assert Below(b[0], a[0]) by {
      if i == 0 {
        BelowRefl(a[0]);
      } else {
        assert Below(b[0], b[i]);
      }
    }
    assert Below(a[0], b[0]) by {
      if j == 0 {
        BelowRefl(a[0]);
      } else {
        assert Below(a[0], a[j]);
      }
    }
    BelowAntisym(a[0], b[0]);
  }

  /**
   * The entries of `folder` whose joined path is a directory, in the order
   * the directory listing gave them.
   */
  function DirNames(folder: string, items: seq<string>, dirs: set<string>): seq<string>
    decreases |items|
  {
    if |items| == 0 then []
    else
      var last := items[|items| - 1];
      DirNames(folder, items[..|items| - 1], dirs) + (if Join(folder, last) in dirs then [last] else [])
  }

  /** Exactly the entries that are directories are kept, each as often as it is listed. */
  lemma {:induction false} DirNamesMembers(folder: string, items: seq<string>, dirs: set<string>)
    ensures forall x :: x in DirNames(folder, items, dirs) <==> x in items && Join(folder, x) in dirs
    ensures |DirNames(folder, items, dirs)| <= |items|
    decreases |items|
  {
    if |items| > 0 {
      var init := items[..|items| - 1];
      DirNamesMembers(folder, init, dirs);
      assert items == init + [items[|items| - 1]];
    }
  }

  /** Each directory entry is kept as often as it is listed, and nothing else is kept. */
  lemma {:induction false} DirNamesCount(folder: string, items: seq<string>, dirs: set<string>, x: string)
    ensures multiset(DirNames(folder, items, dirs))[x] == if Join(folder, x) in dirs then multiset(items)[x] else 0
    decreases |items|
  {
    if |items| > 0 {
      var init, last := items[..|items| - 1], items[|items| - 1];
      DirNamesCount(folder, init, dirs, x);
      assert multiset(items) == multiset(init) + multiset{last} by {
        assert items == init + [last];
      }
      var kept := if Join(folder, last) in dirs then [last] else [];
      assert DirNames(folder, items, dirs) == DirNames(folder, init, dirs) + kept;
      assert multiset(DirNames(folder, items, dirs)) == multiset(DirNames(folder, init, dirs)) + multiset(kept);
    }
  }

  /** A listing that lists the same entries in another order keeps the same directories. */
  lemma DirNamesPermutes(folder: string, items1: seq<string>, items2: seq<string>, dirs: set<string>)
    requires multiset(items1) == multiset(items2)
    ensures multiset(DirNames(folder, items1, dirs)) == multiset(DirNames(folder, items2, dirs))
  {
    forall x
      ensures multiset(DirNames(folder, items1, dirs))[x] == multiset(DirNames(folder, items2, dirs))[x]
    {
      DirNamesCount(folder, items1, dirs, x);
      DirNamesCount(folder, items2, dirs, x);
    }
  }

  /** The loop and sort of `refresh_installed_mods` over what `os.listdir` gave. */
  method ListModFolders(folder: string, items: seq<string>, dirs: set<string>) returns (mods: seq<string>)
    ensures mods == SortNames(DirNames(folder, items, dirs))
    ensures Sorted(mods)
    ensures forall x :: x in mods <==> x in items && Join(folder, x) in dirs
    ensures |mods| == |DirNames(folder, items, dirs)|
  {
    mods := [];
    var i := 0;
    while i < |items|
      invariant 0 <= i <= |items|
      invariant mods == DirNames(folder, items[..i], dirs)
    {
      var item := items[i];
      var itemPath := Join(folder, item);
      if itemPath in dirs {
        mods := mods + [item];
      }
      assert items[..i + 1][..i] == items[..i];
      i := i + 1;
    }
    assert items[..i] == items;
    var found := mods;
    mods := SortNames(mods);
    SortNamesSortsAndPermutes(found);
    DirNamesMembers(folder, items, dirs);
    assert forall x :: x in mods <==> x in multiset(found);
    assert |mods| == |multiset(mods)| == |multiset(found)| == |found|;
  }

  /**
   * The listing shown does not depend on the order `os.listdir` returns the
   * entries in.
   */
  lemma ListingIgnoresListdirOrder(folder: string, items1: seq<string>, items2: seq<string>, dirs: set<string>)
    requires multiset(items1) == multiset(items2)
    ensures SortNames(DirNames(folder, items1, dirs)) == SortNames(DirNames(folder, items2, dirs))
  {
    var d1, d2 := DirNames(folder, items1, dirs), DirNames(folder, items2, dirs);
    DirNamesPermutes(folder, items1, items2, dirs);
    SortNamesSortsAndPermutes(d1);
    SortNamesSortsAndPermutes(d2);
    SortedUnique(SortNames(d1), SortNames(d2));
  }
}
