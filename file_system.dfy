/**
 * The part of the disk the installer looks at and changes: which paths are
 * directories, and `shutil.rmtree`.
 */
module FileSystem {
  import opened PyStr
  import opened OsPath

  /** `d` is the directory `p` itself or lies somewhere below it. */
  predicate Under(d: string, p: string) {
    d == p || StartsWith(d, p + [Sep])
  }

  /** The directories on the disk, by path. Plain files are not tracked. */
  class Disk {
    var dirs: set<string>

    constructor(dirs: set<string>)
      ensures this.dirs == dirs
    {
      this.dirs := dirs;
    }

    /** The directories `rmtree(p)` deletes: `p` and everything below it. */
    function Subtree(p: string): set<string>
      reads this
    {
      set d | d in dirs && Under(d, p)
    }

    /**
     * `shutil.rmtree(p)`: either deletes `p` with everything below it, or
     * raises part-way through, having deleted some of it and nothing else.
     * `p` itself is removed last, so a call that raises leaves it in place.
     */
    method RemoveTree(p: string) returns (ok: bool)
      modifies this
      ensures ok ==> dirs == old(dirs) - old(Subtree(p))
      ensures !ok ==> old(dirs) - old(Subtree(p)) <= dirs <= old(dirs)
      ensures !ok && p in old(dirs) ==> p in dirs
    {
      ok :| true;
      var sub := Subtree(p);
      if ok {
        dirs := dirs - sub;
      } else {
        var left :| left <= sub && (p in sub ==> p in left);
        dirs := dirs - sub + left;
      }
    }
  }
}
