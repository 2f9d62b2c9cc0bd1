/**
 * The decision `ModInstallWorker` makes for one archive: whether the
 * archive already wraps its files in one top-level folder, and so where
 * it is extracted; together with the checks `install_mod` makes before it
 * starts the worker.
 */
module InstallWorker {
  import opened PyStr
  import opened OsPath
  import opened Wrappers

  /** Archive entry names always separate folders with `/`. */
  const EntrySep: char := '/'

  /** The first `/`-segment of the first entry: the only candidate top folder. */
  function CandidateTop(first: string): string {
    Split(first, EntrySep)[0]
  }

  /**
   * What `_has_top_level_folder` decides: there is a first entry, it holds
   * a `/`, and every later entry starts with its first segment and a `/`.
   */
  predicate SharesTopFolder(entries: seq<string>) {
    && |entries| > 0
    && |Split(entries[0], EntrySep)| > 1
    && forall i :: 1 <= i < |entries| ==> StartsWith(entries[i], CandidateTop(entries[0]) + [EntrySep])
  }

  /** `_has_top_level_folder`: the scan over the entries after the first, stopping at the first outsider. */
  method HasTopLevelFolder(fileList: seq<string>) returns (r: bool)
    ensures r == SharesTopFolder(fileList)
  {
    if |fileList| == 0 {
      return false;
    }
    var parts := Split(fileList[0], EntrySep);
    if |parts| > 1 {
      var topFolder := parts[0];
      var i := 1;
      while i < |fileList|
        invariant 1 <= i <= |fileList|
        invariant forall j :: 1 <= j < i ==> StartsWith(fileList[j], topFolder + [EntrySep])
      {
        if !StartsWith(fileList[i], topFolder + [EntrySep]) {
          return false;
        }
        i := i + 1;
      }
      return true;
    }
    return false;
  }

  /** `t` is a folder name, and every entry lies inside folder `t`. */
  predicate IsTopFolderOf(t: string, entries: seq<string>) {
    EntrySep !in t && forall e :: e in entries ==> StartsWith(e, t + [EntrySep])
  }

  /**
   * The scan's verdict, stated without the scan: a non-empty archive whose
   * entries all lie inside one folder. A one-entry archive `Mod/a.txt`
   * qualifies; an empty archive does not.
   */
  lemma TopFolderCharacterized(entries: seq<string>)
    ensures SharesTopFolder(entries) <==> |entries| > 0 && exists t :: IsTopFolderOf(t, entries)
  {
    if SharesTopFolder(entries) {
      var first := entries[0];
      var t := CandidateTop(first);
      SplitPieces(first, EntrySep);
      SplitHead(first, EntrySep);
      assert IsTopFolderOf(t, entries) by {
        forall e | e in entries
          ensures StartsWith(e, t + [EntrySep])
        {
          var i :| 0 <= i < |entries| && entries[i] == e;
        }
      }
    }
    if |entries| > 0 && exists t :: IsTopFolderOf(t, entries) {
      var t :| IsTopFolderOf(t, entries);
      assert entries[0] in entries;
      SplitHeadUnique(entries[0], t, EntrySep);
      assert forall i :: 1 <= i < |entries| ==> entries[i] in entries;
    }
  }

  /** The wrapping folder, when there is one, is unique. */
  lemma TopFolderUnique(entries: seq<string>, t1: string, t2: string)
    requires |entries| > 0 && IsTopFolderOf(t1, entries) && IsTopFolderOf(t2, entries)
    ensures t1 == t2
  {
    assert entries[0] in entries;
    SplitHeadUnique(entries[0], t1, EntrySep);
    SplitHeadUnique(entries[0], t2, EntrySep);
  }

  /** A first entry with no `/` (a loose file) rules out a top folder, whatever follows. */
  lemma LooseFirstEntry(entries: seq<string>)
    requires |entries| > 0 && EntrySep !in entries[0]
    ensures !SharesTopFolder(entries)
  {
    SplitPieces(entries[0], EntrySep);
  }

  /** A later entry that is not under the candidate folder plus `/` rules out a top folder. */
  lemma OutsiderBreaksTopFolder(entries: seq<string>, i: nat)
    requires 1 <= i < |entries|
    requires !StartsWith(entries[i], CandidateTop(entries[0]) + [EntrySep])
    ensures !SharesTopFolder(entries)
  {
  }

  /** The folder named after the archive: its base name without the extension. */
  function ArchiveStem(zipPath: string): string {
    SplitExt(Basename(zipPath)).0
  }

  /**
   * Where `run` extracts: into the mods folder itself when the archive has
   * a top folder, otherwise into `mods_folder/<archive stem>`.
   */
  function ExtractionRoot(entries: seq<string>, zipPath: string, modsFolder: string): string {
    if SharesTopFolder(entries) then modsFolder
    else Join(modsFolder, ArchiveStem(zipPath))
  }

  /** The archive stem is a plain name: it holds no separator. */
  lemma ArchiveStemIsName(zipPath: string)
    ensures Sep !in ArchiveStem(zipPath)
  {
    var base := Basename(zipPath);
    SplitExtParts(base);
    assert ArchiveStem(zipPath) == base[..|ArchiveStem(zipPath)|];
  }

  /**
   * The archive `<folder>/<stem>.zip` is named `<stem>`, for any stem that
   * is not made of dots only.
   */
  lemma ArchiveStemOfZip(folder: string, stem: string)
    requires Sep !in stem && exists k :: 0 <= k < |stem| && stem[k] != ExtSep
    ensures ArchiveStem(folder + [Sep] + stem + ".zip") == stem
  {
    var name := stem + [ExtSep] + "zip";
    assert stem + ".zip" == name;
    assert folder + [Sep] + stem + ".zip" == folder + [Sep] + name;
    assert Sep !in name by {
      assert Sep !in "zip" && Sep != ExtSep;
    }
    LastPieceAfter(folder, Sep, name);
    SplitExtCutsAtLastDot(stem, "zip");
  }

  /**
   * Without a top folder the archive gets a folder of its own inside the
   * mods folder, named after the archive.
   */
  lemma ExtractionRootNamedAfterArchive(entries: seq<string>, zipPath: string, modsFolder: string)
    requires !SharesTopFolder(entries) && ArchiveStem(zipPath) != ""
    ensures StartsWith(ExtractionRoot(entries, zipPath, modsFolder), modsFolder)
    ensures Basename(ExtractionRoot(entries, zipPath, modsFolder)) == ArchiveStem(zipPath)
  {
    ArchiveStemIsName(zipPath);
    JoinBasename(modsFolder, ArchiveStem(zipPath));
  }

  /**
   * The extraction root depends on the archive's file name only, not on the
   * folder it was dropped from: the same archive installed twice lands in
   * the same place.
   */
  lemma ExtractionRootIgnoresArchiveFolder(entries: seq<string>, d1: string, d2: string, name: string, modsFolder: string)
    requires Sep !in name
    ensures ExtractionRoot(entries, d1 + [Sep] + name, modsFolder) == ExtractionRoot(entries, d2 + [Sep] + name, modsFolder)
  {
    LastPieceAfter(d1, Sep, name);
    LastPieceAfter(d2, Sep, name);
  }

  /** What `install_mod` finds at the archive path before starting the worker. */
  datatype ArchiveProbe =
    | Missing                      // `os.path.exists` is false
    | NotZip                       // `zipfile.is_zipfile` is false
    | Zip(entries: seq<string>)    // `namelist()` of the opened archive

  /** How one installation ends. */
  datatype InstallOutcome =
    | NotFound
    | InvalidArchive
    | ExtractionFailed(reason: string)
    | Installed(root: string)

  /**
   * The outcome of `install_mod` followed by the worker's `run`, given what
   * the archive path holds and the error, if any, that creating the folder
   * or extracting raises.
   */
  function InstallPlan(probe: ArchiveProbe, ioError: Option<string>, zipPath: string, modsFolder: string): InstallOutcome {
    match probe
    case Missing => NotFound
    case NotZip => InvalidArchive
    case Zip(entries) =>
      if ioError.Some? then ExtractionFailed(ioError.value)
      else Installed(ExtractionRoot(entries, zipPath, modsFolder))
  }

  /**
   * The checks `install_mod` makes come first: a missing file and a file
   * that is not a ZIP archive each end the installation with their own
   * message, and an archive is installed exactly when it is one and
   * extracting raises nothing.
   */
  lemma ChecksBeforeExtraction(probe: ArchiveProbe, ioError: Option<string>, zipPath: string, modsFolder: string)
    ensures InstallPlan(probe, ioError, zipPath, modsFolder) == NotFound <==> probe == Missing
    ensures InstallPlan(probe, ioError, zipPath, modsFolder) == InvalidArchive <==> probe == NotZip
    ensures InstallPlan(probe, ioError, zipPath, modsFolder).ExtractionFailed? <==> probe.Zip? && ioError.Some?
    ensures InstallPlan(probe, ioError, zipPath, modsFolder).Installed? <==> probe.Zip? && ioError.None?
  {
  }

  /** `install_mod` and the worker's `run`, with the folder test done by the scan. */
  method InstallMod(probe: ArchiveProbe, ioError: Option<string>, zipPath: string, modsFolder: string)
    returns (outcome: InstallOutcome)
    ensures outcome == InstallPlan(probe, ioError, zipPath, modsFolder)
  {
    match probe {
      case Missing =>
        outcome := NotFound;
      case NotZip =>
        outcome := InvalidArchive;
      case Zip(fileList) =>
        var hasTopFolder := HasTopLevelFolder(fileList);
        var root: string;
        if hasTopFolder {
          root := modsFolder;
        } else {
          var modName := SplitExt(Basename(zipPath)).0;
          root := Join(modsFolder, modName);
        }
        if ioError.Some? {
          outcome := ExtractionFailed(ioError.value);
        } else {
          outcome := Installed(root);
        }
    }
  }

  /** A single entry inside a folder counts as a top folder; a single loose file does not. */
  lemma OneEntryArchives()
    ensures SharesTopFolder(["Mod/a.txt"])
    ensures !SharesTopFolder(["a.txt"])
  {
    LooseFirstEntry(["a.txt"]);
    SplitHeadUnique("Mod/a.txt", "Mod", EntrySep);
  }

  /** A sibling folder whose name merely extends the top folder's is outside it. */
  lemma SiblingIsOutside()
    ensures !SharesTopFolder(["Mod/x", "ModX/y"])
  {
    SplitHeadUnique("Mod/x", "Mod", EntrySep);
    assert CandidateTop("Mod/x") == "Mod";
    assert !StartsWith("ModX/y", "Mod" + [EntrySep]) by {
      assert "ModX/y"[3] == 'X';
    }
    OutsiderBreaksTopFolder(["Mod/x", "ModX/y"], 1);
  }

  /**
   * An archive whose two entries both lie in `CoolMod/` is extracted into
   * the mods folder itself, whatever the archive is called.
   */
  lemma WrappedArchiveExample(a: string, b: string, zipPath: string, modsFolder: string)
    ensures ExtractionRoot(["CoolMod/" + a, "CoolMod/" + b], zipPath, modsFolder) == modsFolder
  {
    var top := "CoolMod";
    var first, second := top + [EntrySep] + a, top + [EntrySep] + b;
    assert "CoolMod/" + a == first && "CoolMod/" + b == second;
    assert StartsWith(first, top + [EntrySep]) && StartsWith(second, top + [EntrySep]);
    SplitHeadUnique(first, top, EntrySep);
    assert SharesTopFolder([first, second]);
  }

  /** `loose.zip` holding two bare files is extracted into `Mods/loose`. */
  lemma LooseArchiveExample()
    ensures ExtractionRoot(["a.json", "b.json"], "loose.zip", "Mods") == "Mods/loose"
  {
    LooseFirstEntry(["a.json", "b.json"]);
    LastPieceFree("loose.zip", Sep);
    assert ArchiveStem("loose.zip") == "loose" by {
      RFindAbsent("loose.zip", Sep);
      assert "loose.zip" == "loose" + [ExtSep] + "zip";
      RFindAfter("loose", ExtSep, "zip");
      assert "loose.zip"[0] == 'l';
    }
    assert !StartsWith("loose", [Sep]) && !EndsWith("Mods", [Sep]);
  }
}
