/**
 * The state `StardewModInstaller` keeps and the operations that change it:
 * choosing the mods folder at start-up, filtering dropped files, rebuilding
 * the list of installed mods and deleting the selected ones.
 */
module Installer {
  import opened PyStr
  import opened OsPath
  import opened Wrappers
  import opened ModInfo
  import opened ModListing
  import opened FileSystem

  /** The Steam install folders tried first, in this order. */
  const SteamRoots: seq<string> := [
    "C:\\Program Files (x86)\\Steam\\steamapps\\common\\Stardew Valley",
    "C:\\Program Files\\Steam\\steamapps\\common\\Stardew Valley",
    "D:\\Program Files (x86)\\Steam\\steamapps\\common\\Stardew Valley",
    "D:\\Program Files\\Steam\\steamapps\\common\\Stardew Valley",
    "E:\\Program Files (x86)\\Steam\\steamapps\\common\\Stardew Valley",
    "E:\\Program Files\\Steam\\steamapps\\common\\Stardew Valley"
  ]

  /** The name of the mods folder inside a game folder. */
  const ModsName: string := "Mods"

  /** The manifest file of a mod folder. */
  const ManifestName: string := "manifest.json"

  /** The extension dropped files must have, compared in lower case. */
  const ZipSuffix: string := ".zip"

  /** The mods folder under `%APPDATA%`, tried last. */
  function AppDataMods(appData: string): string {
    Join(Join(appData, "StardewValley"), ModsName)
  }

  /** The `Mods` path of each Steam folder, in order. */
  function SteamCandidates(roots: seq<string>): (cs: seq<string>)
    ensures |cs| == |roots|
    decreases |roots|
  {
    if |roots| == 0 then []
    else SteamCandidates(roots[..|roots| - 1]) + [Join(roots[|roots| - 1], ModsName)]
  }

  /** Every candidate mods folder, in the order they are tried. */
  function Candidates(appData: string): seq<string> {
    SteamCandidates(SteamRoots) + [AppDataMods(appData)]
  }

  /** The candidates that exist, in order. */
  function ExistingOf(cs: seq<string>, existing: set<string>): seq<string>
    decreases |cs|
  {
    if |cs| == 0 then []
    else ExistingOf(cs[..|cs| - 1], existing) + (if cs[|cs| - 1] in existing then [cs[|cs| - 1]] else [])
  }

  /** Keeping the existing candidates respects how the candidates are cut into parts. */
  lemma {:induction false} ExistingOfAppend(a: seq<string>, b: seq<string>, existing: set<string>)
    ensures ExistingOf(a + b, existing) == ExistingOf(a, existing) + ExistingOf(b, existing)
    decreases |b|
  {
    if |b| == 0 {
      assert a + b == a;
    } else {
      var b' := b[..|b| - 1];
      assert (a + b)[..|a + b| - 1] == a + b';
      ExistingOfAppend(a, b', existing);
    }
  }

  /**
   * The first existing candidate is the earliest candidate that exists: no
   * candidate before it exists. There is none exactly when no candidate
   * exists.
   */
  lemma {:induction false} FirstExistingIsEarliest(cs: seq<string>, existing: set<string>)
    ensures ExistingOf(cs, existing) == [] <==> forall i :: 0 <= i < |cs| ==> cs[i] !in existing
    ensures ExistingOf(cs, existing) != [] ==>
      exists i :: 0 <= i < |cs| && cs[i] == ExistingOf(cs, existing)[0] && cs[i] in existing
        && forall j :: 0 <= j < i ==> cs[j] !in existing
    decreases |cs|
  {
    if |cs| > 0 {
      var init := cs[..|cs| - 1];
      FirstExistingIsEarliest(init, existing);
      assert forall i :: 0 <= i < |init| ==> cs[i] == init[i];
      if ExistingOf(init, existing) == [] && cs[|cs| - 1] in existing {
        assert forall j :: 0 <= j < |cs| - 1 ==> cs[j] !in existing;
      }
    }
  }

  /** One item of the mod list: the label shown and the folder it stands for. */
  datatype ModItem = ModItem(display: string, path: string)

  /** What the manifest of the mod folder `modPath` holds; no entry means no manifest file. */
  function ManifestOf(modPath: string, manifests: map<string, ManifestProbe>): ManifestProbe {
    var manifestPath := Join(modPath, ManifestName);
    if manifestPath in manifests then manifests[manifestPath] else Absent
  }

  /** The list items for the mod folders `mods` of `folder`, in order. */
  function ModItems(folder: string, mods: seq<string>, manifests: map<string, ManifestProbe>): (items: seq<ModItem>)
    ensures |items| == |mods|
    decreases |mods|
  {
    if |mods| == 0 then []
    else
      var modPath := Join(folder, mods[|mods| - 1]);
      ModItems(folder, mods[..|mods| - 1], manifests) + [ModItem(ModLabel(modPath, ManifestOf(modPath, manifests)), modPath)]
  }

  /** Each item is the mod folder at the same position, labelled from its manifest. */
  lemma {:induction false} ModItemsAt(folder: string, mods: seq<string>, manifests: map<string, ManifestProbe>, i: nat)
    requires i < |mods|
    ensures ModItems(folder, mods, manifests)[i].path == Join(folder, mods[i])
    ensures ModItems(folder, mods, manifests)[i].display == ModLabel(Join(folder, mods[i]), ManifestOf(Join(folder, mods[i]), manifests))
    decreases |mods|
  {
    if i < |mods| - 1 {
      ModItemsAt(folder, mods[..|mods| - 1], manifests, i);
    }
  }

  /** The loop of `refresh_installed_mods` that labels each mod folder and adds it to the list. */
  method BuildModItems(folder: string, mods: seq<string>, manifests: map<string, ManifestProbe>)
    returns (list: seq<ModItem>)
    ensures list == ModItems(folder, mods, manifests)
  {
    list := [];
    var i := 0;
    while i < |mods|
      invariant 0 <= i <= |mods|
      invariant list == ModItems(folder, mods[..i], manifests)
    {
      var modPath := Join(folder, mods[i]);
      var modInfo := GetModInfo(modPath, ManifestOf(modPath, manifests));
      list := list + [ModItem(modInfo, modPath)];
      assert mods[..i + 1][..i] == mods[..i];
      i := i + 1;
    }
    assert mods[..i] == mods;
  }

  /** What `os.listdir` gives for the mods folder: its entry names, or the error it raises. */
  datatype Listing = Listed(names: seq<string>) | Unlistable(reason: string)

  /** A mods folder is set: not `None` and not empty. */
  predicate IsSet(folder: Option<string>) {
    folder.Some? && folder.value != ""
  }

  /** The sorted directory names of the mods folder, when it can be listed. */
  function InstalledNames(folder: Option<string>, dirs: set<string>, listing: Listing): Option<seq<string>> {
    if !IsSet(folder) || folder.value !in dirs || listing.Unlistable? then None
    else Some(SortNames(DirNames(folder.value, listing.names, dirs)))
  }

  /** The mod list after a refresh: one item per installed name, or empty when there are none to show. */
  function Refreshed(folder: Option<string>, dirs: set<string>, listing: Listing, manifests: map<string, ManifestProbe>): seq<ModItem> {
    match InstalledNames(folder, dirs, listing)
    case None => []
    case Some(names) => ModItems(folder.value, names, manifests)
  }

  /**
   * A refreshed list shows exactly the directories listed in the mods
   * folder, files left out, each under its joined path, in ascending name
   * order and with as many items as there are such directories.
   */
  lemma RefreshedListsDirectories(folder: string, dirs: set<string>, names: seq<string>, manifests: map<string, ManifestProbe>)
    requires folder != "" && folder in dirs
    ensures var items := Refreshed(Some(folder), dirs, Listed(names), manifests);
      var shown := SortNames(DirNames(folder, names, dirs));
      && Sorted(shown)
      && |items| == |DirNames(folder, names, dirs)|
      && (forall x :: x in shown <==> x in names && Join(folder, x) in dirs)
      && (forall i :: 0 <= i < |items| ==> items[i].path == Join(folder, shown[i]) && items[i].path in dirs)
  {
    var shown := SortNames(DirNames(folder, names, dirs));
    SortNamesSortsAndPermutes(DirNames(folder, names, dirs));
    DirNamesMembers(folder, names, dirs);
    assert forall x :: x in shown <==> x in multiset(DirNames(folder, names, dirs));
    assert |shown| == |multiset(shown)|;
    var items := Refreshed(Some(folder), dirs, Listed(names), manifests);
    forall i | 0 <= i < |items|
      ensures items[i].path == Join(folder, shown[i]) && items[i].path in dirs
    {
      ModItemsAt(folder, shown, manifests, i);
      assert shown[i] in shown;
    }
  }

  /** `path.lower().endswith('.zip')` */
  predicate IsZipPath(path: string) {
    EndsWith(Lower(path), ZipSuffix)
  }

  /** The dropped paths that are installed, in drop order. */
  function ZipPaths(paths: seq<string>): seq<string>
    decreases |paths|
  {
    if |paths| == 0 then []
    else ZipPaths(paths[..|paths| - 1]) + (if IsZipPath(paths[|paths| - 1]) then [paths[|paths| - 1]] else [])
  }

  /** `drag_enter_event` accepts a drag carrying at least one path, all of them archives. */
  predicate AcceptsDrag(paths: seq<string>) {
    |paths| > 0 && forall i :: 0 <= i < |paths| ==> IsZipPath(paths[i])
  }

  /**
   * The archive test ignores case: a path passes exactly when it ends in a
   * dot followed by `z`, `i`, `p`, each in either case.
   */
  lemma IsZipPathCaseInsensitive(path: string)
    ensures IsZipPath(path) <==>
      |path| >= 4 && path[|path| - 4] == '.'
      && path[|path| - 3] in "zZ" && path[|path| - 2] in "iI" && path[|path| - 1] in "pP"
  {
    if |path| >= 4 {
      var n := |path|;
      LowerSuffix(path, n - 4);
      var tail := Lower(path)[n - 4..];
      LowerAt(path, n - 4);
      LowerAt(path, n - 3);
      LowerAt(path, n - 2);
      LowerAt(path, n - 1);
      assert tail[0] == Lower(path)[n - 4] && tail[1] == Lower(path)[n - 3];
      assert tail[2] == Lower(path)[n - 2] && tail[3] == Lower(path)[n - 1];
      assert tail == ZipSuffix <==> tail[0] == '.' && tail[1] == 'z' && tail[2] == 'i' && tail[3] == 'p';
    }
  }

  /** Exactly the archive paths are kept. */
  lemma {:induction false} ZipPathsMembers(paths: seq<string>)
    ensures forall x :: x in ZipPaths(paths) <==> x in paths && IsZipPath(x)
    ensures |ZipPaths(paths)| <= |paths|
    decreases |paths|
  {
    if |paths| > 0 {
      var init := paths[..|paths| - 1];
      ZipPathsMembers(init);
      assert paths == init + [paths[|paths| - 1]];
    }
  }

  /**
   * The drop filter keeps the order of the drop: filtering two runs of
   * paths one after the other gives the kept paths of the first run, then
   * those of the second.
   */
  lemma {:induction false} ZipPathsAppend(a: seq<string>, b: seq<string>)
    ensures ZipPaths(a + b) == ZipPaths(a) + ZipPaths(b)
    decreases |b|
  {
    if |b| == 0 {
      assert a + b == a;
    } else {
      var b' := b[..|b| - 1];
      assert (a + b)[..|a + b| - 1] == a + b';
      ZipPathsAppend(a, b');
    }
  }

  /** Every path of a drag that was accepted is installed, in order. */
  lemma {:induction false} AcceptedDropInstallsAll(paths: seq<string>)
    requires AcceptsDrag(paths)
    ensures ZipPaths(paths) == paths
    decreases |paths|
  {
    var init := paths[..|paths| - 1];
    if |paths| > 1 {
      AcceptedDropInstallsAll(init);
    } else {
      assert init == [];
    }
    assert paths == init + [paths[|paths| - 1]];
  }

  /** What happened to one selected mod folder. */
  datatype DeleteOutcome =
    | Removed        // `rmtree` succeeded
    | NotADirectory  // the path was no longer a directory
    | RemoveFailed   // `rmtree` raised

  /** The result of `delete_selected_mods`. */
  datatype DeleteReport =
    | NothingSelected
    | Cancelled
    | Done(deleted: nat, failed: nat, outcomes: seq<DeleteOutcome>)

  /** How many outcomes are `Removed`. */
  function CountRemoved(outcomes: seq<DeleteOutcome>): (n: nat)
    ensures n <= |outcomes|
    decreases |outcomes|
  {
    if |outcomes| == 0 then 0
    else CountRemoved(outcomes[..|outcomes| - 1]) + (if outcomes[|outcomes| - 1] == Removed then 1 else 0)
  }

  /** `d` lies under one of the first `n` selected folders. */
  predicate UnderSelected(d: string, selected: seq<ModItem>, n: nat)
    requires n <= |selected|
  {
    exists k :: 0 <= k < n && Under(d, selected[k].path)
  }

  /** `d` lies under one of the selected folders after position `k` and before position `n`. */
  predicate RemovedLater(d: string, selected: seq<ModItem>, k: nat, n: nat)
    requires n <= |selected|
  {
    exists j :: k < j < n && Under(d, selected[j].path)
  }

  /** The main window's model: the mods folder, its saved copy, and the mod list. */
  class StardewModInstaller {
    /** `self.mods_folder` */
    var modsFolder: Option<string>
    /** The `mods_folder` value kept by `QSettings`. */
    var savedFolder: Option<string>
    /** The items of `self.mods_list`. */
    var modsList: seq<ModItem>

    /** A window before `load_settings`, with what the settings store holds. */
    constructor(saved: Option<string>)
      ensures modsFolder == None && savedFolder == saved && modsList == []
    {
      modsFolder := None;
      savedFolder := saved;
      modsList := [];
    }

    /** The mods folder is set, in Python's sense of a true value. */
    predicate FolderSet()
      reads this
    {
      IsSet(modsFolder)
    }

    /**
     * `auto_find_mods_folder`: collects the candidates that exist, Steam
     * folders first, and takes the first; without one, the prompt is shown
     * and nothing changes.
     */
    method AutoFindModsFolder(existing: set<string>, appData: string) returns (prompted: bool)
      modifies this
      ensures var found := ExistingOf(Candidates(appData), existing);
        && (prompted <==> found == [])
        && (prompted ==> modsFolder == old(modsFolder) && savedFolder == old(savedFolder))
        && (!prompted ==> modsFolder == Some(found[0]) && savedFolder == modsFolder)
      ensures modsList == old(modsList)
    {
      var possiblePaths: seq<string> := [];
      var i := 0;
      while i < |SteamRoots|
        invariant 0 <= i <= |SteamRoots|
        invariant possiblePaths == ExistingOf(SteamCandidates(SteamRoots[..i]), existing)
      {
        var modsPath := Join(SteamRoots[i], ModsName);
        if modsPath in existing {
          possiblePaths := possiblePaths + [modsPath];
        }
        assert SteamRoots[..i + 1][..i] == SteamRoots[..i];
        i := i + 1;
      }
      assert SteamRoots[..i] == SteamRoots;
      var appDataPath := AppDataMods(appData);
      if appDataPath in existing {
        possiblePaths := possiblePaths + [appDataPath];
      }
      ExistingOfAppend(SteamCandidates(SteamRoots), [appDataPath], existing);
      assert ExistingOf([appDataPath], existing) == ExistingOf([], existing) + (if appDataPath in existing then [appDataPath] else []);
      if |possiblePaths| > 0 {
        modsFolder := Some(possiblePaths[0]);
        savedFolder := modsFolder;
        prompted := false;
      } else {
        prompted := true;
      }
    }

    /**
     * `load_settings`: the saved folder is taken as it is; when it is unset
     * or does not exist, auto-discovery runs, and when that finds nothing
     * too, the saved value stays in place.
     */
    method LoadSettings(existing: set<string>, appData: string) returns (prompted: bool)
      modifies this
      ensures var savedOk := IsSet(old(savedFolder)) && old(savedFolder).value in existing;
        var found := ExistingOf(Candidates(appData), existing);
        && (savedOk ==> !prompted && modsFolder == old(savedFolder) && savedFolder == old(savedFolder))
        && (!savedOk ==> (prompted <==> found == []))
        && (!savedOk && found == [] ==> modsFolder == old(savedFolder) && savedFolder == old(savedFolder))
        && (!savedOk && found != [] ==> modsFolder == Some(found[0]) && savedFolder == modsFolder)
      ensures modsList == old(modsList)
    {
      modsFolder := savedFolder;
      if FolderSet() && modsFolder.value in existing {
        prompted := false;
      } else {
        prompted := AutoFindModsFolder(existing, appData);
      }
    }

    /**
     * `drop_event`: without a mods folder, only the warning; otherwise the
     * dropped archive paths, in order, each handed to `install_mod`.
     */
    method DropEvent(paths: seq<string>) returns (installs: seq<string>, warned: bool)
      ensures warned <==> !FolderSet()
      ensures warned ==> installs == []
      ensures !warned ==> installs == ZipPaths(paths)
    {
      installs := [];
      if !FolderSet() {
        return [], true;
      }
      warned := false;
      var i := 0;
      while i < |paths|
        invariant 0 <= i <= |paths|
        invariant installs == ZipPaths(paths[..i])
      {
        var filePath := paths[i];
        if EndsWith(Lower(filePath), ZipSuffix) {
          installs := installs + [filePath];
        }
        assert paths[..i + 1][..i] == paths[..i];
        i := i + 1;
      }
      assert paths[..i] == paths;
    }

    /**
     * `refresh_installed_mods`: the list is cleared, then, when the mods
     * folder is set, exists and can be listed, filled with one item per
     * directory in it, in name order; the count logged is returned.
     */
    method RefreshInstalledMods(disk: Disk, listing: Listing, manifests: map<string, ManifestProbe>)
      returns (count: Option<nat>)
      modifies this
      ensures modsList == Refreshed(modsFolder, disk.dirs, listing, manifests)
      ensures count.Some? <==> InstalledNames(modsFolder, disk.dirs, listing).Some?
      ensures count.Some? ==> count.value == |modsList|
      ensures modsFolder == old(modsFolder) && savedFolder == old(savedFolder)
    {
      modsList := [];
      if !FolderSet() || modsFolder.value !in disk.dirs {
        return None;
      }
      var folder := modsFolder.value;
      match listing {
        case Unlistable(_) =>
          count := None;
        case Listed(items) =>
          var mods := ListModFolders(folder, items, disk.dirs);
          modsList := BuildModItems(folder, mods, manifests);
          count := Some(|mods|);
      }
    }

    /**
     * `delete_selected_mods`: with nothing selected, or the question
     * answered No, nothing changes. Otherwise every selected folder is
     * handled in turn: one that is still a directory is removed with
     * `rmtree`, one that is not counts as failed, and a failing `rmtree`
     * counts as failed without stopping the loop; then the list is
     * refreshed.
     */
    method DeleteSelectedMods(disk: Disk, selected: seq<ModItem>, confirmed: bool,
                              listing: Listing, manifests: map<string, ManifestProbe>)
      returns (report: DeleteReport)
      modifies this, disk
      ensures selected == [] ==> report == NothingSelected
      ensures selected != [] && !confirmed ==> report == Cancelled
      ensures !report.Done? ==> disk.dirs == old(disk.dirs) && modsList == old(modsList)
      ensures report.Done? ==>
        && selected != [] && confirmed
        && |report.outcomes| == |selected|
        && report.deleted == CountRemoved(report.outcomes)
        && report.deleted + report.failed == |selected|
        && modsList == Refreshed(modsFolder, disk.dirs, listing, manifests)
      ensures report.Done? ==> forall k :: 0 <= k < |selected| ==>
        (report.outcomes[k] == Removed ==> selected[k].path !in disk.dirs)
        && (report.outcomes[k] == NotADirectory ==> selected[k].path !in disk.dirs)
        && (selected[k].path !in old(disk.dirs) ==> report.outcomes[k] == NotADirectory)
        && (selected[k].path in old(disk.dirs) && !UnderSelected(selected[k].path, selected, k) ==>
              report.outcomes[k] != NotADirectory)
        && (report.outcomes[k] == RemoveFailed ==>
              selected[k].path in disk.dirs || RemovedLater(selected[k].path, selected, k, |selected|))
      ensures disk.dirs <= old(disk.dirs)
      ensures forall d :: d in old(disk.dirs) && !UnderSelected(d, selected, |selected|) ==> d in disk.dirs
      ensures modsFolder == old(modsFolder) && savedFolder == old(savedFolder)
    {
      if selected == [] {
        return NothingSelected;
      }
      if !confirmed {
        return Cancelled;
      }
      var deletedCount, failedCount := 0, 0;
      var outcomes: seq<DeleteOutcome> := [];
      var i := 0;
      while i < |selected|
        invariant 0 <= i <= |selected|
        invariant |outcomes| == i
        invariant deletedCount == CountRemoved(outcomes) && deletedCount + failedCount == i
        invariant disk.dirs <= old(disk.dirs)
        invariant forall k :: 0 <= k < i ==>
          (outcomes[k] == Removed ==> selected[k].path !in disk.dirs)
          && (outcomes[k] == NotADirectory ==> selected[k].path !in disk.dirs)
          && (selected[k].path !in old(disk.dirs) ==> outcomes[k] == NotADirectory)
          && (selected[k].path in old(disk.dirs) && !UnderSelected(selected[k].path, selected, k) ==>
                outcomes[k] != NotADirectory)
          && (outcomes[k] == RemoveFailed ==>
                selected[k].path in disk.dirs || RemovedLater(selected[k].path, selected, k, i))
        invariant forall d :: d in old(disk.dirs) && !UnderSelected(d, selected, i) ==> d in disk.dirs
        invariant modsFolder == old(modsFolder) && savedFolder == old(savedFolder)
      {
        var modPath := selected[i].path;
        var outcome: DeleteOutcome;
        if modPath in disk.dirs {
          var ok := disk.RemoveTree(modPath);
          if ok {
            outcome := Removed;
            deletedCount := deletedCount + 1;
          } else {
            outcome := RemoveFailed;
            failedCount := failedCount + 1;
          }
        } else {
          outcome := NotADirectory;
          failedCount := failedCount + 1;
        }
        assert (outcomes + [outcome])[..i] == outcomes;
        outcomes := outcomes + [outcome];
        i := i + 1;
      }
      var _ := RefreshInstalledMods(disk, listing, manifests);
      report := Done(deletedCount, failedCount, outcomes);
    }
  }
}
