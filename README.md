# Stardew Valley mod installer, modelled in Dafny

A model of the decision logic in `main.py` of the Stardew Valley mod
installer, a Qt desktop tool. The tool installs mods from ZIP archives into
the game's `Mods` folder, lists the installed mods, and deletes them. The
model covers the parts of that file that decide something:

- **Top-level folder detection** (`ModInstallWorker._has_top_level_folder`).
  It decides whether an archive already wraps its files in one folder.
- **Extraction root** (`ModInstallWorker.run`).
  - An archive with a top folder is extracted into the mods folder itself.
  - Any other archive goes into `<mods folder>/<archive name without extension>`.
  - The checks `install_mod` makes before starting the worker are modelled too.
- **Mod labels** (`get_mod_info`). These come from the folder name and the
  mod's `manifest.json`: its `Name` and the Nexus id found among its `UpdateKeys`.
- **Installed-mod list** (`refresh_installed_mods`). It lists the folders in
  the mods folder, sorted, and builds one labelled item per folder.
- **Batch deletion** (`delete_selected_mods`). It removes each selected mod
  folder with `rmtree`, counting successes and failures without stopping.
- **Start-up folder choice** (`load_settings`, `auto_find_mods_folder`). The
  saved folder is used if it exists. Otherwise the first existing candidate
  is taken: six Steam folders, then `%APPDATA%`.
- **Drop filter** (`drop_event`, `drag_enter_event`). Only paths ending in
  `.zip`, in any case, are installed, in the order they were dropped.

The modules are:

- **PyStr** (`py_str.dfy`): the `str` methods used. These are `startswith`,
  `endswith`, `split` on one character, `split(c)[-1]` and ASCII `lower`.
- **OsPath** (`os_path.dfy`): `basename`, `join` and `splitext` over one
  separator.
- **Wrappers** (`wrappers.dfy`): `Option`.
- **InstallWorker** (`install_worker.dfy`): the worker's decision, and
  `install_mod`'s checks.
- **ModInfo** (`mod_info.dfy`): the labels.
- **ModListing** (`mod_listing.dfy`): the directory filter and the string
  order and sort of the listing.
- **FileSystem** (`file_system.dfy`): a `Disk` class holding the set of
  directory paths, and `rmtree`.
- **Installer** (`installer.dfy`): the window's state as a class
  `StardewModInstaller`. It holds `mods_folder`, the saved setting and the
  mod list, and its methods change them.

The loops of the source are methods with loops. The entry scan and the
Nexus-key scan stop early; the others run to the end:

- the scan over archive entries;
- the scan for the Nexus key;
- the directory filter;
- the loop that builds the list;
- the candidate search;
- the drop loop;
- the deletion loop.

Each is proved equal to a function or a state relation. The properties in
the table below are proved about those functions and states.

One point is easy to get wrong. A one-entry archive is sometimes described
as having no shared top folder. The code
(`main.py:115-121`) returns true for `["Mod/a.txt"]`, because the loop over
the entries after the first one is empty. The model follows the code, and
`InstallWorker.OneEntryArchives` states it.

## Model

| member | source | states |
|---|---|---|
| PyStr.IndexOfFirst | main.py:112 | the position `split` cuts at holds the separator and no separator comes before it |
| PyStr.SplitPieces | main.py:112-114 | no piece of `split(c)` holds `c`, and there is more than one piece exactly when `c` occurs |
| PyStr.SplitJoinRoundTrip | main.py:112 | joining the pieces of `split(c)` with `c` gives back the string |
| PyStr.SplitHead | main.py:112-116 | a string that holds `c` starts with its first piece followed by `c` |
| PyStr.SplitHeadUnique | main.py:112-119 | a string starting with `t + c`, where `t` has no `c`, has more than one piece and its first piece is `t` |
| PyStr.IndexOfUnique | main.py:112 | after a prefix `t + c` with no `c` in `t`, the first `c` comes right after `t` |
| PyStr.LastPieceIsTail | main.py:559 | `split(c)[-1]` holds no `c`, is a suffix of the string, and follows a `c` when there is one |
| PyStr.LastPieceAfter | main.py:559 | for `x + c + y` with no `c` in `y`, `split(c)[-1]` is `y` |
| PyStr.LastPieceIsLastSplit | main.py:559 | `LastPiece` is the last of the pieces `split(c)` gives |
| PyStr.LastPieceFree | main.py:90-91 | a string without `c` is its own last piece, so a path without separators is its own base name |
| PyStr.LastPieceDropsPrefix | main.py:559 | everything up to and including a `c` does not change `split(c)[-1]` |
| PyStr.LowerChar | main.py:416 | `lower()` on one character: no upper-case ASCII letter remains, other characters are unchanged, and `A`-`Z` map to `a`-`z` |
| PyStr.LowerAt | main.py:428 | `lower()` maps each character independently |
| PyStr.LowerSuffix | main.py:428 | lower-casing then taking a suffix is taking the suffix then lower-casing |
| OsPath.Basename | main.py:90-91 | `basename` holds no separator, is a suffix of the path, and follows a separator when the path has one |
| OsPath.RFindLast | main.py:90-91 | the last-occurrence search used by `splitext` finds a `c` with no `c` after it |
| OsPath.RFindHit | main.py:90-91 | the position found holds the character searched for |
| OsPath.RFindNoneAfter | main.py:90-91 | nothing after the position found is the character searched for |
| OsPath.RFindAbsent | main.py:90-91 | the search reports -1 when the character does not occur |
| OsPath.RFindAfter | main.py:90-91 | in `x + c + y` with no `c` in `y`, the search finds the `c` right after `x` |
| OsPath.SplitExtParts | main.py:90-91 | the two parts of `splitext` concatenate to the path, and the extension is empty or one `.` followed by neither `.` nor a separator |
| OsPath.SplitExtCutsAtLastDot | main.py:90-91 | a name `stem + '.' + ext`, with no `.` or separator in `ext`, no separator in `stem` and some non-dot character in `stem`, splits into `stem` and `'.' + ext` |
| OsPath.ExtensionAfterLastDot | main.py:90-91 | the text from the last `.` after the last separator is a well-formed extension |
| OsPath.LeadingDotsAreNoExtension | main.py:90-91 | a name such as `.zip`, whose only dots lead it, has no extension |
| OsPath.JoinBasename | main.py:92 | `join(a, name)` for a name without separators starts with `a` and has `name` as its base name |
| InstallWorker.HasTopLevelFolder | main.py:105-122 | the scan returns exactly `SharesTopFolder`: false for no entries, false when the first entry has no `/`, else true iff every later entry starts with the first segment and `/` |
| InstallWorker.TopFolderCharacterized | main.py:105-122 | the verdict holds iff there are entries and some name without `/` has every entry inside it; both directions |
| InstallWorker.TopFolderUnique | main.py:110-113 | the wrapping folder is unique when it exists |
| InstallWorker.LooseFirstEntry | main.py:110-122 | a first entry without `/` rules out a top folder whatever follows |
| InstallWorker.OutsiderBreaksTopFolder | main.py:118-120 | one later entry outside `top + '/'` rules out a top folder |
| InstallWorker.OneEntryArchives | main.py:115-122 | `["Mod/a.txt"]` has a top folder; `["a.txt"]` does not |
| InstallWorker.SiblingIsOutside | main.py:118-120 | `ModX/y` is not inside top folder `Mod` |
| InstallWorker.ArchiveStemIsName | main.py:90-91 | the archive stem holds no separator |
| InstallWorker.ArchiveStemOfZip | main.py:90-91 | the archive `<folder>/<stem>.zip` gets the mod name `<stem>`, for any stem without separators that is not all dots |
| InstallWorker.ExtractionRootNamedAfterArchive | main.py:84-96 | without a top folder the root starts with the mods folder and its base name is the archive stem |
| InstallWorker.ExtractionRootIgnoresArchiveFolder | main.py:84-96 | the root depends on the archive's file name, not on the folder it came from, so reinstalling targets the same folder |
| InstallWorker.WrappedArchiveExample | main.py:84-86 | an archive whose entries all lie in `CoolMod/` is extracted into the mods folder itself |
| InstallWorker.LooseArchiveExample | main.py:88-96 | `loose.zip` holding `a.json` and `b.json` is extracted into `Mods/loose` |
| InstallWorker.InstallMod | main.py:72-103 | the outcome is `InstallPlan`: `install_mod`'s two checks, then the I/O error raised or the extraction root the worker's `run` picks |
| InstallWorker.ChecksBeforeExtraction | main.py:447-458 | a missing file gives the not-found outcome and only it, a non-ZIP file the invalid-archive outcome and only it; an archive is installed iff it is a ZIP and extraction raises nothing |
| ModInfo.FindNexusId | main.py:555-561 | the early-exit loop returns the id of the first Nexus key, or `""` |
| ModInfo.FirstNexusKeyIsFirst | main.py:557-561 | a Nexus key is found iff one exists, and it is one with no Nexus key before it |
| ModInfo.NexusIdIgnoresLater | main.py:558-561 | keys after the first Nexus key are ignored, even when its id is empty |
| ModInfo.NexusIdSkipsOthers | main.py:558 | non-string keys and keys not starting with `Nexus:` in front change nothing |
| ModInfo.NexusIdIsKeyTail | main.py:559 | the id holds no `:` and the key ends with `:` and the id |
| ModInfo.NexusIdExamples | main.py:558-561 | `Nexus:123` gives `123`; a first key `Nexus:` gives no id even with `Nexus:123` after it |
| ModInfo.GetModInfo | main.py:538-570 | the label is `ModLabel`: the folder name without a manifest, folder name plus reason on failure, else name with the Nexus id |
| ModInfo.UnreadableLabel | main.py:568-570 | a failed parse is shown as the folder name followed by the reason, never equal to the plain folder name |
| ModInfo.ParsedLabel | main.py:552-566 | a parsed manifest is shown under `Name` or `未知名称`, with `(id)` appended exactly when the id is non-empty |
| ModInfo.LabelIgnoresParentFolder | main.py:542-545 | without a readable manifest the label depends only on the folder's own name |
| ModListing.BelowTotal | main.py:522 | the string order used by `sort` is total |
| ModListing.BelowTrans | main.py:522 | the string order is transitive |
| ModListing.BelowAntisym | main.py:522 | strings ordered both ways are equal |
| ModListing.BelowRefl | main.py:522 | the string order is reflexive |
| ModListing.InsertPermutes | main.py:522 | inserting adds exactly one element |
| ModListing.InsertSorted | main.py:522 | inserting into an ascending list keeps it ascending |
| ModListing.SortedCons | main.py:522 | an element below all of an ascending list can go in front |
| ModListing.SortNamesSortsAndPermutes | main.py:522 | sorting gives an ascending permutation of its input |
| ModListing.SortedUnique | main.py:522 | two ascending permutations of each other are equal |
| ModListing.DirNamesMembers | main.py:513-520 | the filter keeps exactly the listed entries whose joined path is a directory |
| ModListing.DirNamesCount | main.py:513-520 | each directory entry is kept as often as it is listed |
| ModListing.DirNamesPermutes | main.py:513-520 | relisting the same entries in another order keeps the same directories |
| ModListing.ListModFolders | main.py:512-522 | the loop and sort give the sorted directory entries: ascending, exactly the directories, one per listed directory |
| ModListing.ListingIgnoresListdirOrder | main.py:512-522 | the sorted listing does not depend on the order `os.listdir` returns |
| Installer.ExistingOfAppend | main.py:348-358 | keeping the existing candidates commutes with concatenation |
| Installer.FirstExistingIsEarliest | main.py:360-362 | the chosen folder exists and no earlier candidate exists; there is none iff no candidate exists |
| Installer.StardewModInstaller.AutoFindModsFolder | main.py:335-369 | the folder set and saved is the first existing candidate, Steam folders before AppData; the prompt iff none exists, with nothing changed |
| Installer.StardewModInstaller.LoadSettings | main.py:323-333 | a saved existing folder is kept; otherwise auto-discovery decides, and the stale saved value stays when it finds nothing |
| Installer.IsZipPathCaseInsensitive | main.py:416 | a path passes the archive test iff it ends with `.` then `z`, `i`, `p` in either case |
| Installer.ZipPathsMembers | main.py:426-429 | the drop keeps exactly the archive paths |
| Installer.ZipPathsAppend | main.py:425-429 | the filter keeps the drop order: filtering two runs one after the other gives the first run's kept paths, then the second's |
| Installer.AcceptedDropInstallsAll | main.py:411-429 | when the drag test accepted the drop (at least one path, all archives), all of the paths are installed in order |
| Installer.StardewModInstaller.DropEvent | main.py:419-429 | warning iff no mods folder; otherwise the archive paths in drop order are installed |
| Installer.ModItemsAt | main.py:524-529 | each list item is the folder joined to the mods folder, labelled from its manifest |
| Installer.BuildModItems | main.py:524-529 | the loop builds one labelled item per mod folder, in order |
| Installer.RefreshedListsDirectories | main.py:512-531 | a refreshed list shows exactly the directories of the mods folder, in name order, each by its joined path, and counts them |
| Installer.StardewModInstaller.RefreshInstalledMods | main.py:501-536 | the list is cleared, then filled as `Refreshed` says when the folder is set, exists and can be listed; the logged count is the number of items |
| Installer.StardewModInstaller.DeleteSelectedMods | main.py:577-631 | no change when nothing is selected or when the question is answered No. Otherwise: deleted plus failed equals the number selected; deleted counts the `Removed` outcomes; a removed or missing folder is no longer a directory; a selected path that was not a directory at the start counts as missing, and one that was, and lies under no earlier selected folder, does not; a failed `rmtree` leaves the folder in place unless a later selected folder contains it; no directory appears; a directory outside every selected folder stays; the list is refreshed |
| FileSystem.Disk.RemoveTree | main.py:611-613 | `rmtree` removes the folder and everything below it, or fails having removed only part of that and keeping the folder itself |

## Left out

- The Qt user interface is not modelled. This covers widgets, styles, message boxes, the progress bar, the log text and its timestamps, the tutorial and the confirmation text. It is presentation only.
- The `QThread` worker, its signals and the completion callback `on_installation_finished` are not modelled. The worker's decision is `InstallWorker.InstallPlan`, and the refresh after a successful install is a separate `RefreshInstalledMods` call.
- Reading and extracting ZIP archives, `is_zipfile` and `os.makedirs` are inputs. They become `ArchiveProbe` (missing, not a ZIP, or the entry names) and an optional I/O error. Where extraction puts each file, including entries that leave the target folder, is not modelled.
- `json5` parsing is an input. It becomes `ManifestProbe`: no file, the error message, or a `Name` and a list of `UpdateKeys`.
- ModInfo.GetModInfo: a `Name` that is not a string, such as JSON `null` or a number, is not modelled. With a Nexus id it is formatted into the label; without one the value itself is returned, not a string.
- ModInfo.GetModInfo: an `UpdateKeys` value that is not a list is not modelled. One that cannot be iterated, such as `null` or a number, makes the loop raise, and the parse-failure label is shown; a string or an object is iterated by character or by key.
- `QSettings` is a field (`savedFolder`). `closeEvent` saving it again, `change_mods_folder`, `show_folder_prompt`'s dialog, `manual_select_mod` and `open_mods_folder` are left out, because each only passes a dialog's answer on or calls the desktop shell.
- `os.getenv('APPDATA')` is a string parameter. Python raises when it is unset, and that case is not modelled.
- `os.path.exists` is a set of existing paths. `refresh_installed_mods` tests the mods folder against the directory set instead, so a mods folder that is a plain file is treated as missing. In both cases the list ends up empty.
- Paths use one separator, `/`. Windows also accepting `\`, and `basename` splitting on it, is not modelled. The Steam candidates are kept verbatim and joined with `/`.
- `lower()` is restricted to ASCII letters.
- `mods.sort()` is the function `SortNames`, an insertion sort proved to give the unique ascending permutation. The in-place list update is not modelled.
- FileSystem.Disk.RemoveTree: which part of the folder's contents a failing `rmtree` deletes is left open; only the folder itself is known to stay.
- Installer.StardewModInstaller.DeleteSelectedMods: `selectedItems()` is a parameter, and the refresh afterwards takes the new directory listing as a parameter.
