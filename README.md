# Mod-Manager updater logic in Dafny

This project models the parts of Mod-Manager that can be stated precisely. Mod-Manager is a
desktop mod manager for games, together with the self-updaters that shipped with its
successive releases. The model covers six groups of behaviour:

- **Version tags** (`Versions`, `UpdateCheck`):
  - the 1.0.9 normalisation and integer-list comparison of release tags;
  - the 1.0.3 `compare_versions`;
  - the 1.0.2 literal tag check;
  - the state one update check leaves in the settings and the status dot.
- **Release assets** (`Assets`):
  - updater 1.1's name search, which takes an exact match first and then a substring match;
  - the 1.0.9 lookup of `update.exe`, which accepts an exact match only;
  - which updater the 1.0.9 mod manager launches.
- **Streaming downloads** (`Downloads`): the four download loops and what each one writes,
  counts and reports. An HTTP body is a given sequence of byte chunks. The destination file
  is a `Destination` object that the loop updates.
- **Merging `resources.zip`** (`FileTree`, `Merge`):
  - the installer's per-member merge;
  - updater 1.1's staged copy-over;
  - updater 1.2's extract-then-move.

  Each works on a directory tree `map<Path, Entry>` held by a `Disk` object.
- **Replacing executables** (`Disk`, `Replace`, `Swap`, `Install`). A `Disk` knows which
  files a running process still holds, and for how many more sleeps. It also knows whether
  the system is Windows, where `os.rename` never replaces an existing file. The sequences
  modelled are:
  - updater 1.1's `atomic_replace`, its `.new` replacement, its bounded wait for Mod-Manager
    to exit, and its watcher script;
  - `do_swap` of the 1.0.9 mod manager;
  - updater 1.0's wait-then-swap;
  - the 1.0.2 `update_exe`;
  - the installer's `run`;
  - updater 1.2's `start_update`.
- **Mod folders** (`ModFolders`):
  - the `DISABLED_` toggle of each version and the displayed name;
  - the enabled and total counts;
  - each version's "More than 1 mod enabled!" rule;
  - the three-column item grid.

Every loop and every step-by-step sequence of the source is a `method` on `Disk`,
`Destination` or `UpdateUi`. Each is proved against a function of the old state. The
properties are proved about those functions.

## Model

| member | source | states |
|---|---|---|
| Versions.SemverNormalize | modmanager.py:100-107 | The result is `None` exactly when the tag is missing or empty; otherwise it is no longer than the tag |
| Versions.NormalizeDropsOneV | modmanager.py:104-106 | Exactly one leading 'v' or 'V' is removed, and the rest of the tag is kept verbatim |
| Versions.NormalizeKeepsPlain | modmanager.py:104-107 | A stripped tag that does not start with 'v' or 'V' comes back unchanged |
| Versions.NormalizeTwiceOnDoubleV | modmanager.py:104-106 | "vv1" normalises to "v1" and that to "1": only one 'v' goes per call |
| Versions.DigitPieces | modmanager.py:117-118 | Only all-digit pieces are kept; there are no more numbers than pieces, and none is negative |
| Versions.NewerIrreflexive | modmanager.py:116-119 | A version is never newer than itself |
| Versions.NewerAsymmetric | modmanager.py:116-119 | No two versions are each newer than the other |
| Versions.NewerTransitive | modmanager.py:116-119 | "Newer" is transitive |
| Versions.NewerComparesNumbers | modmanager.py:116-119 | "1.0.10" is newer than "1.0.9" and not the other way round: segments compare as numbers |
| Versions.NewerStrictPrefix | modmanager.py:116-119 | "1.2.0" is newer than "1.2": a strict prefix compares smaller |
| Versions.NewerSkipsNonDigitSegments | modmanager.py:117-119 | Segments that are not all digits are dropped, so "1.0" is newer than "1.0-beta" |
| Versions.ParseInts | old_versions/1.0.3/modmanager.py:410-411 | A parsed list has one number per piece, and each is what `int()` makes of that piece |
| Versions.ParseIntsValues | old_versions/1.0.3/modmanager.py:410-411 | When `int()` reads every piece, the list is exactly the numbers it reads, in order |
| Versions.CompareVersionsAsymmetric | old_versions/1.0.3/modmanager.py:408-414 | `compare_versions` never holds both ways, and never for equal strings |
| Versions.CompareVersionsRejectsText | old_versions/1.0.3/modmanager.py:409-414 | A segment of the latest tag that `int()` rejects makes the answer false |
| Versions.CompareVersionsAgreesWithFallback | old_versions/1.0.3/modmanager.py:408-412 | On tags made of plain numbers, the 1.0.3 comparison agrees with the 1.0.9 fallback |
| Versions.VersionIntsThree | old_versions/1.0.3/modmanager.py:410-411 | A tag "vX.Y.Z" of single digits, such as the running "v1.0.3", parses as [X, Y, Z] |
| Versions.VersionIntsJoinedGroups | old_versions/1.0.3/modmanager.py:410-411 | A tag "vX.Y_Z" parses as [X, YZ]: the underscore joins the digit groups of one segment |
| Versions.CompareVersionsReadsUnderscore | old_versions/1.0.3/modmanager.py:408-412 | Version 1.0.3 finds the tag "v1.0_4" newer than itself, because `int()` reads "0_4" as 4 |
| Versions.CheckForUpdate103Cases | old_versions/1.0.3/modmanager.py:416-422 | No tag, or the running version's own tag, leaves the dot red; a tag that turns it green is one the running version is not newer than |
| Versions.LatestTag103 | old_versions/1.0.3/modmanager.py:400-406 | The tag is `None` exactly when the request failed, and otherwise it holds no '/' |
| Versions.LatestTagRoundTrip | old_versions/1.0.3/modmanager.py:403 | A redirect URL ending in "/tag" yields exactly that tag |
| Versions.ReleaseAssetUrl | old_versions/1.0.3/modmanager.py:428 | Every asset URL starts with the repository's release-download prefix |
| Versions.ReleaseAssetUrlSegments | old_versions/1.0.1/modmanager.py:440-452 | The URL's last two '/'-segments give back the tag and the file name |
| Versions.UpdateAvailable102Literal | oldversions/1.0.2/modmanager.py:399-412 | The release tagged "v.1.0.2" is no update, while any other tag is one, even the older "v.1.0.1", which the 1.0.9 comparison rejects |
| UpdateCheck.TagOf | modmanager.py:625 | The tag is `tag_name` unless that is missing, null or empty; then it is `name` |
| UpdateCheck.InstalledVersion | modmanager.py:627 | Without a "version" setting the script's own "1.0.9" is used; otherwise the setting's value |
| UpdateCheck.CheckStatus | modmanager.py:620-636 | A failed fetch shows "Unable to check". Otherwise the dot is green exactly when both normalised versions are non-empty and the tag is newer, with the label "Update available (tag)"; otherwise "Up to date" |
| UpdateCheck.StoredTag | modmanager.py:629 | The stored setting reads back as the tag, or as null without one |
| UpdateCheck.UpdateUi.CheckUpdatesAndUpdateUi | modmanager.py:619-636 | A failed fetch changes no setting and saves nothing. A successful one stores the tag and saves once, whatever the outcome. The installed version is never changed |
| UpdateCheck.NoUpdateToSameVersion | modmanager.py:626-628 | A release tagged with the installed version is never offered |
| UpdateCheck.UpdateAvailableAsymmetric | modmanager.py:626-628 | If release a is an update over installed b, then b is no update over a |
| UpdateCheck.DefaultVersionDecides | modmanager.py:627-628 | With no version setting, "v1.0.10" is an update and "v1.0.9" is not |
| UpdateCheck.NoTagNoUpdate | modmanager.py:625-628 | No usable tag, or a null or empty version setting, never reports an update |
| Assets.FirstExact | old_updater/1.1/update.py:46-49 | The index of the first asset whose lower-cased name equals the expected name; `None` when no asset matches |
| Assets.FirstContaining | old_updater/1.1/update.py:51-54 | The index of the first asset whose lower-cased name contains the expected name; `None` when none does |
| Assets.FindAssetByName | old_updater/1.1/update.py:44-55 | The asset found contains the lower-cased expected name, and `None` comes back exactly when no asset name contains it |
| Assets.ExactBeatsEarlierSubstring | old_updater/1.1/update.py:46-54 | An exact match is chosen over an earlier asset whose name merely contains the expected name |
| Assets.SubstringFallback | old_updater/1.1/update.py:50-55 | Without any exact match, the first containing name is chosen |
| Assets.FindUpdateExeUrl | modmanager.py:696-700 | The loop returns the URL of the first asset named exactly "update.exe" in any case, and the URL comes from such an asset |
| Assets.OnlyExactInModManager | modmanager.py:697-700 | An asset "update.exe.zip" gives no URL in 1.0.9, while updater 1.1's search finds it |
| Assets.ChooseUpdater | modmanager.py:658-671 | update_new.exe is preferred, then update.exe; the updater is downloaded exactly when neither exists |
| Assets.DownloadUpdaterOutcome | modmanager.py:689-719 | The downloaded updater is launched exactly when a release was fetched, its "update.exe" asset has a non-empty URL, and the download succeeded |
| Downloads.UntilEmpty | modmanager.py:150-153 | The chunks read form a prefix of the body, none of them empty; they stop just before the first empty chunk |
| Downloads.NonEmpty | old_updater/1.1/update.py:66-67 | Only non-empty chunks pass the filter |
| Downloads.NonEmptyKeepsBytes | old_updater/1.1/update.py:66-68 | Skipping empty chunks loses no byte |
| Downloads.RunningTotals | modmanager.py:155 | After each chunk the counter is the total length of the chunks written so far |
| Downloads.RunningTotalsEnd | modmanager.py:154-155 | The last count reported is the number of bytes in the file |
| Downloads.RunningTotalsIncrease | old_updater/1.1/update.py:67-71 | Without empty chunks the reported counts strictly increase |
| Downloads.HeaderTotal109 | modmanager.py:144-145 | The total is known exactly when the Content-Length header is present and all digits |
| Downloads.HeaderTotal | old_updater/1.1/update.py:63 | A missing header gives 0, and an all-digit one its value |
| Downloads.HeaderTotalUnderscore | update.py:77 | A Content-Length of digit groups joined by an underscore, such as "1_0", is read as the number its digits spell |
| Downloads.HeaderTotalRejectsLetter | update.py:77 | A Content-Length holding a letter, or another character `int()` refuses inside a literal, gives no total |
| Downloads.Percent | update.py:84 | The percentage is 0 when the total is 0 |
| Downloads.PercentInRange | update.py:84 | While the count does not exceed the total, the percentage is between 0 and 100, and it is 100 exactly at the total |
| Downloads.PercentMonotone | update.py:84 | A larger count never shows a smaller percentage |
| Downloads.DownloadUrlToPath | modmanager.py:136-164 | No response or an error status returns false and leaves the file alone. Otherwise the file holds the chunks read up to the first empty one, and the callback receives each running count. A callback call that raises is swallowed exactly when it is among the calls made, and the download goes on unchanged. The result is true exactly when the loop ended normally |
| Downloads.ReadUntilEnd | modmanager.py:150-160 | The read loop writes exactly the chunks before the first empty one and reports their running totals. A raising callback is caught without changing the file or the counts. A read that fails ends the loop with false |
| Downloads.DownloadFile11 | old_updater/1.1/update.py:57-72 | A missing response, an error status or a malformed Content-Length raises before the file is opened. Otherwise the non-empty chunks up to a raising callback are written and counted |
| Downloads.WriteChunks11 | old_updater/1.1/update.py:65-71 | The file holds the chunks written before and including the one whose callback raised, and the counts are their running totals |
| Downloads.DownloadFileInstaller | update.py:74-86 | The same failures as 1.1. Otherwise every byte is written, and after each non-empty chunk the progress bar shows the percentage of the total |
| Downloads.WriteWithProgress | update.py:80-85 | The file ends with every chunk, and after chunk i the progress bar shows the percentage of the running total after that chunk |
| Downloads.DownloadFile12 | old_updater/1.2/update.py:15-24 | There is no status check and no empty-chunk filter. With the header missing and a callback given, the first chunk is written and then division by zero raises. Otherwise every chunk is written and each percentage reported |
| Downloads.WriteChunks12 | old_updater/1.2/update.py:18-24 | The loop raises exactly when a callback is given, the total is 0 and a chunk arrives; otherwise the file holds every chunk |
| Disk.IsFileLockedIff | old_updater/1.0/update.py:30-38 | The rename probe reports "locked" exactly for a path that exists and is held |
| Disk.MoveSucceeds | old_updater/1.1/update.py:135 | A successful `shutil.move` leaves the source's bytes at the target, the source gone and nothing else changed |
| Disk.Frames | old_updater/1.1/update.py:132-143 | `os.remove`, `shutil.copy2` and `shutil.move` touch only the paths they name |
| Disk.Disk.Move | old_updater/1.1/update.py:135 | A rename, with copy-then-remove as the fallback, ending where `MoveF` says |
| Disk.TicksRelease | old_updater/1.0/update.py:13-14 | Sleeping longer never makes a path held |
| Merge.InstallerUnzipAndMerge | update.py:89-102 | The disk ends as the members' steps, run in order and stopping at the first failure, leave it |
| Merge.InstallerStripsResources | update.py:93-95 | Split at '/', a member under a top-level "resources" folder in any letter case loses exactly that one level |
| Merge.InstallerKeepsOtherTop | update.py:93-95 | A member whose first component is not "resources" keeps all its components |
| Merge.InstallerTargetBySlash | update.py:93-96 | Split at '/', "resources/" + rest and rest land at the same place, `dest` + rest's components, on either system |
| Merge.InstallerKeepsWrapperOnWindows | update.py:93-96 | Split at Windows' `os.sep`, a member under "resources/" keeps that folder inside the destination |
| Merge.InstallerWindowsExample | update.py:93-96 | On Windows "resources/a.png" lands at dest/resources/a.png when split at '\\', and at dest/a.png when split at '/' |
| Merge.InstallerWrites | update.py:97-102 | A directory member writes nothing; a file member writes only its own target, with its own bytes |
| Merge.InstallerLastWins | update.py:97-102 | After a successful merge, the last file member aimed at a path decides its bytes |
| Merge.InstallerLeavesOthers | update.py:97-102 | Entries that no file member is aimed at keep their content |
| Merge.InstallerIdempotent | update.py:89-102 | Merging the same archive again over the result changes nothing |
| Merge.Pieces | old_updater/1.1/update.py:80 | Extraction keeps only plain name components, so no member climbs out of its folder |
| Merge.ResolveStaysBelow | old_updater/1.1/update.py:80 | Without "..", a path never leaves the folder it starts from |
| Merge.ExtractedIsFile | old_updater/1.2/update.py:27-28 | After a successful `extractall`, every file member is a file at its path |
| Merge.ExtractLastWins | old_updater/1.2/update.py:27-28 | The last file member at a path decides the bytes extracted there |
| Merge.UnzipTo11 | old_updater/1.1/update.py:74-93 | Without overwrite, a plain extraction. With it, a failed staging changes nothing; otherwise the staged files are copied over `dest`, stopping at the first failure |
| Merge.CopyStaged | old_updater/1.1/update.py:82-89 | The copy loop runs each staged member's steps in order |
| Merge.UnzipToLands | old_updater/1.1/update.py:77-91 | After a successful run every archive file is in `dest`, with the bytes staged for it, where `shutil.copy2` puts it |
| Merge.UnzipToLeavesOthers | old_updater/1.1/update.py:82-89 | Files of `dest` that the archive does not hold survive the merge unchanged |
| Merge.UnzipToIdempotent | old_updater/1.1/update.py:74-91 | Unzipping the same archive over its own result changes nothing more |
| Merge.UnzipAndMerge12 | old_updater/1.2/update.py:26-42 | The disk and the result are those of `UnzipAndMerge12F`: extraction, then the listing loop with the same folder as source and target. `pick` stands for the order `os.listdir` returns |
| Merge.UnzipAndMerge12Cases | old_updater/1.2/update.py:26-42 | A failed extraction stops the merge. No nested folder, or an empty one, gives success with the extracted tree. A file in its place fails, since `os.listdir` raises. A folder with items fails after the first listed item, which is deleted exactly when it can be |
| Merge.DroppedItemCannotMove | old_updater/1.2/update.py:35-40 | Once the listed item has been deleted as its own target, it is gone, and `shutil.move` of it raises and changes nothing |
| Merge.NestedResourcesListed | old_updater/1.2/update.py:29-34 | A file member under "resources/" makes the nested folder a directory with an item to list, so the failing branch is taken |
| Merge.UnzipAndMerge12Fixed | old_updater/1.2/update.py:26-42 | The corrected merge: the archive's "resources" folder is flattened into `extract_to`, as in the installer's merge split at '/' |
| Replace.AtomicReplace | old_updater/1.1/update.py:130-143 | The disk ends where `AtomicReplaceF` says: remove `dst`, then move; on failure, copy and remove |
| Replace.AtomicReplaceSound | old_updater/1.1/update.py:130-143 | Success means the source file is gone and its bytes are where the move or copy put them |
| Replace.FallbackOnlyIntoDirectory | old_updater/1.1/update.py:137-143 | The fallback copy only succeeds where `dst` is a directory, and the file then lands inside it |
| Replace.AtomicReplaceSucceeds | old_updater/1.1/update.py:132-136 | A file moves onto a free path, or onto an unheld file, in an existing directory, whenever neither path is held |
| Replace.KillAndWait | old_updater/1.1/update.py:420-426 | The kill is sent exactly after a first "running" answer. The number of sleeps is `WaitSleeps`, and the number of calls follows from it. The tree is unchanged, and the holds on files lapse by one step per sleep. `task_install` runs the same loop at lines 357-364 |
| Replace.PollWhileRunning | old_updater/1.1/update.py:422-426 | The polling loop sleeps `PollSleeps` times and makes one call more, unless it used every poll. Each sleep lets the holds lapse one step |
| Replace.PollSleepsMeaning | old_updater/1.1/update.py:422-426 | Every poll before the last one answered "running". The last answered "not running" unless all polls were used |
| Replace.KillAndWaitCalls | old_updater/1.1/update.py:420-426 | Between 1 and 13 calls are made. Without a kill there is one call and no sleep. Every call before the last answered "running", and the last answered "not running" unless all 13 were made |
| Replace.ReplaceViaNew | old_updater/1.1/update.py:428-443 | The disk ends where `ReplaceViaNewF` says |
| Replace.ReplaceViaNewInstalls | old_updater/1.1/update.py:430-443 | A successful replacement leaves the download's bytes at modmanager.exe, no `.new` file, and nothing else changed |
| Replace.StaleNewCopyCleared | old_updater/1.1/update.py:430-436 | A successful replacement found no `.new` left after the first removal |
| Replace.TaskUpdateExe | old_updater/1.1/update.py:403-468 | The disk and the outcome are those of `TaskUpdateExeF`. The holds have lapsed by the sleeps of the kill-and-wait step, which runs exactly when modmanager.exe is there, and the steps after the wait see the lapsed holds |
| Replace.UpdateExeBody | old_updater/1.1/update.py:410-466 | The disk and the outcome are those of `UpdateExeBodyF`. The holds have lapsed by the kill-and-wait step's sleeps (`HoldsAfterBody`) |
| Replace.FreshTempEmpty | old_updater/1.1/update.py:409 | Nothing lies below a fresh temporary directory, and creating it adds only it |
| Replace.CleanUpRestores | old_updater/1.1/update.py:467-468 | Removing the temporary directory gives back the tree the update started from, when nothing outside it changed |
| Replace.CleanUpKeeps | old_updater/1.1/update.py:467-468 | The `finally` clause touches nothing outside the temporary directory |
| Replace.TaskUpdateExeNeedsModManager | old_updater/1.1/update.py:414-417 | Without an installed modmanager.exe `task_update_exe` raises, and the disk is as it was |
| Replace.UpdateExeBodySteps | old_updater/1.1/update.py:411-446 | A body that does not raise got through the download and the replacement. It continues with the self-update exactly when the release has an update.exe asset |
| Replace.ReplacedKeeps | old_updater/1.1/update.py:428-443 | Replacing modmanager.exe keeps every other path outside the temporary directory |
| Replace.SelfUpdateKeeps | old_updater/1.1/update.py:445-463 | The self-update touches no entry of the install folder other than update.exe, update.exe.new and the script |
| Replace.SelfUpdateLands | old_updater/1.1/update.py:451-460 | On the exit for the watcher, the new updater waits at update.exe.new, update.exe is untouched and the script is written |
| Replace.TaskUpdateExeReplaces | old_updater/1.1/update.py:428-466 | A task that does not raise leaves the download at modmanager.exe and no `.new` file, whichever way it ends |
| Replace.TaskUpdateExeSchedules | old_updater/1.1/update.py:451-460 | A task that exits for the watcher leaves the new updater at update.exe.new beside an untouched update.exe, with the script in place |
| Replace.Watcher | old_updater/1.1/update.py:509-550 | The script loops until the target is gone, which happens once no process holds it; the disk then ends where `WatcherEndF` says |
| Replace.WatcherInstalls | old_updater/1.1/update.py:537-543 | Once the target is gone, the new file's bytes are at the target, no new file is left, an unheld script is deleted, and nothing else changes |
| Replace.WatcherWithoutNewFile | old_updater/1.1/update.py:538-542 | Without the new file, the target is still deleted and nothing takes its place |
| Swap.DoSwap | modmanager.py:731-750 | The disk and the status are those of `DoSwapF` |
| Swap.DoSwapInstalls | modmanager.py:743-746 | An installed swap leaves update_new.exe's bytes at update.exe and no update_new.exe. Apart from update_old.exe, nothing else changes |
| Swap.DoSwapWithoutNew | modmanager.py:733-748 | Without update_new.exe nothing is installed. update.exe is gone afterwards exactly when it was absent or an unheld file |
| Swap.ProbeLocked | old_updater/1.0/update.py:30-38 | The probe answers `IsFileLocked` and changes nothing |
| Swap.WaitWhileLocked | old_updater/1.0/update.py:13-14 | The loop ends, having only slept, once the path is absent or no longer held |
| Swap.Updater10Main | old_updater/1.0/update.py:7-28 | After the wait an existing modmanager.exe is no longer held; the disk and exit status are those of `Swap10F` |
| Swap.Swap10Replaces | old_updater/1.0/update.py:16-20 | Exit status 0 leaves modmanager_new.exe's bytes at modmanager.exe, no modmanager_new.exe, and nothing else changed |
| Swap.Swap10Succeeds | old_updater/1.0/update.py:16-28 | With an unheld modmanager_new.exe and a modmanager.exe that is neither held nor a directory, the run ends with status 0 |
| Swap.Swap10WithoutNew | old_updater/1.0/update.py:17-28 | Without modmanager_new.exe, modmanager.exe is deleted whenever it can be, nothing replaces it, and the exit status is 1 |
| Swap.Swap10RemoveFails | old_updater/1.0/update.py:17-24 | A remove that fails ends with status 1 before anything changed |
| Swap.UpdateExe102 | oldversions/1.0.2/modmanager.py:430-444 | The disk and the result are those of `UpdateExe102F`: write the download, rename the program to `.bak`, rename the download into its place |
| Swap.UpdateExe102Fixed | oldversions/1.0.2/modmanager.py:430-444 | The corrected sequence: as the original, with a stale `.bak` removed first |
| Swap.UpdateExe102FirstTime | oldversions/1.0.2/modmanager.py:435-440 | Without an old backup, the update goes through: the download runs as the program, and the old program is the backup |
| Swap.UpdateExe102BlockedByBackup | oldversions/1.0.2/modmanager.py:438-440 | On Windows an old backup makes every later update fail, leaving only modmanager_new.exe behind |
| Swap.UpdateExe102FixedGoesThrough | oldversions/1.0.2/modmanager.py:438-440 | With the stale backup removed first, the update goes through on every system |
| Install.Fetch | update.py:74-86 | The disk ends where `FetchF` says: no file after a failed request, the body otherwise |
| Install.BackupAsWritten | update.py:155 | The rewrite keeps the number of path components |
| Install.BackupOf | update.py:155 | The corrected backup name has the same number of components and the same folder |
| Install.BackupBeside | update.py:154-159 | The corrected backup of modmanager.exe sits in its folder under a name other than its own, update_new.exe and resources.zip |
| Install.BackupAsWrittenMisplaced | update.py:154-157 | A folder on the path whose name contains ".exe" moves the backup to another folder. When that folder does not exist the swap fails, leaving the old program in place |
| Install.ReplaceExe | update.py:154-159 | The disk ends where `ReplaceExeF` says |
| Install.ReplaceExeInstalls | update.py:154-159 | A successful swap leaves the new program at modmanager.exe, no backup, and nothing else changed |
| Install.ReplaceExeSucceeds | old_updater/1.2/update.py:125-136 | The swap goes through when the download succeeds, nothing involved is held or a directory, and an old backup is out of the way |
| Install.InstallerRun | update.py:127-180 | The disk and the status are those of `InstallerRunF`, the program as written. Its merge splits member names at `os.sep`, and its backup name replaces ".exe" anywhere in the path |
| Install.InstallResources | update.py:164-168 | The disk ends where `ResourcesF` says, with the merge splitting member names at `os.sep` as written |
| Install.InstallerNoPath | update.py:128-131 | Without a chosen folder nothing is touched |
| Install.PrepareInstalls | update.py:144-159 | With the backup named as written: before the resources, a successful run has the new program at modmanager.exe and no backup. update_new.exe is the one already there, or else the downloaded updater. Nothing else changed |
| Install.BackupAsWrittenApart | update.py:155 | The as-written backup of modmanager.exe is neither modmanager.exe nor update_new.exe |
| Install.ResourcesLeaveOthers | update.py:164-168 | Whatever separator the merge splits at, `os.sep` as written or '/': resources.zip is gone, and entries no archive file targets keep their content |
| Install.InstallerFinishes | update.py:127-180 | A finished run as written leaves the downloaded program at modmanager.exe and no resources.zip |
| Install.InstallerFinishesFixed | update.py:127-180 | The corrected run, which splits at '/' and keeps the backup beside the program, finishes with the same guarantee |
| Install.InstallerRunAgreesOffWindows | update.py:93 | Off Windows, with no folder on the way whose name contains ".exe", the run as written and the corrected run end identically |
| Install.BackupOfSwapSucceeds | update.py:154-159 | With the corrected backup name, the swap goes through whatever the folder is called |
| Install.InstallResources12 | old_updater/1.2/update.py:119-122 | The disk ends where `Resources12F` says: the download, the 1.2 merge as written, and the removal of resources.zip |
| Install.StartUpdate12 | old_updater/1.2/update.py:109-148 | The disk and the status are those of `StartUpdate12F`, the updater as written, with the merge of lines 26-42 |
| Install.StartUpdate12Installs | old_updater/1.2/update.py:119-141 | A finished update as written leaves the downloaded program at modmanager.exe, neither modmanager_old.exe nor resources.zip, and an update_new.exe |
| Install.StartUpdate12FixedInstalls | old_updater/1.2/update.py:119-141 | The same for the update with the corrected merge |
| Install.StartUpdate12NeverFinishes | old_updater/1.2/update.py:119-122 | As written, an archive with a file under "resources/" makes every run end in failure, whatever order `os.listdir` returns |
| Install.StartUpdate12ClearsOldBackup | old_updater/1.2/update.py:126-136 | Even on Windows an old modmanager_old.exe does not block the swap: it is removed first |
| ModFolders.ToggleEffect | modmanager.py:550-553 | On a disabled name the toggle removes exactly the leading prefix; an enabled name gets the prefix |
| ModFolders.ToggleTwice | modmanager.py:550-553 | Toggling twice restores a name exactly when it does not start with "DISABLED_DISABLED_" |
| ModFolders.ToggleFlips | modmanager.py:550-553 | The toggle switches enabled and disabled, except that a name starting with the prefix twice stays disabled |
| ModFolders.ToggleLegacyTwiceEnabled | old_versions/1.0.3/modmanager.py:344-347 | For an enabled name, two legacy toggles restore it exactly when "DISABLED_" does not occur in it |
| ModFolders.ToggleLegacyTwiceDisabled | oldversions/1.0.2/modmanager.py:352-355 | A disabled name with no other "DISABLED_" in it comes back after two legacy toggles |
| ModFolders.ToggleKeepsDisplay | modmanager.py:482-483 | The 1.0.9 toggle never changes the name the mod list shows |
| ModFolders.Enabled | modmanager.py:519 | The kept names are exactly the listed names not starting with "DISABLED_" |
| ModFolders.Counts | modmanager.py:511-519 | A missing folder gives 0 and 0. Otherwise the total is the number of subfolders, at most that many are enabled, and all of them are exactly when none is disabled |
| ModFolders.EnabledUpdate | old_versions/1.0.1/modmanager.py:344-347 | Renaming one subfolder changes the enabled count only by what it does to that folder |
| ModFolders.ToggleDisablesOne | modmanager.py:550-553 | Disabling one enabled mod lowers the enabled count by one and keeps the total |
| ModFolders.WarningsNest | old_versions/1.0.1/modmanager.py:354-358 | Every version warns only above one enabled mod. 1.0.1 warns in fewer cases than 1.0.3 and 1.0.9, which agree with each other. Those warn in fewer cases than 1.0.2, which warns in every category |
| ModFolders.WarningOfCounts | oldversions/1.0.2/modmanager.py:373-383 | A folder with at most one mod never warns, in any version |
| ModFolders.PlaceItems | modmanager.py:389-396 | Item i goes to row i div 3, column i mod 3 |
| ModFolders.GridCellsDistinct | old_versions/1.0.3/modmanager.py:209-216 | No two items share a cell, and every cell lies in one of three columns |
| Text.StripInside | modmanager.py:104 | `strip()` keeps every non-space character, in order |
| Text.Lower | old_updater/1.1/update.py:42 | `lower()` keeps the length. No upper-case ASCII letter is left, every other character is kept, and each upper-case letter becomes its lower-case one |
| Text.LowerIdempotent | old_updater/1.1/update.py:45-47 | Lower-casing an already lower-cased name changes nothing |
| Text.LowerLeavesLower | update.py:94 | A name without upper-case letters, such as "resources", is its own lower case |
| Text.PyIntDigits | old_versions/1.0.3/modmanager.py:410-411 | `int()` reads a digit string as its decimal value |
| Text.PyIntRejectsLetter | old_versions/1.0.3/modmanager.py:410-414 | `int()` rejects text holding a character that is not a digit, an underscore, a sign or surrounding space |
| Text.ReadGroups | old_versions/1.0.3/modmanager.py:410-411 | The digits after the sign are read exactly when they are digit groups joined by single underscores (PEP 515) |
| Text.PyIntSigned | old_versions/1.0.3/modmanager.py:410-411 | A leading '-' negates the value of the digits after it, and a leading '+' keeps it |
| Text.PyIntUnderscore | old_versions/1.0.3/modmanager.py:410-411 | `int()` reads two digit strings joined by one underscore as the number their digits spell, so "1_0" is 10 |
| Text.PyIntRejectsDoubleUnderscore | old_versions/1.0.3/modmanager.py:410-414 | Two underscores in a row make `int()` fail |
| Text.PyIntRejectsEdgeUnderscore | old_versions/1.0.3/modmanager.py:410-414 | An underscore first, last, or right after the sign of the stripped text makes `int()` fail |
| Text.ReplaceAllLonger | update.py:155 | Replacing with a longer string lengthens every string the pattern occurs in |

## Left out

- The GUI is not modelled: PyQt and tkinter widgets, styles, dialogs, timers, threads and the folder watchdog. Labels and colours appear only as the values the check computes.
- Network access is not modelled. A fetched release is a given record, a response is a given status, header and chunk sequence, and a download whose request raises is `None`.
- Process control is not modelled. `taskkill`/`pkill` is a request with no effect of its own. Whether Mod-Manager is running is a given answer per poll. A file held by a running process is released only as sleeps pass.
- A running program that renames its own executable, as the 1.0.2 `update_exe` does, is not counted as holding that file. Windows allows that rename.
- The settings file and `install_path.json` are not modelled: reading, saving and their JSON format. `UpdateUi` counts saves instead.
- Desktop shortcuts, `open_folder`, theme and path settings are not modelled.
- The `packaging.version` branch of `is_version_newer` is not modelled. Only the integer-list fallback is. Its last `except` branch (modmanager.py:120-121) is unreachable here, because `isdigit` in the model accepts ASCII digits only.
- `str.isdigit` and `str.lower` are modelled for ASCII only; `str.isspace` for the ASCII and Latin-1 whitespace. Other Unicode digits, letters and spaces are not modelled.
- `int()` is modelled for base-10 literals of ASCII digits, with an optional sign, single underscores between digits and surrounding whitespace. The other Unicode decimal digits it also accepts are not modelled.
- Disk.RenameF, Disk.IsFileLockedIff, Swap.ProbeLocked, Swap.WaitWhileLocked, Swap.Updater10Main, Swap.Swap10Succeeds: a held path refuses every rename, including the rename onto itself. The 1.0 probe is therefore modelled as if renaming a held file always fails. A file held only because its program is running, which Windows lets be renamed, is not told apart from one held open.
- The order of `os.listdir` is not modelled: `Merge.UnzipAndMerge12` and the 1.2 run take it as a parameter `pick` that names the item listed first.
- Python's float division in the percentages is modelled as exact division truncated toward zero.
- Real zip decoding is not modelled. An archive is an ordered list of members, each a name and its bytes, and a name ending in '/' is a directory.
- Merge.UnzipTo11: the copy loop visits staged files in archive order, not `os.walk` order. The staging folder is a tree of its own, so the removal of the temporary folder is not part of the disk.
- `shutil.rmtree` that fails partway is not modelled. It refuses as a whole when a held file lies below.
- Moving or renaming a directory is not modelled: it always fails. `Replace.Watcher` therefore requires a target that is not a directory.
- Downloads are all or nothing in the filesystem sequences: a download either writes the whole body or raises before creating the file. Partial writes are modelled only in the download loops of `Downloads`.
- The text of the generated .bat and .sh scripts, and the launch flags, are not modelled. The script is written as given bytes, and its loop is modelled by `Replace.Watcher`.
- `subprocess.Popen` of the launched program is not modelled beyond failing when the file is missing.
- The toggle's `os.rename` of the mod folder is not modelled. Only the naming rule is. The model follows the 1.0.9 code: the toggle is not an involution on names starting with "DISABLED_DISABLED_".
- The mod list's "[DISABLED]" label text is not modelled. Only the displayed name is.
- `task_install` and `task_update_resources` of updater 1.1 are not modelled beyond their shared parts: `unzip_to`, the wait loop and the copy steps.
- `update_resources` and `update_exe` of the 1.0.1 and 1.0.3 mod managers are not modelled beyond their URLs. The same holds for `update_resources` of 1.0.2.
- Versions.SemverNormalize: states the emptiness and length facts. The exact result is stated by `NormalizeDropsOneV` and `NormalizeKeepsPlain`.

## Findings

| source | as written | input that shows it | evidently intended | confidence | as-written member | corrected member |
|---|---|---|---|---|---|---|
| update.py:93 | Member names are split at `os.sep`, which is '\\' on Windows, while zip member names always use '/' | On Windows, member "resources/a.png" keeps its "resources" folder and lands at `<resources>/resources/a.png` | The top-level "resources" folder is stripped, and the member lands at `<resources>/a.png` | not executed | Merge.InstallerWindowsExample | Merge.InstallerTargetBySlash |
| old_updater/1.2/update.py:29-30 | The nested and final folders are the same path, so each listed item is deleted as its own target and then cannot be moved | Any archive with a file under "resources/", e.g. "resources/a.png" | The contents of the archive's "resources" folder end up in the install's resources folder | not executed | Install.StartUpdate12NeverFinishes | Merge.UnzipAndMerge12Fixed |
| update.py:155 | The backup name replaces ".exe" in the whole path, folders included | Install folder `C:\Games\tools.exe\`: the backup goes to `C:\Games\tools_old.exe\`, which does not exist, so the rename raises | The backup sits beside modmanager.exe as modmanager_old.exe | not executed | Install.BackupAsWrittenMisplaced | Install.BackupOfSwapSucceeds |
| oldversions/1.0.2/modmanager.py:439 | The `.bak` backup is never removed, and on Windows `os.rename` does not replace an existing file | A second update on Windows: the rename to `modmanager.exe.bak` raises, and the program stays old | Every update replaces the program | not executed | Swap.UpdateExe102BlockedByBackup | Swap.UpdateExe102FixedGoesThrough |
