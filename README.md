# Backup: a verified model of the weekly snapshot pass

`Backup/Program.cs` is a console tool that, once a week, copies a configured
list of files and directories into a dated snapshot directory
`[yyyy-MM-dd] Backup` under each configured output folder. It copies only
files whose last-write time is later than the copy in the previous snapshot,
and it deletes the oldest snapshots when the volume is short of space. This
project models the decision logic of that pass in Dafny and proves what it
does:

- `filesystem.dfy` (`FileSystem`): paths as sequences of names from the
  volume root; snapshot contents as maps from relative path to entry; an
  output folder as its path, its free bytes and its snapshots in listing
  order; the `File.Exists` / `File.GetLastWriteTime` probe.
- `classifier.dfy` (`Classifier`): `ShouldCopy`, the copy-or-skip decision.
  A tie in last-write time means skip.
- `retention.dfy` (`Retention`): the `goto A` loop that deletes the
  first-listed snapshot while space is short and more than one snapshot is
  listed.
- `mirror.dfy` (`Mirror`): the callback that `IO.CopyDirectory` drives for
  a directory target. The cursor `last` is moved by directory *names*
  (descend, or climb then descend), and each file is classified against the
  cursor. The module proves the following:
  - The cursor stays inside `base\<target>`.
  - It is always named like the directory being copied.
  - It equals the directory reached by relative path, provided the visit
    order is a files-first pre-order and no name repeats along a path.
  - It can go wrong when a directory has its parent's name and a later
    entry follows it.
- `backup.dfy` (`Backup`): the snapshot name, the targets loop, one output
  folder, the whole `Save` pass, and the next-run time that `Main` derives
  from it.
- `visibility.dfy` (`Visibility`): `ShouldShow`, the first line of the
  metadata file matching `^visible:\s*(true|false)\s*$` after lowercasing.

Imperative parts of the source are methods proved against the functions
that specify them:
- `Retention.Evict` is the deletion loop.
- `Mirror.AdvanceCursor` is the climb loop.
- `Backup.BackupTargets` and `Backup.Save` are the `foreach` loops.
- `Mirror.MirrorDirectory` stands for the walk that `IO.CopyDirectory`
  makes, calling the callback of lines 193-218 once per visited entry.

Reading files, deleting and creating directories, and copying bytes are
modelled by their effect on the `Output` value. What the source reads from
the system is passed in as parameters:
- the list of targets, with their times and sizes;
- the visit order of each directory;
- the output folders;
- the free space;
- the clock.

Where what the tool is meant to do and what the code does differ, the
model follows the code:

- **Today's snapshot already exists.** Returning today's 00:01 from `Save`
  (line 174) reads as a retry early the next day, but `Main` adds seven
  days to it (line 39). So the next run comes about a week later
  (`Backup.SameDayDefersAboutAWeek`). The pass also stops at that output
  folder: later folders are not visited (`Backup.Save`).
- **Space still short with at most one snapshot.** The program's own help
  text (lines 137-138) says that it will then "try the other backup
  option". The code raises no error and does not skip this folder: it
  backs up into it anyway, then goes on to the next output folder
  (`Backup.ShortSpaceStillBacksUp`).
- **Output folder without any snapshot.** `base_folder` stays null:
  - Directory targets throw at line 191. The exception is caught at
    line 221.
  - File targets are copied into today's directory before anything has
    created it.
  - So no first snapshot is ever made there
    (`Backup.EmptyOutputNeverBacksUp`).
- **Skipped files.** Skipping an unchanged file reads as keeping the older
  copy as the reference. In the code, a skipped file is absent from the
  new snapshot, and that snapshot is the next pass's base. So take a file
  target whose name no other target shares, skipped as unchanged by a
  pass that made today's snapshot. The next pass does not skip it: it is
  copied, or its copy fails (`Backup.SkippedFileNotSkippedNextPass`). A file target
  listed before every directory target always fails to copy, because
  only a directory target creates today's directory
  (`Backup.CopyFailedExactly`).

## Model

| member | source | states |
|---|---|---|
| FileSystem.FindSnapshot | Backup/Program.cs:170 | the snapshot found has the requested name and is listed; none is found exactly when no listed snapshot has that name |
| FileSystem.FileTime | Backup/Program.cs:232-234 | a time is returned exactly when the path lies in a listed snapshot and names a file there, and it is that file's last-write time |
| Classifier.ShouldCopy | Backup/Program.cs:231-239 | skip exactly when a cursor directory exists, it holds a same-named file, and the candidate is not newer than it |
| Classifier.NoPriorSnapshotCopies | Backup/Program.cs:231-238 | without a cursor directory every file is copied |
| Classifier.TieSkipsNewerCopies | Backup/Program.cs:234-235 | equal last-write times mean skip; any strictly later time means copy |
| Retention.EvictFrom | Backup/Program.cs:160-168 | with `k` snapshots already deleted, the loop deletes up to a count at which space suffices or one snapshot is left, and before that every round saw space short with more than one snapshot left |
| Retention.EvictionCount | Backup/Program.cs:160-168 | the last-listed snapshot is never deleted; on exit space suffices or at most one snapshot is left; no snapshot is deleted once space suffices |
| Retention.Evict | Backup/Program.cs:160-168 | the loop keeps exactly the listing after `EvictionCount` deletions, and the free space is increased by the deleted snapshots' sizes |
| Mirror.Climb | Backup/Program.cs:203-208 | the climb ends at an ancestor-or-self of the cursor that is still inside `base\<target>` |
| Mirror.NextCursor | Backup/Program.cs:199-210 | the new cursor is one level below an ancestor-or-self of the old one, strictly inside `base\<target>`, named like the visited directory; when the parent's name equals the cursor's it is the cursor's child |
| Mirror.AdvanceCursor | Backup/Program.cs:199-210 | the `while` loop computes `NextCursor` |
| Mirror.Step | Backup/Program.cs:193-210 | a file leaves the cursor unchanged and is written exactly when `ShouldCopy` against the cursor says copy; a directory moves the cursor by `NextCursor` and is written |
| Mirror.Traverse | Backup/Program.cs:190-213 | starting at `base\<target>` (line 191) the cursor stays inside it and is named like the directory currently copied; every directory visited is written, and only visited entries are |
| Mirror.MirrorDirectory | Backup/Program.cs:190-213 | the callback loop over the visit order computes `Traverse` |
| Mirror.ReferenceWritten | Backup/Program.cs:193-197 | reference walk by relative path: it writes only visited entries |
| Mirror.ClimbCorresponds | Backup/Program.cs:203-208 | with no repeated names below the target, the climb from the directory corresponding to a descendant-or-self of the visited directory's parent stops exactly at the directory corresponding to that parent |
| Mirror.NextCursorCorresponds | Backup/Program.cs:199-210 | under the same condition one directory callback moves the cursor from the corresponding directory of the current one to that of the visited one |
| Mirror.StepCorresponds | Backup/Program.cs:193-210 | one callback from a corresponding cursor writes what the relative-path walk writes, and leaves the cursor corresponding |
| Mirror.CursorCorresponds | Backup/Program.cs:191-210 | for a files-first pre-order visit order with no repeated names, the cursor is the directory corresponding to the current one and the walk writes exactly what the relative-path walk writes |
| Mirror.UnchangedTreeCopiesNoFile | Backup/Program.cs:193-197 | mirroring a tree whose files are all held, no older, at the corresponding places of the previous snapshot writes only directories |
| Mirror.RepeatedNameMisleadsCursor | Backup/Program.cs:200-201 | for the legitimate pre-order `T\X`, `T\X\X`, `T\X\Z` the cursor ends at `top\X\X\Z` while the corresponding directory is `top\X\Z` |
| Backup.Digits | Backup/Program.cs:169 | a padded number has exactly the given number of decimal digits |
| Backup.DigitsInjective | Backup/Program.cs:169 | padded numbers below the width's power of ten are told apart by their digits |
| Backup.SnapshotName | Backup/Program.cs:169 | the name has 19 characters, starts with `[` and ends with `] Backup`, so the listing pattern `*] Backup` includes it |
| Backup.DigitsValue | Backup/Program.cs:169 | read back in decimal, the padded digits of a number below the width's power of ten give that number |
| Backup.SnapshotNameReads | Backup/Program.cs:169 | the name holds `-` at places 5 and 8, and the year, month and day in decimal at places 1-4, 6-7 and 9-10 |
| Backup.SnapshotNameInjective | Backup/Program.cs:169-170 | different dates give different snapshot names |
| Backup.TodayAtOneMinute | Backup/Program.cs:173-174 | the result is one minute past the midnight that starts the current day |
| Backup.NextRun | Backup/Program.cs:39 | the next run is exactly seven days after the time `Save` returned |
| Backup.SameDayDefersAboutAWeek | Backup/Program.cs:173-174 | with `Main` adding seven days (line 39): when today's snapshot existed, the next run is more than six days and one minute, and at most seven days and one minute, away |
| Backup.Place | Backup/Program.cs:193-209 | a key it adds has at least two components, so no top-level name is added; `Backup.PlaceSpec` states which keys these are |
| Backup.PlaceSpec | Backup/Program.cs:193-209 | every written visit lands under the directory's own name at its relative path; the last visit to a place decides its entry; no other key is added; a key no visit lands on keeps its entry |
| Backup.TargetStep | Backup/Program.cs:183-213 | one iteration records exactly one more result |
| Backup.TargetStepEffect | Backup/Program.cs:183-213 | the earlier results are kept and one is appended; a file is skipped exactly when `ShouldCopy` against the base says skip, fails to copy exactly when today's directory does not exist yet or holds its name, and is otherwise copied with its entry added and every other entry kept; a directory hits the null base exactly when there is none, and is otherwise mirrored, creating today's directory, with `Traverse`'s writes placed by `Place`; nothing but the results changes when nothing is written |
| Backup.RunTargets | Backup/Program.cs:182-226 | the targets loop records one result per target |
| Backup.TargetResultAt | Backup/Program.cs:182-213 | the result of target `i`: skipped exactly when `ShouldCopy` against the base says skip; a failed copy exactly when judged changed while today's directory does not exist or holds its name; copied otherwise; a directory hits the null base exactly when there is none, and is otherwise mirrored with `Traverse`'s writes |
| Backup.MadeByDirectory | Backup/Program.cs:176-213 | today's directory exists after the targets loop exactly when there is a base and some target is a directory |
| Backup.NamesWritten | Backup/Program.cs:182-213 | the names in today's directory are exactly those of the targets copied or mirrored |
| Backup.CopyFailedExactly | Backup/Program.cs:184-189 | `File.Copy` of a file judged changed fails exactly when no earlier directory target (with a base) has created today's directory, or an earlier target of that name was written |
| Backup.BackupTarget | Backup/Program.cs:183-213 | one iteration of the targets loop computes `TargetStep` |
| Backup.BackupFile | Backup/Program.cs:184-189 | a file target: `continue` when `ShouldCopy` says skip, otherwise `File.Copy`, as `TargetStep` states |
| Backup.BackupDirectory | Backup/Program.cs:190-213 | a directory target: the null base, or `IO.CopyDirectory` with the mirror callback, as `TargetStep` states |
| Backup.BackupTargets | Backup/Program.cs:182-226 | the targets loop computes `RunTargets` |
| Backup.NoBaseCopiesNothing | Backup/Program.cs:176-191 | with a null base, today's directory is never created and every target ends at the null base or at a failed copy |
| Backup.TopLevelFromTargets | Backup/Program.cs:189-193 | a top-level entry of today's snapshot comes from a target of that name that was copied or mirrored |
| Backup.ChangedFileNotSkipped | Backup/Program.cs:176-189 | in a pass at one output folder, a file target judged changed against the base is copied or fails to copy, never skipped |
| Backup.Evicted | Backup/Program.cs:160-168 | the folder after the retention loop: the first `EvictionCount` snapshots deleted and their sizes freed; afterwards the space suffices or at most one snapshot is left |
| Backup.BaseOf | Backup/Program.cs:176-180 | `base_folder` is null exactly when no snapshot is listed, and otherwise the output folder's child named after the last-listed snapshot |
| Backup.ProcessOutput | Backup/Program.cs:158-226 | for one output folder: the folder keeps its path, the report gives the retention loop's deletion count, and a pass that reached the targets has one result per target |
| Backup.ProcessOutputSpec | Backup/Program.cs:158-226 | the pass stops exactly when a kept snapshot has today's name, and the listing is then the kept snapshots; otherwise the listing is the kept snapshots, followed by one named for today when today's directory was made |
| Backup.NewestKept | Backup/Program.cs:160-179 | the last-listed snapshot is still listed after a pass at that output folder |
| Backup.DoneShape | Backup/Program.cs:176-226 | a pass that reached the targets ran them against the evicted folder and its last-listed snapshot, and lists the new snapshot last |
| Backup.SaveOutput | Backup/Program.cs:159-226 | the body of the output-folder loop computes `ProcessOutput` |
| Backup.Outcomes | Backup/Program.cs:158 | one outcome per output folder |
| Backup.OutcomesStep | Backup/Program.cs:158 | visiting one more output folder appends its `ProcessOutput` and leaves the earlier outcomes as they were |
| Backup.Save | Backup/Program.cs:155-229 | the outcomes are those of a prefix of the output folders; every one but the last reached the targets; the pass ends early only at a folder already holding today's snapshot; it returns today's 00:01 in that case and the finishing time otherwise |
| Backup.NewestSurvives | Backup/Program.cs:163-179 | the last-listed snapshot, the later base, survives any eviction and is still listed last |
| Backup.SameDayRerunMakesNothing | Backup/Program.cs:169-175 | a second pass the same day, with any space requirement, finds the snapshot made by the first and copies nothing |
| Backup.EmptyOutputNeverBacksUp | Backup/Program.cs:176-191 | an output folder with no snapshot is left unchanged and gets no snapshot; every target ends at the null base or a failed copy |
| Backup.ShortSpaceStillBacksUp | Backup/Program.cs:162-169 | with at most one snapshot, a space shortage deletes nothing and does not stop the targets from being processed |
| Backup.FindNewest | Backup/Program.cs:177-179 | looking up the name of the last-listed snapshot finds it when no earlier one shares its name |
| Backup.SkippedNotInTree | Backup/Program.cs:184-189 | a skipped file target whose name no other target shares has no top-level entry in today's directory |
| Backup.TodayIsNewest | Backup/Program.cs:169-189 | today's snapshot is listed last under a name no kept snapshot has, and lacks a file target that was skipped |
| Backup.NextBaseLacks | Backup/Program.cs:177-179 | the next pass takes today's snapshot as base, and the probe there finds no entry it lacks |
| Backup.SuffixKeepsLastDistinct | Backup/Program.cs:163-179 | when no earlier snapshot shares the last-listed one's name, the same holds after the first snapshots are deleted |
| Backup.NewestLacks | Backup/Program.cs:231-234 | with the last-listed snapshot as base, a name missing from that snapshot's top level has no time there |
| Backup.SkippedFileJudgedChanged | Backup/Program.cs:177-189 | against the next pass's base, the classifier judges a file skipped as unchanged to be changed, whatever its time |
| Backup.SkippedFileNotSkippedNextPass | Backup/Program.cs:177-189 | a file target skipped as unchanged (the tie rule of `ShouldCopy`, lines 231-238) is not skipped by the next pass, whatever its time: it is copied or its copy fails |
| Visibility.LowerLine | Backup/Program.cs:115 | each character of the line is lowercased, the length unchanged |
| Visibility.TrimStart | Backup/Program.cs:116 | the result does not start with white space |
| Visibility.TrimStartSplits | Backup/Program.cs:116 | what is removed at the start is white space and the rest is kept |
| Visibility.TrimEnd | Backup/Program.cs:116 | the result does not end with white space |
| Visibility.TrimEndSplits | Backup/Program.cs:116 | what is removed at the end is white space and the rest is kept |
| Visibility.TrimSplits | Backup/Program.cs:116 | the trimmed middle lies between two runs of white space |
| Visibility.MatchVisible | Backup/Program.cs:116-118 | every verdict is a match of `^visible:\s*(true|false)\s*$` with that group, and every match of the expression is found with its group |
| Visibility.VerdictMatches | Backup/Program.cs:116-118 | a line starting `visible:` whose rest, trimmed, is `true` or `false` matches with that group |
| Visibility.MatchTrims | Backup/Program.cs:116-118 | a match starts `visible:`, and its rest, trimmed, is the group |
| Visibility.NoVerdict | Backup/Program.cs:116-118 | a line the expression does not match gets no verdict |
| Visibility.FirstMatch | Backup/Program.cs:114-122 | no line before the result matches, and the line at the result does |
| Visibility.ShouldShow | Backup/Program.cs:111-126 | true exactly when the first matching line reads `true`; false with no matching line |
| Visibility.ShownByFirstTrue | Backup/Program.cs:111-126 | a shown console comes from a line matching with `true` before which no line matches |
| Visibility.FirstVerdictShows | Backup/Program.cs:111-126 | a line read as `true` with no earlier verdict shows the console |
| Visibility.FirstTrueShows | Backup/Program.cs:111-126 | a line matching with `true` with no earlier matching line shows the console |
| Visibility.ShouldShowByExpression | Backup/Program.cs:111-126 | shown exactly when some line matches with `true` and no earlier line matches |

## Left out

- The console loop of `Main` is not modelled. That covers window showing and hiding, the `Remaining:` countdown, `Thread.Sleep` and the `shown` toggle (lines 23-57). Only the next-run computation at line 39 is modelled. These are UI and OS calls.
- `Validate` (lines 128-153) is not modelled: it only checks that files exist, prompts and exits.
- The configuration readers `ToBackupFilesOrDirectory` and `OutputFolders` (lines 59-109) are not modelled. Their results are parameters: the targets, and the output folders with their paths.
- `IO.CopyDirectory`, `IO.TotalSize`, `IO.ReadTextFile`, `IO.WriteTextFile` and `FuncUtils.AnyEquals` are not part of this model. The model assumes the following:
  - The visit order of `IO.CopyDirectory` is an input sequence.
  - `IO.CopyDirectory` creates today's directory.
  - `IO.CopyDirectory` skips a file when the callback returns false.
  - The total size is a given integer.
  - `IO.ReadTextFile` stops reading when its callback returns false.
- Backup.Save: the clock reading's date is not derived from its ticks, because the Gregorian calendar is not modelled. A reading is taken to be consistent.
- Backup.Save: each output folder is processed from the state it had before the pass. A folder listed twice in `Outputs.txt` therefore does not see, on its second visit, the snapshot its first visit made. The source would find it at line 170 and return 00:01.
- Backup.ProcessOutput: today's snapshot is appended at the end of the listing. The source lists snapshots in the file system's order (lines 163 and 177). On NTFS that is name order, so today's snapshot is last unless a `*] Backup` name sorts after it, for instance one dated in the future after a clock change. On FAT and exFAT the order follows directory slots, and the new directory may take the slot that the deletion at line 165 freed. `Backup.SameDayRerunMakesNothing`, `Backup.TodayIsNewest`, `Backup.NextBaseLacks`, `Backup.SkippedFileJudgedChanged` and `Backup.SkippedFileNotSkippedNextPass` rely on this order.
- FileSystem.FileTime: names are compared exactly. On Windows, `Directory.Exists` (line 170) and `File.Exists` (line 232) ignore case. `FileSystem.FindSnapshot` compares the same way.
- Backup.Save: the time of day comes from one reading of the clock. The source reads `DateTime.Now` separately at lines 169, 173 and 228, so a pass running across midnight is not modelled.
- Backup.ProcessOutput: two output folders on the same volume do not share free space. Each folder has its own free-byte counter. The snapshot size added is the total size of the copied files, and deletion frees exactly a snapshot's recorded size.
- Backup.ProcessOutput: I/O failures are not modelled beyond the following cases:
  - the copy into a directory that does not exist yet;
  - the copy onto an existing name;
  - the null base.
  Failed deletions, failed copies of files inside a mirrored directory (reported by the error callback) and permission errors are left out. Files inside a directory that the classifier lets through are counted as written.
- Backup.TargetStep: two directory targets with the same name are mirrored into the same directory. Entries of the later one replace those of the earlier one at equal relative paths.
- Backup.TargetStep: a file target followed by a directory target of the same name is mirrored as if the directory could be created over the file. In the source, `IO.CopyDirectory` would fail there.
- Backup.TargetStep: the check that a name is already in today's directory compares names exactly. On Windows, `File.Copy` ignores case, so a target differing only in case also fails there.
- Backup.SkippedFileNotSkippedNextPass: proved only for a file target whose name no other target shares. With two file targets of the same name, the later one's copy can be the next base's entry, and the earlier file can then be skipped again.
- Backup.SkippedFileNotSkippedNextPass: a file inside a mirrored directory skipped as unchanged is also absent from the new snapshot; what the next pass's cursor then decides for it is not proved.
- Backup.ValidTarget: a target at a volume root, such as `D:\`, is excluded. Its `Name` is the root itself, and the model's paths name volume roots by one component.
- Backup.NextRun: the `DateTime` range limit (year 9999) is not modelled.
- Mirror.Traverse: the bytes copied are not modelled. A file written is a visit in `written`, and it is placed in today's snapshot by `Backup.Place`.
- Visibility.LowerLine: lowercases ASCII letters only, while `ToLower` lowercases by the current culture.
- Visibility.IsSpace: `\s` is limited to the six ASCII white-space characters, while the .NET class also includes Unicode separators.
- Visibility.ShouldShow: the first-run creation of `ConsoleMetaData.txt` with `visible:false` (lines 30-33) is not modelled. A missing or unreadable file is not modelled either. The model takes the file's lines as a sequence.
