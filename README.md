# checkpoint — a Dafny model of the archiving engine and the debouncer

`checkpoint` watches a directory and, when a burst of changes has settled,
archives it: the files whose names match the masks are copied into a
workspace inside the output directory, and the workspace is zipped into one
archive named `name_YYYYMMDD_millis_rand6.archive.zip` and then removed. The
pruner then ages out and counts out older archives, and the input directory
is optionally purged. Hooks run before and after. Bursts of change events are
coalesced by `debounce(wait)`: each call cancels the pending timer and arms a
fresh one carrying the latest arguments.

This project models those two pieces and proves their contracts:

- `wrappers.dfy`, `seqs.dfy`: `Option` and sequence facts.
- `dates.dfy`: proleptic Gregorian dates; `DayDifference` is `(today - d).days`.
- `naming.dfy`: rendering `ARCHIVE_PATTERN` plus the suffix, and matching
  `ARCHIVE_PARSE_PATTERN` with `re.match` semantics. The match is anchored at
  the start only, the name group is lazy, and the unescaped dots of the
  suffix match any character but a newline. Also the two parsers.
- `glob.dfy`: `fnmatch` with `*`, `?` and literal characters.
- `retention.dfy`: `_clean_archive` as a pure function of the directory
  listing. The TTL pass stops at the first exception; the count pass sorts
  by millis, reverses, and slices `lst[max_archive:]` with Python's
  rules for negative bounds.
- `filesystem.dfy`: a file tree (`Fs`: a map of files and a set of
  directories) with `os.makedirs`, `shutil.copy`, writing a zip,
  `os.remove`, `shutil.rmtree` and `os.listdir`, each with the exception it
  raises.
- `archive.dfy`: `archive_directory`, the staging walk, `_zipdir`, the
  pruner's loops over the file tree, and the purge.
- `debounce.dfy`: the debouncer. The pure history specification is `Fires`, and the
  `Debounced` class holds the `timer` of one decorated function.

The clock, the uuid and `datetime.now()` are parameters. `now` and `millis`
are the date and the milliseconds of the run, `rand` is the six hex digits,
and `today` is the date the pruner reads. The debouncer runs on a logical
clock of whole ticks.

The model follows the code, also where its behaviour is easy to misread:

- With a TTL set, a name ending in `.archive.zip` that is not in the naming
  grammar makes the pruner raise `TypeError` (`today - None`). It is not
  ignored.
- Without a TTL but with `max_archive` set, such a name is not ignored either.
  Its millis is `None`: among two or more kept entries the sort raises
  `TypeError`, and as the only kept entry it is removed when `max_archive`
  is 0.
- A task name starting with `.` makes the archive a hidden name, which the
  pruner's glob never lists, so neither the TTL nor the count ever removes it.
- A failure while packaging leaves the workspace behind.
- The returned archive path is `os.path.join(out_dir, stem)` plus the suffix,
  on the text passed in, not a resolved absolute path. `os.path.join` adds no
  second `/` after an `out_dir` that ends in one.

## Model

| member | source | states |
|---|---|---|
| Dates.DayDifference | archive.py:148 | the day difference between two valid dates is 0 exactly when the dates are equal |
| Dates.OrdinalNextDay | archive.py:148 | the day after a valid date is valid and its ordinal is one more, so `delta.days` counts calendar days |
| Dates.OrdinalInjective | archive.py:148 | two valid dates have the same ordinal exactly when they are the same date |
| Dates.Ordinal | archive.py:148 | `date.toordinal()`: day 1 is 1 January of year 1; its meaning is given by `Dates.OrdinalNextDay` and `Dates.OrdinalInjective` |
| Naming.FormatDate | archive.py:53 | `strftime('%Y%m%d')` is eight digits |
| Naming.ArchiveStem | archive.py:14 | `ARCHIVE_PATTERN.format(...)`: name, date, millis and random part joined by `_`; `Naming.RoundTrip` proves what the parser reads back from it |
| Naming.ArchiveFileName | archive.py:60 | the workspace name followed by `ARCHIVE_ZIP_SUFFIX`; `Archive.NewArchiveIsCandidate` proves the pruner's glob lists it |
| Naming.Match | archive.py:16-18 | the match found has the smallest name length for which the pattern matches at the start; no match exactly when no split of the name matches |
| Naming.MillisLengthUnique | archive.py:17 | the greedy millis group is the whole digit run after the date, whatever the name length |
| Naming.ParseFilenameToDate | archive.py:166-172 | `None` exactly when the pattern does not match; `ValueError` exactly when the pattern matches and its year, month and day digits are no date; otherwise the date of those digits, which is valid and renders back to them |
| Naming.ParseFilenameToMillis | archive.py:175-181 | `None` exactly when the pattern does not match; otherwise the value whose decimal text is the matched digits without leading zeros |
| Naming.RoundTrip | archive.py:14-18 | parsing a rendered archive name gives back its date and its millis |
| Naming.MillisOfJoinedPath | archive.py:155 | parsing millis from a text in front of `base` gives the same as from `base` when that text has no `_` or newline |
| Naming.NegativeMillisNeverParse | archive.py:54-58 | a name rendered with negative millis (a clock before 1970) matches neither parser |
| Naming.SeparatorInNameBreaksRoundTrip | archive.py:14-18 | a task name that itself looks like an archive name makes both parsers read the embedded date and millis, not the rendered ones |
| Glob.StarMatchesAll | archive.py:27 | the default mask `*` matches every name |
| Glob.LiteralMatchesItself | archive.py:87 | a mask with no wildcard matches exactly the name equal to it |
| Glob.StarSuffixMatches | archive.py:138 | `*` followed by a literal matches exactly the names ending in that literal |
| Glob.TxtMaskExample | archive.py:87 | `*.txt` matches `a.txt`, and matches neither `b.log` nor `c.TXT` |
| Glob.Matches | archive.py:87 | `fnmatch.fnmatch(name, pat)` for `*`, `?` and literal characters; its meaning is given by `Glob.StarMatchesAll`, `Glob.LiteralMatchesItself` and `Glob.StarSuffixMatches` |
| Retention.IsCandidate | archive.py:138 | an entry `glob.glob` of `*.archive.zip` lists: the mask matches and the name is not hidden; `Retention.CandidateIffSuffix` gives its meaning |
| Retention.CandidateIffSuffix | archive.py:138 | the glob `*.archive.zip` lists exactly the entries ending in the suffix that do not start with a dot |
| Retention.Candidates | archive.py:138 | the candidates are exactly the listed names that match the glob, and no more than the listing |
| Retention.CandidatesOfOne | archive.py:138 | a one-entry listing yields that entry exactly when it is a candidate |
| Retention.CandidatesAppend | archive.py:138 | the candidates of a listing split in two are those of the first part followed by those of the second, so they keep the listing's order |
| Retention.CandidatesDistinct | archive.py:138 | a listing without repeats gives candidates without repeats |
| Retention.JoinTextCases | archive.py:57-60 | `os.path.join`: one `/` between directory and name whether or not the directory ends in `/`, nothing added after an empty directory, and an absolute name replaces the directory |
| Retention.StripSlashes | archive.py:138 | the directory text without its trailing `/`s: a prefix of it, not ending in `/`, followed only by `/`s |
| Retention.GlobDir | archive.py:138 | the directory text glob joins its matches to is a prefix of the text given |
| Retention.MillisOfGlobPath | archive.py:138-155 | the millis read from the full path glob returns equal those of the base name, for an output text without `_` or newline |
| Retention.TtlVerdict | archive.py:146-151 | the TTL body's decision for one name: kept without a TTL; `TypeError` without a match, `ValueError` for an impossible date; expired when more than `ttl` days old. Its effect on the loop is stated by `Retention.TtlPassComplete` and `Retention.TtlPassStops` |
| Retention.TtlStep | archive.py:143-155 | one iteration of the TTL loop, which does nothing once an exception was raised; `Retention.TtlPassSnoc` ties it to the loop |
| Retention.TtlPass | archive.py:143-155 | the TTL loop over the candidates in glob order; `Retention.TtlPassComplete`, `Retention.TtlPassSound` and `Retention.TtlPassStops` state what it removes, keeps and raises |
| Retention.Probes | archive.py:143-155 | each candidate's verdict, full-path millis and directory flag, in order |
| Retention.TtlPassSnoc | archive.py:143-155 | the TTL loop over one more candidate is one more step of the loop body |
| Retention.TtlPassComplete | archive.py:143-155 | when the TTL loop finishes, no candidate raised; every expired one was removed and every young one kept with its millis; removed and kept together account for every candidate |
| Retention.TtlPassSound | archive.py:143-155 | only expired candidates are removed, and only young ones are kept |
| Retention.TtlPassStops | archive.py:143-155 | a failed TTL loop failed on the first raising candidate, with that candidate's exception |
| Retention.TtlPassAfterFailure | archive.py:143-155 | once the loop has raised, the remaining candidates change nothing |
| Retention.RaisingProbeFails | archive.py:146-150 | a candidate that raises makes the whole TTL loop fail |
| Retention.TtlPassFailsOnForeignName | archive.py:146-148 | with a TTL set, a candidate outside the naming grammar makes the loop raise |
| Retention.AllYoungKeepsAll | archive.py:154-155 | when every candidate is young, nothing is removed and all are kept in order |
| Retention.NoTtlKeepsAll | archive.py:146 | without a TTL the loop removes nothing and keeps every candidate |
| Retention.Stamps | archive.py:159 | the kept pairs with their millis present, in order |
| Retention.Insert | archive.py:159 | inserting into an ascending sequence keeps it ascending and adds exactly that element |
| Retention.SortByMillis | archive.py:159 | `sorted(kept, key=millis)`: ascending and a permutation of its input |
| Retention.Reverse | archive.py:160 | `lst.reverse()`: element `i` is the input's element `n-1-i` |
| Retention.ReverseAscending | archive.py:160 | reversing an ascending sequence gives a descending one |
| Retention.ReverseMultiset | archive.py:160 | reversing keeps the same elements |
| Retention.SliceStart | archive.py:161 | `lst[n:]` of a list of `len` items keeps `len - n` items for `0 <= n <= len` and none for a larger `n`; for a negative `n` it keeps the last `-n` items, or all when there are fewer |
| Retention.NewestFirst | archive.py:159-160 | the kept archives sorted newest first: descending by millis and a permutation of the kept ones |
| Retention.CountPassKeepsNewest | archive.py:157-163 | with two or more stamped archives, the count pass removes exactly the newest-first order after position `max_archive`; it keeps `min(max_archive, n)` of them, loses none, and everything kept is at least as new as everything removed |
| Retention.SplitKeepsNewest | archive.py:159-161 | splitting a descending order leaves the newer part in front and loses nothing |
| Retention.CountPassLimits | archive.py:157-161 | no maximum removes nothing; a maximum of 0 removes every kept archive, provided a sort is possible (one archive, or millis present for all) |
| Retention.CountVictims | archive.py:157-161 | the names `lst[max_archive:]` holds, or the sort's `TypeError`; `Retention.CountPassKeepsNewest`, `Retention.CountPassLimits` and `Retention.CountVictimsFromKept` state which |
| Retention.TailOfReordering | archive.py:159-161 | the removed tail of a reordering has no repeats and holds only kept names |
| Retention.TtlPassDistinct | archive.py:143-155 | with distinct candidates, the removed and the kept names are distinct and disjoint |
| Retention.FreshNameUntouched | archive.py:143-155 | a name that is no candidate is neither removed nor kept |
| Retention.CountVictimsFromKept | archive.py:157-163 | the count pass's victims are distinct kept names |
| Retention.VictimsAreFreshCandidates | archive.py:143-163 | after a completed TTL pass, every victim of the count pass is a distinct candidate that the TTL pass did not already remove |
| Retention.RemoveEach | archive.py:161-163 | the removal loop of the count pass, which stops at the first directory; `Retention.RemoveEachSnoc` and `Retention.RemoveEachCompletes` state its steps and its end |
| Retention.RemoveEachSnoc | archive.py:161-163 | the removal loop over one more victim is one more step |
| Retention.RemoveEachAfterFailure | archive.py:161-163 | after `os.remove` has raised on a directory, the remaining victims change nothing |
| Retention.RemoveEachCompletes | archive.py:161-163 | a removal loop that raised nothing removed every victim, in order |
| Retention.CleanArchive | archive.py:136-163 | `_clean_archive` on a listing: the TTL pass, and when it completes the count pass and its removals; `Retention.NoLimitsRemoveNothing` and `Retention.ZeroMaxRemovesAll` state its two extremes |
| Retention.NoLimitsRemoveNothing | archive.py:136-163 | with neither TTL nor maximum, the pruner removes nothing and raises nothing |
| Retention.ZeroMaxRemovesAll | archive.py:157-163 | without a TTL and with `max_archive` 0, a run that raises nothing removes every entry the glob listed |
| FileSystem.Subtree | archive.py:21-24 | the entries below a root, keyed by relative path: each is a file below the root with its content, and every such file is there |
| FileSystem.Fs.MakeDirs | archive.py:75-78 | `os.makedirs`: `FileExistsError` when the path exists, `NotADirectoryError` when a file blocks it, otherwise the path and its ancestors become directories |
| FileSystem.Fs.Copy | archive.py:102 | `shutil.copy`: copies the file's content to the target and raises for a missing source, a directory source, the same file, or an unwritable target |
| FileSystem.Fs.WriteZip | archive.py:107-109 | writing the archive stores its entries, or raises as `open(p, 'wb')` would |
| FileSystem.Fs.Remove | archive.py:150 | `os.remove`: removes one file; `IsADirectoryError` on a directory, `FileNotFoundError` when nothing is there |
| FileSystem.Fs.RemoveTree | archive.py:112 | `shutil.rmtree`: the directory and everything below it go; raises on a file or a missing path |
| FileSystem.Fs.ListDir | archive.py:117 | `os.listdir`: each entry name exactly once, and only existing entries |
| FileSystem.Fs.EntriesListed | archive.py:116-122 | everything below a directory lies under one of the names its listing gives |
| Archive.MatchesAnyMask | archive.py:85-90 | the mask loop with `break` answers whether some mask matches the name |
| Archive.DefaultMaskSelectsAll | archive.py:27 | with the default masks every file below the input is selected |
| Archive.NoMasksSelectNothing | archive.py:85-93 | with no masks nothing is selected |
| Archive.Selection | archive.py:83-102 | the files the walk picks, keyed by their path relative to the input: `Archive.SelectionSound` and `Archive.SelectionComplete` state which |
| Archive.SelectionSound | archive.py:83-102 | every selected entry is a file below the input whose base name matches a mask, with that file's content |
| Archive.SelectionComplete | archive.py:83-102 | every file below the input whose name matches a mask is selected |
| Archive.ZipDir | archive.py:21-24 | `_zipdir`: the archive's entries are exactly the files below the workspace, named by their path relative to it |
| Archive.StageOne | archive.py:85-102 | one step of the walk: a picked file is copied to the mirrored place in the workspace, creating its folder; an unpicked one changes nothing |
| Archive.StageFiles | archive.py:83-102 | after the walk, the workspace holds exactly the selection of the input tree; nothing outside the workspace changes |
| Archive.StagedIsSelection | archive.py:96-102 | a fully staged workspace equals the selection |
| Archive.AgeOne | archive.py:143-155 | one TTL step on the file tree: does what `Retention.TtlStep` says and removes the file it expires |
| Archive.PruneByAge | archive.py:141-155 | the TTL loop on the file tree gives `Retention.TtlPass` of the probes and removes exactly the names it removed |
| Archive.RemoveOne | archive.py:161-163 | one `os.remove` of a victim: removes it, or fails on a directory |
| Archive.RemoveVictims | archive.py:161-163 | the count loop on the file tree gives `Retention.RemoveEach` and removes exactly those names |
| Archive.CleanArchive | archive.py:136-163 | `_clean_archive` on the file tree: it removes exactly what `Retention.CleanArchive` decides for the listing and raises what it raises; directories are untouched |
| Archive.PurgeOne | archive.py:118-122 | one purge step: a file, or a directory with everything below it, goes |
| Archive.Purge | archive.py:116-122 | the purge removes everything below the input directory and keeps the rest; listing errors leave the tree unchanged |
| Archive.MakeWorkspace | archive.py:78 | `os.makedirs(archive_workspace)` adds exactly the fresh empty workspace, or raises `FileExistsError` and changes nothing |
| Archive.WriteArchive | archive.py:78-112 | workspace, staging, zip and workspace removal: on success the only change is the new archive, holding the selection; `FileExistsError` leaves everything unchanged |
| Archive.PruneAndPurge | archive.py:114-122 | the pruner lists `out` (each entry once) and leaves exactly the files `Retention.CleanArchive` does not remove for that listing, raising what it raises; the purge then leaves exactly what lies outside the input, or raises `NotADirectoryError` or `FileNotFoundError` with nothing more changed |
| Archive.PackAndPrune | archive.py:78-122 | in an existing output directory: `FileExistsError` with nothing changed when the workspace name is taken; otherwise the pruner's listing holds the new archive, and the files and directories left are exactly the archive added to the old files, minus what `Retention.CleanArchive` removes for that listing, minus what the purge removes |
| Archive.DirNamesWithPrefixes | archive.py:75-76 | directories made on the way to the output directory are no entries of it |
| Archive.ZeroMaxDropsArchive | archive.py:114 | without a TTL and with `max_archive` 0, a pruner that raised nothing has removed the archive from its listing, purge or not |
| Archive.ArchiveInput | archive.py:74-122 | the work after the existence check: `NotADirectoryError` when the output is or lies below a file; on success or a pruning exception, the pruner's listing holds the new archive and the resulting tree is exactly the old one plus the output directory and the archive, minus `Retention.CleanArchive`'s removals for that listing and the purge; the archive survives without limits and is gone with `max_archive` 0 and no TTL |
| Archive.NewArchiveIsCandidate | archive.py:138 | the archive's own name is one the pruner's glob lists, unless the task name starts with `.` |
| Archive.ArchiveDirectory | archive.py:27-133 | `archive_directory`: `None`, output under input and input equal to output raise before any hook or change; a missing input raises after `pre_exec` with nothing changed; success runs `pre_exec` then `post_exec` and returns `os.path.join(out_dir, stem)` plus the suffix; on success or a pruning exception the pruner's listing holds the new archive and the tree left is exactly the archive added, minus `Retention.CleanArchive`'s removals and the purge; the archive survives without limits and is gone with `max_archive` 0 and no TTL |
| Debounce.Settled | debounce.py:14-17 | the runs of every call but the last; `Debounce.SettledSnoc`, `Debounce.SettledSound` and `Debounce.BurstSettlesNothing` state which |
| Debounce.Fires | debounce.py:8-17 | the runs that have happened by a tick; `Debounce.RunsComeFromCalls`, `Debounce.RunsInOrder` and `Debounce.BurstRunsOnce` state its meaning, and `Debounce.Debounced.Valid` ties the class to it |
| Debounce.SettledSnoc | debounce.py:14-17 | a new call settles the previous timer: it has run exactly when the new call comes `wait` or more after it |
| Debounce.BurstRunsOnce | debounce.py:11-17 | in a burst of calls less than `wait` apart, the function runs once, `wait` after the last call, with its arguments, and not before |
| Debounce.BurstSettlesNothing | debounce.py:14-17 | within a burst, every timer is cancelled before it runs |
| Debounce.SettledSound | debounce.py:12-16 | every run of a superseded timer is some call's run |
| Debounce.RunsComeFromCalls | debounce.py:8-17 | every run happens `wait` after some call and carries that call's arguments |
| Debounce.RunsInOrder | debounce.py:8-17 | runs happen one at a time, in strictly increasing time, none after the current tick |
| Debounce.SettledWithin | debounce.py:14-17 | superseded runs fall between the first call's deadline and the last call |
| Debounce.SpentTimerRestarts | debounce.py:11-17 | a call after the timer has run behaves as on a fresh wrapper |
| Debounce.SettledSplit | debounce.py:11-17 | runs split at a gap of at least `wait` into the runs before and after it |
| Debounce.BurstExample | debounce.py:11-17 | calls at ticks 0, 1, 2 with `wait` 3: nothing by tick 4, one run at tick 5 with the tick-2 arguments |
| Debounce.Debounced.constructor | debounce.py:5-6 | a fresh wrapper has no timer and has run nothing |
| Debounce.Debounced.Advance | debounce.py:12-13 | the timer thread runs an uncancelled timer once when its deadline comes; the log stays `Fires` of the call history |
| Debounce.Debounced.Call | debounce.py:8-17 | a call leaves exactly one armed timer, carrying its arguments and the full `wait`; the previous timer is replaced, and only a previous timer that was already due can appear in the log |
| Debounce.TwoWrappers | debounce.py:4-21 | two decorated functions keep separate timers: a burst on one and a single call on the other each give one run, at ticks 5 and 4 |

## Left out

- `checkpoint.py`: argument parsing, the watchdog observer, the sleep loop and logging are not part of this model.
- Threads: the timer thread is the `Advance` step on a logical clock, and a timer fires before a call at the same tick. Races between a call and a timer firing at the same moment are not modelled.
- Debounce.Debounced: requires `wait > 0`. With `wait` 0 the Python timer races the caller, and the model has no deterministic answer.
- Arguments passed to the function and to the hooks are opaque values. A hook's return value, its side effects and exceptions it raises are not modelled.
- File contents are opaque blobs. The zip format, compression and file metadata are not modelled; an archive is the map of its entries.
- Symbolic links, permissions and `Path.resolve()` are not modelled: the directories arrive as resolved paths. How `out_dir` as given text relates to the resolved output path is not modelled either; the text is only used for the returned path and the pruner's full paths.
- Listing order: `glob.glob`, `os.walk` and `os.listdir` return entries in an order the file system chooses. The pruner is a function of the glob listing the caller supplies. The walk and the purge are proved for every order.
- `glob.glob` of the output directory: glob magic characters in `out_dir` are not modelled.
- `fnmatch` character classes (`[...]`) and case folding: masks are `*`, `?` and literal characters, compared case-sensitively as on POSIX.
- `get_millis`: the float rounding of `round(ts * 1000)` is not modelled; the milliseconds are an integer parameter. `uuid.uuid4().hex[:6]` is the `rand` parameter.
- `strftime('%Y')` for years below 1000: the model pads the year to four digits.
- `os.remove` of a directory raises `IsADirectoryError`, as on Linux.
- The `pending_files` list only feeds a log line and is not modelled.
- Archive.ArchiveDirectory: the task name and the random digits are one component of the output path. A name containing `/`, which would nest the workspace, is not modelled.
- Archive.ArchiveDirectory: after an exception raised while writing the archive (a directory with its name) or while purging, only the file tree's consistency is stated; the source leaves such partial work in place. After a pruning exception the tree left is stated exactly.
- Archive.ArchiveDirectory: whether the new archive survives is stated outright only for the two extremes, no limits (it survives) and `max_archive` 0 without a TTL (it is gone). In between it follows from `Retention.CleanArchive` of the listing, which the contract gives exactly.
- Naming.RoundTrip: stated for names without `_` or newlines, non-negative millis and six random characters without a newline, which covers `uuid` hex digits. Names with `_` still round-trip unless they embed the archive-name shape (Naming.SeparatorInNameBreaksRoundTrip).
- Retention.SortByMillis: the contract states ascending order and a permutation, not stability. Stability holds by construction: `Retention.Insert` places an element after every earlier one with an equal key.
