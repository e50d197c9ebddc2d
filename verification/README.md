# compressed_rotating_file_sink, modelled in Dafny

This project models the rotation and archival core of spdlog's
`compressed_rotating_file_sink` and proves properties of the model. The sink writes
formatted records to an active log file. When a record would push the file past
`max_size`, it runs two steps before writing the record:

- `rotate_` shifts the plaintext segments `log.txt → log.1.txt → … → log.<max_files>.txt`;
- `compress_` moves the compressed archives one slot up the retention ladder, deletes
  the archive in the oldest slot (`max_files + max_compressed_files - 1`), and compresses
  the segment at index `max_files` into a new archive.

Files, one module each:

- `paths.dfy` holds the string helpers:
  - `Dec`/`Num` render indices and read them back (the model's versions of `fmt`/`std::to_string` and `std::stoi`);
  - `SplitByExtension` is spdlog's `split_by_extension`;
  - `ParentPath`, `FileName` and `JoinPath` are boost's path operations on plain `dir/file` spellings;
  - `Resolve` is the operating system's reading of a leading `./`.
- `os.dfy` holds the filesystem model:
  - a filesystem is a map from resolved path to contents;
  - `RenameFile` is `rename_file`;
  - `RenameWithRetry` is the rename-then-retry pattern both loops use.
- `naming.dfy` holds the configuration: `Config`, with the names the constructor derives (`MakeConfig`), and `calc_filename`.
- `rotation.dfy` models `rotate_`.
- `archive.dfy` models `compress_`:
  - the two regular expressions, read as literal patterns;
  - the per-entry classification;
  - the pass over the directory listing;
  - the final compression step.
- `retention.dfy` holds the retention bound: a directory whose archives all sit in slots `max_files .. max_itr_value` still has them there after a cycle. It also says which listed files a cycle leaves on disk.
- `sink.dfy` models `sink_it_`, the constructor, and the `current_size_` bookkeeping across calls.

Everything the sink gets from outside is an input of the model:

- whether each OS rename succeeds, indexed by loop position;
- the directory listing, as a snapshot;
- the compressor's output;
- the time string.

Three behaviours of the code are worth stating on their own:

- After both attempts of a rotation rename fail, the code truncates the active file, sets `current_size_` to 0 and throws out of `sink_it_` before the write. The record is *not* written (`Sink.RotationFailureDropsRecord`).
- `compress_` handles the listed entries in directory-iteration order, without sorting them by slot. Both the model and the retention theorem (`Retention.RetentionInvariant`) take the listing as given.
- If `compress_` throws, the counter keeps the grown value `current_size_ + size`, while the active file is already empty (`Sink.CompressFailureKeepsCount`).

## Model

| member | source | states |
|---|---|---|
| Paths.SplitByExtension | CompressedRotatingSink.h:92 | The two parts concatenate back to the name. The extension is non-empty exactly when the name has a dot that is not first or last, does not follow a '/', and is followed by no other '.' or '/'. The cut is made at that dot. |
| Paths.NumDec | CompressedRotatingSink.h:198 | Reading back (`stoi`) the decimal an index is printed as gives the index itself. |
| Paths.DecInjective | CompressedRotatingSink.h:93 | Distinct indices print as distinct strings, and every printed index is in canonical form. |
| Naming.CalcFilename | CompressedRotatingSink.h:86-94 | Index 0 names the base path itself, and every other index names a path different from the base path. |
| Naming.MakeConfig | CompressedRotatingSink.h:70-76 | The stored arguments are kept as given. dir_, basename_ and file_ext_ are derived from the base path as the constructor derives them. |
| Naming.CalcFilenameRoundTrip | CompressedRotatingSink.h:86-94 | calc_filename is invertible. Every generated name reads back to its index. Only the name generated for an index reads back to that index. |
| Naming.CalcFilenameExamples | CompressedRotatingSink.h:84-94 | The documented example `calc_filename("logs/mylog.txt", 3) == "logs/mylog.3.txt"` holds. A base path without an extension gets the index appended. Index 0 is the path itself. |
| Naming.SegmentFilesDistinct | CompressedRotatingSink.h:129-134 | Distinct segment indices name distinct files, also when the base path starts with "./". |
| Naming.OldestSlotNoWrap | CompressedRotatingSink.h:175 | Without size_t wrap-around, max_itr_value is max_compressed_files + max_files - 1, which is at least max_files. |
| Retention.NoDirectoryNames | CompressedRotatingSink.h:73-76 | For a base path without '/', the constructor's basename_ and file_ext_ split the path itself. dir_local becomes "./" and basename_local becomes "./" + basename_. |
| Retention.DirectoryNames | CompressedRotatingSink.h:73-76 | For a base path "dir/name", dir_ is dir and basename_ and file_ext_ split the file name. basename_local is dir "/" basename_. |
| Os.RenameFile | CompressedRotatingSink.h:154-158 | The rename succeeds exactly when the OS allows it, the source exists, and the source is not the target. On success the target holds the source's old contents and the source is gone. A failure only removes the target: every other file, the source included, keeps its contents. |
| Os.RenameWithRetry | CompressedRotatingSink.h:136-146 | It makes one attempt, or two when the first fails. It succeeds exactly when either attempt is allowed and the source exists apart from the target. A final failure leaves only the target removed. |
| Os.RetryMatchesFirstTry | CompressedRotatingSink.h:136-141 | A rename that succeeds on the retry ends in exactly the state a first-try success ends in. |
| Rotation.ShiftDown | CompressedRotatingSink.h:129-147 | An error from the shift loop names a rename at some index whose source existed and whose two attempts both failed. |
| Rotation.Rotate | CompressedRotatingSink.h:125-149 | Afterwards the active file exists and is empty, whether the shift succeeded or threw. An error names a doubly failed rename. |
| Rotation.ShiftDownMeetsSpec | CompressedRotatingSink.h:129-147 | A completed shift moves every existing segment i - 1 to index i. It vacates an index whose lower neighbour was missing and leaves the top index alone when there is nothing below it. It removes segment 0 and leaves every file outside the ladder unchanged. |
| Rotation.RotateShiftsLadder | CompressedRotatingSink.h:119-149 | A completed rotate_ leaves every ladder slot as ShiftDownMeetsSpec states, with a new empty active file. No file outside the ladder changes. |
| Rotation.RotateFailsOnlyOnDoubleFailure | CompressedRotatingSink.h:136-145 | rotate_ throws only when some rename, whose source existed, failed on both attempts. It then leaves the active file empty. If every rename is allowed on one of its attempts, rotate_ never throws. |
| Archive.LongestRun | CompressedRotatingSink.h:179 | A run it finds is within the bound and fits the archive pattern: digits after the prefix, then file_ext_, anything, and comp_ext. |
| Archive.LongestRunIsLongest | CompressedRotatingSink.h:179 | Searching down from a bound finds the longest digit run after which the rest of the name still fits the pattern. No longer run up to the bound fits. |
| Archive.IndexRunLongest | CompressedRotatingSink.h:179 | The archive pattern matches whenever some digit run fits. The captured group is at least as long as any fitting run, as greedy `[0-9]+` with backtracking gives. |
| Archive.IndexRunIs | CompressedRotatingSink.h:195 | A fitting run with no longer fitting run is exactly the captured group. |
| Archive.IndexDigits | CompressedRotatingSink.h:195-197 | The captured group is a non-empty digit string. The name starts with basename_local "." followed by the group. |
| Archive.IsOldest | CompressedRotatingSink.h:178 | A name matching the oldest-archive pattern also matches the capturing archive pattern. |
| Archive.FindFrom | CompressedRotatingSink.h:199 | It returns the first position at or after the start where the pattern occurs, and there is no earlier occurrence. |
| Archive.ReplaceFirst | CompressedRotatingSink.h:199 | Where the pattern first occurs, the name has that occurrence replaced and everything before and after it kept. A name without any occurrence, or an empty pattern, leaves the name unchanged. |
| Archive.Classify | CompressedRotatingSink.h:188-210 | An entry is deleted exactly when it matches the oldest-archive pattern. It is left alone exactly when it matches neither pattern. Otherwise it is renamed. |
| Archive.RenumberKeepsTail | CompressedRotatingSink.h:195-199 | A matched archive that is not the oldest is renamed by replacing basename_local "." N with basename_local "." (N + 1). The rest of its name is kept. |
| Archive.Apply | CompressedRotatingSink.h:188-209 | One iteration throws exactly when the entry is to be renamed and both rename attempts fail, and the error names that rename. A kept entry changes nothing. |
| Archive.ApplyPlan | CompressedRotatingSink.h:188-211 | An error from the pass names a listed entry that was to be renamed, and its target. |
| Archive.ShiftArchives | CompressedRotatingSink.h:180-215 | A missing directory changes nothing. An enumeration error is raised only when the enumeration fails. A rename error names a listed entry that was to be renamed. |
| Archive.Compress | CompressedRotatingSink.h:161-225 | compress_ throws only what the archive shift throws: a doubly failed rename or the wrapped enumeration error. |
| Archive.MissingDirectoryOnlyCompresses | CompressedRotatingSink.h:181-224 | Without the directory only the final compression step runs, and nothing is thrown. |
| Archive.EnumerationFailureRaises | CompressedRotatingSink.h:213-214 | An enumeration error always makes compress_ throw, after the renames done so far and before compressing. |
| Archive.CompressRetired | CompressedRotatingSink.h:217-224 | Without the plaintext segment at index max_files nothing changes. Nothing but that segment and the new archive changes. A change means the compressor accepted the segment and the segment is gone. The new archive then holds the compressor's output. |
| Archive.CompressRetiredSpec | CompressedRotatingSink.h:217-224 | Without the plaintext segment at index max_files, or when compression fails, nothing changes. On success the archive holds the compressor's output, the plaintext is removed, and every other file is unchanged. |
| Archive.RenameTargetDiffers | CompressedRotatingSink.h:195-201 | With the archive patterns read literally, a renamed archive's target is always a different file from the archive itself. |
| Archive.WildcardMatchRenamesOntoItself | CompressedRotatingSink.h:179-201 | As written, the unescaped pattern accepts `./app-3.txt.x.gz` for base `app.txt` with group 3. replace_first finds no `./app.3` in it and leaves the name unchanged. rename_file then removes the archive and fails on both attempts. |
| Archive.ApplyPlanMeetsSpec | CompressedRotatingSink.h:188-211 | A collision-free pass in which every rename is allowed on one of its attempts throws nothing. It deletes every entry to be deleted and moves every entry to be renamed onto its target with its contents. Every other file is unchanged. |
| Archive.ShiftArchivesMeetsSpec | CompressedRotatingSink.h:180-215 | Over such a listing: the oldest archives are gone; every other archive sits under its renumbered name with its contents; nothing else changes; only an enumeration error is thrown. |
| Retention.OldestMatchIffTop | CompressedRotatingSink.h:178-190 | For a captured index that is canonical and at most max_itr_value, the oldest pattern matches exactly when the index is max_itr_value. |
| Retention.ClassifyLadderStep | CompressedRotatingSink.h:175-199 | An archive in slot N of the range is never left alone. It is deleted exactly when N is max_itr_value. Otherwise it is renamed to a name whose captured index is N + 1, still in the range, with the rest of the name kept. |
| Retention.SurvivorsMoveUp | CompressedRotatingSink.h:188-211 | After a pass over archives that all lie in the range, every archive left sits at slot max_files + 1 or above, still in the range. The files these names denote are the ones the pass leaves on disk (Retention.PassLeavesSurvivors). |
| Retention.SurvivorFiles | CompressedRotatingSink.h:188-210 | A name is among the survivors' files exactly when some listed entry leaves it: a kept entry itself, or a renamed entry's target. Deleted entries leave nothing. |
| Retention.PassLeavesSurvivors | CompressedRotatingSink.h:188-211 | For a collision-free listing of existing files whose renames the OS allows, the pass throws nothing. Among the listed files and rename targets, the files that exist afterwards are exactly the survivors' files. |
| Retention.CycleLeavesSurvivors | CompressedRotatingSink.h:175-224 | With max_files at least 1 and such a listing, a whole compress_ throws nothing. Among the listed files and rename targets, what exists afterwards is the survivors' files. When the compressor accepted the segment at index max_files, that segment is gone and the new archive holds the compressor's output. Otherwise the final step changes nothing. |
| Retention.ListedNewArchive | CompressedRotatingSink.h:188-189 | The next enumeration lists the new archive as basename_local "." max_files file_ext_ "." time comp_ext, and that listed name resolves to the file compress_ wrote. |
| Retention.NewArchiveEntersAtMaxFiles | CompressedRotatingSink.h:175-179 | The new archive is captured with index max_files, the bottom slot of the range. |
| Retention.RetentionInvariant | CompressedRotatingSink.h:175-224 | If every listed archive lies in slots max_files .. max_itr_value, then after a compression cycle so do all survivors and the new archive. Only the new archive occupies slot max_files. The range holds exactly max_compressed_files slots. Retention.CycleLeavesSurvivors ties these names to the files on disk. |
| Sink.SinkIt | CompressedRotatingSink.h:102-112 | A rotation cycle runs exactly when the counter plus the record exceeds max_size. Without one, the counter grows by the record. After a cycle the counter restarts at the record's size. Without a cycle the record is appended to the active file if it exists, and nothing else changes. A completed call that leaves an active file ends with the record at its end. |
| Sink.WriteActive | CompressedRotatingSink.h:111 | The record lands at the end of the active file when that file exists. A missing active file is not recreated, and no other file changes. |
| Sink.NoSegmentsLosesRecord | CompressedRotatingSink.h:106-111 | With max_files 0 and a compressor that accepts the emptied file, a cycle compresses and removes the active file itself. A completed call leaves no active file, so the record reaches no path and the counter no longer tracks a file. |
| Sink.RotationFailureDropsRecord | CompressedRotatingSink.h:106-111 | When rotate_ throws, sink_it_ throws the same error. The active file is empty, the counter is 0, and the record is not written. A rename at some index whose source existed failed twice. |
| Sink.CompressFailureKeepsCount | CompressedRotatingSink.h:105-109 | When compress_ throws after a completed rotation, the record is not written. The counter keeps the grown value while the active file is empty. |
| Sink.EntryAvoidsActive | CompressedRotatingSink.h:188-209 | No entry that compress_ deletes or renames, and no rename target, is the active file. |
| Sink.CompressKeepsActive | CompressedRotatingSink.h:161-225 | compress_ leaves the active file as it was, whatever the renames, the listing and the compressor answer. |
| Sink.SinkItKeepsTracking | CompressedRotatingSink.h:102-112 | While the counter equals the active file's size, sink_it_ rotates exactly when the file plus the record would exceed max_size. A completed call keeps the counter equal to the file's size, the file having grown by the record or restarted with it. |
| Sink.SinkAllKeepsTracking | CompressedRotatingSink.h:102-112 | Over any sequence of writes without an error, the counter stays the active file's size. That size is at most max_size unless it is exactly the last record. |
| Sink.OpenActive | CompressedRotatingSink.h:71 | After opening, the active file exists, keeps its contents if it had any, and no other file changes. |
| Sink.Construct | CompressedRotatingSink.h:68-81 | The configuration is derived from the arguments. A rotation cycle runs exactly when rotate_on_open is set and the opened file is non-empty. Without a cycle the counter is the file's size and the opened file is the whole change. After a completed cycle the counter is 0 when it is reset, or the opened file's size as the code is written. |
| Sink.OpenCycleEmptiesActive | CompressedRotatingSink.h:77-80 | After a rotate_on_open cycle the active file is empty. |
| Sink.StaleCounterRotatesEarly | CompressedRotatingSink.h:72-80 | As written, a rotate_on_open cycle over a non-empty file leaves the counter at the old size while the active file is empty. A record that fits in max_size on its own then rotates the nearly empty file away. |
| Sink.StaleCounterExample | CompressedRotatingSink.h:72-80 | The stale counter on one instance: max_size 10, an existing 10-byte active file, rotate_on_open, then a 1-byte record. The constructor succeeds with an empty active file and a counter of 10, and the record rotates. |
| Sink.OpenTracks | CompressedRotatingSink.h:72-80 | With the counter reset after the cycle, a successful constructor leaves the counter equal to the active file's size. The next write then rotates exactly when the file plus the record would exceed max_size. |

## Left out

- File I/O beyond appending and truncating is not modelled: buffering, `flush_`, `filename()`, the mutex, and the formatter. A record is the formatted bytes, given as a parameter.
- The 100 ms and 10 ms sleeps before a retry are time only, so they are not modelled.
- `errno` and the error message texts are not modelled. An error carries the two names of the failed rename, or says that the enumeration failed.
- `Utility::getTime` and `Utility::compressFile` are parameters: a time string, and a compressor that returns the compressed bytes or fails.
  - The helper file defining them is not part of this model.
  - The compressor is taken to write its archive at the new archive name with comp_ext appended, the name the archive patterns look for.
  - A partially written archive after a compressor failure is not modelled.
- The regular expressions are read as literal patterns. A regex metacharacter in the base path, such as the unescaped '.', which matches any character, is treated as itself. So is a pattern `std::regex` would reject. The consequence for the '.' is listed under "## Findings".
- `std::stoi`'s `int` range is not modelled: a captured index of any length is read as an unbounded number.
- `current_size_` is unbounded. Its `size_t` wrap-around needs more than 2^64 bytes of records. `max_itr_value`'s wrap-around is modelled.
- The directory enumeration is a snapshot taken before the loop. An entry created or renamed during the iteration appearing, or not appearing, is not modelled.
- Boost paths are modelled for plain "dir/file" spellings. `.`/`..` components, repeated separators and other normalisation are not modelled.
- Filesystem errors from `exists`, `remove` or the rename calls themselves, other than a failed rename, are not modelled.
- Retention.ListedNewArchive: requires a directory part that does not end in '/'. This also excludes a base path directly under the root. There basename_local is `//` followed by basename_, while the enumeration lists `/name`.
- Retention.RetentionInvariant: holds for configurations with `max_files >= 1`, `max_compressed_files >= 1` and no wrap-around in `max_itr_value`, and under the same directory-part requirement.
- Archive.ShiftArchivesMeetsSpec: assumes the listing is collision-free, so no file is touched twice and no rename target is another entry's file. The code does not sort by slot and so does not guarantee this.
- Sink.CompressKeepsActive: requires `max_files >= 1`. With `max_files == 0`, `compress_` compresses and removes the active file itself.
- Sink.SinkItKeepsTracking: stated for `max_files >= 1`, for the same reason.
- Sink.SinkIt: the file handle is not modelled apart from its path. A write reaches the active file while that path exists. With `max_files == 0`, after `compress_` removed it, the bytes go to an unlinked file, which the model leaves out (Sink.NoSegmentsLosesRecord).
- Sink.Construct: the same holds for a rotate_on_open cycle with `max_files == 0`. The active file is then gone after construction.
- Retention.SurvivorsMoveUp: is stated over the names Classify computes. It speaks about files on disk through Retention.PassLeavesSurvivors, which needs a listing of distinct existing files that is collision-free and whose renames the OS allows.
- Retention.RetentionInvariant: likewise stated over names. Retention.CycleLeavesSurvivors carries it to the files on disk under the same conditions, with no enumeration failure.

## Findings

| source | as written | input that shows it | evidently intended | confidence | as-written member | corrected member |
|---|---|---|---|---|---|---|
| CompressedRotatingSink.h:72-80 | With rotate_on_open, the constructor reads `current_size_` before `rotate_()` empties the active file and never resets it. The counter starts at the old file's size. | max_size 10; an existing 10-byte active file; rotate_on_open set; then a 1-byte record. The counter says 11 > 10 and the sink rotates, although the active file holds 0 bytes (Sink.StaleCounterExample). | Reset `current_size_` to 0 after the rotate_on_open cycle, as `sink_it_` does after its own cycle, so the counter tracks the active file. | medium; not executed | Sink.StaleCounterRotatesEarly | Sink.OpenTracks |
| CompressedRotatingSink.h:179-201 | The archive regex is built from basename_local, file_ext_ and comp_ext without escaping, so each '.' in them matches any character. replace_first then searches for the literal basename_local "." N. | base path `app.txt`, comp_ext `.gz`, listed entry `./app-3.txt.x.gz`. The regex accepts it with group 3. `./app.3` does not occur in it, so the target is the name itself. rename_file removes the archive, and both renames of it fail, so compress_ throws (Archive.WildcardMatchRenamesOntoItself). | Escape the regex metacharacters, so an entry is accepted only when it literally starts with basename_local "." N. The rename target then always differs from the entry. | medium; not executed | Archive.WildcardMatchRenamesOntoItself | Archive.RenameTargetDiffers |
