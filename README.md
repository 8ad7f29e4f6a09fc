# duplix — a verified model of the duplicate finder's core

duplix scans a source directory and groups files by their SHA-256 digest.
For every digest shared by more than one file it then does one of three
things:
- moves every member of the set to a destination directory (`-m [dir]`);
- deletes every member but the last (`-d`);
- only reports the set.

It renders a numbered report with final stats and can save that report to
an export file (`-s [file]`). Without `-r`, scanning recurses into
subdirectories.

This project models three parts of the program in Dafny and proves their
properties:

- **The engine** (`Calculate`, in `Calculate.dfy`, module `Calculation`).
  It is a class with these fields:
  - the digest-keyed map of path lists, together with its ascending key sequence (the TreeMap);
  - the three counters;
  - the output buffer.

  `Calc`, `CalcRec`, `GetListOfDupes`, the move and delete loops,
  `OutputDupes`, `OutputDupesMarked` and `Run` are methods with loops. Each
  is proved against specification functions:
  - `IndexAll` files hashed files into the map;
  - `Dupes` lists the duplicate sets;
  - `MoveAll` and `DeleteAll` give the effect of the two resolution loops;
  - `Report` is the report text;
  - `Stats` is the final-stats block;
  - `Resolution` combines the three branches of `run`.

  The directory streams are given as a tree of `Entry` values, and each
  file carries its digest (or `None` when reading or hashing it threw).
- **The IO helpers** (`IO.dfy`, module `IO`):
  - `getFileName`, `getFileNameNoExtension` and `getFileExtension` are functions built on an exact model of Java's `String.split` with limit 0 (`JavaSplit.dfy`).
    - Trailing empty pieces are dropped.
    - A string made only of the separator splits into an empty array, so indexing it throws. This is modelled as the `OutOfBounds` outcome.
  - `getFilePath` is a method with a loop.
  - `moveFile` and `deleteFile` act on a `FileSystem` object holding the existing paths and the static counter `appendNum`. What the operating system may still refuse comes from oracle functions.
- **The argument parser** (`ArgsParser.dfy`, module `Parsing`). It is a
  class with the parser's fields.
  - The constructor and `recArgs` (a loop over the arguments) are proved against `Parse` and `Fold`, a left-to-right fold of one `Step` per argument.
  - Lemmas relate the fold to descriptions written directly over the raw argument list.

Quirks of the source that the model reproduces:
- On a name collision, `moveFile` builds the target with no separator after the destination directory.
- It takes the extension from the whole path.
- `run` resets `appendNum` to 0 before every move. A second collision of the same name is therefore refused (`IO.SecondCollisionFails`).
- `moveFile` throws an unchecked exception in two cases. The first is a path that is made only of separators once backslashes become slashes. The second is a file name made only of dots, and only when the plain target is taken. A name like `...` with a free plain target moves normally. Such an exception ends `run`. The run is then left unfinished, and no report or stats are produced.
- `prevArg` starts as the source directory. A value right after the source directory is therefore rejected, like any value that does not follow `-m` or `-s`, unless the source argument is itself `-m` or `-s`. In that case the value is taken as the destination or the export file, without switching the mode on.

`JavaLang.dfy` holds these Java pieces:
- optional values;
- the unchecked-exception outcome;
- 32-bit `int` with wrap-around (used for `appendNum++`);
- decimal rendering.

`Ordering.dfy` holds `String.compareTo` and the ascending key sequence of the TreeMap.

## Model

| member | source | states |
|---|---|---|
| IO.FileName | src/IO.java:123-128 | throws exactly when the path is non-empty and made only of `/` and `\`; otherwise the result has no `/` and is the text after the last `/` of the normalised path, trailing separators ignored |
| IO.FileNameNoExtension | src/IO.java:137-143 | throws when the file name throws or is made only of dots; otherwise the text of the file name before its first dot (the whole name without a dot, empty when it starts with a dot) |
| IO.FileExtension | src/IO.java:152-155 | on the whole un-normalised path: throws exactly when it is non-empty and all dots; otherwise the dot-free text after the last dot once trailing dots are dropped, and the whole path when it has no dot |
| IO.FilePath | src/IO.java:104-114 | every split piece but the last, each followed by the separator; with separator `/` and a path not ending in a separator, `getFilePath(p) + getFileName(p)` is the normalised path |
| IO.Move | src/IO.java:181-196 | plain target `dest + sep + name` when free, returns normally with the counter unchanged; on collision the target `dest + stem + "-(" + n + ")." + ext` and the counter up by one even when the move fails; true iff the move completed, which includes a collision target that is the file itself; a move never destroys a file and keeps the number of files |
| IO.Delete | src/IO.java:205-212 | returns true iff the file was absent or its removal succeeded; only an existing file that could be removed disappears |
| IO.FileSystem.MoveFile | src/IO.java:181-196 | the new paths, counter and result are those of `Move` on the old state |
| IO.FileSystem.DeleteFile | src/IO.java:205-212 | the new paths and result are those of `Delete` on the old paths |
| IO.FileSystem.FilesMove | src/IO.java:185 | `Files.move` of an existing file onto itself does nothing and completes; otherwise it fails when the source is missing, the target exists or the environment refuses, and else the file changes its path |
| IO.SecondCollisionFails | src/IO.java:186-190 | with the counter reset to 0, a file whose plain name and `-(0)` name are both taken by other files is not moved and leaves the counter at 1 |
| JavaSplit.SplitEmpty | src/IO.java:125-126 | `split` yields an empty array exactly for a non-empty string made only of the separator |
| JavaSplit.SplitLast | src/IO.java:126 | the last piece is the text after the last separator once trailing separators are ignored |
| JavaSplit.SplitFirst | src/IO.java:141-142 | the first piece is the text before the first separator |
| JavaSplit.SplitFree | src/IO.java:125 | no piece contains the separator |
| JavaSplit.SplitJoin | src/IO.java:106-111 | for a string not ending in the separator, the pieces rejoined with the separator rebuild it |
| JavaLang.DecimalRoundTrip | src/Calculate.java:232 | reading back the decimal rendering of a count gives the count |
| JavaLang.DecimalInjective | src/IO.java:188 | distinct non-negative values render as distinct digit strings |
| JavaLang.IntDecimalInjective | src/IO.java:188 | distinct values of the 32-bit counter, negative ones included, render as distinct texts in the collision name |
| Ordering.InsertSorted | src/Calculate.java:162-164 | `put` of a key keeps the key sequence strictly ascending, adds exactly that key, and changes nothing when it was present |
| Ordering.SortedUnique | src/Calculate.java:212 | the ascending enumeration of a key set is unique |
| Ordering.LessTotal | src/Calculate.java:212 | `compareTo` orders any two different keys one way or the other |
| Ordering.LessTransitive | src/Calculate.java:212 | `compareTo` order is transitive |
| Ordering.LessAsymmetric | src/Calculate.java:212 | of two keys, at most one precedes the other |
| Parsing.FoldModes | src/ArgsParser.java:103-118 | after the pass, each of `-m`, `-d`, `-s` has switched its mode on iff it occurs, `-r` switched recursion off iff it occurs; repetitions and values change nothing; the source directory is untouched |
| Parsing.FoldValues | src/ArgsParser.java:119-130 | the destination is the last value read directly after `-m`, the export file the last value read directly after `-s`; each is declared iff such a value exists |
| Parsing.FoldParseOK | src/ArgsParser.java:119-140 | parseOK stays true iff it was true and every value directly follows `-m` or `-s`; once false it stays false |
| Parsing.FoldPrev | src/ArgsParser.java:103-130 | the register holds `-m` (or `-s`) exactly when the previous raw argument was that flag |
| Parsing.ParseOK | src/ArgsParser.java:64-81 | the parse succeeds iff there is a first argument, it exists, and every later value directly follows `-m` or `-s`; no arguments or a missing source fail |
| Parsing.ParseModes | src/ArgsParser.java:52-82 | the modes after construction from the raw arguments (defaults: recursive on, the others off); move mode suppresses delete mode, so both are never on |
| Parsing.ParseDestDir | src/ArgsParser.java:73-78 | the destination is the last value after `-m`, else the default directory in move mode, else empty |
| Parsing.ParseExpFile | src/ArgsParser.java:168-180 | `getExpFile` is empty without `-s`, the last value after `-s` when one was given, and the time-stamped name in the source directory otherwise |
| Parsing.ArgsParser.constructor | src/ArgsParser.java:52-82 | the fields after construction are `Parse` of the arguments |
| Parsing.ArgsParser.RecArgs | src/ArgsParser.java:97-141 | the fields after `recArgs` are the fold of `Step` over the arguments |
| Parsing.ArgsParser.Consume | src/ArgsParser.java:102-136 | one pass of the switch is one `Step` |
| Parsing.ArgsParser.ConsumeFlag | src/ArgsParser.java:103-118 | a flag sets its mode and becomes the previous argument |
| Parsing.ArgsParser.ConsumeValue | src/ArgsParser.java:119-134 | a value after `-m` or `-s` is stored and declared; any other value clears parseOK |
| Parsing.ArgsParser.SettleModes | src/ArgsParser.java:73-78 | move mode clears delete mode and, without a declared destination, sets the default directory |
| Calculation.Add | src/Calculate.java:158-165 | filing a file appends its path to its digest's list or starts a one-element list; the keys grow by that digest only; no other list changes |
| Calculation.IndexGroup | src/Calculate.java:192-199 | after filing a sequence, each digest's list is its old list followed by the paths with that digest in discovery order |
| Calculation.IndexKeys | src/Calculate.java:158-165 | the keys after filing are the old keys and the digests of the filed files |
| Calculation.IndexNonEmpty | src/Calculate.java:158-165 | filing never leaves an empty list in the map |
| Calculation.PathsWith | src/Calculate.java:192-199 | a path is listed under a digest iff a file with that path and digest was hashed |
| Calculation.HashesMembers | src/Calculate.java:152-166 | a file contributes a hash iff it was read and hashed; a failed read contributes nothing |
| Calculation.FilesAmongMembers | src/Calculate.java:150-151 | the non-recursive scan visits exactly the children that are not directories |
| Calculation.ShallowMembers | src/Calculate.java:147-151 | the non-recursive scan of a root visits only the root's non-directory children, nothing for a file root |
| Calculation.DupeKeys | src/Calculate.java:212-213 | a key is kept iff it is a key of the map with more than one path |
| Calculation.DupeKeysSorted | src/Calculate.java:212 | the kept keys stay in ascending order |
| Calculation.DupesAreGroups | src/Calculate.java:210-220 | the i-th listed set is the list of the i-th kept key and has more than one member |
| Calculation.DupesCount | src/Calculate.java:210-220 | there are as many listed sets as map keys whose list has more than one path |
| Calculation.AttemptKeepsFiles | src/Calculate.java:92-93 | one reset-then-move attempt keeps the number of files, every path but the attempted one, and leaves the counter at 0 or 1 |
| Calculation.MoveAllKeeps | src/Calculate.java:89-96 | any loop of attempts with that property keeps the number of files and every unattempted path, has at most one success per attempt, and ends with the counter at 0 or 1 |
| Calculation.MoveAllBounds | src/Calculate.java:89-96 | moving keeps the number of files, only attempted files can leave their path, at most one success per attempt, and the counter ends at 0 or 1 after the reset |
| Calculation.MoveAllAppend | src/Calculate.java:89-96 | moving set after set is moving their concatenation: disks chain and counts add up |
| Calculation.MoveAllAborted | src/Calculate.java:93 | once `moveFile` threw, no later file is attempted |
| Calculation.DeleteAll | src/Calculate.java:99-105 | at most one success per attempted file; only attempted files disappear; with no refusals every attempted file is gone and every attempt counts |
| Calculation.DeleteAllAppend | src/Calculate.java:100-104 | deleting set after set is deleting their concatenation, the counts adding up |
| Calculation.AllButLastSize | src/Calculate.java:101 | delete mode attempts one file fewer per set than move mode: the sum of size - 1 |
| Calculation.SurvivorNotAttempted | src/Calculate.java:101 | when no path repeats, the last member of a set is never attempted |
| Calculation.SurvivorKept | src/Calculate.java:99-105 | when no path repeats, the last member of every set that existed still exists after delete mode |
| Calculation.MarkedDoomed | src/Calculate.java:250-255 | exactly the entries delete mode attempts (all but the last) get an asterisk; the others are printed as they are |
| Calculation.ReportConcat | src/Calculate.java:228-237 | each set contributes its own block after the blocks of the sets before it |
| Calculation.ReportEmpty | src/Calculate.java:228-237 | the report is empty iff there are no sets |
| Calculation.ResolutionEffects | src/Calculate.java:89-110 | move mode keeps the number of files and deletes nothing, moved count at most the number of members; delete mode only removes files, deleted count at most the sum of size - 1, never a set's last member; report mode changes nothing; only move mode can abort |
| Calculation.Calculate.constructor | src/Calculate.java:56-72 | an empty map, zero counters, an empty buffer, an unfinished run, and the tree rooted at the parser's source directory |
| Calculation.Calculate.Insert | src/Calculate.java:158-165 | the map becomes `Add` of the old map, and the key sequence stays its ascending enumeration |
| Calculation.Calculate.HashFile | src/Calculate.java:152-166 | a hashed file is filed, a failed one is skipped |
| Calculation.Calculate.Calc | src/Calculate.java:147-170 | the map becomes the old map with the hashes of the root's own files filed in stream order |
| Calculation.Calculate.CalcRec | src/Calculate.java:178-202 | the map becomes the old map with the hashes of every file of the tree filed depth first in stream order |
| Calculation.Calculate.Scan | src/Calculate.java:82-85 | recursive or flat scan according to the parser's recursion mode |
| Calculation.Calculate.GetListOfDupes | src/Calculate.java:210-220 | the returned list is `Dupes` of the map in ascending key order; `dupeCounter` grows by its length |
| Calculation.Calculate.MoveDupes | src/Calculate.java:89-96 | the disk, moved count and abort flag are those of `MoveAll` over every member of every set |
| Calculation.Calculate.MoveSet | src/Calculate.java:91-95 | the same over one set |
| Calculation.Calculate.MoveOne | src/Calculate.java:92-93 | the counter is reset to 0, then the file is moved |
| Calculation.Calculate.MoveCounted | src/Calculate.java:92-94 | one pass of the inner loop: the new disk, the counter and the abort flag are the move fold over that single item, so the counter goes up exactly when moveFile returned true and an exception aborts |
| Calculation.Calculate.DeleteDupes | src/Calculate.java:99-105 | the paths and deleted count are those of `DeleteAll` over all but the last member of every set |
| Calculation.Calculate.DeleteSet | src/Calculate.java:101-104 | the same over indices 0 to size - 2 of one set |
| Calculation.Calculate.OutputDupes | src/Calculate.java:228-237 | the buffer grows by `Report`: per set, lines `k.<TAB>path` for k = 1..size, then the separator line |
| Calculation.Calculate.AppendBlock | src/Calculate.java:229-236 | the buffer grows by one set's numbered lines and the separator |
| Calculation.Calculate.OutputDupesMarked | src/Calculate.java:246-259 | the buffer grows by the report of the marked sets |
| Calculation.Calculate.AppendMarkedBlock | src/Calculate.java:247-258 | the buffer grows by one marked set's lines and the separator |
| Calculation.Calculate.AppendMarkedEntry | src/Calculate.java:250-255 | the buffer grows by the line of the entry, with an asterisk unless it is the last |
| Calculation.Calculate.Resolve | src/Calculate.java:89-110 | disk, counters, abort flag and buffer are those of `Resolution` in the parser's mode |
| Calculation.Calculate.AppendStats | src/Calculate.java:118-128 | the buffer grows by the stats block with the count of the active mode |
| Calculation.Calculate.Conclude | src/Calculate.java:89-137 | after resolving: finished unless `moveFile` threw; buffer is the report and, when sets exist, the stats; with no sets the buffer stays empty; the save happens only when finished, sets exist and save mode is on |
| Calculation.Calculate.Run | src/Calculate.java:80-139 | the map is the scan's filing, `dupeCounter` the number of duplicate sets, and the final state is the conclusion on the sets listed in ascending key order |

## Left out

- SHA-256 hashing and hex encoding are foreign library calls. Each file's digest is part of the input (`Entry.File`), and `None` stands for a read or hash that threw.
- Directory enumeration is file-system I/O with an unspecified order. The tree the directory streams yield is given as an `Entry` value. A stream that fails is modelled by the entries it yielded before failing.
- `IO.exists`, `IO.dirExists` and `IO.mkDefaultDir` are oracles: `pathExists`, `dirExists` and `defaultDir` are parameters. Inside `moveFile`, `Files.exists` is membership in `Disk.paths`, not an oracle. `Files.move` and `Files.deleteIfExists` act on the set of existing paths, and anything else the environment refuses comes from the oracles `refusesMove` and `refusesDelete`.
- `IO.saveFile` is not modelled as a write. `Run` returns the file name and text it would be asked to write. Whether the write succeeds only changes console output.
- Calculation.Calculate.Run: `getDestDir` is evaluated once, because the `dirExists` oracle is a pure function. The source asks before every move.
- Parsing.ArgsParser.GetExpFile: the `IO.dirExists(IO.getFilePath(expFile))` call is left out. It can create directories and its result is ignored.
- Parsing.ParseExpFile: the time stamp of the default export name comes from the wall clock and is the `date` parameter.
- Parsing.ArgsParser.GetDestDir has no contract of its own. It returns `destDir` when the `dirExists` oracle accepts it and the empty string otherwise.
- Parsing.ArgsParser.GetSrcDir, RecursiveMode, SaveMode, MoveMode and DeleteMode are plain field reads with no contracts of their own. Their values after construction are stated by `Parsing.ParseModes`, `Parsing.ParseDestDir` and `Parsing.ArgsParser.constructor`.
- The parser's `pointer` field is replaced by the loop index of `RecArgs`.
- The thread (`Calculate extends Thread`), the polling of `isFinished`, the `Prompt` timer and `main` are concurrency and process wiring. Only the final value of `isFinished` is modelled.
- Console printing is not modelled. `System.lineSeparator()` and `File.separator` are the parameters `eol` and `sep`.
- Unchecked exceptions are modelled only where the core raises them: indexing the empty array of a `split`. Other runtime failures are not modelled.
- IO.Move: paths are compared as raw strings. `Files.exists(Paths.get(..))` and `Files.move` first normalise a path, collapsing a doubled separator. The default directory always ends in a separator, so its plain target is `...MovedFiles//name`. The model and the program then differ in two cases. In the first, a file `...MovedFiles/name` already exists in the default directory: the model does not see it and takes the plain branch, while the program takes the collision branch. In the second, a later plain target names the target of an earlier collision, such as a source file called `a-(0).txt` after `a.txt` collided. The collision target has no doubled separator, so again only the program sees it as taken. Files the model itself moved to a doubled-separator target are seen by both, so a second file of the same name collides in both.
- Calculation.Calculate.constructor: `root` is the tree under `Paths.get(srcDir)`. The model requires its path to be `srcDir` as written, without the normalisation `Paths.get` applies.
- Calculation.Calculate.Run: the counters are unbounded naturals. The source's `int` counters could only wrap past 2^31 files.
- Calculation.ResolutionEffects and Calculation.SurvivorKept: the survivor guarantee assumes no path occurs twice among the sets. This holds for paths a directory scan yields, but the model does not derive it from the tree.
