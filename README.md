# lopc — a verified model

lopc counts lines of Python code. It is given one or more targets. A target
that is a directory is walked recursively: every non-directory entry whose
name has the suffix `.py` is read, and every subdirectory whose name does not
match one of the exclusion patterns is entered. Any other target is read as a
single file, whatever its name. A line counts when, stripped of surrounding
whitespace, it is non-empty and does not start with `#`. For each target lopc
prints `<target> Files: <n> Lines: <m>`. When there is more than one target it
then prints a grand total.

The exclusion patterns are shell-style wildcards matched case-sensitively
against a bare directory name. By default they are `.*`, `venv` and
`__pycache__`. `--no-defaults` drops the defaults, and each `-e` pattern is
appended in the order given. A directory target itself is never tested against
the patterns. If a file does not decode, a warning is printed and it counts 0
lines. Any other read error ends the process with exit status 1, and so does a
directory that cannot be listed.

The model is split into five modules:

- `Wildcard` (wildcard.dfy) is the pattern matcher: patterns are compiled to
  tokens (`*`, `?`, `[seq]`, `[!seq]`, literal characters) and matched
  against a name.
- `Lines` (lines.dfy) holds the text side: splitting into lines at every
  line boundary Python's `str.splitlines` knows, stripping Unicode
  whitespace, the code-line test and the count.
- `FileSystem` (filesystem.dfy) is the tree lopc walks, as a value. A
  directory is its entries in listing order, or a listing that fails. A file
  is its decoded text, or "does not decode", or "cannot be read". It also
  holds the `.py` suffix test.
- `Lopc` (lopc.dfy) holds the program itself.
  - Building the exclusion list, `is_excluded`, `read_file`, `recurse_dir`
    and the totals of `main` are methods with loops. `scan` is a method
    without a loop.
  - Each method is proved equal to a specification function. The functions
    describe what is printed (an event trace) and how the step ends: a value,
    or an exit with status 1.
- `LopcProperties` (properties.dfy) proves what those functions mean.
  - They are compared with independent reference definitions: the tally of
    a tree, and when a tree makes the run fail.
  - They prove pruning, output order, exclusion and the grand-total facts.

What is printed is modelled as the full sequence of events. Each event has
the verbosity it needs (`Lopc.Level`), and `Lopc.Shown` keeps the events the
chosen verbosity prints. The diagnostics written to stderr are events of
verbosity 0.

## Model

| member | source | states |
|---|---|---|
| Lopc.Level | lopc/lopc.py:33-62 | the verbosity each printed line needs: `Directory:` 2 (line 61), `File:`, `(n lines)` and `(ignored)` 1 (lines 33, 43, 50), the stderr diagnostics, the error of a failed listing and the summary and total lines 0 |
| Lopc.ExclusionList | lopc/lopc.py:131-136 | the pattern list is the three defaults, or nothing under `--no-defaults`, followed by exactly the `-e` patterns in order |
| Lopc.BuildExcludedDirs | lopc/lopc.py:131-136 | the list built by assigning the defaults or `[]` and then appending each `-e` pattern is `ExclusionList` |
| Lopc.IsExcluded | lopc/lopc.py:20-27 | the early-return loop answers true exactly when some pattern in the list matches the name |
| Lopc.Excluded | lopc/lopc.py:20-27 | the definition `is_excluded` is proved against: some pattern of the list matches the name |
| LopcProperties.ExcludedAppend | lopc/lopc.py:24-26 | matching against a concatenated list is matching against either part |
| LopcProperties.DefaultExclusions | lopc/lopc.py:8-12 | the default list excludes exactly the names that start with `.`, plus `venv` and `__pycache__` |
| LopcProperties.ExclusionListMatches | lopc/lopc.py:131-136 | a name is excluded iff a default matches it (unless `--no-defaults`) or some `-e` pattern matches it |
| LopcProperties.NothingExcludedWithoutPatterns | lopc/lopc.py:132-133 | with `--no-defaults` and no `-e`, no name is excluded |
| Wildcard.Matches | lopc/lopc.py:25 | `fnmatch.fnmatchcase(name, pattern)`: the name matches the compiled pattern as a whole; its meaning is stated by the lemmas below |
| Wildcard.Compile | lopc/lopc.py:25 | the translation of a pattern into tokens, one per character or bracket class, so never more tokens than characters; a class is negated by a leading `!`, or by a `!` that deleting the empty ranges brings to the front |
| Wildcard.MatchTokens | lopc/lopc.py:25 | whole-string matching of the tokens: `*` takes any run, every other token exactly one accepted character |
| Wildcard.HiddenPatternMatchesDotNames | lopc/lopc.py:9 | `.*` matches exactly the names whose first character is `.` |
| Wildcard.PlainPatternMatchesItself | lopc/lopc.py:25 | a pattern without `*`, `?` or `[` matches only the identical name, with case significant |
| Wildcard.StarMatchesEverything | lopc/lopc.py:25 | `*` matches every name, including the empty one |
| Wildcard.QuestionMarkMatchesOneCharacter | lopc/lopc.py:25 | `?` matches exactly the one-character names |
| Wildcard.AnyRunSplits | lopc/lopc.py:25 | a leading `*` matches iff the rest of the pattern matches some suffix of the name |
| Wildcard.ClassMatchesMember | lopc/lopc.py:25 | `[seq]` matches a one-character name iff the character is in the class; when deleting the empty ranges brings a `!` to the front of `seq`, the class is negated instead and matches iff the character is not among the members after that `!` |
| Wildcard.DropEmptyRangesKeepsClass | lopc/lopc.py:25 | deleting the empty ranges of a class, as the translation does, leaves the characters it covers unchanged and leaves no empty range |
| Wildcard.ClassWithoutBang | lopc/lopc.py:25 | a class whose text holds no `!` matches a one-character name iff the character is in the class |
| Wildcard.EmptyRangeThenBang | lopc/lopc.py:25 | `[z-a!b]` matches every one-character name but `b` |
| Wildcard.EmptyRangeThenBangAlone | lopc/lopc.py:25 | `[z-a!]` matches every one-character name |
| Wildcard.EmptyRangeThenBangRange | lopc/lopc.py:25 | `[z-a!-c]` matches every one-character name but `-` and `c` |
| Wildcard.NegatedClassMatchesNonMember | lopc/lopc.py:25 | `[!seq]` matches a one-character name iff the character is not in the class |
| Wildcard.UnclosedBracketIsLiteral | lopc/lopc.py:25 | a `[` with no closing `]` stands for the character itself |
| Lines.SplitLines | lopc/lopc.py:37 | the lines contain no line boundary, and there are no more lines than characters |
| Lines.Separators | lopc/lopc.py:37 | the boundaries the split drops, one per line |
| Lines.FirstBoundaryAt | lopc/lopc.py:37 | when a boundary-free line and one separator start the text, the split takes that line and that separator first |
| Lines.SplitLinesSplitsAs | lopc/lopc.py:37 | the lines with the dropped boundaries put back after them give the text; every boundary is `\r\n` or one boundary character, a lone `\r` is never followed by `\n`, and only a non-empty last line may have no boundary |
| Lines.SplitsAsUnique | lopc/lopc.py:37 | any lines and boundaries that rebuild the text in that sense are exactly the split and its boundaries |
| Lines.SplitLinesIsTheSplit | lopc/lopc.py:37 | a list of lines is the split of the text iff some boundaries put after its lines rebuild the text in that sense |
| Lines.SplitLinesKeepsText | lopc/lopc.py:37 | joining the lines gives back the text with only its line boundaries removed (a corollary of `SplitLinesSplitsAs`, kept as the short form) |
| Lines.LastLineAlone | lopc/lopc.py:37 | a non-empty text without a line boundary is a single line, and no boundary follows it |
| Lines.TrimStartDropsSpace | lopc/lopc.py:38 | stripping the front removes only whitespace, and what remains does not start with whitespace |
| Lines.TrimEndDropsSpace | lopc/lopc.py:38 | stripping the end removes only whitespace, and what remains does not end with whitespace |
| Lines.Strip | lopc/lopc.py:38 | `str.strip()`: the whitespace at both ends removed; what that means is stated by the two lemmas above |
| Lines.IsCode | lopc/lopc.py:38-39 | the test of a line: its stripped form is non-empty and does not start with `#` |
| Lines.IsCodeIffFirstVisibleNotHash | lopc/lopc.py:38-39 | a line counts iff its first non-whitespace character exists and is not `#` |
| Lines.BlankLineDoesNotCount | lopc/lopc.py:38-39 | an empty or all-whitespace line does not count |
| Lines.CommentLineDoesNotCount | lopc/lopc.py:38-39 | a line whose first non-whitespace character is `#` does not count |
| Lines.CountCode | lopc/lopc.py:35-40 | the count is at most the number of lines |
| Lines.CountCodeAppend | lopc/lopc.py:35-40 | the count of two runs of lines is the sum of their counts |
| Lines.CountCodeSplitsAt | lopc/lopc.py:35-40 | each line adds exactly one or zero to the count, according to the test |
| Lines.CountCodeAll | lopc/lopc.py:35-40 | the count equals the number of lines iff every line counts |
| Lines.CountCodeNone | lopc/lopc.py:35-40 | the count is 0 iff no line counts |
| Lopc.CountTextLines | lopc/lopc.py:35-40 | the loop over the lines returns the count of code lines of the text |
| Lopc.FileOutcome | lopc/lopc.py:30-52 | what `read_file` prints and returns: the file is announced first, and the read ends the process exactly when the file cannot be read; an undecodable file counts 0 |
| Lopc.ReadFile | lopc/lopc.py:30-52 | a decodable file: announced, then its count printed and returned. An undecodable one: a warning and 0. An unreadable one: an error and exit |
| FileSystem.LastDot | lopc/lopc.py:74 | the index of the last `.` in the name, or -1 when there is none |
| FileSystem.Suffix | lopc/lopc.py:74 | `PurePath.suffix`: from the last dot on, when that dot is neither the first nor the last character; empty otherwise |
| FileSystem.SuffixShape | lopc/lopc.py:74 | a non-empty suffix is a proper ending of the name: a dot, at least one more character, and no other dot |
| FileSystem.IsPythonSource | lopc/lopc.py:74 | the test applied to a non-directory entry: its suffix is `.py` |
| FileSystem.PythonSourceIffEndsInPy | lopc/lopc.py:74 | an entry has suffix `.py` iff its name ends in `.py` with at least one character before it |
| Lopc.PartitionEntries | lopc/lopc.py:66-71 | the listing is split into its directories and its other entries, each kept in listing order |
| Lopc.FilesOf | lopc/lopc.py:66-71 | the non-directory list holds only non-directories |
| Lopc.DirsOf | lopc/lopc.py:66-71 | the directory list holds only directories taken from the listing |
| Lopc.FilesPassOfFiles | lopc/lopc.py:72-76 | reading the non-directory list does the same as a pass over the whole listing that skips directories |
| Lopc.DirsPassOfDirs | lopc/lopc.py:77-82 | recursing over the directory list does the same as a pass over the whole listing that skips non-directories |
| Lopc.ReadFiles | lopc/lopc.py:72-76 | the files loop reads every `.py` entry in order, adding 1 file and its lines per entry, and stops at the first fatal read |
| Lopc.FilesPassStopsAtFatal | lopc/lopc.py:47-49 | once a read has ended the process, later entries add neither output nor counts |
| Lopc.DirsPassStopsAtFatal | lopc/lopc.py:77-82 | once a subdirectory has ended the process, later subdirectories add nothing |
| Lopc.FileStep | lopc/lopc.py:73-76 | one step of the files loop: a non-directory with suffix `.py` is read and counts as 1 file and its lines; any other entry is skipped; its meaning is stated by `FileStepCounts` and `FileStepEvents` |
| Lopc.FilesPass | lopc/lopc.py:72-76 | the files loop over the entries in listing order, stopping at the first step that ends the process; its meaning is stated by `FilesPassCounts`, `FilesPassEvents` and `FilesPassStopsAtFatal` |
| Lopc.DirStep | lopc/lopc.py:79-82 | one step of the directories loop: a directory whose name is not excluded is walked and its counts are added; any other entry is skipped; its meaning is stated by `DirStepCounts` and `DirStepEvents` |
| Lopc.DirsPass | lopc/lopc.py:77-82 | the directories loop over the entries in listing order, stopping at the first walk that ends the process; its meaning is stated by `DirsPassCounts`, `DirsPassEvents` and `DirsPassStopsAtFatal` |
| Lopc.Walk | lopc/lopc.py:55-83 | the walk `recurse_dir` is proved against: announce the directory, fail if it cannot be listed, read its files, then walk the non-excluded subdirectories; its meaning is stated by `WalkCounts`, `WalkEvents` and the pruning lemmas |
| Lopc.RecurseDir | lopc/lopc.py:55-83 | the recursive walk prints and returns exactly what the walk specification gives for the listing |
| LopcProperties.FileStepCounts | lopc/lopc.py:73-76 | one non-directory adds 1 file and its lines when it is `.py`, nothing otherwise, and is fatal only if it is `.py` and unreadable |
| LopcProperties.FilesPassCounts | lopc/lopc.py:72-76 | the files pass adds the tally of the `.py` files, or fails iff one of them is unreadable |
| LopcProperties.DirStepCounts | lopc/lopc.py:79-82 | one directory entry adds its subtree's tally unless excluded, and fails iff its non-excluded subtree fails |
| LopcProperties.DirsPassCounts | lopc/lopc.py:77-82 | the directories pass adds the tallies of the non-excluded subdirectories, or fails iff one of them fails |
| LopcProperties.TallySplits | lopc/lopc.py:72-82 | the tally of a listing is the files-pass tally plus the directories-pass tally |
| LopcProperties.BrokenSplits | lopc/lopc.py:72-82 | a listing fails iff its files pass fails or its directories pass fails |
| LopcProperties.WalkCounts | lopc/lopc.py:55-83 | the walk ends with the number of `.py` non-directories in the non-excluded subtree and their lines. It fails exactly when that subtree holds an unlistable directory or an unreadable `.py` file (with no bound on the depth; see "Left out") |
| LopcProperties.InertEntryIgnored | lopc/lopc.py:66-82 | an entry that neither pass acts on can be removed without changing output or result |
| LopcProperties.ExcludedDirectoryPruned | lopc/lopc.py:79 | removing an excluded directory from a listing changes neither output nor result |
| LopcProperties.ExcludedContentsIrrelevant | lopc/lopc.py:79 | an excluded directory's contents, even an unlistable one, do not affect output or result |
| LopcProperties.OtherFileIgnored | lopc/lopc.py:74 | a non-directory without the `.py` suffix is never read and does not affect output or result |
| LopcProperties.FileStepEvents | lopc/lopc.py:73-76 | one step of the files pass names no directory and no file but the entry it is about |
| LopcProperties.FilesPassEvents | lopc/lopc.py:72-76 | the files pass only extends the output, names no directory, and every file it names is an entry of the directory (its path extends the directory's by one name) |
| LopcProperties.DirStepEvents | lopc/lopc.py:79-82 | walking one subdirectory names only paths under the directory, directories at least one level and files at least two levels below it |
| LopcProperties.DirsPassEvents | lopc/lopc.py:77-82 | the directories pass only extends the output and names only paths under the directory, directories at least one level and files at least two levels below it |
| LopcProperties.WalkEvents | lopc/lopc.py:55-83 | a walk prints no summary or total line, and every directory or file it names has the walked directory's path as a prefix, files at least one level below |
| LopcProperties.FilesBeforeSubdirectories | lopc/lopc.py:61-82 | a walk starts by announcing the directory, and everything printed before an event about one of its own files is that announcement or about another of its own files: no subdirectory is entered, listed or read from before |
| Lopc.ScanOutcome | lopc/lopc.py:86-99 | what `scan` prints and returns: a directory target is walked, any other target is read as one file, and the summary line follows unless the process ended |
| Lopc.Scan | lopc/lopc.py:86-99 | a directory target is walked, any other target is one file read; the summary line follows unless the process ended |
| LopcProperties.ScanCounts | lopc/lopc.py:92-97 | a scan yields the tree's tally for a directory, and 1 file and its lines otherwise; it fails exactly when that tree or file does |
| LopcProperties.DotTargetIsScanned | lopc/lopc.py:93-94 | the target `.` is walked although the default patterns exclude the name `.` |
| LopcProperties.ScanEvents | lopc/lopc.py:98 | a scan never prints a total; when it succeeds its last line is its summary, and no summary comes before it |
| Lopc.ScanAll | lopc/lopc.py:139-142 | the target loop of `main`: each target scanned in order, the counts added up, nothing scanned after a scan that ends the process; its meaning is stated by `ScanAllCounts`, `ScanAllSummaries` and `ScanAllStopsAtFatal` |
| Lopc.ScanAllStopsAtFatal | lopc/lopc.py:47-49 | once a target has ended the process, later targets are not scanned |
| LopcProperties.ScanAllCounts | lopc/lopc.py:139-142 | scanning all targets fails iff one target fails, and otherwise ends with the sums of the targets' tallies |
| LopcProperties.ScanAllPrintsNoTotal | lopc/lopc.py:139-142 | scanning the targets never prints a total line |
| LopcProperties.ScanAllSummaries | lopc/lopc.py:139-140 | in a successful run, the summary lines printed are one per target, in target order |
| Lopc.Shown | lopc/lopc.py:33-34 | the printed events are exactly the events whose required verbosity is at most the chosen one |
| LopcProperties.ShownAppend | lopc/lopc.py:137 | the verbosity filter acts event by event, preserving order |
| LopcProperties.ShownEverything | lopc/lopc.py:61-62 | at verbosity 2 or more everything is printed |
| LopcProperties.ShownKeepsSummaries | lopc/lopc.py:98 | the summary lines are printed at every verbosity |
| Lopc.RunOutcome | lopc/lopc.py:130-144 | what a run prints and its exit status: the targets scanned in order with the built exclusion list, exit 1 at the first failure, otherwise exit 0 with a total line only for more than one target |
| Lopc.Run | lopc/lopc.py:138-144 | the totals loop scans each target in order, stops at an exit, and appends the total line only for more than one target |
| LopcProperties.RunExitStatus | lopc/lopc.py:47-49 | the exit status is 1 iff some target holds an unreadable `.py` file or an unlistable directory, and 0 otherwise (with no bound on the depth; see "Left out") |
| LopcProperties.RunSummaries | lopc/lopc.py:139-140 | a successful run prints exactly one summary per target, in order, at every verbosity |
| LopcProperties.RunTotalPrinted | lopc/lopc.py:143-144 | a total line is printed iff the run succeeds and there is more than one target |
| LopcProperties.RunTotalIsSum | lopc/lopc.py:141-144 | when printed, the total line is the last line and holds the sums of the targets' files and lines |

## Left out

- Argument parsing: the model starts from the parsed options (targets, `-e` patterns in order, `--no-defaults`, the `-v` count).
- Real filesystem access and decoding. The tree is a finite, acyclic value, so symlink cycles are not modelled. A file's content is given as decoded text, or as a decode failure, or as any other read failure.
- Per-file diagnostics are not carried as values. The message of the error that ends the run and the traceback of a failed listing are events, not text.
- A listing that fails partway through is left out. A listing either yields all its entries or fails before yielding any.
- An `is_dir()` that raises is left out. Every entry is a directory or a non-directory.
- The exact text of the printed lines, flushing, and the interleaving of stdout and stderr are left out. The output is an ordered event trace.
- Paths are kept as component lists. How a path is rendered as a string is left out.
- Universal-newline translation on reading: `\r\n` and `\r` become `\n` before the split. This is not modelled separately, because the split already treats all three as one boundary.
- The source raises the file count before it reads the file. The model adds both counts after the read. The difference cannot be observed, because a failing read ends the process.
- The exclusion list aliases the module-level default list, so `-e` patterns are appended to the defaults themselves. Within one run this cannot be observed; the model builds a fresh list.
- Names are Dafny strings of Unicode scalar values. The lone surrogates Python uses for file names that are not valid in the filesystem encoding (the `surrogateescape` handler) cannot be represented, so such names are not modelled.
- Wildcard matching follows the bracket-class translation of Python 3.9 and later. That translation deletes empty ranges, and the model follows it even where a `!` then comes to the front of the class, as in `[z-a!b]`. Python 3.7 and 3.8 raise an error for a class with an empty range, and the model does not follow them there. The translation cache is not modelled.
- Python's recursion limit: `recurse_dir` calls itself once per directory level, and the model's `Walk` and `RecurseDir` have no bound on that depth. A tree nested deeper than the interpreter's recursion limit (1000 frames by default) raises `RecursionError`, which is not an `OSError`, so nothing catches it and the program ends with a traceback and exit status 1. `WalkCounts` and `RunExitStatus` describe only trees within that limit; for deeper trees the model reports a normal result.
- setup.py and packaging are not part of this model.
