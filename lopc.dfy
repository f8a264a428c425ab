/** The line counter: the exclusion list, the per-file count, the directory
    walk, the per-target scan and the run over all targets.

    Each operation is a method written the way the program does it, and is
    proved equal to a specification function over the filesystem value. The
    program's printing is modelled as the list of events it produces, every
    event tagged with the verbosity it needs; the printed output is that list
    filtered by the verbosity in force (`Shown`). A fatal error is the
    `Fatal` status: the events up to and including the error message stay,
    and nothing after them happens. */
module Lopc {
  import opened Wildcard
  import opened Lines
  import opened FileSystem

  // ---------------------------------------------------------------------
  // The exclusion list.

  /** The built-in exclusions: hidden directories, `venv`, `__pycache__`. */
  const DefaultExcludedDirs: seq<string> := [".*", "venv", "__pycache__"]

  /** The exclusion test, as the specification of `IsExcluded`: some
      pattern of the list matches the bare name. */
  predicate Excluded(patterns: seq<string>, name: string) {
    exists i :: 0 <= i < |patterns| && Matches(name, patterns[i])
  }

  /** The exclusion list a run uses: the defaults, or nothing under
      `--no-defaults`, followed by the `-e` patterns in the order given. */
  function ExclusionList(noDefaults: bool, excludeDir: seq<string>): (r: seq<string>)
    ensures |r| == (if noDefaults then 0 else |DefaultExcludedDirs|) + |excludeDir|
    ensures r[|r| - |excludeDir|..] == excludeDir
    ensures !noDefaults ==> r[..|DefaultExcludedDirs|] == DefaultExcludedDirs
  {
    (if noDefaults then [] else DefaultExcludedDirs) + excludeDir
  }

  /** How `main` builds that list: starts from the defaults, or from
      nothing under `--no-defaults`, and appends the `-e` patterns one at a
      time. (The program appends the `-e` patterns to the module-level default
      list itself, which that list aliases; within one run this changes
      nothing, since the list is built once.) */
  method BuildExcludedDirs(noDefaults: bool, excludeDir: seq<string>) returns (patterns: seq<string>)
    ensures patterns == ExclusionList(noDefaults, excludeDir)
  {
    patterns := DefaultExcludedDirs;
    if noDefaults {
      patterns := [];
    }
    ghost var base := patterns;
    for i := 0 to |excludeDir|
      invariant patterns == base + excludeDir[..i]
    {
      patterns := patterns + [excludeDir[i]];
    }
    assert excludeDir[..|excludeDir|] == excludeDir;
  }

  /** `is_excluded`: tries the patterns in order and stops at the first
      that matches. */
  method IsExcluded(patterns: seq<string>, name: string) returns (excluded: bool)
    ensures excluded <==> Excluded(patterns, name)
  {
    for i := 0 to |patterns|
      invariant forall k :: 0 <= k < i ==> !Matches(name, patterns[k])
    {
      if Matches(name, patterns[i]) {
        return true;
      }
    }
    return false;
  }

  // ---------------------------------------------------------------------
  // Results and output.

  datatype Counts = Counts(files: nat, lines: nat)

  function Add(a: Counts, b: Counts): Counts {
    Counts(a.files + b.files, a.lines + b.lines)
  }

  const Zero := Counts(0, 0)

  /** A finished step, or one that ended the process with exit status 1. */
  datatype Status<T> = Done(value: T) | Fatal

  /** What the program prints, in order. */
  datatype Event =
    | Entering(dir: Path)                          // "Directory: <dir>"
    | Reading(file: Path)                          // "File: <file> "
    | LinesRead(count: nat)                        // "(<count> lines)"
    | Ignored                                      // "(ignored)"
    | DecodeWarning(file: Path)                    // on stderr: the file is skipped
    | ReadFailure(file: Path)                      // on stderr: "Error reading <file>: ..."
    | ListFailure(dir: Path)                       // the uncaught error of listing <dir>
    | Summary(target: string, files: nat, lines: nat)  // "<target> Files: <n> Lines: <m>"
    | Total(files: nat, lines: nat)                // "Total: Files: <n> Lines: <m>"

  /** The verbosity an event needs to be printed. */
  function Level(e: Event): nat {
    match e
    case Entering(_) => 2
    case Reading(_) => 1
    case LinesRead(_) => 1
    case Ignored => 1
    case _ => 0
  }

  /** What is printed at a given verbosity. */
  function Shown(verbosity: nat, events: seq<Event>): (r: seq<Event>)
    ensures forall e :: e in r ==> e in events && Level(e) <= verbosity
    ensures forall e :: e in events && Level(e) <= verbosity ==> e in r
    decreases |events|
  {
    if events == [] then []
    else
      var last := events[|events| - 1];
      Shown(verbosity, events[..|events| - 1]) + (if Level(last) <= verbosity then [last] else [])
  }

  /** The events of a step and how it ended. */
  datatype Outcome<T> = Outcome(events: seq<Event>, status: Status<T>)

  const Unit: Outcome<Counts> := Outcome([], Done(Zero))

  /** Runs `next` after `acc`: nothing runs after a fatal step, and the
      counts of two finished steps add up. */
  function Then(acc: Outcome<Counts>, next: Outcome<Counts>): Outcome<Counts> {
    if acc.status.Fatal? then acc
    else
      match next.status
      case Fatal => Outcome(acc.events + next.events, Fatal)
      case Done(c) => Outcome(acc.events + next.events, Done(Add(acc.status.value, c)))
  }

  // ---------------------------------------------------------------------
  // One file.

  /** The lines that count in a file's decoded text. */
  function TextLines(text: string): nat {
    CountCode(SplitLines(text))
  }

  /** What `read_file` does with a file: announce it, then print its count,
      or warn and count 0 when it does not decode, or report the error and
      end the process when it cannot be read. */
  function FileOutcome(path: Path, content: Content): (r: Outcome<nat>)
    ensures r.events != [] && r.events[0] == Reading(path)
    ensures r.status.Fatal? <==> content.Unreadable?
    ensures content.Undecodable? ==> r.status == Done(0)
  {
    match content
    case Text(text) => Outcome([Reading(path), LinesRead(TextLines(text))], Done(TextLines(text)))
    case Undecodable => Outcome([Reading(path), DecodeWarning(path), Ignored], Done(0))
    case Unreadable => Outcome([Reading(path), ReadFailure(path)], Fatal)
  }

  /** `read_file`: counts the lines of the text one at a time. */
  method ReadFile(path: Path, content: Content) returns (status: Status<nat>, events: seq<Event>)
    ensures Outcome(events, status) == FileOutcome(path, content)
  {
    events := [Reading(path)];
    match content
    case Unreadable =>
      events := events + [ReadFailure(path)];
      return Fatal, events;
    case Undecodable =>
      events := events + [DecodeWarning(path), Ignored];
      return Done(0), events;
    case Text(text) =>
      var count := CountTextLines(text);
      events := events + [LinesRead(count)];
      return Done(count), events;
  }

  /** The counting loop of `read_file`: strips each line of the text and
      counts those that are neither empty nor a comment. */
  method CountTextLines(text: string) returns (count: nat)
    ensures count == TextLines(text)
  {
    var lines := SplitLines(text);
    count := 0;
    for i := 0 to |lines|
      invariant count == CountCode(lines[..i])
    {
      var line := Strip(lines[i]);
      if line != [] && line[0] != '#' {
        count := count + 1;
      }
      assert lines[..i + 1][..i] == lines[..i];
    }
    assert lines[..|lines|] == lines;
  }

  /** A file handled on its own: it is one file, whatever its suffix. */
  function AsOneFile(o: Outcome<nat>): Outcome<Counts> {
    match o.status
    case Fatal => Outcome(o.events, Fatal)
    case Done(n) => Outcome(o.events, Done(Counts(1, n)))
  }

  // ---------------------------------------------------------------------
  // The walk.

  /** The contribution of entry `n` to the first pass over a directory:
      a non-directory with the `.py` suffix is read, anything else is
      skipped. */
  function FileStep(path: Path, n: Node): Outcome<Counts> {
    if n.kind.File? && IsPythonSource(n.name) then AsOneFile(FileOutcome(path + [n.name], n.kind.content))
    else Unit
  }

  /** The first pass over the entries `ch` of the directory at `path`,
      after `acc`. */
  function FilesPass(acc: Outcome<Counts>, path: Path, ch: seq<Node>): Outcome<Counts>
    decreases |ch|
  {
    if ch == [] then acc
    else Then(FilesPass(acc, path, ch[..|ch| - 1]), FileStep(path, ch[|ch| - 1]))
  }

  /** The contribution of entry `n` to the second pass: a directory whose
      name is not excluded is walked, anything else is skipped. */
  function DirStep(patterns: seq<string>, path: Path, n: Node): Outcome<Counts>
    decreases n
  {
    if n.kind.Dir? && !Excluded(patterns, n.name) then Walk(patterns, path + [n.name], n.kind.listing)
    else Unit
  }

  /** The second pass over the entries `ch`, after `acc`. */
  function DirsPass(acc: Outcome<Counts>, patterns: seq<string>, path: Path, ch: seq<Node>): Outcome<Counts>
    decreases ch
  {
    if ch == [] then acc
    else Then(DirsPass(acc, patterns, path, ch[..|ch| - 1]), DirStep(patterns, path, ch[|ch| - 1]))
  }

  /** The walk of the directory at `path`, whose listing is `listing`:
      announce the directory, list it, read its files, then walk its
      subdirectories. The directory's own name plays no part. */
  function Walk(patterns: seq<string>, path: Path, listing: Listing): Outcome<Counts>
    decreases listing
  {
    match listing
    case Unlistable => Outcome([Entering(path), ListFailure(path)], Fatal)
    case Entries(ch) => DirsPass(FilesPass(Outcome([Entering(path)], Done(Zero)), path, ch), patterns, path, ch)
  }

  /** The non-directories of `ch`, in order. */
  function FilesOf(ch: seq<Node>): (r: seq<Node>)
    ensures forall k :: 0 <= k < |r| ==> r[k].kind.File?
    decreases |ch|
  {
    if ch == [] then []
    else FilesOf(ch[..|ch| - 1]) + (if ch[|ch| - 1].kind.File? then [ch[|ch| - 1]] else [])
  }

  /** The directories of `ch`, in order. */
  function DirsOf(ch: seq<Node>): (r: seq<Node>)
    ensures forall k :: 0 <= k < |r| ==> r[k].kind.Dir? && r[k] in ch
    decreases |ch|
  {
    if ch == [] then []
    else DirsOf(ch[..|ch| - 1]) + (if ch[|ch| - 1].kind.Dir? then [ch[|ch| - 1]] else [])
  }

  lemma ThenUnit(o: Outcome<Counts>)
    ensures Then(o, Unit) == o
  {
    if o.status.Done? {
      assert o.events + [] == o.events;
    }
  }

  /** Reading only the non-directories gives the same first pass. */
  lemma {:induction false} FilesPassOfFiles(acc: Outcome<Counts>, path: Path, ch: seq<Node>)
    ensures FilesPass(acc, path, FilesOf(ch)) == FilesPass(acc, path, ch)
    decreases |ch|
  {
    if ch != [] {
      var pre, last := ch[..|ch| - 1], ch[|ch| - 1];
      FilesPassOfFiles(acc, path, pre);
      if last.kind.File? {
        var fs := FilesOf(pre) + [last];
        assert FilesOf(ch) == fs;
        assert fs[..|fs| - 1] == FilesOf(pre) && fs[|fs| - 1] == last;
        assert FilesPass(acc, path, fs) == Then(FilesPass(acc, path, FilesOf(pre)), FileStep(path, last));
      } else {
        assert FilesOf(ch) == FilesOf(pre);
        assert FileStep(path, last) == Unit;
        ThenUnit(FilesPass(acc, path, pre));
      }
    }
  }

  /** Walking only the directories gives the same second pass. */
  lemma {:induction false} DirsPassOfDirs(acc: Outcome<Counts>, patterns: seq<string>, path: Path, ch: seq<Node>)
    ensures DirsPass(acc, patterns, path, DirsOf(ch)) == DirsPass(acc, patterns, path, ch)
    decreases |ch|
  {
    if ch != [] {
      var pre, last := ch[..|ch| - 1], ch[|ch| - 1];
      DirsPassOfDirs(acc, patterns, path, pre);
      if last.kind.Dir? {
        var ds := DirsOf(pre) + [last];
        assert DirsOf(ch) == ds;
        assert ds[..|ds| - 1] == DirsOf(pre) && ds[|ds| - 1] == last;
        assert DirsPass(acc, patterns, path, ds) == Then(DirsPass(acc, patterns, path, DirsOf(pre)), DirStep(patterns, path, last));
      } else {
        assert DirsOf(ch) == DirsOf(pre);
        assert DirStep(patterns, path, last) == Unit;
        ThenUnit(DirsPass(acc, patterns, path, pre));
      }
    }
  }

  /** Once the first pass has failed, the entries after the failure are not
      looked at. */
  lemma {:induction false} FilesPassStopsAtFatal(acc: Outcome<Counts>, path: Path, ch: seq<Node>, i: nat)
    requires i <= |ch| && FilesPass(acc, path, ch[..i]).status.Fatal?
    ensures FilesPass(acc, path, ch) == FilesPass(acc, path, ch[..i])
    decreases |ch|
  {
    if i < |ch| {
      assert ch[..|ch| - 1][..i] == ch[..i];
      FilesPassStopsAtFatal(acc, path, ch[..|ch| - 1], i);
    } else {
      assert ch[..i] == ch;
    }
  }

  /** A pass that starts after a failure is the failure itself. */
  lemma {:induction false} DirsPassAfterFatal(acc: Outcome<Counts>, patterns: seq<string>, path: Path, ch: seq<Node>)
    requires acc.status.Fatal?
    ensures DirsPass(acc, patterns, path, ch) == acc
    decreases |ch|
  {
    if ch != [] {
      DirsPassAfterFatal(acc, patterns, path, ch[..|ch| - 1]);
    }
  }

  /** Once the second pass has failed, the entries after the failure are
      not looked at. */
  lemma {:induction false} DirsPassStopsAtFatal(acc: Outcome<Counts>, patterns: seq<string>, path: Path, ch: seq<Node>, i: nat)
    requires i <= |ch| && DirsPass(acc, patterns, path, ch[..i]).status.Fatal?
    ensures DirsPass(acc, patterns, path, ch) == DirsPass(acc, patterns, path, ch[..i])
    decreases |ch|
  {
    if i < |ch| {
      assert ch[..|ch| - 1][..i] == ch[..i];
      DirsPassStopsAtFatal(acc, patterns, path, ch[..|ch| - 1], i);
    } else {
      assert ch[..i] == ch;
    }
  }

  lemma {:induction false} FilesPassSnoc(acc: Outcome<Counts>, path: Path, ch: seq<Node>, i: nat)
    requires i < |ch|
    ensures FilesPass(acc, path, ch[..i + 1]) == Then(FilesPass(acc, path, ch[..i]), FileStep(path, ch[i]))
  {
    assert ch[..i + 1][..i] == ch[..i];
  }

  lemma {:induction false} DirsPassSnoc(acc: Outcome<Counts>, patterns: seq<string>, path: Path, ch: seq<Node>, i: nat)
    requires i < |ch|
    ensures DirsPass(acc, patterns, path, ch[..i + 1]) == Then(DirsPass(acc, patterns, path, ch[..i]), DirStep(patterns, path, ch[i]))
  {
    assert ch[..i + 1][..i] == ch[..i];
  }

  /** The first loop of `recurse_dir`: sorts the entries into directories
      and the rest, each in listing order. */
  method PartitionEntries(children: seq<Node>) returns (dirsList: seq<Node>, filesList: seq<Node>)
    ensures dirsList == DirsOf(children) && filesList == FilesOf(children)
  {
    dirsList, filesList := [], [];
    for i := 0 to |children|
      invariant dirsList == DirsOf(children[..i])
      invariant filesList == FilesOf(children[..i])
    {
      assert children[..i + 1][..i] == children[..i];
      var item := children[i];
      if item.kind.Dir? {
        dirsList := dirsList + [item];
      } else {
        filesList := filesList + [item];
      }
    }
    assert children[..|children|] == children;
  }

  /** The second loop of `recurse_dir`: reads the `.py` files among
      `filesList`, adding to the totals so far. */
  method ReadFiles(path: Path, filesList: seq<Node>, events0: seq<Event>, total0: Counts)
    returns (status: Status<Counts>, events: seq<Event>)
    requires forall k :: 0 <= k < |filesList| ==> filesList[k].kind.File?
    ensures Outcome(events, status) == FilesPass(Outcome(events0, Done(total0)), path, filesList)
  {
    ghost var start := Outcome(events0, Done(total0));
    events := events0;
    var total := total0;
    for i := 0 to |filesList|
      invariant FilesPass(start, path, filesList[..i]) == Outcome(events, Done(total))
    {
      var item := filesList[i];
      FilesPassSnoc(start, path, filesList, i);
      if IsPythonSource(item.name) {
        var fileStatus, fileEvents := ReadFile(path + [item.name], item.kind.content);
        assert FileStep(path, item) == AsOneFile(Outcome(fileEvents, fileStatus));
        events := events + fileEvents;
        if fileStatus.Fatal? {
          FilesPassStopsAtFatal(start, path, filesList, i + 1);
          return Fatal, events;
        }
        total := Add(total, Counts(1, fileStatus.value));
      } else {
        assert FileStep(path, item) == Unit;
        ThenUnit(Outcome(events, Done(total)));
      }
    }
    assert filesList[..|filesList|] == filesList;
    return Done(total), events;
  }

  /** `recurse_dir`: announces the directory, sorts its entries, reads the
      `.py` files among the non-directories, then recurses into every
      directory whose name is not excluded, adding up files and lines. */
  method RecurseDir(patterns: seq<string>, path: Path, listing: Listing) returns (status: Status<Counts>, events: seq<Event>)
    ensures Outcome(events, status) == Walk(patterns, path, listing)
    decreases listing
  {
    events := [Entering(path)];
    if listing.Unlistable? {
      events := events + [ListFailure(path)];
      return Fatal, events;
    }
    var children := listing.children;
    var dirsList, filesList := PartitionEntries(children);
    ghost var start := Outcome(events, Done(Zero));
    FilesPassOfFiles(start, path, children);
    status, events := ReadFiles(path, filesList, events, Zero);
    ghost var afterFiles := Outcome(events, status);
    DirsPassOfDirs(afterFiles, patterns, path, children);
    if status.Fatal? {
      DirsPassAfterFatal(afterFiles, patterns, path, children);
      return;
    }
    var total := status.value;
    for i := 0 to |dirsList|
      invariant DirsPass(afterFiles, patterns, path, dirsList[..i]) == Outcome(events, Done(total))
    {
      var item := dirsList[i];
      DirsPassSnoc(afterFiles, patterns, path, dirsList, i);
      var excluded := IsExcluded(patterns, item.name);
      if !excluded {
        assert item in children;
        var dirStatus, dirEvents := RecurseDir(patterns, path + [item.name], item.kind.listing);
        assert DirStep(patterns, path, item) == Outcome(dirEvents, dirStatus);
        events := events + dirEvents;
        if dirStatus.Fatal? {
          DirsPassStopsAtFatal(afterFiles, patterns, path, dirsList, i + 1);
          return Fatal, events;
        }
        total := Add(total, dirStatus.value);
      } else {
        assert DirStep(patterns, path, item) == Unit;
        ThenUnit(Outcome(events, Done(total)));
      }
    }
    assert dirsList[..|dirsList|] == dirsList;
    return Done(total), events;
  }

  // ---------------------------------------------------------------------
  // Targets and the run.

  /** A command-line target and what its path is: a directory is walked,
      anything else (a missing path included) is read as one file. */
  datatype Target = Target(arg: string, kind: Kind)

  /** What `scan` does with a target: walk it or read it, then print its
      summary line unless the process has ended. */
  function ScanOutcome(patterns: seq<string>, t: Target): Outcome<Counts> {
    var o := match t.kind
      case Dir(listing) => Walk(patterns, [t.arg], listing)
      case File(content) => AsOneFile(FileOutcome([t.arg], content));
    match o.status
    case Fatal => o
    case Done(c) => Outcome(o.events + [Summary(t.arg, c.files, c.lines)], o.status)
  }

  /** `scan`. */
  method Scan(patterns: seq<string>, target: Target) returns (status: Status<Counts>, events: seq<Event>)
    ensures Outcome(events, status) == ScanOutcome(patterns, target)
  {
    var files: nat, lines: nat;
    match target.kind {
      case Dir(listing) =>
        status, events := RecurseDir(patterns, [target.arg], listing);
        if status.Fatal? {
          return;
        }
        files, lines := status.value.files, status.value.lines;
      case File(content) =>
        var fileStatus;
        fileStatus, events := ReadFile([target.arg], content);
        if fileStatus.Fatal? {
          return Fatal, events;
        }
        files, lines := 1, fileStatus.value;
    }
    events := events + [Summary(target.arg, files, lines)];
    status := Done(Counts(files, lines));
  }

  /** The parsed command line. */
  datatype Options = Options(targets: seq<Target>, excludeDir: seq<string>, noDefaults: bool, verbose: nat)

  /** The scans of `ts`, one after the other, until one ends the process. */
  function ScanAll(patterns: seq<string>, ts: seq<Target>): Outcome<Counts>
    decreases |ts|
  {
    if ts == [] then Unit
    else Then(ScanAll(patterns, ts[..|ts| - 1]), ScanOutcome(patterns, ts[|ts| - 1]))
  }

  /** The process's exit status and what it prints. */
  datatype RunResult = RunResult(exitStatus: int, output: seq<Event>)

  /** What `main` does once the arguments are parsed: scan every target in
      order, then print the grand total when there was more than one. */
  function RunOutcome(opts: Options): RunResult {
    var patterns := ExclusionList(opts.noDefaults, opts.excludeDir);
    var o := ScanAll(patterns, opts.targets);
    match o.status
    case Fatal => RunResult(1, Shown(opts.verbose, o.events))
    case Done(c) =>
      var total := if |opts.targets| > 1 then [Total(c.files, c.lines)] else [];
      RunResult(0, Shown(opts.verbose, o.events + total))
  }

  lemma {:induction false} ScanAllStopsAtFatal(patterns: seq<string>, ts: seq<Target>, i: nat)
    requires i <= |ts| && ScanAll(patterns, ts[..i]).status.Fatal?
    ensures ScanAll(patterns, ts) == ScanAll(patterns, ts[..i])
    decreases |ts|
  {
    if i < |ts| {
      assert ts[..|ts| - 1][..i] == ts[..i];
      ScanAllStopsAtFatal(patterns, ts[..|ts| - 1], i);
    } else {
      assert ts[..i] == ts;
    }
  }

  /** `main` after argument parsing. */
  method Run(opts: Options) returns (result: RunResult)
    ensures result == RunOutcome(opts)
  {
    var patterns := BuildExcludedDirs(opts.noDefaults, opts.excludeDir);
    var events: seq<Event> := [];
    var total := Zero;
    for i := 0 to |opts.targets|
      invariant ScanAll(patterns, opts.targets[..i]) == Outcome(events, Done(total))
    {
      assert opts.targets[..i + 1][..i] == opts.targets[..i];
      var status, scanEvents := Scan(patterns, opts.targets[i]);
      assert ScanAll(patterns, opts.targets[..i + 1])
        == Then(Outcome(events, Done(total)), Outcome(scanEvents, status));
      events := events + scanEvents;
      if status.Fatal? {
        ScanAllStopsAtFatal(patterns, opts.targets, i + 1);
        return RunResult(1, Shown(opts.verbose, events));
      }
      total := Add(total, status.value);
    }
    assert opts.targets[..|opts.targets|] == opts.targets;
    ghost var scanned := events;
    if |opts.targets| > 1 {
      events := events + [Total(total.files, total.lines)];
    } else {
      assert events == scanned + [];
    }
    return RunResult(0, Shown(opts.verbose, events));
  }
}
