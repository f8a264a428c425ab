/** What lopc's results mean, stated against reference definitions that do
    not follow the program's order of work: the count of a tree is a plain
    sum over its entries, and a tree ends the process exactly when some
    entry that is looked at cannot be read. */
module LopcProperties {
  import opened Wildcard
  import opened Lines
  import opened FileSystem
  import opened Lopc

  // ---------------------------------------------------------------------
  // Reference definitions.

  /** The lines a file's content contributes: its count when it decodes,
      0 when it does not (and nothing when it cannot be read). */
  function ContentLines(c: Content): nat {
    match c
    case Text(t) => TextLines(t)
    case _ => 0
  }

  /** Whether the entry `n`, when its directory is walked, ends the process:
      a `.py` non-directory that cannot be read, or a directory that is not
      excluded and holds such an entry or cannot be listed. */
  predicate ChildBroken(patterns: seq<string>, n: Node)
    decreases n
  {
    match n.kind
    case File(c) => IsPythonSource(n.name) && c.Unreadable?
    case Dir(l) => !Excluded(patterns, n.name) && Broken(patterns, l)
  }

  /** Whether walking a directory with this listing ends the process. */
  predicate Broken(patterns: seq<string>, listing: Listing)
    decreases listing
  {
    match listing
    case Unlistable => true
    case Entries(ch) => exists k :: 0 <= k < |ch| && ChildBroken(patterns, ch[k])
  }

  /** What the entry `n` adds to its directory's count: one file and its
      lines for a `.py` non-directory, the whole subtree for a directory
      that is not excluded, nothing otherwise. */
  function ChildTally(patterns: seq<string>, n: Node): Counts
    decreases n
  {
    match n.kind
    case File(c) => if IsPythonSource(n.name) then Counts(1, ContentLines(c)) else Zero
    case Dir(l) => if Excluded(patterns, n.name) then Zero else Tally(patterns, l)
  }

  /** The count of a directory: the sum over its entries. */
  function Tally(patterns: seq<string>, listing: Listing): Counts
    decreases listing
  {
    match listing
    case Unlistable => Zero
    case Entries(ch) => TallyAll(patterns, ch)
  }

  function TallyAll(patterns: seq<string>, ch: seq<Node>): Counts
    decreases ch
  {
    if ch == [] then Zero
    else Add(TallyAll(patterns, ch[..|ch| - 1]), ChildTally(patterns, ch[|ch| - 1]))
  }

  /** The sum over the directories of `ch` (`dirs`) or over the rest. */
  function PassTally(patterns: seq<string>, ch: seq<Node>, dirs: bool): Counts
    decreases |ch|
  {
    if ch == [] then Zero
    else
      var last := ch[|ch| - 1];
      Add(PassTally(patterns, ch[..|ch| - 1], dirs), if last.kind.Dir? == dirs then ChildTally(patterns, last) else Zero)
  }

  /** Whether some directory of `ch` (`dirs`) or some other entry is broken. */
  predicate PassBroken(patterns: seq<string>, ch: seq<Node>, dirs: bool) {
    exists k :: 0 <= k < |ch| && ch[k].kind.Dir? == dirs && ChildBroken(patterns, ch[k])
  }

  // ---------------------------------------------------------------------
  // The walk computes the reference count.

  lemma AddZero(a: Counts)
    ensures Add(a, Zero) == a && Add(Zero, a) == a
  {
  }

  lemma AddAssoc(a: Counts, b: Counts, c: Counts)
    ensures Add(Add(a, b), c) == Add(a, Add(b, c))
  {
  }

  lemma AddSwap(a: Counts, b: Counts, c: Counts)
    ensures Add(Add(a, b), c) == Add(Add(a, c), b)
  {
  }

  lemma {:induction false} TallySplits(patterns: seq<string>, ch: seq<Node>)
    ensures TallyAll(patterns, ch) == Add(PassTally(patterns, ch, false), PassTally(patterns, ch, true))
    decreases |ch|
  {
    if ch == [] {
      AddZero(Zero);
    } else {
      var pre, last := ch[..|ch| - 1], ch[|ch| - 1];
      TallySplits(patterns, pre);
      var f, d, x := PassTally(patterns, pre, false), PassTally(patterns, pre, true), ChildTally(patterns, last);
      assert Add(f, d) == TallyAll(patterns, pre);
      assert TallyAll(patterns, ch) == Add(Add(f, d), x);
      if last.kind.Dir? {
        assert PassTally(patterns, ch, false) == Add(f, Zero);
        assert PassTally(patterns, ch, true) == Add(d, x);
        AddZero(f);
        AddAssoc(f, d, x);
      } else {
        assert PassTally(patterns, ch, false) == Add(f, x);
        assert PassTally(patterns, ch, true) == Add(d, Zero);
        AddZero(d);
        AddSwap(f, d, x);
      }
    }
  }

  lemma {:induction false} BrokenSplits(patterns: seq<string>, ch: seq<Node>)
    ensures Broken(patterns, Entries(ch)) <==> PassBroken(patterns, ch, false) || PassBroken(patterns, ch, true)
  {
    if Broken(patterns, Entries(ch)) {
      var k :| 0 <= k < |ch| && ChildBroken(patterns, ch[k]);
      assert ch[k].kind.Dir? == false || ch[k].kind.Dir? == true;
    }
  }

  /** The broken entries of `ch` are those of its prefix and maybe its last. */
  lemma {:induction false} PassBrokenSnoc(patterns: seq<string>, ch: seq<Node>, dirs: bool)
    requires ch != []
    ensures var last := ch[|ch| - 1];
      PassBroken(patterns, ch, dirs) <==>
        PassBroken(patterns, ch[..|ch| - 1], dirs) || (last.kind.Dir? == dirs && ChildBroken(patterns, last))
  {
    var pre := ch[..|ch| - 1];
    if PassBroken(patterns, ch, dirs) {
      var k :| 0 <= k < |ch| && ch[k].kind.Dir? == dirs && ChildBroken(patterns, ch[k]);
      if k < |pre| {
        assert pre[k] == ch[k];
      }
    }
    if PassBroken(patterns, pre, dirs) {
      var k :| 0 <= k < |pre| && pre[k].kind.Dir? == dirs && ChildBroken(patterns, pre[k]);
      assert ch[k] == pre[k];
    }
  }

  /** What one step of the first pass ends with. */
  lemma FileStepCounts(patterns: seq<string>, path: Path, n: Node)
    ensures FileStep(path, n).status ==
      if n.kind.File? && ChildBroken(patterns, n) then Fatal
      else Done(if n.kind.File? then ChildTally(patterns, n) else Zero)
  {
  }

  /** The first pass adds up the non-directories, or fails on the first
      broken one. */
  lemma {:induction false} FilesPassCounts(acc: Outcome<Counts>, patterns: seq<string>, path: Path, ch: seq<Node>)
    requires acc.status.Done?
    ensures FilesPass(acc, path, ch).status ==
      if PassBroken(patterns, ch, false) then Fatal else Done(Add(acc.status.value, PassTally(patterns, ch, false)))
    decreases |ch|
  {
    if ch != [] {
      var pre, last := ch[..|ch| - 1], ch[|ch| - 1];
      FilesPassCounts(acc, patterns, path, pre);
      PassBrokenSnoc(patterns, ch, false);
      FileStepCounts(patterns, path, last);
      var x := if last.kind.File? then ChildTally(patterns, last) else Zero;
      assert PassTally(patterns, ch, false) == Add(PassTally(patterns, pre, false), x);
      AddAssoc(acc.status.value, PassTally(patterns, pre, false), x);
    }
  }

  /** The second pass adds up the directories that are walked, or fails on
      the first broken one. */
  lemma {:induction false} DirsPassCounts(acc: Outcome<Counts>, patterns: seq<string>, path: Path, ch: seq<Node>)
    requires acc.status.Done?
    ensures DirsPass(acc, patterns, path, ch).status ==
      if PassBroken(patterns, ch, true) then Fatal else Done(Add(acc.status.value, PassTally(patterns, ch, true)))
    decreases ch
  {
    if ch != [] {
      var pre, last := ch[..|ch| - 1], ch[|ch| - 1];
      DirsPassCounts(acc, patterns, path, pre);
      PassBrokenSnoc(patterns, ch, true);
      DirStepCounts(patterns, path, last);
      var x := if last.kind.Dir? then ChildTally(patterns, last) else Zero;
      assert PassTally(patterns, ch, true) == Add(PassTally(patterns, pre, true), x);
      AddAssoc(acc.status.value, PassTally(patterns, pre, true), x);
    }
  }

  /** What one step of the second pass ends with. */
  lemma {:induction false} DirStepCounts(patterns: seq<string>, path: Path, n: Node)
    ensures DirStep(patterns, path, n).status ==
      if n.kind.Dir? && ChildBroken(patterns, n) then Fatal
      else Done(if n.kind.Dir? then ChildTally(patterns, n) else Zero)
    decreases n
  {
    if n.kind.Dir? && !Excluded(patterns, n.name) {
      WalkCounts(patterns, path + [n.name], n.kind.listing);
    }
  }

  /** `recurse_dir` returns the number of `.py` non-directories in the part
      of the tree that is not pruned, and the sum of their counted lines,
      unless some entry looked at cannot be read; then the process ends. */
  lemma {:induction false} WalkCounts(patterns: seq<string>, path: Path, listing: Listing)
    ensures Walk(patterns, path, listing).status ==
      if Broken(patterns, listing) then Fatal else Done(Tally(patterns, listing))
    decreases listing
  {
    match listing
    case Unlistable =>
    case Entries(ch) =>
      var start := Outcome([Entering(path)], Done(Zero));
      FilesPassCounts(start, patterns, path, ch);
      var mid := FilesPass(start, path, ch);
      BrokenSplits(patterns, ch);
      TallySplits(patterns, ch);
      AddZero(PassTally(patterns, ch, false));
      if mid.status.Fatal? {
        DirsPassAfterFatal(mid, patterns, path, ch);
      } else {
        DirsPassCounts(mid, patterns, path, ch);
      }
  }

  // ---------------------------------------------------------------------
  // What the walk never looks at.

  /** An entry whose first-pass step does nothing can be dropped from the
      first pass. */
  lemma {:induction false} FilesPassSkip(acc: Outcome<Counts>, path: Path, a: seq<Node>, n: Node, b: seq<Node>)
    requires FileStep(path, n) == Unit
    ensures FilesPass(acc, path, a + [n] + b) == FilesPass(acc, path, a + b)
    decreases |b|
  {
    if b == [] {
      assert a + [n] + b == a + [n] && a + b == a;
      assert (a + [n])[..|a|] == a;
      ThenUnit(FilesPass(acc, path, a));
    } else {
      var b', x := b[..|b| - 1], b[|b| - 1];
      FilesPassSkip(acc, path, a, n, b');
      var long, short := a + [n] + b, a + b;
      assert long[..|long| - 1] == a + [n] + b' && long[|long| - 1] == x;
      assert short[..|short| - 1] == a + b' && short[|short| - 1] == x;
    }
  }

  /** An entry whose second-pass step does nothing can be dropped from the
      second pass. */
  lemma {:induction false} DirsPassSkip(acc: Outcome<Counts>, patterns: seq<string>, path: Path, a: seq<Node>, n: Node, b: seq<Node>)
    requires DirStep(patterns, path, n) == Unit
    ensures DirsPass(acc, patterns, path, a + [n] + b) == DirsPass(acc, patterns, path, a + b)
    decreases |b|
  {
    if b == [] {
      assert a + [n] + b == a + [n] && a + b == a;
      assert (a + [n])[..|a|] == a;
      ThenUnit(DirsPass(acc, patterns, path, a));
    } else {
      var b', x := b[..|b| - 1], b[|b| - 1];
      DirsPassSkip(acc, patterns, path, a, n, b');
      var long, short := a + [n] + b, a + b;
      assert long[..|long| - 1] == a + [n] + b' && long[|long| - 1] == x;
      assert short[..|short| - 1] == a + b' && short[|short| - 1] == x;
    }
  }

  /** An entry that neither pass acts on can be removed from the listing
      without changing anything the walk prints or returns. */
  lemma {:induction false} InertEntryIgnored(patterns: seq<string>, path: Path, ch: seq<Node>, k: nat)
    requires k < |ch|
    requires FileStep(path, ch[k]) == Unit && DirStep(patterns, path, ch[k]) == Unit
    ensures Walk(patterns, path, Entries(ch)) == Walk(patterns, path, Entries(ch[..k] + ch[k + 1..]))
  {
    var a, n, b := ch[..k], ch[k], ch[k + 1..];
    assert ch == a + [n] + b;
    var start := Outcome([Entering(path)], Done(Zero));
    FilesPassSkip(start, path, a, n, b);
    DirsPassSkip(FilesPass(start, path, a + b), patterns, path, a, n, b);
  }

  /** An excluded subdirectory is pruned: removing it from the listing
      changes neither the output nor the totals. */
  lemma ExcludedDirectoryPruned(patterns: seq<string>, path: Path, ch: seq<Node>, k: nat)
    requires k < |ch| && ch[k].kind.Dir? && Excluded(patterns, ch[k].name)
    ensures Walk(patterns, path, Entries(ch)) == Walk(patterns, path, Entries(ch[..k] + ch[k + 1..]))
  {
    InertEntryIgnored(patterns, path, ch, k);
  }

  /** What an excluded subdirectory holds makes no difference, not even
      when it cannot be listed or holds unreadable files. */
  lemma ExcludedContentsIrrelevant(patterns: seq<string>, path: Path, ch: seq<Node>, k: nat, other: Listing)
    requires k < |ch| && ch[k].kind.Dir? && Excluded(patterns, ch[k].name)
    ensures Walk(patterns, path, Entries(ch)) == Walk(patterns, path, Entries(ch[k := Node(ch[k].name, Dir(other))]))
  {
    var ch' := ch[k := Node(ch[k].name, Dir(other))];
    InertEntryIgnored(patterns, path, ch, k);
    InertEntryIgnored(patterns, path, ch', k);
    assert ch'[..k] + ch'[k + 1..] == ch[..k] + ch[k + 1..];
  }

  /** A non-directory without the `.py` suffix is skipped without a trace. */
  lemma OtherFileIgnored(patterns: seq<string>, path: Path, ch: seq<Node>, k: nat)
    requires k < |ch| && ch[k].kind.File? && !IsPythonSource(ch[k].name)
    ensures Walk(patterns, path, Entries(ch)) == Walk(patterns, path, Entries(ch[..k] + ch[k + 1..]))
  {
    InertEntryIgnored(patterns, path, ch, k);
  }

  // ---------------------------------------------------------------------
  // The order of the output.

  /** Whether `e` names a directory: entering it, or failing to list it. */
  predicate DirEvent(e: Event) {
    e.Entering? || e.ListFailure?
  }

  /** Whether `e` names a file: reading it, skipping it, or failing to read
      it. */
  predicate FileEvent(e: Event) {
    e.Reading? || e.DecodeWarning? || e.ReadFailure?
  }

  /** An event the walk of the directory at `path` may print: no summary and
      no total, and every directory or file it names lies under `path`, at
      least `dirDepth` or `fileDepth` path components deep. */
  predicate Within(e: Event, path: Path, dirDepth: nat, fileDepth: nat) {
    && !e.Summary? && !e.Total?
    && (DirEvent(e) ==> path <= e.dir && |e.dir| >= dirDepth)
    && (FileEvent(e) ==> path <= e.file && |e.file| >= fileDepth)
  }

  /** An event the first pass over the directory at `path` may print: it
      names no directory, and every file it names is an entry of `path`. */
  predicate DirectEvent(e: Event, path: Path) {
    && !e.Summary? && !e.Total? && !DirEvent(e)
    && (FileEvent(e) ==> path <= e.file && |e.file| == |path| + 1)
  }

  lemma PrefixOfExtension(path: Path, name: string, p: Path)
    requires path + [name] <= p
    ensures path <= p
  {
    assert p[..|path|] == p[..|path| + 1][..|path|];
    assert (path + [name])[..|path|] == path;
  }

  /** What the walk of a subdirectory prints lies under its parent too. */
  lemma WithinParent(e: Event, path: Path, name: string, dirDepth: nat, fileDepth: nat)
    requires Within(e, path + [name], dirDepth, fileDepth)
    ensures Within(e, path, dirDepth, fileDepth)
  {
    if DirEvent(e) {
      PrefixOfExtension(path, name, e.dir);
    }
    if FileEvent(e) {
      PrefixOfExtension(path, name, e.file);
    }
  }

  lemma ThenEvents(acc: Outcome<Counts>, next: Outcome<Counts>)
    ensures Then(acc, next).events == if acc.status.Fatal? then acc.events else acc.events + next.events
  {
  }

  /** A step of the first pass names at most the one file it is about. */
  lemma FileStepEvents(path: Path, n: Node)
    ensures var es := FileStep(path, n).events;
      forall k :: 0 <= k < |es| ==> DirectEvent(es[k], path) && (FileEvent(es[k]) ==> es[k].file == path + [n.name])
  {
    assert path <= path + [n.name];
  }

  /** The first pass prints after what came before, names no directory, and
      names only files that are entries of the directory. */
  lemma {:induction false} FilesPassEvents(acc: Outcome<Counts>, path: Path, ch: seq<Node>)
    ensures var es := FilesPass(acc, path, ch).events;
      acc.events <= es && forall k :: |acc.events| <= k < |es| ==> DirectEvent(es[k], path)
    decreases |ch|
  {
    if ch != [] {
      var pre, last := ch[..|ch| - 1], ch[|ch| - 1];
      FilesPassEvents(acc, path, pre);
      FileStepEvents(path, last);
      ThenEvents(FilesPass(acc, path, pre), FileStep(path, last));
    }
  }

  /** The second pass prints after what came before, and names only
      subdirectories and the files inside them. */
  lemma {:induction false} DirsPassEvents(acc: Outcome<Counts>, patterns: seq<string>, path: Path, ch: seq<Node>)
    ensures var es := DirsPass(acc, patterns, path, ch).events;
      acc.events <= es && forall k :: |acc.events| <= k < |es| ==> Within(es[k], path, |path| + 1, |path| + 2)
    decreases ch
  {
    if ch != [] {
      var pre, last := ch[..|ch| - 1], ch[|ch| - 1];
      DirsPassEvents(acc, patterns, path, pre);
      var before, step := DirsPass(acc, patterns, path, pre), DirStep(patterns, path, last);
      DirStepEvents(patterns, path, last);
      assert forall k :: 0 <= k < |step.events| ==> Within(step.events[k], path, |path| + 1, |path| + 2);
      ThenEvents(before, step);
      if before.status.Done? {
        var es := before.events + step.events;
        assert forall k :: |before.events| <= k < |es| ==> es[k] == step.events[k - |before.events|];
      }
    }
  }

  /** A step of the second pass names only the subdirectory it walks and
      what lies inside it. */
  lemma {:induction false} DirStepEvents(patterns: seq<string>, path: Path, n: Node)
    ensures forall k :: 0 <= k < |DirStep(patterns, path, n).events| ==>
      Within(DirStep(patterns, path, n).events[k], path, |path| + 1, |path| + 2)
    decreases n
  {
    if n.kind.Dir? && !Excluded(patterns, n.name) {
      var sub := path + [n.name];
      var es := Walk(patterns, sub, n.kind.listing).events;
      WalkEvents(patterns, sub, n.kind.listing);
      assert |sub| == |path| + 1;
      forall k | 0 <= k < |es| ensures Within(es[k], path, |path| + 1, |path| + 2) {
        assert Within(es[k], sub, |sub|, |sub| + 1);
        WithinParent(es[k], path, n.name, |sub|, |sub| + 1);
      }
    }
  }

  /** A walk prints no summary and no total, and names only its directory,
      the directories below it and the files inside them. */
  lemma {:induction false} WalkEvents(patterns: seq<string>, path: Path, listing: Listing)
    ensures forall k :: 0 <= k < |Walk(patterns, path, listing).events| ==>
      Within(Walk(patterns, path, listing).events[k], path, |path|, |path| + 1)
    decreases listing
  {
    match listing
    case Unlistable =>
    case Entries(ch) =>
      var start := Outcome([Entering(path)], Done(Zero));
      var mid := FilesPass(start, path, ch);
      FilesPassEvents(start, path, ch);
      DirsPassEvents(mid, patterns, path, ch);
      var es := Walk(patterns, path, listing).events;
      forall k | 0 <= k < |es| ensures Within(es[k], path, |path|, |path| + 1) {
        if k < |mid.events| {
          assert es[k] == mid.events[k];
        }
      }
  }

  /** `recurse_dir` announces the directory, then handles its own files, and
      only then its subdirectories: whatever is printed before a file of
      the directory is the announcement or about another of its files, so
      no subdirectory is entered, listed or read from before it. */
  lemma FilesBeforeSubdirectories(patterns: seq<string>, path: Path, ch: seq<Node>)
    ensures var es := Walk(patterns, path, Entries(ch)).events;
      es != [] && es[0] == Entering(path)
    ensures var es := Walk(patterns, path, Entries(ch)).events;
      forall i, j :: 0 <= i < j < |es| && FileEvent(es[j]) && |es[j].file| == |path| + 1 ==>
        es[i] == Entering(path) || DirectEvent(es[i], path)
  {
    var start := Outcome([Entering(path)], Done(Zero));
    var mid := FilesPass(start, path, ch);
    FilesPassEvents(start, path, ch);
    DirsPassEvents(mid, patterns, path, ch);
    var es := Walk(patterns, path, Entries(ch)).events;
    assert es[0] == mid.events[0] == Entering(path);
    forall i, j | 0 <= i < j < |es| && FileEvent(es[j]) && |es[j].file| == |path| + 1
      ensures es[i] == Entering(path) || DirectEvent(es[i], path)
    {
      assert j < |mid.events|;
      assert es[i] == mid.events[i];
    }
  }

  // ---------------------------------------------------------------------
  // The exclusion list.

  lemma ExcludedByOneOfThree(a: string, b: string, c: string, name: string)
    ensures Excluded([a, b, c], name) <==> Matches(name, a) || Matches(name, b) || Matches(name, c)
  {
    var ps := [a, b, c];
    if Excluded(ps, name) {
      var i :| 0 <= i < 3 && Matches(name, ps[i]);
    }
    assert ps[0] == a && ps[1] == b && ps[2] == c;
  }

  /** With the defaults, exactly the hidden names, `venv` and `__pycache__`
      are excluded. */
  lemma DefaultExclusions(name: string)
    ensures Excluded(DefaultExcludedDirs, name) <==>
      (|name| >= 1 && name[0] == '.') || name == "venv" || name == "__pycache__"
  {
    ExcludedByOneOfThree(".*", "venv", "__pycache__", name);
    HiddenPatternMatchesDotNames(name);
    PlainPatternMatchesItself(name, "venv");
    PlainPatternMatchesItself(name, "__pycache__");
  }

  /** Joining two pattern lists excludes what either of them excludes. */
  lemma ExcludedAppend(a: seq<string>, b: seq<string>, name: string)
    ensures Excluded(a + b, name) <==> Excluded(a, name) || Excluded(b, name)
  {
    var ps := a + b;
    if Excluded(ps, name) {
      var i :| 0 <= i < |ps| && Matches(name, ps[i]);
      if i >= |a| {
        assert ps[i] == b[i - |a|];
      } else {
        assert ps[i] == a[i];
      }
    }
    if Excluded(a, name) {
      var i :| 0 <= i < |a| && Matches(name, a[i]);
      assert ps[i] == a[i];
    }
    if Excluded(b, name) {
      var i :| 0 <= i < |b| && Matches(name, b[i]);
      assert ps[|a| + i] == b[i];
    }
  }

  /** A name is excluded when a default pattern (unless `--no-defaults`)
      or an `-e` pattern matches it. */
  lemma ExclusionListMatches(noDefaults: bool, excludeDir: seq<string>, name: string)
    ensures Excluded(ExclusionList(noDefaults, excludeDir), name) <==>
      (!noDefaults && Excluded(DefaultExcludedDirs, name)) || Excluded(excludeDir, name)
  {
    var base: seq<string> := if noDefaults then [] else DefaultExcludedDirs;
    ExcludedAppend(base, excludeDir, name);
  }

  /** With `--no-defaults` and no `-e`, nothing is excluded, hidden
      directories included. */
  lemma NothingExcludedWithoutPatterns(name: string)
    ensures !Excluded(ExclusionList(true, []), name)
  {
    assert ExclusionList(true, []) == [];
  }

  // ---------------------------------------------------------------------
  // Targets.

  /** Whether scanning the target ends the process. */
  predicate TargetBroken(patterns: seq<string>, t: Target) {
    match t.kind
    case Dir(l) => Broken(patterns, l)
    case File(c) => c.Unreadable?
  }

  /** What scanning the target counts. */
  function TargetTally(patterns: seq<string>, t: Target): Counts {
    match t.kind
    case Dir(l) => Tally(patterns, l)
    case File(c) => Counts(1, ContentLines(c))
  }

  /** `scan` walks a directory target whatever its own name is: only the
      entries below it are tested against the patterns. Any other target
      is one file, whatever its suffix. */
  lemma ScanCounts(patterns: seq<string>, t: Target)
    ensures ScanOutcome(patterns, t).status ==
      if TargetBroken(patterns, t) then Fatal else Done(TargetTally(patterns, t))
  {
    match t.kind
    case Dir(l) => WalkCounts(patterns, [t.arg], l);
    case File(c) =>
  }

  /** The current directory is scanned although `.*` matches its name. */
  lemma DotTargetIsScanned(listing: Listing)
    requires !Broken(DefaultExcludedDirs, listing)
    ensures Excluded(DefaultExcludedDirs, ".")
    ensures ScanOutcome(DefaultExcludedDirs, Target(".", Dir(listing))).status == Done(Tally(DefaultExcludedDirs, listing))
  {
    DefaultExclusions(".");
    ScanCounts(DefaultExcludedDirs, Target(".", Dir(listing)));
  }

  /** A scan prints no total and at most one summary line: when the process
      goes on, the target's summary comes last and after nothing else of
      its kind. */
  lemma ScanEvents(patterns: seq<string>, t: Target)
    ensures var es := ScanOutcome(patterns, t).events;
      forall k :: 0 <= k < |es| ==> !es[k].Total?
    ensures var es := ScanOutcome(patterns, t).events;
      var c := TargetTally(patterns, t);
      !TargetBroken(patterns, t) ==>
        es != [] && es[|es| - 1] == Summary(t.arg, c.files, c.lines) &&
        forall k :: 0 <= k < |es| - 1 ==> !es[k].Summary?
  {
    ScanCounts(patterns, t);
    var o := match t.kind
      case Dir(listing) => Walk(patterns, [t.arg], listing)
      case File(content) => AsOneFile(FileOutcome([t.arg], content));
    assert forall k :: 0 <= k < |o.events| ==> !o.events[k].Total? && !o.events[k].Summary? by {
      match t.kind
      case Dir(l) =>
        WalkEvents(patterns, [t.arg], l);
        assert o == Walk(patterns, [t.arg], l);
        assert forall k :: 0 <= k < |o.events| ==> Within(o.events[k], [t.arg], 1, 2);
      case File(c) =>
    }
    var es := ScanOutcome(patterns, t).events;
    assert forall k :: 0 <= k < |o.events| ==> es[k] == o.events[k];
  }

  // ---------------------------------------------------------------------
  // The run.

  predicate AnyTargetBroken(patterns: seq<string>, ts: seq<Target>) {
    exists k :: 0 <= k < |ts| && TargetBroken(patterns, ts[k])
  }

  /** The grand totals: the sums of what the targets count. */
  function SumTallies(patterns: seq<string>, ts: seq<Target>): Counts
    decreases |ts|
  {
    if ts == [] then Zero else Add(SumTallies(patterns, ts[..|ts| - 1]), TargetTally(patterns, ts[|ts| - 1]))
  }

  /** The summary line of each target, in the order given. */
  function SummaryLines(patterns: seq<string>, ts: seq<Target>): (r: seq<Event>)
    ensures |r| == |ts|
    decreases |ts|
  {
    if ts == [] then []
    else
      var t := ts[|ts| - 1];
      var c := TargetTally(patterns, t);
      SummaryLines(patterns, ts[..|ts| - 1]) + [Summary(t.arg, c.files, c.lines)]
  }

  /** The summary lines among `es`, in order. */
  function Summaries(es: seq<Event>): seq<Event>
    decreases |es|
  {
    if es == [] then []
    else Summaries(es[..|es| - 1]) + (if es[|es| - 1].Summary? then [es[|es| - 1]] else [])
  }

  lemma {:induction false} SummariesAppend(a: seq<Event>, b: seq<Event>)
    ensures Summaries(a + b) == Summaries(a) + Summaries(b)
    decreases |b|
  {
    if b == [] {
      assert a + b == a;
    } else {
      var b' := b[..|b| - 1];
      assert (a + b)[..|a + b| - 1] == a + b' && (a + b)[|a + b| - 1] == b[|b| - 1];
      SummariesAppend(a, b');
    }
  }

  lemma {:induction false} NoSummaries(es: seq<Event>)
    requires forall k :: 0 <= k < |es| ==> !es[k].Summary?
    ensures Summaries(es) == []
    decreases |es|
  {
    if es != [] {
      NoSummaries(es[..|es| - 1]);
    }
  }

  lemma {:induction false} AnyTargetBrokenSnoc(patterns: seq<string>, ts: seq<Target>)
    requires ts != []
    ensures AnyTargetBroken(patterns, ts) <==>
      AnyTargetBroken(patterns, ts[..|ts| - 1]) || TargetBroken(patterns, ts[|ts| - 1])
  {
    var pre := ts[..|ts| - 1];
    if AnyTargetBroken(patterns, ts) {
      var k :| 0 <= k < |ts| && TargetBroken(patterns, ts[k]);
      if k < |pre| {
        assert pre[k] == ts[k];
      }
    }
    if AnyTargetBroken(patterns, pre) {
      var k :| 0 <= k < |pre| && TargetBroken(patterns, pre[k]);
      assert ts[k] == pre[k];
    }
  }

  /** The targets are scanned in order until one ends the process; the
      totals are the sums of the per-target counts. */
  lemma {:induction false} ScanAllCounts(patterns: seq<string>, ts: seq<Target>)
    ensures ScanAll(patterns, ts).status ==
      if AnyTargetBroken(patterns, ts) then Fatal else Done(SumTallies(patterns, ts))
    decreases |ts|
  {
    if ts == [] {
      assert !AnyTargetBroken(patterns, ts);
    } else {
      var pre, last := ts[..|ts| - 1], ts[|ts| - 1];
      ScanAllCounts(patterns, pre);
      ScanCounts(patterns, last);
      AnyTargetBrokenSnoc(patterns, ts);
      assert ScanAll(patterns, ts) == Then(ScanAll(patterns, pre), ScanOutcome(patterns, last));
    }
  }

  /** The events of `es` hold no grand total. */
  predicate NoTotal(es: seq<Event>) {
    forall k :: 0 <= k < |es| ==> !es[k].Total?
  }

  lemma ThenNoTotal(acc: Outcome<Counts>, next: Outcome<Counts>)
    requires NoTotal(acc.events) && NoTotal(next.events)
    ensures NoTotal(Then(acc, next).events)
  {
    if acc.status.Done? {
      var es := acc.events + next.events;
      assert forall k :: |acc.events| <= k < |es| ==> es[k] == next.events[k - |acc.events|];
    }
  }

  /** The scans print no total. */
  lemma {:induction false} ScanAllPrintsNoTotal(patterns: seq<string>, ts: seq<Target>)
    ensures NoTotal(ScanAll(patterns, ts).events)
    decreases |ts|
  {
    if ts != [] {
      var pre, last := ts[..|ts| - 1], ts[|ts| - 1];
      ScanAllPrintsNoTotal(patterns, pre);
      ScanEvents(patterns, last);
      ThenNoTotal(ScanAll(patterns, pre), ScanOutcome(patterns, last));
    }
  }

  /** When no scan ends the process, the scans print one summary line per
      target, in the order given. */
  lemma {:induction false} ScanAllSummaries(patterns: seq<string>, ts: seq<Target>)
    requires !AnyTargetBroken(patterns, ts)
    ensures Summaries(ScanAll(patterns, ts).events) == SummaryLines(patterns, ts)
    decreases |ts|
  {
    if ts != [] {
      var pre, last := ts[..|ts| - 1], ts[|ts| - 1];
      assert !AnyTargetBroken(patterns, pre) by {
        forall k | 0 <= k < |pre| ensures !TargetBroken(patterns, pre[k]) {
          assert pre[k] == ts[k];
        }
      }
      assert !TargetBroken(patterns, last);
      ScanAllSummaries(patterns, pre);
      ScanAllCounts(patterns, pre);
      ScanEvents(patterns, last);
      var before, scan := ScanAll(patterns, pre), ScanOutcome(patterns, last);
      var n := |scan.events|;
      var body, summary := scan.events[..n - 1], scan.events[n - 1];
      assert scan.events == body + [summary];
      NoSummaries(body);
      SummariesAppend(body, [summary]);
      assert Summaries([summary]) == [summary] by {
        assert [summary][..0] == [];
      }
      SummariesAppend(before.events, scan.events);
      assert ScanAll(patterns, ts).events == before.events + scan.events;
    }
  }

  /** What is printed at verbosity 2 or more is everything. */
  lemma {:induction false} ShownEverything(verbosity: nat, es: seq<Event>)
    requires verbosity >= 2
    ensures Shown(verbosity, es) == es
    decreases |es|
  {
    if es != [] {
      var pre, last := es[..|es| - 1], es[|es| - 1];
      ShownEverything(verbosity, pre);
      assert Level(last) <= verbosity;
      assert pre + [last] == es;
    }
  }

  lemma {:induction false} ShownAppend(verbosity: nat, a: seq<Event>, b: seq<Event>)
    ensures Shown(verbosity, a + b) == Shown(verbosity, a) + Shown(verbosity, b)
    decreases |b|
  {
    if b == [] {
      assert a + b == a;
    } else {
      var b' := b[..|b| - 1];
      assert (a + b)[..|a + b| - 1] == a + b' && (a + b)[|a + b| - 1] == b[|b| - 1];
      ShownAppend(verbosity, a, b');
    }
  }

  /** Summary lines are printed at every verbosity. */
  lemma {:induction false} ShownKeepsSummaries(verbosity: nat, es: seq<Event>)
    ensures Summaries(Shown(verbosity, es)) == Summaries(es)
    decreases |es|
  {
    if es != [] {
      var pre, last := es[..|es| - 1], es[|es| - 1];
      ShownKeepsSummaries(verbosity, pre);
      var tail := if Level(last) <= verbosity then [last] else [];
      SummariesAppend(Shown(verbosity, pre), tail);
      if tail != [] {
        assert tail[..0] == [];
      }
    }
  }

  /** `main` exits with status 1 exactly when some target has an entry it
      looks at that cannot be read or listed, and with 0 otherwise. */
  lemma RunExitStatus(opts: Options)
    ensures RunOutcome(opts).exitStatus ==
      if AnyTargetBroken(ExclusionList(opts.noDefaults, opts.excludeDir), opts.targets) then 1 else 0
  {
    ScanAllCounts(ExclusionList(opts.noDefaults, opts.excludeDir), opts.targets);
  }

  /** A successful run prints one summary line per target, in order, at
      every verbosity. */
  lemma RunSummaries(opts: Options)
    requires !AnyTargetBroken(ExclusionList(opts.noDefaults, opts.excludeDir), opts.targets)
    ensures Summaries(RunOutcome(opts).output) == SummaryLines(ExclusionList(opts.noDefaults, opts.excludeDir), opts.targets)
  {
    var patterns := ExclusionList(opts.noDefaults, opts.excludeDir);
    var o := ScanAll(patterns, opts.targets);
    ScanAllCounts(patterns, opts.targets);
    ScanAllSummaries(patterns, opts.targets);
    var total := if |opts.targets| > 1 then [Total(o.status.value.files, o.status.value.lines)] else [];
    ShownKeepsSummaries(opts.verbose, o.events + total);
    SummariesAppend(o.events, total);
    assert Summaries(total) == [] by {
      if total != [] {
        assert total[..0] == [];
      }
    }
    assert Summaries(o.events) + [] == Summaries(o.events);
  }

  /** An event every verbosity prints, printed last, comes out last. */
  lemma ShownLast(verbosity: nat, es: seq<Event>, e: Event)
    requires Level(e) == 0
    ensures Shown(verbosity, es + [e]) == Shown(verbosity, es) + [e]
  {
    assert (es + [e])[..|es|] == es;
  }

  /** The grand total is printed exactly when the run succeeds with more
      than one target. */
  lemma RunTotalPrinted(opts: Options)
    ensures var r := RunOutcome(opts);
      (exists k :: 0 <= k < |r.output| && r.output[k].Total?) <==> r.exitStatus == 0 && |opts.targets| > 1
  {
    var patterns := ExclusionList(opts.noDefaults, opts.excludeDir);
    var o := ScanAll(patterns, opts.targets);
    ScanAllPrintsNoTotal(patterns, opts.targets);
    var r := RunOutcome(opts);
    if o.status.Done? && |opts.targets| > 1 {
      ShownLast(opts.verbose, o.events, Total(o.status.value.files, o.status.value.lines));
      assert r.output[|r.output| - 1].Total?;
    } else {
      if o.status.Done? {
        assert o.events + [] == o.events;
      }
      assert r.output == Shown(opts.verbose, o.events);
      forall k | 0 <= k < |r.output| ensures !r.output[k].Total? {
        assert r.output[k] in o.events;
      }
    }
  }

  /** The grand total holds the sums of the targets' counts and is the
      last line printed. */
  lemma RunTotalIsSum(opts: Options)
    requires RunOutcome(opts).exitStatus == 0 && |opts.targets| > 1
    ensures var r := RunOutcome(opts);
      var c := SumTallies(ExclusionList(opts.noDefaults, opts.excludeDir), opts.targets);
      r.output != [] && r.output[|r.output| - 1] == Total(c.files, c.lines)
  {
    var patterns := ExclusionList(opts.noDefaults, opts.excludeDir);
    var o := ScanAll(patterns, opts.targets);
    ScanAllCounts(patterns, opts.targets);
    var c := SumTallies(patterns, opts.targets);
    assert o.status == Done(c);
    ShownLast(opts.verbose, o.events, Total(c.files, c.lines));
  }
}
