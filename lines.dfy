/** The line classifier of `read_file`: the decoded text of a file is split
    into lines the way Python's `str.splitlines` does, each line is stripped
    of surrounding whitespace the way `str.strip` does, and a line counts as
    code when what is left is non-empty and does not start with `#`. */
module Lines {

  /** The characters Python's `str.isspace` accepts, so the ones `str.strip`
      removes. */
  predicate IsSpace(c: char) {
    ('\t' <= c <= '\r') || ('\U{1C}' <= c <= '\U{1F}') || c == ' '
    || c == '\U{85}' || c == '\U{A0}' || c == '\U{1680}'
    || ('\U{2000}' <= c <= '\U{200A}') || c == '\U{2028}' || c == '\U{2029}'
    || c == '\U{202F}' || c == '\U{205F}' || c == '\U{3000}'
  }

  /** The line boundaries of `str.splitlines`; a `\r` directly followed by
      `\n` is a single boundary. */
  predicate IsLineBreak(c: char) {
    c == '\n' || c == '\r' || c == '\U{0B}' || c == '\U{0C}'
    || c == '\U{1C}' || c == '\U{1D}' || c == '\U{1E}'
    || c == '\U{85}' || c == '\U{2028}' || c == '\U{2029}'
  }

  predicate NoBreaks(s: string) {
    forall i :: 0 <= i < |s| ==> !IsLineBreak(s[i])
  }

  /** The first line boundary at or after `i`, or `|s|`. */
  function LineEnd(s: string, i: nat): (e: nat)
    requires i <= |s|
    ensures i <= e <= |s|
    ensures e < |s| ==> IsLineBreak(s[e])
    ensures forall k :: i <= k < e ==> !IsLineBreak(s[k])
    decreases |s| - i
  {
    if i == |s| || IsLineBreak(s[i]) then i else LineEnd(s, i + 1)
  }

  /** How many characters the boundary at `e` takes: two for `\r\n`. */
  function BreakWidth(s: string, e: nat): (w: nat)
    requires e < |s|
    ensures 1 <= w <= |s| - e
  {
    if s[e] == '\r' && e + 1 < |s| && s[e + 1] == '\n' then 2 else 1
  }

  /** `str.splitlines()`: the lines without their boundaries; a boundary at
      the very end does not start another line, so "" has no lines and
      "a\n" has one. */
  function SplitLines(s: string): (r: seq<string>)
    ensures |r| <= |s|
    ensures forall i :: 0 <= i < |r| ==> NoBreaks(r[i])
    decreases |s|
  {
    if s == [] then []
    else
      var e := LineEnd(s, 0);
      if e == |s| then [s] else [s[..e]] + SplitLines(s[e + BreakWidth(s, e)..])
  }

  /** The text with every line-boundary character deleted. With `Concat`
      it gives a coarser view of the split than `SplitsAs` below: it says
      that no character is lost or invented, not where the cuts are. */
  function RemoveBreaks(s: string): string {
    if s == [] then []
    else (if IsLineBreak(s[0]) then [] else [s[0]]) + RemoveBreaks(s[1..])
  }

  /** The lines run together, with nothing between them. */
  function Concat(ls: seq<string>): string {
    if ls == [] then [] else ls[0] + Concat(ls[1..])
  }

  /** Removes the leading characters that `str.strip` removes. */
  function TrimStart(s: string): string
    decreases |s|
  {
    if s != [] && IsSpace(s[0]) then TrimStart(s[1..]) else s
  }

  /** Removes the trailing characters that `str.strip` removes. */
  function TrimEnd(s: string): string
    decreases |s|
  {
    if s != [] && IsSpace(s[|s| - 1]) then TrimEnd(s[..|s| - 1]) else s
  }

  /** TrimStart drops the longest all-whitespace prefix: what it keeps is a
      suffix of `s` that starts with a visible character or is empty. */
  lemma {:induction false} TrimStartDropsSpace(s: string)
    ensures var r := TrimStart(s);
      |r| <= |s| && r == s[|s| - |r|..] &&
      (forall i :: 0 <= i < |s| - |r| ==> IsSpace(s[i])) &&
      (r != [] ==> !IsSpace(r[0]))
    decreases |s|
  {
    if s != [] && IsSpace(s[0]) {
      TrimStartDropsSpace(s[1..]);
      var r := TrimStart(s[1..]);
      assert s[1..][|s[1..]| - |r|..] == s[|s| - |r|..];
      forall i | 0 <= i < |s| - |r| ensures IsSpace(s[i]) {
        if i > 0 {
          assert s[i] == s[1..][i - 1];
        }
      }
    } else {
      assert s[0..] == s;
    }
  }

  /** TrimEnd drops the longest all-whitespace suffix: what it keeps is a
      prefix of `s` that ends with a visible character or is empty. */
  lemma {:induction false} TrimEndDropsSpace(s: string)
    ensures var r := TrimEnd(s);
      |r| <= |s| && r == s[..|r|] &&
      (forall i :: |r| <= i < |s| ==> IsSpace(s[i])) &&
      (r != [] ==> !IsSpace(r[|r| - 1]))
    decreases |s|
  {
    if s != [] && IsSpace(s[|s| - 1]) {
      TrimEndDropsSpace(s[..|s| - 1]);
      var r := TrimEnd(s[..|s| - 1]);
      assert s[..|s| - 1][..|r|] == s[..|r|];
      forall i | |r| <= i < |s| ensures IsSpace(s[i]) {
        if i < |s| - 1 {
          assert s[i] == s[..|s| - 1][i];
        }
      }
    } else {
      assert s[..|s|] == s;
    }
  }

  /** `str.strip()`. */
  function Strip(s: string): string {
    TrimEnd(TrimStart(s))
  }

  /** The classifier: a line counts when its stripped form is non-empty and
      does not start with the comment marker. */
  predicate IsCode(line: string) {
    var t := Strip(line);
    t != [] && t[0] != '#'
  }

  /** The number of lines in `ls` that count, taken line by line from the
      front as the counting loop does. */
  function CountCode(ls: seq<string>): (n: nat)
    ensures n <= |ls|
    decreases |ls|
  {
    if ls == [] then 0
    else CountCode(ls[..|ls| - 1]) + (if IsCode(ls[|ls| - 1]) then 1 else 0)
  }

  // ---------------------------------------------------------------------
  // Splitting keeps every character that is not a boundary, in order.

  lemma {:induction false} RemoveBreaksAppend(a: string, b: string)
    ensures RemoveBreaks(a + b) == RemoveBreaks(a) + RemoveBreaks(b)
    decreases |a|
  {
    if a != [] {
      assert (a + b)[1..] == a[1..] + b;
      RemoveBreaksAppend(a[1..], b);
    } else {
      assert a + b == b;
    }
  }

  lemma {:induction false} RemoveBreaksKeepsPlain(s: string)
    requires NoBreaks(s)
    ensures RemoveBreaks(s) == s
    decreases |s|
  {
    if s != [] {
      RemoveBreaksKeepsPlain(s[1..]);
    }
  }

  lemma {:induction false} RemoveBreaksDropsBreaks(s: string)
    requires forall i :: 0 <= i < |s| ==> IsLineBreak(s[i])
    ensures RemoveBreaks(s) == []
    decreases |s|
  {
    if s != [] {
      RemoveBreaksDropsBreaks(s[1..]);
    }
  }

  /** One step of the split: the first line, its boundary, and the rest. */
  lemma {:induction false} ConcatSplitStep(s: string)
    requires s != [] && LineEnd(s, 0) < |s|
    ensures Concat(SplitLines(s)) == s[..LineEnd(s, 0)] + Concat(SplitLines(s[LineEnd(s, 0) + BreakWidth(s, LineEnd(s, 0))..]))
  {
    var e := LineEnd(s, 0);
    var rest := s[e + BreakWidth(s, e)..];
    var ls := [s[..e]] + SplitLines(rest);
    assert SplitLines(s) == ls;
    assert ls[0] == s[..e] && ls[1..] == SplitLines(rest);
  }

  lemma {:induction false} RemoveBreaksStep(s: string, i: nat, j: nat)
    requires i <= j <= |s|
    requires NoBreaks(s[..i])
    requires forall k :: i <= k < j ==> IsLineBreak(s[k])
    ensures RemoveBreaks(s) == s[..i] + RemoveBreaks(s[j..])
  {
    assert s == s[..j] + s[j..];
    RemoveBreaksAppend(s[..j], s[j..]);
    assert s[..j] == s[..i] + s[i..j];
    RemoveBreaksAppend(s[..i], s[i..j]);
    RemoveBreaksKeepsPlain(s[..i]);
    RemoveBreaksDropsBreaks(s[i..j]);
  }

  /** Joining the lines back together gives the text without its line
      boundaries: splitting loses no character and invents none. This is a
      corollary of `SplitLinesSplitsAs`, which also fixes where the cuts
      are; it is kept as the short statement of that fact. */
  lemma {:induction false} SplitLinesKeepsText(s: string)
    ensures Concat(SplitLines(s)) == RemoveBreaks(s)
    decreases |s|
  {
    if s != [] {
      var e := LineEnd(s, 0);
      if e == |s| {
        SplitLastLine(s);
      } else {
        SplitLinesKeepsText(s[e + BreakWidth(s, e)..]);
        SplitFirstLine(s);
      }
    }
  }

  lemma {:induction false} SplitLastLine(s: string)
    requires s != [] && LineEnd(s, 0) == |s|
    ensures Concat(SplitLines(s)) == RemoveBreaks(s)
  {
    assert Concat([s]) == s + Concat([]);
    RemoveBreaksKeepsPlain(s);
  }

  lemma {:induction false} SplitFirstLine(s: string)
    requires s != [] && LineEnd(s, 0) < |s|
    ensures var e := LineEnd(s, 0);
            var rest := s[e + BreakWidth(s, e)..];
            Concat(SplitLines(s)) == s[..e] + Concat(SplitLines(rest))
            && RemoveBreaks(s) == s[..e] + RemoveBreaks(rest)
  {
    var e := LineEnd(s, 0);
    ConcatSplitStep(s);
    RemoveBreaksStep(s, e, e + BreakWidth(s, e));
  }

  // ---------------------------------------------------------------------
  // Where the text is split: the lines are the text cut at its boundaries,
  // and at nothing else.

  /** A line boundary as it stands in the text: `\r\n`, or one boundary
      character. */
  predicate IsSeparator(sep: string) {
    sep == "\r\n" || (|sep| == 1 && IsLineBreak(sep[0]))
  }

  /** The lines, each followed by the boundary that ends it. */
  function Join(lines: seq<string>, seps: seq<string>): string
    requires |lines| == |seps|
  {
    if lines == [] then [] else lines[0] + seps[0] + Join(lines[1..], seps[1..])
  }

  /** `s` is `lines`, each followed by its boundary in `seps`. No line holds
      a boundary; every boundary is one separator, and a lone `\r` is never
      followed by `\n` (that pair is a single boundary); only the last line
      may run to the end of the text without a boundary, and then it is not
      empty. */
  predicate SplitsAs(s: string, lines: seq<string>, seps: seq<string>) {
    && |seps| == |lines| && Join(lines, seps) == s
    && (forall i :: 0 <= i < |lines| ==> NoBreaks(lines[i]))
    && (forall i :: 0 <= i < |seps| ==>
          IsSeparator(seps[i]) || (i == |seps| - 1 && seps[i] == [] && lines[i] != []))
    && (forall i :: 0 <= i < |seps| - 1 && seps[i] == "\r" ==>
          !(lines[i + 1] == [] && seps[i + 1] != [] && seps[i + 1][0] == '\n'))
  }

  /** The boundaries `SplitLines` drops, one per line: "" after a last line
      that runs to the end of the text. */
  function Separators(s: string): (r: seq<string>)
    ensures |r| == |SplitLines(s)|
    decreases |s|
  {
    if s == [] then []
    else
      var e := LineEnd(s, 0);
      if e == |s| then [""] else [s[e..e + BreakWidth(s, e)]] + Separators(s[e + BreakWidth(s, e)..])
  }

  /** Putting a line and its boundary in front of a split text. */
  lemma SplitsAsCons(s: string, line: string, sep: string, rest: string, lines: seq<string>, seps: seq<string>)
    requires SplitsAs(rest, lines, seps)
    requires NoBreaks(line) && IsSeparator(sep) && s == line + sep + rest
    requires sep == "\r" ==> rest == [] || rest[0] != '\n'
    ensures SplitsAs(s, [line] + lines, [sep] + seps)
  {
    var ls, ss := [line] + lines, [sep] + seps;
    assert ls[1..] == lines && ss[1..] == seps;
    assert Join(ls, ss) == s;
    if lines != [] {
      assert rest == lines[0] + seps[0] + Join(lines[1..], seps[1..]);
    }
    forall i | 0 <= i < |ss| - 1 && ss[i] == "\r"
      ensures !(ls[i + 1] == [] && ss[i + 1] != [] && ss[i + 1][0] == '\n')
    {
      if i > 0 {
        assert ls[i + 1] == lines[i] && ss[i + 1] == seps[i] && ss[i] == seps[i - 1];
      }
    }
    assert forall i :: 0 < i < |ls| ==> ls[i] == lines[i - 1];
    assert forall i :: 0 < i < |ss| ==> ss[i] == seps[i - 1];
  }

  /** Taking the first line and its boundary off a split text. */
  lemma SplitsAsTail(s: string, lines: seq<string>, seps: seq<string>)
    requires SplitsAs(s, lines, seps) && lines != []
    ensures s == lines[0] + seps[0] + Join(lines[1..], seps[1..])
    ensures SplitsAs(Join(lines[1..], seps[1..]), lines[1..], seps[1..])
    ensures seps[0] == [] ==> |lines| == 1 && lines[0] != []
    ensures seps[0] == "\r" ==>
      Join(lines[1..], seps[1..]) == [] || Join(lines[1..], seps[1..])[0] != '\n'
  {
    var ls, ss := lines[1..], seps[1..];
    assert forall i :: 0 <= i < |ls| ==> ls[i] == lines[i + 1];
    assert forall i :: 0 <= i < |ss| ==> ss[i] == seps[i + 1];
    if seps[0] == "\r" && ls != [] {
      var rest := Join(ls, ss);
      assert rest == ls[0] + ss[0] + Join(ls[1..], ss[1..]);
      if ls[0] != [] {
        assert rest[0] == ls[0][0] && !IsLineBreak(ls[0][0]);
      } else if ss[0] != [] {
        assert rest[0] == ss[0][0];
      }
    }
  }

  /** The first boundary of a text that has one: a separator after a line,
      and a lone `\r` there is not followed by `\n`. */
  lemma FirstBoundary(s: string, e: nat, w: nat)
    requires e == LineEnd(s, 0) < |s| && w == BreakWidth(s, e)
    ensures NoBreaks(s[..e])
    ensures IsSeparator(s[e..e + w])
    ensures s == s[..e] + s[e..e + w] + s[e + w..]
    ensures s[e..e + w] == "\r" ==> s[e + w..] == [] || s[e + w..][0] != '\n'
  {
    forall k | 0 <= k < e ensures !IsLineBreak(s[..e][k]) {
      assert s[..e][k] == s[k];
    }
    BoundaryIsSeparator(s, e, w);
    CutInThree(s, e, e + w);
    LoneReturn(s, e, w);
  }

  lemma BoundaryIsSeparator(s: string, e: nat, w: nat)
    requires e == LineEnd(s, 0) < |s| && w == BreakWidth(s, e)
    ensures IsSeparator(s[e..e + w])
  {
    if w == 2 {
      assert s[e..e + w] == [s[e], s[e + 1]] == "\r\n";
    } else {
      assert s[e..e + w] == [s[e]];
    }
  }

  lemma LoneReturn(s: string, e: nat, w: nat)
    requires e < |s| && w == BreakWidth(s, e)
    ensures s[e..e + w] == "\r" ==> s[e + w..] == [] || s[e + w..][0] != '\n'
  {
    if s[e..e + w] == "\r" && e + 1 < |s| {
      assert s[e] == '\r';
      assert s[e + w..][0] == s[e + 1] != '\n';
    }
  }

  lemma CutInThree<T>(s: seq<T>, i: nat, j: nat)
    requires i <= j <= |s|
    ensures s == s[..i] + s[i..j] + s[j..]
  {
  }

  /** Where a line and a separator stand at the front of the text, the
      split takes that line and that boundary first. */
  lemma FirstBoundaryAt(s: string, line: string, sep: string, rest: string)
    requires NoBreaks(line) && IsSeparator(sep) && s == line + sep + rest
    requires sep == "\r" ==> rest == [] || rest[0] != '\n'
    ensures SplitLines(s) == [line] + SplitLines(rest)
    ensures Separators(s) == [sep] + Separators(rest)
  {
    var e, w := |line|, |sep|;
    assert s[..e] == line && s[e..e + w] == sep && s[e + w..] == rest;
    assert forall k :: 0 <= k < e ==> s[k] == line[k];
    assert IsLineBreak(s[e]);
    assert LineEnd(s, 0) == e;
    assert BreakWidth(s, e) == w by {
      if w == 1 && s[e] == '\r' && e + 1 < |s| {
        assert s[e + 1] == rest[0];
      }
    }
  }

  /** Text without boundaries is a single line, unless it is empty, and no
      boundary follows it. */
  lemma LastLineAlone(s: string)
    requires s != [] && NoBreaks(s)
    ensures SplitLines(s) == [s] && Separators(s) == [""]
  {
    assert LineEnd(s, 0) == |s|;
  }

  /** The split `SplitLines` makes, with the boundaries it drops, is a
      split of the text in the sense of `SplitsAs`. */
  lemma {:induction false} SplitLinesSplitsAs(s: string)
    ensures SplitsAs(s, SplitLines(s), Separators(s))
    decreases |s|
  {
    if s != [] {
      var e := LineEnd(s, 0);
      if e == |s| {
        assert Join([s], [""]) == s + "" + Join([], []);
      } else {
        var w := BreakWidth(s, e);
        var rest := s[e + w..];
        FirstBoundary(s, e, w);
        SplitLinesSplitsAs(rest);
        FirstBoundaryAt(s, s[..e], s[e..e + w], rest);
        SplitsAsCons(s, s[..e], s[e..e + w], rest, SplitLines(rest), Separators(rest));
      }
    }
  }

  /** There is no other way to cut the text into lines and boundaries. */
  lemma {:induction false} SplitsAsUnique(s: string, lines: seq<string>, seps: seq<string>)
    requires SplitsAs(s, lines, seps)
    ensures lines == SplitLines(s) && seps == Separators(s)
    decreases |lines|
  {
    if lines != [] {
      SplitsAsTail(s, lines, seps);
      var rest := Join(lines[1..], seps[1..]);
      if seps[0] == [] {
        assert lines[1..] == [] && rest == [];
        assert s == lines[0];
        LastLineAlone(s);
        assert lines == [lines[0]] && seps == [""];
      } else {
        FirstBoundaryAt(s, lines[0], seps[0], rest);
        SplitsAsUnique(rest, lines[1..], seps[1..]);
        assert lines == [lines[0]] + lines[1..] && seps == [seps[0]] + seps[1..];
      }
    }
  }

  /** `str.splitlines` is determined: a list of lines is the split of `s`
      exactly when some boundaries put between them give back `s`. */
  lemma SplitLinesIsTheSplit(s: string, lines: seq<string>)
    ensures (exists seps :: SplitsAs(s, lines, seps)) <==> lines == SplitLines(s)
  {
    SplitLinesSplitsAs(s);
    if exists seps :: SplitsAs(s, lines, seps) {
      var seps :| SplitsAs(s, lines, seps);
      SplitsAsUnique(s, lines, seps);
    }
  }

  // ---------------------------------------------------------------------
  // The classifier, in terms of the line's first visible character.

  /** A line counts exactly when it has a non-whitespace character and the
      first one is not `#`. */
  lemma IsCodeIffFirstVisibleNotHash(line: string)
    ensures IsCode(line) <==>
      exists k :: 0 <= k < |line| && !IsSpace(line[k]) && line[k] != '#'
                  && forall i :: 0 <= i < k ==> IsSpace(line[i])
  {
    var t := TrimStart(line);
    TrimStartDropsSpace(line);
    TrimEndDropsSpace(t);
    var k := |line| - |t|;
    if t != [] {
      assert t[0] == line[k];
      assert TrimEnd(t) != [] && TrimEnd(t)[0] == t[0];
      if IsCode(line) {
        assert !IsSpace(line[k]) && line[k] != '#';
      }
      forall j | 0 <= j < |line| && !IsSpace(line[j]) && forall i :: 0 <= i < j ==> IsSpace(line[i])
        ensures j == k
      {
      }
    } else {
      assert TrimEnd(t) == [];
      forall j | 0 <= j < |line| ensures IsSpace(line[j]) {
      }
    }
  }

  /** Blank lines and whitespace-only lines never count. */
  lemma BlankLineDoesNotCount(line: string)
    requires forall i :: 0 <= i < |line| ==> IsSpace(line[i])
    ensures !IsCode(line)
  {
    IsCodeIffFirstVisibleNotHash(line);
  }

  /** A line whose first visible character is `#` never counts. */
  lemma CommentLineDoesNotCount(line: string, k: nat)
    requires k < |line| && line[k] == '#'
    requires forall i :: 0 <= i < k ==> IsSpace(line[i])
    ensures !IsCode(line)
  {
    IsCodeIffFirstVisibleNotHash(line);
  }

  // ---------------------------------------------------------------------
  // The count.

  /** Counting a concatenation is adding the counts; with the single-line
      case this pins CountCode down as "the number of lines that count". */
  lemma {:induction false} CountCodeAppend(a: seq<string>, b: seq<string>)
    ensures CountCode(a + b) == CountCode(a) + CountCode(b)
    decreases |b|
  {
    if b == [] {
      assert a + b == a;
    } else {
      var b' := b[..|b| - 1];
      assert (a + b)[..|a + b| - 1] == a + b';
      assert (a + b)[|a + b| - 1] == b[|b| - 1];
      CountCodeAppend(a, b');
    }
  }

  lemma CountCodeSingle(x: string)
    ensures CountCode([x]) == if IsCode(x) then 1 else 0
  {
    assert [x][..0] == [];
  }

  lemma CountCodeInsert(a: seq<string>, x: string, b: seq<string>)
    ensures CountCode(a + [x] + b) == CountCode(a) + (if IsCode(x) then 1 else 0) + CountCode(b)
  {
    CountCodeSingle(x);
    CountCodeAppend(a, [x]);
    CountCodeAppend(a + [x], b);
  }

  /** Line `i` adds one to the count exactly when it counts. */
  lemma CountCodeSplitsAt(ls: seq<string>, i: nat)
    requires i < |ls|
    ensures CountCode(ls) == CountCode(ls[..i]) + (if IsCode(ls[i]) then 1 else 0) + CountCode(ls[i + 1..])
  {
    SplitAt(ls, i);
    CountCodeInsert(ls[..i], ls[i], ls[i + 1..]);
  }

  lemma SplitAt<T>(s: seq<T>, i: nat)
    requires i < |s|
    ensures s[..i] + [s[i]] + s[i + 1..] == s
  {
  }

  /** Every line counts exactly when the count is the number of lines. */
  lemma {:induction false} CountCodeAll(ls: seq<string>)
    ensures CountCode(ls) == |ls| <==> forall i :: 0 <= i < |ls| ==> IsCode(ls[i])
  {
    if CountCode(ls) == |ls| {
      AllCountedAreCode(ls);
    }
    if forall i :: 0 <= i < |ls| ==> IsCode(ls[i]) {
      AllCodeAreCounted(ls);
    }
  }

  lemma {:induction false} AllCodeAreCounted(ls: seq<string>)
    requires forall i :: 0 <= i < |ls| ==> IsCode(ls[i])
    ensures CountCode(ls) == |ls|
    decreases |ls|
  {
    if ls != [] {
      var pre := ls[..|ls| - 1];
      assert forall i :: 0 <= i < |pre| ==> pre[i] == ls[i];
      AllCodeAreCounted(pre);
    }
  }

  lemma AllCountedAreCode(ls: seq<string>)
    requires CountCode(ls) == |ls|
    ensures forall i :: 0 <= i < |ls| ==> IsCode(ls[i])
  {
    forall i | 0 <= i < |ls| ensures IsCode(ls[i]) {
      CountCodeSplitsAt(ls, i);
    }
  }

  /** No line counts exactly when the count is zero. */
  lemma {:induction false} CountCodeNone(ls: seq<string>)
    ensures CountCode(ls) == 0 <==> forall i :: 0 <= i < |ls| ==> !IsCode(ls[i])
  {
    if CountCode(ls) == 0 {
      NoneCountedAreCode(ls);
    }
    if forall i :: 0 <= i < |ls| ==> !IsCode(ls[i]) {
      NoCodeIsCounted(ls);
    }
  }

  lemma {:induction false} NoCodeIsCounted(ls: seq<string>)
    requires forall i :: 0 <= i < |ls| ==> !IsCode(ls[i])
    ensures CountCode(ls) == 0
    decreases |ls|
  {
    if ls != [] {
      var pre := ls[..|ls| - 1];
      assert forall i :: 0 <= i < |pre| ==> pre[i] == ls[i];
      NoCodeIsCounted(pre);
    }
  }

  lemma NoneCountedAreCode(ls: seq<string>)
    requires CountCode(ls) == 0
    ensures forall i :: 0 <= i < |ls| ==> !IsCode(ls[i])
  {
    forall i | 0 <= i < |ls| ensures !IsCode(ls[i]) {
      CountCodeSplitsAt(ls, i);
    }
  }
}
