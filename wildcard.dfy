/** Case-sensitive shell-style wildcard matching of a bare name against one
    pattern, the behaviour lopc obtains from the library call
    `fnmatch.fnmatchcase(name, pattern)`.

    A pattern is first compiled into tokens, the way fnmatch translates it:
    `*` matches any run of characters (also the empty run), `?` any single
    character, `[seq]` one character of the class and `[!seq]` one character
    outside it; a `[` without a closing `]` stands for itself, and every other
    character matches only itself. Inside a class, `x-y` is the range of code
    points from x to y (empty when y < x), a `]` right after the opening `[`
    or `[!` is a member, and a leading or trailing `-` is a member. In a
    class that does not start with `!`, fnmatch deletes the empty ranges
    before it looks for the `!` that negates a class, so `[z-a!b]` is the
    class of every character but `b`. */
module Wildcard {

  /** One member of a bracket class. */
  datatype Item = Single(c: char) | Range(lo: char, hi: char)

  datatype Token =
    | Literal(c: char)                          // an ordinary character
    | AnyChar                                   // `?`
    | AnyRun                                    // `*`
    | Class(negated: bool, items: seq<Item>)    // `[...]` or `[!...]`

  predicate Covers(item: Item, c: char) {
    match item
    case Single(x) => c == x
    case Range(lo, hi) => lo <= c <= hi
  }

  predicate InClass(items: seq<Item>, c: char) {
    exists i :: 0 <= i < |items| && Covers(items[i], c)
  }

  /** Whether a token that stands for exactly one character accepts `c`. */
  predicate Accepts(t: Token, c: char) {
    match t
    case Literal(x) => c == x
    case AnyChar => true
    case AnyRun => false
    case Class(negated, items) => InClass(items, c) != negated
  }

  /** The index of the `]` that closes a class opened by `p[0] == '['`,
      searching from `j`; `|p|` when there is none. */
  function FindClose(p: string, j: nat): (r: nat)
    requires j <= |p|
    ensures j <= r <= |p|
    ensures r < |p| ==> p[r] == ']'
    ensures forall k :: j <= k < r ==> p[k] != ']'
    decreases |p| - j
  {
    if j == |p| then |p| else if p[j] == ']' then j else FindClose(p, j + 1)
  }

  /** Where the search for the closing `]` starts: after the `[`, after an
      optional `!`, and after a `]` that directly follows them. */
  function CloseSearchStart(p: string): (j: nat)
    requires |p| >= 1
    ensures 1 <= j <= |p|
  {
    var j := if 1 < |p| && p[1] == '!' then 2 else 1;
    if j < |p| && p[j] == ']' then j + 1 else j
  }

  /** The members of a class body, read left to right: `x-y` is a range
      whenever a character follows the `-`. */
  function ParseItems(body: string): (r: seq<Item>)
    ensures |r| <= |body|
    decreases |body|
  {
    if body == [] then []
    else if |body| >= 3 && body[1] == '-' then [Range(body[0], body[2])] + ParseItems(body[3..])
    else [Single(body[0])] + ParseItems(body[1..])
  }

  predicate IsEmptyRange(item: Item) {
    item.Range? && item.hi < item.lo
  }

  /** The members without the empty ranges: fnmatch deletes each of them,
      joining the text on either side. */
  function DropEmptyRanges(items: seq<Item>): (r: seq<Item>)
    ensures |r| <= |items|
    decreases |items|
  {
    if items == [] then []
    else (if IsEmptyRange(items[0]) then [] else [items[0]]) + DropEmptyRanges(items[1..])
  }

  /** Whether the members left after deleting the empty ranges start with
      `!`, which fnmatch then reads as negation. */
  predicate OpensWithBang(kept: seq<Item>) {
    kept != [] && (kept[0] == Single('!') || (kept[0].Range? && kept[0].lo == '!'))
  }

  /** The members after that `!`. A range `!-y` leaves `-` and `y` as plain
      members, because in `[^-y]` a `-` right after the `^` stands for
      itself. */
  function AfterBang(kept: seq<Item>): seq<Item>
    requires OpensWithBang(kept)
  {
    match kept[0]
    case Single(_) => kept[1..]
    case Range(_, hi) => [Single('-'), Single(hi)] + kept[1..]
  }

  /** The token for the class whose text between the brackets is `stuff`:
      negated when it starts with `!`, or when it does not but a `!` comes to
      the front once its empty ranges are deleted. */
  function ClassToken(stuff: string): Token {
    if |stuff| >= 1 && stuff[0] == '!' then Class(true, ParseItems(stuff[1..]))
    else if OpensWithBang(DropEmptyRanges(ParseItems(stuff))) then
      Class(true, AfterBang(DropEmptyRanges(ParseItems(stuff))))
    else Class(false, ParseItems(stuff))
  }

  predicate IsSpecial(c: char) {
    c == '*' || c == '?' || c == '['
  }

  /** The compiled form of a pattern. */
  function Compile(p: string): (r: seq<Token>)
    ensures |r| <= |p|
    decreases |p|
  {
    if p == [] then []
    else if p[0] == '*' then [AnyRun] + Compile(p[1..])
    else if p[0] == '?' then [AnyChar] + Compile(p[1..])
    else if p[0] == '[' then
      var j := FindClose(p, CloseSearchStart(p));
      if j == |p| then [Literal('[')] + Compile(p[1..])
      else [ClassToken(p[1..j])] + Compile(p[j + 1..])
    else [Literal(p[0])] + Compile(p[1..])
  }

  /** Whether the whole of `s` matches the token sequence. */
  predicate MatchTokens(s: string, ts: seq<Token>)
    decreases |ts|, |s|
  {
    if ts == [] then s == []
    else if ts[0] == AnyRun then MatchTokens(s, ts[1..]) || (s != [] && MatchTokens(s[1..], ts))
    else s != [] && Accepts(ts[0], s[0]) && MatchTokens(s[1..], ts[1..])
  }

  /** `fnmatch.fnmatchcase(name, pattern)`. */
  predicate Matches(name: string, pattern: string) {
    MatchTokens(name, Compile(pattern))
  }

  // ---------------------------------------------------------------------
  // What the matcher means.

  /** `*` consumes any run: a leading AnyRun matches `s` exactly when the
      rest of the tokens match some suffix of `s`. */
  lemma {:induction false} AnyRunSplits(s: string, ts: seq<Token>)
    ensures MatchTokens(s, [AnyRun] + ts) <==> exists k :: 0 <= k <= |s| && MatchTokens(s[k..], ts)
    decreases |s|
  {
    var t := [AnyRun] + ts;
    assert t[1..] == ts;
    if s == [] {
      assert s[0..] == s;
    } else {
      AnyRunSplits(s[1..], ts);
      if MatchTokens(s, t) {
        if !MatchTokens(s, ts) {
          var k :| 0 <= k <= |s[1..]| && MatchTokens(s[1..][k..], ts);
          assert s[1..][k..] == s[k + 1..];
        } else {
          assert s[0..] == s;
        }
      }
      if exists k :: 0 <= k <= |s| && MatchTokens(s[k..], ts) {
        var k :| 0 <= k <= |s| && MatchTokens(s[k..], ts);
        if k == 0 {
          assert s[0..] == s;
        } else {
          assert s[1..][k - 1..] == s[k..];
        }
      }
    }
  }

  /** A star-free token sequence matches exactly the strings of its own
      length whose characters it accepts position by position. */
  lemma {:induction false} StarFreeMatchesPointwise(s: string, ts: seq<Token>)
    requires forall i :: 0 <= i < |ts| ==> ts[i] != AnyRun
    ensures MatchTokens(s, ts) <==> |s| == |ts| && forall i :: 0 <= i < |s| ==> Accepts(ts[i], s[i])
    decreases |ts|
  {
    if ts != [] && s != [] {
      StarFreeMatchesPointwise(s[1..], ts[1..]);
      if |s| == |ts| && forall i :: 0 <= i < |s| ==> Accepts(ts[i], s[i]) {
        assert Accepts(ts[0], s[0]);
        assert forall i :: 0 <= i < |s[1..]| ==> Accepts(ts[1..][i], s[1..][i]) by {
          forall i | 0 <= i < |s[1..]| ensures Accepts(ts[1..][i], s[1..][i]) {
            assert Accepts(ts[i + 1], s[i + 1]);
          }
        }
      }
    }
  }

  /** A pattern without `*`, `?` or `[` compiles to its own characters. */
  lemma {:induction false} CompilePlain(p: string)
    requires forall i :: 0 <= i < |p| ==> !IsSpecial(p[i])
    ensures |Compile(p)| == |p|
    ensures forall i :: 0 <= i < |p| ==> Compile(p)[i] == Literal(p[i])
    decreases |p|
  {
    if p != [] {
      CompilePlain(p[1..]);
      assert Compile(p) == [Literal(p[0])] + Compile(p[1..]);
    }
  }

  /** A pattern without wildcard characters matches only the identical name,
      and case matters. */
  lemma PlainPatternMatchesItself(name: string, p: string)
    requires forall i :: 0 <= i < |p| ==> !IsSpecial(p[i])
    ensures Matches(name, p) <==> name == p
  {
    CompilePlain(p);
    var ts := Compile(p);
    StarFreeMatchesPointwise(name, ts);
    if name == p {
      assert forall i :: 0 <= i < |name| ==> Accepts(ts[i], name[i]);
    }
  }

  /** `*` matches every name, the empty one included. */
  lemma StarMatchesEverything(name: string)
    ensures Matches(name, "*")
  {
    assert Compile("*") == [AnyRun] + [];
    AnyRunSplits(name, []);
    assert name[|name|..] == [];
  }

  /** `?` matches exactly the names of one character. */
  lemma QuestionMarkMatchesOneCharacter(name: string)
    ensures Matches(name, "?") <==> |name| == 1
  {
    assert Compile("?") == [AnyChar];
    StarFreeMatchesPointwise(name, [AnyChar]);
  }

  /** `.*`, the first default exclusion, matches exactly the names that start
      with a dot. */
  lemma HiddenPatternMatchesDotNames(name: string)
    ensures Matches(name, ".*") <==> |name| >= 1 && name[0] == '.'
  {
    var star := [AnyRun] + [];
    assert ".*"[1..] == "*";
    assert Compile("*") == star;
    assert Compile(".*") == [Literal('.')] + star;
    if |name| >= 1 {
      AnyRunSplits(name[1..], []);
      assert name[1..][|name[1..]|..] == [];
    }
  }

  /** A bracket pattern closed by its last character compiles to one class
      token. */
  lemma {:induction false} CompileWholeClass(body: string)
    requires |body| >= 1 && body[0] != ']'
    requires body[0] == '!' ==> |body| >= 2
    requires forall i :: 0 <= i < |body| ==> body[i] != ']'
    ensures Compile("[" + body + "]") == [ClassToken(body)]
  {
    var p := "[" + body + "]";
    var j := CloseSearchStart(p);
    assert j <= |p| - 1 by {
      assert p[1] == body[0];
      if body[0] == '!' { assert p[2] == body[1]; }
    }
    assert forall k :: 1 <= k < |p| - 1 ==> p[k] == body[k - 1];
    var r := FindClose(p, j);
    assert p[|p| - 1] == ']';
    assert r == |p| - 1;
    assert p[1..|p| - 1] == body;
    assert p[|p|..] == [];
  }

  /** Deleting the empty ranges does not change which characters a class
      covers. */
  lemma {:induction false} DropEmptyRangesKeepsClass(items: seq<Item>, c: char)
    ensures InClass(DropEmptyRanges(items), c) <==> InClass(items, c)
    ensures forall i :: 0 <= i < |DropEmptyRanges(items)| ==> !IsEmptyRange(DropEmptyRanges(items)[i])
    decreases |items|
  {
    if items != [] {
      DropEmptyRangesKeepsClass(items[1..], c);
      var head := if IsEmptyRange(items[0]) then [] else [items[0]];
      var r := DropEmptyRanges(items);
      assert r == head + DropEmptyRanges(items[1..]);
      var tail := DropEmptyRanges(items[1..]);
      if InClass(items, c) {
        var i :| 0 <= i < |items| && Covers(items[i], c);
        if i == 0 {
          assert r[0] == items[0];
        } else {
          assert Covers(items[1..][i - 1], c);
          var k :| 0 <= k < |tail| && Covers(tail[k], c);
          assert r[|head| + k] == tail[k];
        }
      }
      if InClass(r, c) {
        var i :| 0 <= i < |r| && Covers(r[i], c);
        if i < |head| {
          assert Covers(items[0], c);
        } else {
          assert Covers(tail[i - |head|], c);
          var k :| 0 <= k < |items[1..]| && Covers(items[1..][k], c);
          assert Covers(items[k + 1], c);
        }
      }
    }
  }

  /** A class that does not start with `!` matches one character of the
      class, unless deleting its empty ranges brings a `!` to the front: then
      it matches one character outside what follows that `!`. */
  lemma ClassMatchesMember(c: char, body: string)
    requires |body| >= 1 && body[0] != '!' && body[0] != ']'
    requires forall i :: 0 <= i < |body| ==> body[i] != ']'
    ensures !OpensWithBang(DropEmptyRanges(ParseItems(body))) ==>
              (Matches([c], "[" + body + "]") <==> InClass(ParseItems(body), c))
    ensures OpensWithBang(DropEmptyRanges(ParseItems(body))) ==>
              (Matches([c], "[" + body + "]") <==> !InClass(AfterBang(DropEmptyRanges(ParseItems(body))), c))
  {
    CompileWholeClass(body);
    StarFreeMatchesPointwise([c], [ClassToken(body)]);
  }

  /** A class whose text contains no `!` and does not start with one is
      never negated, and matches exactly its members. */
  lemma {:induction false} ClassWithoutBang(c: char, body: string)
    requires |body| >= 1 && body[0] != ']'
    requires forall i :: 0 <= i < |body| ==> body[i] != ']' && body[i] != '!'
    ensures Matches([c], "[" + body + "]") <==> InClass(ParseItems(body), c)
  {
    ParseItemsAvoids(body, '!');
    DropEmptyRangesAvoids(ParseItems(body), '!');
    ClassMatchesMember(c, body);
  }

  /** No member of a parsed class mentions a character its text lacks. */
  lemma {:induction false} ParseItemsAvoids(body: string, x: char)
    requires forall i :: 0 <= i < |body| ==> body[i] != x
    ensures forall i :: 0 <= i < |ParseItems(body)| ==> Mentions(ParseItems(body)[i]) != x
    decreases |body|
  {
    if body != [] {
      if |body| >= 3 && body[1] == '-' {
        ParseItemsAvoids(body[3..], x);
        assert ParseItems(body) == [Range(body[0], body[2])] + ParseItems(body[3..]);
      } else {
        ParseItemsAvoids(body[1..], x);
        assert ParseItems(body) == [Single(body[0])] + ParseItems(body[1..]);
      }
    }
  }

  /** The character a member starts with, the one fnmatch tests for `!`. */
  function Mentions(item: Item): char {
    match item
    case Single(x) => x
    case Range(lo, _) => lo
  }

  lemma {:induction false} DropEmptyRangesAvoids(items: seq<Item>, x: char)
    requires forall i :: 0 <= i < |items| ==> Mentions(items[i]) != x
    ensures forall i :: 0 <= i < |DropEmptyRanges(items)| ==> Mentions(DropEmptyRanges(items)[i]) != x
    decreases |items|
  {
    if items != [] {
      DropEmptyRangesAvoids(items[1..], x);
      var head := if IsEmptyRange(items[0]) then [] else [items[0]];
      assert DropEmptyRanges(items) == head + DropEmptyRanges(items[1..]);
    }
  }

  /** `[z-a!b]`: the empty range `z-a` is deleted, the `!` comes to the
      front, and the class matches every character but `b`. */
  lemma EmptyRangeThenBang(c: char)
    ensures Matches([c], "[z-a!b]") <==> c != 'b'
  {
    var body := "z-a!b";
    assert "[z-a!b]" == "[" + body + "]";
    assert body[3..] == "!b" && "!b"[1..] == "b" && "b"[1..] == [];
    var items := [Range('z', 'a'), Single('!'), Single('b')];
    assert ParseItems(body) == items;
    assert DropEmptyRanges(items[2..]) == [Single('b')];
    assert DropEmptyRanges(items) == [Single('!'), Single('b')];
    ClassMatchesMember(c, body);
    assert AfterBang([Single('!'), Single('b')]) == [Single('b')];
    assert InClass([Single('b')], c) <==> Covers(Single('b'), c);
  }

  /** `[z-a!]`: nothing is left after the `!`, so every character matches. */
  lemma EmptyRangeThenBangAlone(c: char)
    ensures Matches([c], "[z-a!]")
  {
    var body := "z-a!";
    assert "[z-a!]" == "[" + body + "]";
    assert body[3..] == "!" && "!"[1..] == [];
    var items := [Range('z', 'a'), Single('!')];
    assert ParseItems(body) == items;
    assert DropEmptyRanges(items) == [Single('!')];
    ClassMatchesMember(c, body);
    assert AfterBang([Single('!')]) == [];
  }

  /** `[z-a!-c]`: the range `!-c` loses its range once the `!` is read as
      negation, and the class matches every character but `-` and `c`. */
  lemma EmptyRangeThenBangRange(c: char)
    ensures Matches([c], "[z-a!-c]") <==> c != '-' && c != 'c'
  {
    var body := "z-a!-c";
    assert "[z-a!-c]" == "[" + body + "]";
    assert body[3..] == "!-c" && "!-c"[3..] == [];
    var items := [Range('z', 'a'), Range('!', 'c')];
    assert ParseItems(body) == items;
    assert DropEmptyRanges(items) == [Range('!', 'c')];
    ClassMatchesMember(c, body);
    var after := [Single('-'), Single('c')];
    assert AfterBang([Range('!', 'c')]) == after;
    assert InClass(after, c) <==> Covers(after[0], c) || Covers(after[1], c);
  }

  /** A negated class matches one character outside the class. */
  lemma NegatedClassMatchesNonMember(c: char, body: string)
    requires |body| >= 1 && body[0] != ']'
    requires forall i :: 0 <= i < |body| ==> body[i] != ']'
    ensures Matches([c], "[!" + body + "]") <==> !InClass(ParseItems(body), c)
  {
    CompileNegatedClass(body);
    StarFreeMatchesPointwise([c], [Class(true, ParseItems(body))]);
  }

  /** A negated bracket pattern closed by its last character compiles to one
      negated class token. */
  lemma CompileNegatedClass(body: string)
    requires |body| >= 1 && body[0] != ']'
    requires forall i :: 0 <= i < |body| ==> body[i] != ']'
    ensures Compile("[!" + body + "]") == [Class(true, ParseItems(body))]
  {
    var stuff := "!" + body;
    NegatedText(body);
    assert ClassToken(stuff) == Class(true, ParseItems(body));
    CompileWholeClass(stuff);
  }

  /** The text of `[!body]` seen as `[` + `!body` + `]`. */
  lemma NegatedText(body: string)
    requires forall i :: 0 <= i < |body| ==> body[i] != ']'
    ensures ("!" + body)[1..] == body
    ensures "[!" + body + "]" == "[" + ("!" + body) + "]"
    ensures forall i :: 0 <= i < |"!" + body| ==> ("!" + body)[i] != ']'
  {
    var stuff := "!" + body;
    forall i | 0 <= i < |stuff| ensures stuff[i] != ']' {
      if i > 0 { assert stuff[i] == body[i - 1]; }
    }
  }

  /** A `[` that is never closed stands for itself. */
  lemma UnclosedBracketIsLiteral(p: string)
    requires |p| >= 1 && p[0] == '['
    requires forall k :: 1 <= k < |p| ==> p[k] != ']'
    ensures Compile(p) == [Literal('[')] + Compile(p[1..])
  {
    assert FindClose(p, CloseSearchStart(p)) == |p|;
  }
}
