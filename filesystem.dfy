/** The part of the filesystem lopc looks at, as a value: a directory is the
    list of its entries in the order its listing yields them, and a file is
    what reading it as text produces. */
module FileSystem {

  /** A path as its components: the target as given on the command line,
      then the names of the entries below it. */
  type Path = seq<string>

  /** What `Path.read_text()` does with a file. */
  datatype Content =
    | Text(text: string)   // decodes; the decoded text
    | Undecodable          // raises UnicodeDecodeError
    | Unreadable           // raises any other OSError (no permission, vanished, missing)

  /** One directory entry. `File` is every entry for which `is_dir()` is
      false, whatever it is on disk. */
  datatype Node = Node(name: string, kind: Kind)

  datatype Kind = File(content: Content) | Dir(listing: Listing)

  /** What `iterdir()` does with a directory. */
  datatype Listing =
    | Entries(children: seq<Node>)   // the entries, in listing order
    | Unlistable                      // raises OSError

  /** The index of the last `.` in `name`, or -1 (`str.rfind`). */
  function LastDot(name: string): (i: int)
    ensures -1 <= i < |name|
    ensures 0 <= i ==> name[i] == '.'
    ensures forall k :: i < k < |name| ==> name[k] != '.'
    decreases |name|
  {
    if name == [] then -1
    else if name[|name| - 1] == '.' then |name| - 1
    else LastDot(name[..|name| - 1])
  }

  /** `PurePath.suffix`: from the last dot on, provided that dot is neither
      the first nor the last character of the name; otherwise empty. */
  function Suffix(name: string): string {
    var i := LastDot(name);
    if 0 < i < |name| - 1 then name[i..] else ""
  }

  /** A non-empty suffix is a proper ending of the name: a dot followed by at
      least one character and by no other dot. */
  lemma SuffixShape(name: string)
    ensures var r := Suffix(name);
      r != [] ==> (2 <= |r| < |name| && r == name[|name| - |r|..] && r[0] == '.'
        && forall k :: 0 < k < |r| ==> r[k] != '.')
  {
    var i := LastDot(name);
    if 0 < i < |name| - 1 {
      var r := name[i..];
      assert forall k :: 0 < k < |r| ==> r[k] == name[i + k];
    }
  }

  /** The test `recurse_dir` applies to a non-directory entry. */
  predicate IsPythonSource(name: string) {
    Suffix(name) == ".py"
  }

  /** A name has the `.py` suffix exactly when it ends in ".py" and has
      something before it: ".py" itself is a hidden file without suffix. */
  lemma PythonSourceIffEndsInPy(name: string)
    ensures IsPythonSource(name) <==> |name| > 3 && name[|name| - 3..] == ".py"
  {
    var i := LastDot(name);
    if |name| > 3 && name[|name| - 3..] == ".py" {
      assert name[|name| - 1] == 'y' && name[|name| - 2] == 'p' && name[|name| - 3] == '.';
      assert i == |name| - 3;
    }
    if IsPythonSource(name) {
      assert 0 < i < |name| - 1 && |name[i..]| == 3;
    }
  }
}
