/** Lexical path handling of Go's `path/filepath` on a Unix host (no volume
    names, separator '/'): `Dir`, `Base` and `Clean`, together with the
    deployer's own `getLowestDirectory`, which names a unit after the
    directory that holds its manifest. */
module Paths {

  const Separator: char := '/'

  /** An element of a clean path: not empty, not "." or "..", no separator. */
  predicate NormalElement(e: string) {
    e != "" && e != "." && e != ".." && Separator !in e
  }

  /** Index of the last separator in `s`, or -1 when there is none. */
  function LastSeparator(s: string): (i: int)
    ensures -1 <= i < |s|
    ensures 0 <= i ==> s[i] == Separator
    ensures forall k :: i < k < |s| ==> s[k] != Separator
  {
    if |s| == 0 then -1
    else if s[|s| - 1] == Separator then |s| - 1
    else LastSeparator(s[..|s| - 1])
  }

  /** `s` with every trailing separator removed. */
  function TrimTrailingSeparators(s: string): (t: string)
    ensures t <= s
    ensures t == "" || t[|t| - 1] != Separator
    ensures forall k :: |t| <= k < |s| ==> s[k] == Separator
  {
    if |s| > 0 && s[|s| - 1] == Separator then TrimTrailingSeparators(s[..|s| - 1])
    else s
  }

  /** Go's `strings.Split(s, "/")`: the pieces between separators, in order. */
  function Split(s: string): (parts: seq<string>)
    ensures |parts| >= 1
    ensures forall j :: 0 <= j < |parts| ==> Separator !in parts[j]
    decreases |s|
  {
    var i := LastSeparator(s);
    if i < 0 then [s]
    else
      var tail := s[i + 1..];
      assert forall k :: 0 <= k < |tail| ==> tail[k] != Separator;
      Split(s[..i]) + [tail]
  }

  /** Go's `strings.Join(parts, "/")`. */
  function Join(parts: seq<string>): string {
    if |parts| == 0 then ""
    else if |parts| == 1 then parts[0]
    else Join(parts[..|parts| - 1]) + [Separator] + parts[|parts| - 1]
  }

  /** One step of `Clean`'s element processing: "" and "." vanish, ".."
      removes the element before it, or is dropped at the root of an
      absolute path, or is kept at the front of a relative one. */
  function CleanStep(rooted: bool, stack: seq<string>, e: string): seq<string> {
    if e == "" || e == "." then stack
    else if e == ".." then
      if |stack| > 0 && stack[|stack| - 1] != ".." then stack[..|stack| - 1]
      else if rooted then stack
      else stack + [".."]
    else stack + [e]
  }

  /** The surviving elements after `Clean`'s processing of `elems`, left to right. */
  function Resolve(rooted: bool, elems: seq<string>): seq<string> {
    if |elems| == 0 then []
    else CleanStep(rooted, Resolve(rooted, elems[..|elems| - 1]), elems[|elems| - 1])
  }

  /** Go's `filepath.Clean` (Unix): the shortest lexically equivalent path. */
  function Clean(path: string): (r: string)
    ensures r != ""
  {
    var rooted := |path| > 0 && path[0] == Separator;
    var kept := Resolve(rooted, Split(path));
    if rooted then [Separator] + Join(kept)
    else if |kept| == 0 then "."
    else if Join(kept) == "" then "."
    else Join(kept)
  }

  /** Go's `filepath.Base`: the last element, trailing separators ignored;
      "." for the empty path, "/" for a path of separators only. */
  function Base(path: string): (r: string)
    ensures r != ""
    ensures Separator in r ==> r == [Separator]
  {
    if path == "" then "."
    else
      var t := TrimTrailingSeparators(path);
      if t == "" then [Separator]
      else t[LastSeparator(t) + 1..]
  }

  /** Go's `filepath.Dir`: everything up to the last separator, cleaned. */
  function Dir(path: string): (r: string)
    ensures r != ""
  {
    Clean(path[..LastSeparator(path) + 1])
  }

  /** `getLowestDirectory`: the name of the directory that holds `path`.
      This name is a unit's identity. */
  function LowestDirectory(path: string): (r: string)
    ensures r != ""
    ensures Separator in r ==> r == [Separator]
  {
    Base(Dir(path))
  }

  /** The absolute path "/e1/e2/.../en". */
  function Absolute(elems: seq<string>): string {
    [Separator] + Join(elems)
  }

  // ---------------------------------------------------------------------
  // Lemmas
  // ---------------------------------------------------------------------

  /** The last separator of `a + "/" + b` is the one between them when `b`
      has none. */
  lemma {:induction false} LastSeparatorOfAppend(a: string, b: string)
    requires Separator !in b
    ensures LastSeparator(a + [Separator] + b) == |a|
    decreases |b|
  {
    var s := a + [Separator] + b;
    if |b| == 0 {
      assert s[|s| - 1] == Separator;
    } else {
      assert b[|b| - 1] in b;
      assert s[..|s| - 1] == a + [Separator] + b[..|b| - 1];
      LastSeparatorOfAppend(a, b[..|b| - 1]);
    }
  }

  /** Splitting a joined sequence of separator-free pieces gives the pieces
      back. */
  lemma {:induction false} SplitJoin(parts: seq<string>)
    requires |parts| >= 1
    requires forall j :: 0 <= j < |parts| ==> Separator !in parts[j]
    ensures Split(Join(parts)) == parts
    decreases |parts|
  {
    if |parts| == 1 {
    } else {
      var init := parts[..|parts| - 1];
      var last := parts[|parts| - 1];
      LastSeparatorOfAppend(Join(init), last);
      var s := Join(init) + [Separator] + last;
      assert s[..|Join(init)|] == Join(init);
      assert s[|Join(init)| + 1..] == last;
      SplitJoin(init);
      assert init + [last] == parts;
    }
  }

  /** Joining the pieces of a split gives the string back. */
  lemma {:induction false} JoinSplit(s: string)
    ensures Join(Split(s)) == s
    decreases |s|
  {
    var i := LastSeparator(s);
    if 0 <= i {
      JoinSplit(s[..i]);
      var parts := Split(s[..i]) + [s[i + 1..]];
      assert parts[..|parts| - 1] == Split(s[..i]);
      assert s == s[..i] + [Separator] + s[i + 1..];
    }
  }

  /** Prepending an empty first piece prepends a separator. */
  lemma {:induction false} JoinConsEmpty(parts: seq<string>)
    requires |parts| >= 1
    ensures Join([""] + parts) == [Separator] + Join(parts)
    decreases |parts|
  {
    if |parts| == 1 {
      assert ([""] + parts)[..1] == [""];
    } else {
      var init := parts[..|parts| - 1];
      assert ([""] + parts)[..|parts|] == [""] + init;
      JoinConsEmpty(init);
    }
  }

  /** Clean's processing keeps every normal element and drops empty ones at
      the front. */
  lemma {:induction false} ResolveNormal(rooted: bool, elems: seq<string>)
    requires forall j :: 0 <= j < |elems| ==> NormalElement(elems[j])
    ensures Resolve(rooted, [""] + elems) == elems
    decreases |elems|
  {
    var xs := [""] + elems;
    if |elems| == 0 {
      assert xs[..0] == [];
    } else {
      assert xs[..|xs| - 1] == [""] + elems[..|elems| - 1];
      ResolveNormal(rooted, elems[..|elems| - 1]);
    }
  }

  /** The base of a path of normal elements is its last element. */
  lemma BaseOfAbsolute(elems: seq<string>)
    requires |elems| >= 1
    requires forall j :: 0 <= j < |elems| ==> NormalElement(elems[j])
    ensures Base(Absolute(elems)) == elems[|elems| - 1]
  {
    var last := elems[|elems| - 1];
    var head := if |elems| == 1 then "" else [Separator] + Join(elems[..|elems| - 1]);
    assert Absolute(elems) == head + [Separator] + last;
    assert TrimTrailingSeparators(Absolute(elems)) == Absolute(elems);
    LastSeparatorOfAppend(head, last);
    assert (head + [Separator] + last)[|head| + 1..] == last;
  }

  /** A path of normal elements is already clean. */
  lemma CleanOfAbsolute(elems: seq<string>)
    requires |elems| >= 1
    requires forall j :: 0 <= j < |elems| ==> NormalElement(elems[j])
    ensures Clean(Absolute(elems)) == Absolute(elems)
  {
    JoinConsEmpty(elems);
    SplitJoin([""] + elems);
    ResolveNormal(true, elems);
  }

  /** `getLowestDirectory` of "/d1/.../dn/f" is dn: the name of the last
      directory on a clean absolute path. */
  lemma LowestDirectoryOfAbsolute(dirs: seq<string>, file: string)
    requires |dirs| >= 1
    requires forall j :: 0 <= j < |dirs| ==> NormalElement(dirs[j])
    requires NormalElement(file)
    ensures LowestDirectory(Absolute(dirs + [file])) == dirs[|dirs| - 1]
  {
    var p := Absolute(dirs + [file]);
    var prefix := Absolute(dirs);
    assert (dirs + [file])[..|dirs|] == dirs;
    assert p == prefix + [Separator] + file;
    LastSeparatorOfAppend(prefix, file);
    assert p[..|prefix| + 1] == prefix + [Separator];
    var parent := prefix + [Separator];
    // The cleaned parent: the trailing separator yields an empty last piece.
    assert LastSeparator(parent) == |prefix|;
    assert parent[..|prefix|] == prefix;
    assert parent[|prefix| + 1..] == "";
    assert Split(parent) == Split(prefix) + [""];
    JoinConsEmpty(dirs);
    SplitJoin([""] + dirs);
    ResolveNormal(true, dirs);
    assert Resolve(true, Split(parent)) == dirs by {
      assert (Split(prefix) + [""])[..|Split(prefix)|] == Split(prefix);
    }
    assert Dir(p) == prefix;
    BaseOfAbsolute(dirs);
  }

  /** The base of "/d1/.../dn/f" is the file name f itself. */
  lemma BaseOfFilePath(dirs: seq<string>, file: string)
    requires forall j :: 0 <= j < |dirs| ==> NormalElement(dirs[j])
    requires NormalElement(file)
    ensures Base(Absolute(dirs + [file])) == file
  {
    forall j | 0 <= j < |dirs + [file]|
      ensures NormalElement((dirs + [file])[j])
    {
      if j < |dirs| { assert (dirs + [file])[j] == dirs[j]; }
    }
    BaseOfAbsolute(dirs + [file]);
  }

  /** Joining a first piece in front of the rest. */
  lemma {:induction false} JoinCons(x: string, xs: seq<string>)
    requires |xs| >= 1
    ensures Join([x] + xs) == x + [Separator] + Join(xs)
    decreases |xs|
  {
    if |xs| == 1 {
      assert ([x] + xs)[..1] == [x];
    } else {
      var init := xs[..|xs| - 1];
      assert ([x] + xs)[..|xs|] == [x] + init;
      JoinCons(x, init);
    }
  }

  /** "/" + x + "/" + y + ... written out for a path of five elements. */
  lemma AbsoluteOfFive(p: seq<string>)
    requires |p| == 5
    ensures Absolute(p) == "/" + p[0] + "/" + p[1] + "/" + p[2] + "/" + p[3] + "/" + p[4]
  {
    JoinCons(p[0], p[1..]);
    JoinCons(p[1], p[2..]);
    JoinCons(p[2], p[3..]);
    JoinCons(p[3], p[4..]);
    assert p[1..] == [p[1]] + p[2..];
    assert p[2..] == [p[2]] + p[3..];
    assert p[3..] == [p[3]] + p[4..];
    assert p == [p[0]] + p[1..];
  }

  /** The unit name of a five-element manifest path. */
  lemma LowestDirectoryOfFive(p: seq<string>)
    requires |p| == 5
    requires forall j :: 0 <= j < 5 ==> NormalElement(p[j])
    ensures LowestDirectory("/" + p[0] + "/" + p[1] + "/" + p[2] + "/" + p[3] + "/" + p[4]) == p[3]
  {
    assert p[..4] + [p[4]] == p;
    LowestDirectoryOfAbsolute(p[..4], p[4]);
    AbsoluteOfFive(p);
  }

  /** The example pinned down by both test suites. */
  lemma LowestDirectoryExample()
    ensures LowestDirectory("/home/ward/bound/lowest/some_file.txt") == "lowest"
  {
    var p := ["home", "ward", "bound", "lowest", "some_file.txt"];
    assert "/" + p[0] + "/" + p[1] == "/home/ward";
    assert "/home/ward" + "/" + p[2] == "/home/ward/bound";
    assert "/home/ward/bound" + "/" + p[3] == "/home/ward/bound/lowest";
    assert "/home/ward/bound/lowest" + "/" + p[4] == "/home/ward/bound/lowest/some_file.txt";
    LowestDirectoryOfFive(p);
  }
}
