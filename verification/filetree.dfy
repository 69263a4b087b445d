/** The repository as `filepath.Walk` reports it: one entry per path, in the
    walk's order (lexical within each directory, a directory before its
    contents). */
module FileTree {
  import opened Paths
  import opened Results

  newtype byte = x: int | 0 <= x < 256

  /** What the walk reports for one path. */
  datatype EntryKind =
    | Directory
    | File(contents: seq<byte>)
    | Unopenable   // the walk lists the file, but opening or reading it fails
    | WalkError    // the walk hands its callback an error for this path

  datatype Entry = Entry(path: string, kind: EntryKind)

  /** `dir` followed by exactly one separator. */
  function DirPrefix(dir: string): string {
    if |dir| > 0 && dir[|dir| - 1] == Separator then dir else dir + [Separator]
  }

  /** Whether `path` is `dir` itself or lies below it. */
  predicate Within(dir: string, path: string) {
    path == dir || DirPrefix(dir) <= path
  }

  /** `idx` lists the positions `mask` marks, in increasing order: every
      marked position, each once, and no other. */
  ghost predicate PositionsOf(mask: seq<bool>, idx: seq<nat>) {
    && (forall j :: 0 <= j < |idx| ==> idx[j] < |mask| && mask[idx[j]])
    && (forall j, k :: 0 <= j < k < |idx| ==> idx[j] < idx[k])
    && (forall i :: 0 <= i < |mask| && mask[i] ==> i in idx)
  }

  /** The positions `mask` marks, in increasing order. */
  ghost function Positions(mask: seq<bool>): (idx: seq<nat>)
    ensures PositionsOf(mask, idx)
  {
    if |mask| == 0 then []
    else
      var rest := Positions(mask[1..]);
      PositionsCons(mask, rest);
      if mask[0] then [0] + Shifted(rest) else Shifted(rest)
  }

  /** Every position one further on: positions in `s[1..]` as positions in
      `s`. */
  function Shifted(idx: seq<nat>): (r: seq<nat>)
    ensures |r| == |idx|
    ensures forall j :: 0 <= j < |idx| ==> r[j] == idx[j] + 1
  {
    seq(|idx|, j requires 0 <= j < |idx| => idx[j] + 1)
  }

  /** The positions of `mask` from those of `mask[1..]`. */
  lemma PositionsCons(mask: seq<bool>, rest: seq<nat>)
    requires |mask| > 0
    requires PositionsOf(mask[1..], rest)
    ensures PositionsOf(mask, if mask[0] then [0] + Shifted(rest) else Shifted(rest))
  {
    ShiftedPositions(mask, rest);
    if mask[0] {
      PositionZeroFirst(mask, Shifted(rest));
    }
  }

  /** Positions in `mask[1..]`, shifted, are the positions of `mask` after
      the first. */
  lemma ShiftedPositions(mask: seq<bool>, rest: seq<nat>)
    requires |mask| > 0
    requires PositionsOf(mask[1..], rest)
    ensures forall j :: 0 <= j < |rest| ==> 0 < Shifted(rest)[j] < |mask| && mask[Shifted(rest)[j]]
    ensures forall j, k :: 0 <= j < k < |rest| ==> Shifted(rest)[j] < Shifted(rest)[k]
    ensures forall i :: 1 <= i < |mask| && mask[i] ==> i in Shifted(rest)
  {
    var shifted := Shifted(rest);
    assert forall j :: 0 <= j < |rest| ==> mask[shifted[j]] == mask[1..][rest[j]];
    forall i | 1 <= i < |mask| && mask[i]
      ensures i in shifted
    {
      assert mask[1..][i - 1] == mask[i];
      var j :| 0 <= j < |rest| && rest[j] == i - 1;
      assert shifted[j] == i;
    }
  }

  /** Position 0 put before the marked positions after it. */
  lemma PositionZeroFirst(mask: seq<bool>, shifted: seq<nat>)
    requires |mask| > 0 && mask[0]
    requires forall j :: 0 <= j < |shifted| ==> 0 < shifted[j] < |mask| && mask[shifted[j]]
    requires forall j, k :: 0 <= j < k < |shifted| ==> shifted[j] < shifted[k]
    requires forall i :: 1 <= i < |mask| && mask[i] ==> i in shifted
    ensures PositionsOf(mask, [0] + shifted)
  {
    var idx := [0] + shifted;
    assert forall j :: 1 <= j < |idx| ==> idx[j] == shifted[j - 1];
    forall i | 0 <= i < |mask| && mask[i]
      ensures i in idx
    {
      if i > 0 {
        var j :| 0 <= j < |shifted| && shifted[j] == i;
        assert idx[j + 1] == i;
      }
    }
  }

  /** Which entries of the walk lie at or below `dir`. */
  function WithinMask(dir: string, walk: seq<Entry>): (m: seq<bool>)
    ensures |m| == |walk|
    ensures forall i :: 0 <= i < |walk| ==> m[i] == Within(dir, walk[i].path)
  {
    seq(|walk|, i requires 0 <= i < |walk| => Within(dir, walk[i].path))
  }

  /** The entries at or below `dir`, in walk order. A walk started at `dir`
      visits exactly these, in this order, because the walk's order within
      each directory does not depend on where the walk started. */
  function Subtree(dir: string, walk: seq<Entry>): (sub: seq<Entry>)
    ensures |sub| == |Positions(WithinMask(dir, walk))|
    ensures forall j :: 0 <= j < |sub| ==> sub[j] == walk[Positions(WithinMask(dir, walk))[j]]
    ensures forall e :: e in sub <==> e in walk && Within(dir, e.path)
  {
    if |walk| == 0 then []
    else
      var rest := Subtree(dir, walk[1..]);
      assert forall e :: e in walk <==> e == walk[0] || e in walk[1..];
      SubtreeStep(dir, walk, rest);
      if Within(dir, walk[0].path) then [walk[0]] + rest else rest
  }

  /** One step of `Subtree`: the entries below `dir` in `walk[1..]`, placed
      at their positions in `walk`. */
  lemma SubtreeStep(dir: string, walk: seq<Entry>, rest: seq<Entry>)
    requires |walk| > 0
    requires |rest| == |Positions(WithinMask(dir, walk[1..]))|
    requires forall j :: 0 <= j < |rest| ==> rest[j] == walk[1..][Positions(WithinMask(dir, walk[1..]))[j]]
    ensures var idx := Positions(WithinMask(dir, walk));
      var sub := if Within(dir, walk[0].path) then [walk[0]] + rest else rest;
      |sub| == |idx| && forall j :: 0 <= j < |sub| ==> sub[j] == walk[idx[j]]
  {
    var m := WithinMask(dir, walk);
    assert m[1..] == WithinMask(dir, walk[1..]);
    SelectStep(m, walk, e => e, rest);
  }

  /** Selecting `f` of the marked elements of `s`, one element at a time. */
  lemma SelectStep<T, U>(m: seq<bool>, s: seq<T>, f: T -> U, rest: seq<U>)
    requires |m| == |s| > 0
    requires |rest| == |Positions(m[1..])|
    requires forall j :: 0 <= j < |rest| ==> rest[j] == f(s[1..][Positions(m[1..])[j]])
    ensures var idx := Positions(m);
      var sub := if m[0] then [f(s[0])] + rest else rest;
      |sub| == |idx| && forall j :: 0 <= j < |sub| ==> sub[j] == f(s[idx[j]])
  {
    var tail := Positions(m[1..]);
    var shifted := Shifted(tail);
    assert forall j :: 0 <= j < |rest| ==> rest[j] == f(s[shifted[j]]);
  }

  /** Selecting the present values of `f` over `s`, one element at a time;
      `m` marks where `f` has a value. */
  lemma SomeStep<T, U>(m: seq<bool>, s: seq<T>, f: T -> Option<U>, rest: seq<U>)
    requires |m| == |s| > 0
    requires m[0] == f(s[0]).Some?
    requires |rest| == |Positions(m[1..])|
    requires forall j :: 0 <= j < |rest| ==> f(s[1..][Positions(m[1..])[j]]) == Some(rest[j])
    ensures var idx := Positions(m);
      var sub := if m[0] then [f(s[0]).value] + rest else rest;
      |sub| == |idx| && forall j :: 0 <= j < |sub| ==> f(s[idx[j]]) == Some(sub[j])
  {
    var shifted := Shifted(Positions(m[1..]));
    var values := seq(|s|, i requires 0 <= i < |s| => f(s[i]));
    assert forall j :: 0 <= j < |rest| ==> Some(rest[j]) == values[shifted[j]];
  }


  /** What opening `path` finds: the first entry of the walk with that path. */
  function Lookup(walk: seq<Entry>, path: string): (r: Option<EntryKind>)
    ensures r.None? <==> forall i :: 0 <= i < |walk| ==> walk[i].path != path
    ensures r.Some? ==>
      exists i :: 0 <= i < |walk| && walk[i] == Entry(path, r.value)
        && forall j :: 0 <= j < i ==> walk[j].path != path
  {
    if |walk| == 0 then None
    else if walk[0].path == path then Some(walk[0].kind)
    else
      var r := Lookup(walk[1..], path);
      assert forall i :: 1 <= i < |walk| ==> walk[i] == walk[1..][i - 1];
      r
  }
}
