/** `hashFile` and `hashDirectory`: a unit's content digest. One running
    SHA-256 is fed the SHA-256 digest of every file the walk visits, in walk
    order; directories are skipped; the final sum is base64-encoded. SHA-256
    and base64 are left uninterpreted: they are fields of a `Hasher`, and
    every property below holds whatever functions fill them. Feeding a
    running hash piece by piece gives the hash of the concatenation, so the
    running hash is modelled as one `sha256` over the concatenated bytes. */
module Digest {
  import opened Results
  import opened Failures
  import opened FileTree

  /** The SHA-256 digest width in bytes. */
  const DigestSize: nat := 32

  datatype Hasher = Hasher(sha256: seq<byte> -> seq<byte>, base64: seq<byte> -> string)

  /** An entry the hashing walk gets past: a directory, or a file it can read. */
  predicate Readable(k: EntryKind) {
    k.Directory? || k.File?
  }

  predicate AllReadable(walk: seq<Entry>) {
    forall i :: 0 <= i < |walk| ==> Readable(walk[i].kind)
  }

  /** The contents of the walk's files, in walk order; directories omitted. */
  function FileContents(walk: seq<Entry>): seq<seq<byte>> {
    if |walk| == 0 then []
    else if walk[0].kind.File? then [walk[0].kind.contents] + FileContents(walk[1..])
    else FileContents(walk[1..])
  }

  /** The digests of `contents`, one after the other. */
  function ConcatDigests(h: Hasher, contents: seq<seq<byte>>): seq<byte> {
    if |contents| == 0 then [] else h.sha256(contents[0]) + ConcatDigests(h, contents[1..])
  }

  /** The error the hashing walk reports for an entry it cannot get past. */
  function EntryError(e: Entry): Error
    requires !Readable(e.kind)
  {
    if e.kind.WalkError? then HashWalkFailed(e.path) else HashFileFailed(e.path)
  }

  /** The walk of `hashDirectory`: everything written into the running hash,
      or the error of the first entry it cannot get past. */
  function Feed(h: Hasher, walk: seq<Entry>): (r: Result<seq<byte>, Error>)
    ensures r.Success? <==> AllReadable(walk)
    ensures r.Success? ==> r.value == ConcatDigests(h, FileContents(walk))
    ensures r.Failure? ==>
      exists i :: 0 <= i < |walk| && !Readable(walk[i].kind) && AllReadable(walk[..i])
                  && r.error == EntryError(walk[i])
  {
    if |walk| == 0 then Success([])
    else
      var e := walk[0];
      assert forall i :: 1 <= i < |walk| ==> walk[i] == walk[1..][i - 1];
      assert forall i :: 1 <= i <= |walk| ==> walk[..i] == [e] + walk[1..][..i - 1];
      match e.kind
      case WalkError => assert walk[..0] == []; Failure(HashWalkFailed(e.path))
      case Unopenable => assert walk[..0] == []; Failure(HashFileFailed(e.path))
      case Directory => Feed(h, walk[1..])
      case File(contents) =>
        var rest := Feed(h, walk[1..]);
        if rest.Failure? then rest else Success(h.sha256(contents) + rest.value)
  }

  /** `hashDirectory` over the walk of a unit's directory. */
  function HashDirectory(h: Hasher, walk: seq<Entry>): (r: Result<string, Error>)
    ensures r.Success? <==> AllReadable(walk)
    ensures r.Success? ==> r.value == h.base64(h.sha256(ConcatDigests(h, FileContents(walk))))
    ensures r.Failure? ==> r.error == Feed(h, walk).error
  {
    var fed :- Feed(h, walk);
    Success(h.base64(h.sha256(fed)))
  }

  /** Every SHA-256 digest is `DigestSize` bytes long. */
  ghost predicate FixedWidth(h: Hasher) {
    forall a :: |h.sha256(a)| == DigestSize
  }

  /** `sha256` maps no two of `inputs` to the same digest. No hash function is
      injective on all byte strings, but a cryptographic one is assumed to
      be on the few strings a run ever feeds it. */
  ghost predicate NoCollisionAmong(h: Hasher, inputs: set<seq<byte>>) {
    forall a, b :: a in inputs && b in inputs && h.sha256(a) == h.sha256(b) ==> a == b
  }

  /** The elements of a sequence of byte strings. */
  ghost function Elements(c: seq<seq<byte>>): set<seq<byte>> {
    set a | a in c
  }

  /** Every byte string `hashDirectory` hashes for two walks: the contents
      of each file, and the two concatenations of file digests. */
  ghost function DigestInputs(h: Hasher, w1: seq<Entry>, w2: seq<Entry>): set<seq<byte>> {
    Elements(FileContents(w1)) + Elements(FileContents(w2))
      + {ConcatDigests(h, FileContents(w1)), ConcatDigests(h, FileContents(w2))}
  }

  // ---------------------------------------------------------------------
  // Lemmas
  // ---------------------------------------------------------------------

  /** The hashing walk steps over a directory entry without effect, errors
      included. */
  lemma {:induction false} FeedSkipsDirectory(h: Hasher, a: seq<Entry>, d: Entry, b: seq<Entry>)
    requires d.kind.Directory?
    ensures Feed(h, a + [d] + b) == Feed(h, a + b)
    decreases |a|
  {
    if |a| == 0 {
      assert a + [d] + b == [d] + b;
      assert ([d] + b)[1..] == b;
      assert a + b == b;
    } else {
      var w1, w2 := a + [d] + b, a + b;
      assert w1[0] == a[0] && w2[0] == a[0];
      assert w1[1..] == a[1..] + [d] + b;
      assert w2[1..] == a[1..] + b;
      FeedSkipsDirectory(h, a[1..], d, b);
    }
  }

  /** A directory entry anywhere in the walk leaves the digest unchanged. */
  lemma DirectoryEntriesContributeNothing(h: Hasher, a: seq<Entry>, d: Entry, b: seq<Entry>)
    requires d.kind.Directory?
    ensures HashDirectory(h, a + [d] + b) == HashDirectory(h, a + b)
  {
    FeedSkipsDirectory(h, a, d, b);
  }

  /** Paths, names and directories play no part: two readable walks whose
      files have the same contents in the same order have the same digest. */
  lemma DigestDependsOnlyOnContents(h: Hasher, w1: seq<Entry>, w2: seq<Entry>)
    requires AllReadable(w1) && AllReadable(w2)
    requires FileContents(w1) == FileContents(w2)
    ensures HashDirectory(h, w1) == HashDirectory(h, w2)
  {
  }

  lemma {:induction false} ConcatDigestsLength(h: Hasher, contents: seq<seq<byte>>)
    requires FixedWidth(h)
    ensures |ConcatDigests(h, contents)| == DigestSize * |contents|
    decreases |contents|
  {
    if |contents| > 0 {
      ConcatDigestsLength(h, contents[1..]);
    }
  }

  /** The assumptions above can be met: a fixed-width hasher that tells an
      empty file from a one-byte file. */
  lemma NoCollisionAmongSatisfiable()
    ensures exists h: Hasher :: FixedWidth(h) && NoCollisionAmong(h, {[], [0]})
  {
    var zeros: seq<byte> := seq(DigestSize, _ => 0);
    var ones: seq<byte> := seq(DigestSize, _ => 1);
    var h := Hasher(a => if a == [] then zeros else ones, _ => "");
    assert zeros != ones by { assert zeros[0] != ones[0]; }
    assert FixedWidth(h);
    assert NoCollisionAmong(h, {[], [0]});
  }

  /** With fixed-width digests and no collision among the files involved,
      the concatenation of file digests determines the file contents. */
  lemma {:induction false} ConcatDigestsInjective(h: Hasher, c1: seq<seq<byte>>, c2: seq<seq<byte>>)
    requires FixedWidth(h)
    requires NoCollisionAmong(h, Elements(c1) + Elements(c2))
    requires ConcatDigests(h, c1) == ConcatDigests(h, c2)
    ensures c1 == c2
    decreases |c1|
  {
    ConcatDigestsLength(h, c1);
    ConcatDigestsLength(h, c2);
    if |c1| > 0 {
      var s1, s2 := ConcatDigests(h, c1), ConcatDigests(h, c2);
      assert s1[..DigestSize] == h.sha256(c1[0]);
      assert s2[..DigestSize] == h.sha256(c2[0]);
      assert s1[DigestSize..] == ConcatDigests(h, c1[1..]);
      assert s2[DigestSize..] == ConcatDigests(h, c2[1..]);
      assert Elements(c1[1..]) + Elements(c2[1..]) <= Elements(c1) + Elements(c2);
      ConcatDigestsInjective(h, c1[1..], c2[1..]);
      assert c1 == [c1[0]] + c1[1..];
      assert c2 == [c2[0]] + c2[1..];
    }
  }

  /** When SHA-256 has fixed width and no collision among the strings the
      two digests hash, and base64 tells the two sums apart, the digest of a
      readable walk identifies exactly the ordered sequence of its file
      contents: any change to a file's bytes, or to the order of the files,
      changes the digest. */
  lemma DigestIdentifiesContents(h: Hasher, w1: seq<Entry>, w2: seq<Entry>)
    requires FixedWidth(h)
    requires NoCollisionAmong(h, DigestInputs(h, w1, w2))
    requires h.base64(h.sha256(ConcatDigests(h, FileContents(w1))))
               == h.base64(h.sha256(ConcatDigests(h, FileContents(w2))))
             ==> h.sha256(ConcatDigests(h, FileContents(w1))) == h.sha256(ConcatDigests(h, FileContents(w2)))
    requires AllReadable(w1) && AllReadable(w2)
    ensures HashDirectory(h, w1) == HashDirectory(h, w2) <==> FileContents(w1) == FileContents(w2)
  {
    if HashDirectory(h, w1) == HashDirectory(h, w2) {
      var d1, d2 := ConcatDigests(h, FileContents(w1)), ConcatDigests(h, FileContents(w2));
      assert d1 in DigestInputs(h, w1, w2) && d2 in DigestInputs(h, w1, w2);
      assert d1 == d2;
      ConcatDigestsInjective(h, FileContents(w1), FileContents(w2));
    }
  }
}
