/**
 Serialization as steps on the file system, any of which may be the last before a crash.
 Bytes reach the temporary file in pieces of any size and in order; a rename is atomic.  A write
 that fails makes the stream ignore all later ones, and nobody asks the stream: the file is renamed
 all the same.
 */
module CrashSafety {
  import opened ResourceImage

  const RESOURCE_EXT := ".bin"
  const RESOURCE_TMP_EXT := ".tmp"

  /** `resourcePath / fileName`, before the extension is added. */
  function Stem(path: string, key: string): string {
    if path == "" || (key != "" && key[0] == '/') then key
    else if path[|path| - 1] == '/' then path + key
    else path + "/" + key
  }

  function BinFile(stem: string): string { stem + RESOURCE_EXT }

  function TmpFile(stem: string): string { stem + RESOURCE_TMP_EXT }

  /** No temporary file is ever a resource file, and different stems have different files. */
  lemma NamesDoNotCollide(a: string, b: string)
    ensures TmpFile(a) != BinFile(b)
    ensures BinFile(a) == BinFile(b) ==> a == b
  {
    assert TmpFile(a)[|TmpFile(a)| - 1] == 'p' && BinFile(b)[|BinFile(b)| - 1] == 'n';
    assert BinFile(a)[..|BinFile(a)| - 4] == a && BinFile(b)[..|BinFile(b)| - 4] == b;
  }

  /** A key below a directory, both without a slash where they meet. */
  predicate Plain(path: string, key: string) {
    path != "" && path[|path| - 1] != '/' && key != "" && key[0] != '/'
  }

  /** What the two files of a key are called, as `std::filesystem` joins paths. */
  lemma FileNames(path: string, key: string)
    ensures Plain(path, key) ==>
      && BinFile(Stem(path, key)) == path + "/" + key + ".bin"
      && TmpFile(Stem(path, key)) == path + "/" + key + ".tmp"
    ensures path != "" && path[|path| - 1] == '/' && key != "" && key[0] != '/' ==>
      BinFile(Stem(path, key)) == path + key + ".bin" && TmpFile(Stem(path, key)) == path + key + ".tmp"
    ensures path == "" || (key != "" && key[0] == '/') ==>
      BinFile(Stem(path, key)) == key + ".bin" && TmpFile(Stem(path, key)) == key + ".tmp"
  {
  }

  /** Keys without slashes: one file is never shared by two keys or by two directories. */
  lemma FilesAreTheirOwn(p: string, k: string, q: string, l: string)
    requires Plain(p, k) && Plain(q, l) && '/' !in k && '/' !in l
    requires BinFile(Stem(p, k)) == BinFile(Stem(q, l))
    ensures p == q && k == l
  {
    NamesDoNotCollide(Stem(p, k), Stem(q, l));
    LastSlash(p, k, q, l);
  }

  lemma LastSlash(p: string, k: string, q: string, l: string)
    requires '/' !in k && '/' !in l && p + "/" + k == q + "/" + l
    ensures p == q && k == l
  {
    var s := p + "/" + k;
    if |p| < |q| {
      SlashInside(p, k, q, l);
    } else if |q| < |p| {
      SlashInside(q, l, p, k);
    } else {
      assert s[..|p|] == p && s[..|q|] == q && s[|p| + 1..] == k && s[|q| + 1..] == l;
    }
  }

  lemma SlashInside(p: string, k: string, q: string, l: string)
    requires p + "/" + k == q + "/" + l && |p| < |q|
    ensures '/' in k
  {
    var s := p + "/" + k;
    assert s[|q|] == '/' && s[|q|] == k[|q| - |p| - 1];
  }

  /** Two disks have the same files, but perhaps for those with these names. */
  ghost predicate SameBut(was: map<string, Bytes>, now: map<string, Bytes>, names: set<string>) {
    forall name :: name !in names ==>
      (name in now <==> name in was) && (name in was ==> now[name] == was[name])
  }

  lemma SameButTwice(a: map<string, Bytes>, b: map<string, Bytes>, c: map<string, Bytes>,
                     names: set<string>, more: set<string>)
    requires SameBut(a, b, names) && SameBut(b, c, more)
    ensures SameBut(a, c, names + more)
  {
  }

  datatype Phase =
    | Idle
    | Writing(stem: string, resource: Resource, written: nat, bad: bool)   // the open stream and its badbit

  /** A file that was renamed into place: the bytes of a resource that got there, and whether a write failed. */
  datatype Commit = Commit(resource: Resource, written: nat, failed: bool)

  datatype Disk = Disk(
    files: map<string, Bytes>,
    phase: Phase,
    committed: map<string, Commit>,        // history: what was last renamed into place, by stem
    serialized: set<(string, Resource)>)   // history: every resource whose writing was begun

  datatype Action =
    | Open(stem: string, resource: Resource)   // opening the temporary file empties it
    | Write(n: nat)                            // the next n bytes reach the file
    | WriteFails(n: nat)                       // the next n bytes do, and then no more
    | Rename                                   // after the last call of `write`, and `close`
    | RenameFails
    | Remove(stem: string)                     // Unserialize
    | Crash                                    // the process dies, and perhaps another is started

  predicate Enabled(d: Disk, a: Action) {
    match a
    case Open(_, _) => d.phase.Idle?
    case Write(n) => d.phase.Writing? && !d.phase.bad && d.phase.written + n <= |Image(d.phase.resource)|
    case WriteFails(n) => d.phase.Writing? && !d.phase.bad && d.phase.written + n < |Image(d.phase.resource)|
    case Rename =>
      && d.phase.Writing? && (d.phase.bad || d.phase.written == |Image(d.phase.resource)|)
      && TmpFile(d.phase.stem) in d.files
    case RenameFails => d.phase.Writing?
    case Remove(_) => d.phase.Idle?
    case Crash => true
  }

  function Next(d: Disk, a: Action): Disk
    requires Enabled(d, a)
  {
    match a
    case Open(stem, r) =>
      d.(files := d.files[TmpFile(stem) := []], phase := Writing(stem, r, 0, false),
         serialized := d.serialized + {(stem, r)})
    case Write(n) =>
      var Writing(stem, r, written, _) := d.phase;
      d.(files := d.files[TmpFile(stem) := Image(r)[..written + n]], phase := Writing(stem, r, written + n, false))
    case WriteFails(n) =>
      var Writing(stem, r, written, _) := d.phase;
      d.(files := d.files[TmpFile(stem) := Image(r)[..written + n]], phase := Writing(stem, r, written + n, true))
    case Rename =>
      var Writing(stem, r, written, bad) := d.phase;
      var content := d.files[TmpFile(stem)];
      d.(files := (d.files - {TmpFile(stem)})[BinFile(stem) := content], phase := Idle,
         committed := d.committed[stem := Commit(r, written, bad)])
    case RenameFails => d.(phase := Idle)
    case Remove(stem) => d.(files := d.files - {BinFile(stem)}, committed := d.committed - {stem})
    case Crash => d.(phase := Idle)
  }

  /** A disk on which nothing has been serialized yet; other files may be there. */
  predicate Blank(d: Disk) {
    && d.phase.Idle? && d.committed == map[] && d.serialized == {}
    && forall name :: name in d.files ==> |name| < 4 || name[|name| - 4..] != RESOURCE_EXT
  }

  ghost predicate Reaches(d: Disk, acts: seq<Action>, e: Disk)
    decreases |acts|
  {
    if acts == [] then d == e
    else Enabled(d, acts[0]) && Reaches(Next(d, acts[0]), acts[1..], e)
  }

  /** What a resource file holds: a prefix of the image, and all of it unless a write failed. */
  predicate Holds(content: Bytes, c: Commit) {
    var image := Image(c.resource);
    && c.written <= |image| && content == image[..c.written]
    && (c.failed <==> c.written < |image|)
  }

  /** A file is a complete image exactly when no write failed; otherwise it is a proper prefix of one. */
  lemma CompleteIffNoneFailed(content: Bytes, c: Commit)
    requires Holds(content, c)
    ensures content == Image(c.resource) <==> !c.failed
    ensures c.failed ==> content < Image(c.resource)
  {
    var image := Image(c.resource);
    assert image[..|image|] == image;
  }

  /** A resource file is there exactly if it was committed, and holds what was. */
  ghost predicate FileMatches(d: Disk, stem: string) {
    && (BinFile(stem) in d.files <==> stem in d.committed)
    && (stem in d.committed ==>
          && Holds(d.files[BinFile(stem)], d.committed[stem])
          && (stem, d.committed[stem].resource) in d.serialized)
  }

  ghost predicate FilesMatch(d: Disk) { forall stem :: FileMatches(d, stem) }

  /** The temporary file of a call under way holds what was written so far. */
  ghost predicate TmpMatches(d: Disk) {
    d.phase.Writing? ==>
      && d.phase.written <= |Image(d.phase.resource)|
      && TmpFile(d.phase.stem) in d.files
      && d.files[TmpFile(d.phase.stem)] == Image(d.phase.resource)[..d.phase.written]
      && (d.phase.bad ==> d.phase.written < |Image(d.phase.resource)|)
      && (d.phase.stem, d.phase.resource) in d.serialized
  }

  ghost predicate Inv(d: Disk) { FilesMatch(d) && TmpMatches(d) }

  lemma RenameKeepsInv(d: Disk)
    requires Inv(d) && Enabled(d, Rename)
    ensures Inv(Next(d, Rename))
  {
    var e, stem := Next(d, Rename), d.phase.stem;
    forall s ensures FileMatches(e, s) {
      assert FileMatches(d, s);
      NamesDoNotCollide(s, stem);
      NamesDoNotCollide(stem, s);
      hide BinFile, TmpFile, Image;
    }
  }

  /** Temporary files do not matter to the resource files. */
  lemma TmpIsApart(d: Disk, e: Disk, stem: string, content: Bytes)
    requires FilesMatch(d) && e.files == d.files[TmpFile(stem) := content]
    requires e.committed == d.committed && d.serialized <= e.serialized
    ensures FilesMatch(e)
  {
    forall s ensures FileMatches(e, s) {
      assert FileMatches(d, s);
      NamesDoNotCollide(stem, s);
      hide BinFile, TmpFile, Holds;
    }
  }

  lemma WritingKeepsInv(d: Disk, a: Action)
    requires Inv(d) && Enabled(d, a) && (a.Open? || a.Write? || a.WriteFails?)
    ensures Inv(Next(d, a))
  {
    var e := Next(d, a);
    hide FilesMatch;
    TmpIsApart(d, e, e.phase.stem, e.files[TmpFile(e.phase.stem)]);
  }

  lemma RemoveKeepsInv(d: Disk, stem: string)
    requires Inv(d) && Enabled(d, Remove(stem))
    ensures Inv(Next(d, Remove(stem)))
  {
    var e := Next(d, Remove(stem));
    forall s ensures FileMatches(e, s) {
      assert FileMatches(d, s);
      NamesDoNotCollide(s, stem);
      NamesDoNotCollide(stem, s);
      hide BinFile, TmpFile, Holds;
    }
  }

  lemma StepKeepsInv(d: Disk, a: Action)
    requires Inv(d) && Enabled(d, a)
    ensures Inv(Next(d, a))
  {
    match a
    case Open(_, _) => WritingKeepsInv(d, a);
    case Write(_) => WritingKeepsInv(d, a);
    case WriteFails(_) => WritingKeepsInv(d, a);
    case Rename => RenameKeepsInv(d);
    case Remove(stem) => RemoveKeepsInv(d, stem);
    case _ =>   // the phase alone changes
      forall stem ensures FileMatches(Next(d, a), stem) {
        assert FileMatches(d, stem);
      }
  }

  lemma BlankInv(d: Disk)
    requires Blank(d)
    ensures Inv(d)
  {
    forall stem ensures FileMatches(d, stem) {
      assert BinFile(stem)[|BinFile(stem)| - 4..] == RESOURCE_EXT;
    }
  }

  lemma {:induction false} RunKeepsInv(d: Disk, acts: seq<Action>, e: Disk)
    requires Inv(d) && Reaches(d, acts, e)
    ensures Inv(e)
    decreases |acts|
  {
    if acts != [] {
      StepKeepsInv(d, acts[0]);
      RunKeepsInv(Next(d, acts[0]), acts[1..], e);
    }
  }

  /**
   Crash consistency: wherever a run stops, crashes and restarts on the way included, a resource
   file is there exactly for what was renamed into place and not removed since.  It is the complete
   image of a resource once serialized under that name exactly when no write of it failed, and a
   proper prefix of that image otherwise.
   */
  lemma CrashConsistent(d: Disk, acts: seq<Action>, e: Disk, stem: string)
    requires Blank(d) && Reaches(d, acts, e)
    ensures BinFile(stem) in e.files <==> stem in e.committed
    ensures stem in e.committed ==>
      var file, c := e.files[BinFile(stem)], e.committed[stem];
      && (stem, c.resource) in e.serialized
      && (file == Image(c.resource) <==> !c.failed)
      && (c.failed ==> file < Image(c.resource))
  {
    hide *;
    BlankInv(d);
    RunKeepsInv(d, acts, e);
    FileOf(e, stem);
    if stem in e.committed { CompleteIffNoneFailed(e.files[BinFile(stem)], e.committed[stem]); }
  }

  lemma FileOf(d: Disk, stem: string)
    requires Inv(d)
    ensures BinFile(stem) in d.files <==> stem in d.committed
    ensures stem in d.committed ==>
      Holds(d.files[BinFile(stem)], d.committed[stem]) && (stem, d.committed[stem].resource) in d.serialized
  {
    assert FileMatches(d, stem);
  }

  /** No write under way or committed has failed. */
  ghost predicate Unharmed(d: Disk) {
    (d.phase.Writing? ==> !d.phase.bad) && forall stem :: stem in d.committed ==> !d.committed[stem].failed
  }

  /** As long as no write fails, every resource file is complete, whatever else happens. */
  lemma {:induction false} CompleteWithoutFailures(d: Disk, acts: seq<Action>, e: Disk, stem: string)
    requires Inv(d) && Unharmed(d) && Reaches(d, acts, e)
    requires forall a :: a in acts ==> !a.WriteFails?
    ensures stem in e.committed ==>
      BinFile(stem) in e.files && e.files[BinFile(stem)] == Image(e.committed[stem].resource)
    decreases |acts|
  {
    if acts == [] {
      FileOf(d, stem);
      if stem in d.committed { CompleteIffNoneFailed(d.files[BinFile(stem)], d.committed[stem]); }
    } else {
      hide Inv, BinFile, TmpFile, Image;
      assert acts[0] in acts;
      StepKeepsInv(d, acts[0]);
      CompleteWithoutFailures(Next(d, acts[0]), acts[1..], e, stem);
    }
  }

  /**
   A failed write is not noticed: on any idle disk, every proper prefix of a resource's image can
   end up in place as the resource file, and `Serialize` has no reason to throw.
   */
  lemma FailedWriteIsCommitted(d: Disk, stem: string, r: Resource, k: nat) returns (acts: seq<Action>, e: Disk)
    requires d.phase.Idle? && k < |Image(r)|
    ensures Reaches(d, acts, e) && e.phase.Idle?
    ensures BinFile(stem) in e.files && e.files[BinFile(stem)] == Image(r)[..k]
    ensures stem in e.committed && e.committed[stem] == Commit(r, k, true)
  {
    var d1 := Next(d, Open(stem, r));
    var d2 := Next(d1, WriteFails(k));
    e := Next(d2, Rename);
    acts := [Open(stem, r), WriteFails(k), Rename];
    assert acts[1..] == [WriteFails(k), Rename] && acts[1..][1..] == [Rename] && [Rename][1..] == [];
    assert Reaches(d2, [Rename], e) && Reaches(d1, acts[1..], e);
  }

  /** What may happen to a resource file while something else is going on. */
  predicate Leaves(a: Action, d: Disk, stem: string) {
    match a
    case Rename => d.phase.Writing? && d.phase.stem != stem
    case Remove(other) => other != stem
    case _ => true
  }

  /** Until its own next rename or removal, a resource file stays as it is, through writes and crashes. */
  lemma FileIsDurable(d: Disk, a: Action, stem: string)
    requires Inv(d) && Enabled(d, a) && Leaves(a, d, stem)
    ensures stem in Next(d, a).committed <==> stem in d.committed
    ensures stem in d.committed ==>
      && Next(d, a).committed[stem] == d.committed[stem]
      && BinFile(stem) in d.files && BinFile(stem) in Next(d, a).files
      && Next(d, a).files[BinFile(stem)] == d.files[BinFile(stem)]
  {
    assert FileMatches(d, stem);
    match a {
      case Open(other, _) => NamesDoNotCollide(other, stem);
      case Remove(other) => NamesDoNotCollide(other, stem);
      case Crash =>
      case _ => NamesDoNotCollide(d.phase.stem, stem);
    }
    hide BinFile, TmpFile, Image, Holds, FilesMatch;
  }

  lemma {:induction false} Extend(d: Disk, acts: seq<Action>, e: Disk, a: Action)
    requires Reaches(d, acts, e) && Enabled(e, a)
    ensures Reaches(d, acts + [a], Next(e, a))
    decreases |acts|
  {
    hide Next, Enabled;
    if acts == [] {
      assert acts + [a] == [a] && [a][1..] == [];
    } else {
      assert (acts + [a])[1..] == acts[1..] + [a];
      Extend(Next(d, acts[0]), acts[1..], e, a);
    }
  }
}
