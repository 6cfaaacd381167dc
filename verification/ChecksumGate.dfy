/**
 Skipping a write when the checksum has not changed, compared with always writing: runs of edits
 and successful `Serialize` calls of one resource under one key and path.
 */
module ChecksumGate {
  import opened Wrappers
  import opened ResourceImage

  /** One resource and its file. */
  datatype State = State(
    current: Resource,
    checkSum: int,
    dirty: bool,
    stored: Option<Resource>,   // what the file holds, if it exists
    wrote: bool)                // history: whether the last Serialize call wrote the file

  datatype Action =
    | Edit(next: Resource)
    | Serialize

  /** The type of the elements and the checksum function. */
  datatype Kind = Kind(width: nat, crc: Bytes -> int)

  function Data(r: Resource): Bytes { Flat(r.cells) }

  /** An edit may set a dimension that is still zero, but not change one that is not. */
  predicate Enabled(k: Kind, s: State, a: Action) {
    a.Edit? ==>
      && WellFormed(a.next, k.width)
      && (s.current.M != 0 ==> a.next.M == s.current.M)
      && (s.current.N != 0 ==> a.next.N == s.current.N)
  }

  function Next(k: Kind, s: State, a: Action): State {
    match a
    case Edit(r) => s.(current := r)
    case Serialize =>
      var check := k.crc(Data(s.current));
      if check == s.checkSum then s.(dirty := false, wrote := false)
      else s.(checkSum := check, dirty := true, stored := Some(s.current), wrote := true)
  }

  const INIT := State(Resource(0, 0, []), -1, true, None, false)

  ghost predicate Reaches(k: Kind, s: State, acts: seq<Action>, t: State)
    decreases |acts|
  {
    if acts == [] then s == t
    else Enabled(k, s, acts[0]) && Reaches(k, Next(k, s, acts[0]), acts[1..], t)
  }

  ghost predicate Inv(k: Kind, s: State) {
    && WellFormed(s.current, k.width)
    && (s.stored.None? ==> s.checkSum == -1)
    && (s.stored.Some? ==>
          && WellFormed(s.stored.value, k.width)
          && k.crc(Data(s.stored.value)) == s.checkSum
          && (s.stored.value.M != 0 ==> s.current.M == s.stored.value.M)
          && (s.stored.value.N != 0 ==> s.current.N == s.stored.value.N))
  }

  lemma {:induction false} RunKeepsInv(k: Kind, s: State, acts: seq<Action>, t: State)
    requires Inv(k, s) && Reaches(k, s, acts, t)
    ensures Inv(k, t)
    decreases |acts|
  {
    if acts != [] {
      RunKeepsInv(k, Next(k, s, acts[0]), acts[1..], t);
    }
  }

  /** What a run ending in a `Serialize` call would leave in the file if every call wrote. */
  function AlwaysWrite(s: State): Option<Resource> { Some(s.current) }

  /**
   After every `Serialize` the file holds data with the checksum of the current data, except
   exactly in the case that nothing was ever written and the current checksum is the initial -1.
   The dirty flag says whether that call wrote.
   */
  lemma GateKeepsChecksum(k: Kind, acts: seq<Action>, s: State)
    requires 0 < k.width && Reaches(k, INIT, acts, s)
    ensures var t := Next(k, s, Serialize);
      && t.dirty == t.wrote
      && (t.dirty <==> k.crc(Data(s.current)) != if s.stored.None? then -1 else k.crc(Data(s.stored.value)))
      && t.stored == (if t.dirty then Some(s.current) else s.stored)
      && (t.stored.None? <==> s.stored.None? && k.crc(Data(s.current)) == -1)
      && (t.stored.Some? ==> k.crc(Data(t.stored.value)) == k.crc(Data(s.current)))
  {
    RunKeepsInv(k, INIT, acts, s);
  }

  /** Two resources with data differ in their data or not at all; without data the dimensions decide. */
  predicate SameWithoutData(stored: Resource, current: Resource) {
    stored.cells == [] && current.cells == [] ==> stored.M == current.M && stored.N == current.N
  }

  /**
   If the checksum tells the stored data from the current data, a `Serialize` leaves the file that
   writing every time would leave exactly when: before the first write, the checksum is not the
   initial -1; after it, the dimensions have not changed between two versions without data.
   */
  lemma GateAgreesIff(k: Kind, acts: seq<Action>, s: State)
    requires 0 < k.width && Reaches(k, INIT, acts, s)
    requires s.stored.Some? && k.crc(Data(s.stored.value)) == k.crc(Data(s.current)) ==>
      Data(s.stored.value) == Data(s.current)
    ensures Next(k, s, Serialize).stored == AlwaysWrite(s) <==>
      if s.stored.None? then k.crc(Data(s.current)) != -1 else SameWithoutData(s.stored.value, s.current)
  {
    RunKeepsInv(k, INIT, acts, s);
    if s.stored.Some? {
      var was, now := s.stored.value, s.current;
      if k.crc(Data(now)) == s.checkSum {
        SameDataSameCells(was, now, k.width);
        if now.cells != [] {
          assert was.M != 0 && was.N != 0 by { NoElements(was.M, was.N); }
        }
      }
    }
  }

  lemma SameDataSameCells(was: Resource, now: Resource, width: nat)
    requires WellFormed(was, width) && WellFormed(now, width) && Data(was) == Data(now)
    ensures was.cells == now.cells
  {
    FlatLength(was.cells, width);
    FlatLength(now.cells, width);
    SameCount(|was.cells|, |now.cells|, width);
    forall i | 0 <= i < |now.cells| ensures was.cells[i] == now.cells[i] {
      FlatAt(was.cells, width, i);
      FlatAt(now.cells, width, i);
    }
  }

  lemma NoElements(M: nat, N: nat)
    ensures M == 0 || N == 0 ==> M * N == 0
  {
  }

  lemma SameCount(a: nat, b: nat, width: nat)
    requires 0 < width && a * width == b * width
    ensures a == b
  {
    OrderTimes(if a < b then a else b, if a < b then b else a, width);
  }

  /** Without data the gate misses a change of dimensions: rows without columns are never written. */
  lemma GateMissesEmptyDimensions(k: Kind)
    requires 0 < k.width && k.crc([]) != -1
    ensures exists acts, s ::
      Reaches(k, INIT, acts, s) && Next(k, s, Serialize).stored != AlwaysWrite(s)
  {
    var rows := Resource(3, 0, []);
    var acts := [Serialize, Edit(rows)];
    var s1 := Next(k, INIT, Serialize);
    var s2 := Next(k, s1, Edit(rows));
    assert acts[1..] == [Edit(rows)] && [Edit(rows)][1..] == [];
    assert Reaches(k, s2, [], s2);
    assert Reaches(k, s1, [Edit(rows)], s2);
    assert Reaches(k, INIT, acts, s2);
  }

  /** A checksum equal to the initial -1 keeps a first version from ever being written. */
  lemma GateMissesInitialChecksum(k: Kind, r: Resource)
    requires WellFormed(r, k.width) && k.crc(Data(r)) == -1
    ensures Reaches(k, INIT, [Edit(r)], INIT.(current := r))
    ensures Next(k, INIT.(current := r), Serialize).stored == None
  {
    assert [Edit(r)][1..] == [];
  }
}
