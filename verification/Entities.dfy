/** Entities as objects: a tree of them, member maps, and aggregation. */
module Entities {
  import opened Wrappers
  import opened EntityValues

  /** One entry of `membersMap_`; the pointer may be null. */
  datatype Slot = Slot(key: Key, obj: Entity?)

  class Entity {
    var key: Key
    var payload: Payload                 // dynamic type and that type's own fields
    var members: seq<Slot>               // membersMap_, in key order
    // keyToEntityConstructorMap_: the T each key was aggregated with; None is an empty function,
    // which a lookup of a missing key leaves behind
    var constructors: map<Key, Option<string>>

    ghost var Repr: set<Entity>          // the tree rooted here

    /** The objects below form a tree, and every member map is in key order. */
    ghost predicate Valid()
      reads this`members, this`Repr, Repr`members, Repr`Repr
      decreases Repr, 1
    {
      this in Repr && ValidSlots(members, Repr - {this})
    }

    /** The tree as a value. */
    ghost function View(): EntityTree
      requires Valid()
      reads this`key, this`payload, this`members, this`Repr, Repr`key, Repr`payload, Repr`members, Repr`Repr
      decreases Repr, 1
    {
      EntityTree(key, payload, SlotViews(members, Repr - {this}))
    }

    /** The member in slot `i`, the root of a smaller tree. */
    ghost function At(i: nat): (m: Entity)
      requires Valid() && i < |members| && members[i].obj != null
      reads this`members, this`Repr, Repr`members, Repr`Repr
      ensures m == members[i].obj && m in Repr && m.Repr < Repr && this !in m.Repr && m.Valid()
    {
      assert ValidSlots(members, Repr - {this});
      assert this in Repr;
      members[i].obj
    }

    constructor (key: Key, payload: Payload)
      ensures Valid() && Repr == {this} && constructors == map[]
      ensures View() == EntityTree(key, payload, []) && members == []
    {
      this.key, this.payload, members, constructors := key, payload, [], map[];
      Repr := {this};
    }

    method GetKey() returns (r: Result<Key>)
      ensures r == if key == "" then Throw("runtime_error") else Ok(key)
    {
      r := if key == "" then Throw("runtime_error") else Ok(key);
    }

    /** `AggregateMember(key)`: a placeholder, to be loaded on demand. */
    method AggregatePlaceholder(k: Key) returns (ok: bool)
      requires Valid()
      modifies this`members
      ensures Valid() && ok == !InUse(old(View()).members, k)
      ensures View() == if ok then old(View()).(members := Insert(old(View()).members, Placeholder(k))) else old(View())
    {
      hide SlotInUse, InUse, InsertSlot, Insert, ValidSlots, SlotViews;
      ghost var below := Repr - {this};
      assert ValidSlots(members, below);
      SlotViewsAt(members, below);
      ok := !SlotInUse(members, k);
      if ok {
        AddSlot(members, below, Slot(k, null));
        assert below + Brings(Slot(k, null)) == below;
        members := InsertSlot(members, Slot(k, null));
      }
    }

    /** `RemoveMember(key)`; the key's constructor stays. */
    method RemoveMember(k: Key) returns (ok: bool)
      requires Valid()
      modifies this`members
      ensures Valid() && ok == SlotInUse(old(members), k)
      ensures !ok ==> members == old(members) && View() == old(View())
      ensures |old(View()).members| == |old(members)|
      ensures forall i :: 0 <= i < |old(members)| && old(members)[i].key == k ==>
        && members == RemoveAt(old(members), i)
        && View() == old(View()).(members := RemoveAt(old(View()).members, i))
    {
      ghost var below := Repr - {this};
      ghost var v := SlotViews(members, below);
      var i := FindSlot(members, k);
      if i == |members| {
        return false;
      }
      UniqueSlot(members, i) by { assert ValidSlots(members, below); }
      DropSlot(members, below, i);
      members := members[..i] + members[i + 1..];
      ok := true;
    }

    /** `RegisterEntityConstructor<T>`: `insert` replaces nothing, an empty function included. */
    method RegisterEntityConstructor(k: Key, T: string)
      modifies this`constructors
      ensures constructors == if k in old(constructors) then old(constructors) else old(constructors)[k := Some(T)]
    {
      if k !in constructors {
        constructors := constructors[k := Some(T)];
      }
    }

    /** `AggregateMember<T>(sharedObj)`, of an object whose tree is apart from this one. */
    method AggregateMember(obj: Entity?, T: string) returns (r: Result<()>)
      requires Valid() && (obj != null ==> obj.Valid() && Repr !! obj.Repr)
      modifies this`members, this`constructors, this`Repr
      ensures Valid()
      ensures r.Ok? <==> obj != null && obj.key != "" && !InUse(old(View()).members, obj.key)
      ensures r.Ok? ==> members == InsertSlot(old(members), Slot(obj.key, obj)) && Repr == old(Repr) + obj.Repr
      ensures r.Ok? ==> View() == old(View()).(members := Insert(old(View()).members, Loaded(obj.key, obj.View())))
      ensures r.Ok? ==>
        var was := old(constructors);
        constructors == if obj.key in was then was else was[obj.key := Some(T)]
      ensures r.Throw? ==> unchanged(this)
    {
      hide SlotInUse, InUse, InsertSlot, Insert, ValidSlots, SlotViews;
      if obj == null {
        return Throw("runtime_error");
      }
      ghost var below := Repr - {this};
      assert ValidSlots(members, below);
      SlotViewsAt(members, below);
      var k := obj.GetKey();
      if k.Throw? {
        return Throw("runtime_error");
      }
      if SlotInUse(members, k.value) {
        return Throw("runtime_error");
      }
      var s := Slot(k.value, obj);
      AddSlot(members, below, s);
      members := InsertSlot(members, s);
      Repr := Repr + obj.Repr;
      assert Repr - {this} == below + Brings(s);
      RegisterEntityConstructor(k.value, T);
      return Ok(());
    }
  }

  /** `membersMap_.find(key)`: the position of the key, or the number of slots. */
  method FindSlot(slots: seq<Slot>, key: Key) returns (i: nat)
    ensures i <= |slots| && (i < |slots| ==> slots[i].key == key)
    ensures i == |slots| <==> !SlotInUse(slots, key)
  {
    i := 0;
    while i < |slots| && slots[i].key != key
      invariant i <= |slots| && forall j :: 0 <= j < i ==> slots[j].key != key
    {
      i := i + 1;
    }
  }

  lemma UniqueSlot(slots: seq<Slot>, i: nat)
    requires SortedSlots(slots) && i < |slots|
    ensures forall j :: 0 <= j < |slots| && slots[j].key == slots[i].key ==> j == i
  {
    forall j | 0 <= j < |slots| && j != i ensures slots[j].key != slots[i].key {
      if j < i {
        LessIsStrict(slots[j].key, slots[i].key);
      } else {
        LessIsStrict(slots[i].key, slots[j].key);
      }
    }
  }

  // ---- Member maps ----

  function RemoveAt<T>(s: seq<T>, i: nat): (r: seq<T>)
    requires i < |s|
    ensures |r| == |s| - 1 && forall j :: 0 <= j < |r| ==> r[j] == if j < i then s[j] else s[j + 1]
  {
    s[..i] + s[i + 1..]
  }

  lemma DropSlot(slots: seq<Slot>, below: set<Entity>, i: nat)
    requires ValidSlots(slots, below) && i < |slots|
    ensures ValidSlots(RemoveAt(slots, i), below)
    ensures SlotViews(RemoveAt(slots, i), below) == RemoveAt(SlotViews(slots, below), i)
  {
    var r := RemoveAt(slots, i);
    assert ValidSlots(r, below) by {
      hide RemoveAt, FitsIn, Apart, Less;
    }
    hide ValidSlots, SlotViews, SlotView, RemoveAt;
    SlotViewsEach(slots, below);
    SlotViewsEach(r, below);
  }

  predicate SortedSlots(slots: seq<Slot>) {
    forall i, j :: 0 <= i < j < |slots| ==> Less(slots[i].key, slots[j].key)
  }

  /** The members that the slots hold are trees within `below`, apart from one another. */
  ghost predicate ValidSlots(slots: seq<Slot>, below: set<Entity>)
    reads below`members, below`Repr
    decreases below, 3
  {
    && SortedSlots(slots)
    && (forall i :: 0 <= i < |slots| ==> FitsIn(slots[i], below))
    && (forall i, j :: 0 <= i < j < |slots| ==> Apart(slots[i], slots[j]))
  }

  ghost predicate FitsIn(s: Slot, below: set<Entity>)
    reads below`members, below`Repr
    decreases below, 2
  {
    s.obj != null ==>
      var m: Entity := s.obj;
      m in below && m.Repr <= below && m.Valid()
  }

  ghost predicate Apart(a: Slot, b: Slot)
    reads Held(a)`Repr, Held(b)`Repr
  {
    a.obj != null && b.obj != null ==> a.obj.Repr !! b.obj.Repr
  }

  function Held(s: Slot): set<Entity> {
    if s.obj == null then {} else {s.obj}
  }

  /** The objects that come with a slot. */
  ghost function Brings(s: Slot): set<Entity>
    reads Held(s)`Repr
  {
    if s.obj == null then {} else s.obj.Repr
  }

  ghost function SlotView(s: Slot): (m: Member)
    requires s.obj != null ==> Brings(s) == s.obj.Repr && s.obj.Valid()
    reads Held(s)`key, Held(s)`payload, Held(s)`members, Held(s)`Repr
    reads Brings(s)`key, Brings(s)`payload, Brings(s)`members, Brings(s)`Repr
    ensures m.key == s.key
    decreases Brings(s), 2
  {
    if s.obj == null then Placeholder(s.key) else Loaded(s.key, s.obj.View())
  }

  ghost function SlotViews(slots: seq<Slot>, below: set<Entity>): (v: seq<Member>)
    requires ValidSlots(slots, below)
    reads below`key, below`payload, below`members, below`Repr
    ensures |v| == |slots|
    decreases below, 4, |slots|
  {
    if slots == [] then []
    else
      var n := |slots| - 1;
      assert ValidSlots(slots[..n], below);
      assert FitsIn(slots[n], below);
      SlotViews(slots[..n], below) + [SlotView(slots[n])]
  }

  predicate SlotInUse(slots: seq<Slot>, key: Key) {
    exists i :: 0 <= i < |slots| && slots[i].key == key
  }

  /** The keys alone, as a member map of placeholders. */
  function Keys(slots: seq<Slot>): (r: seq<Member>)
    ensures |r| == |slots| && forall i :: 0 <= i < |r| ==> r[i] == Placeholder(slots[i].key)
  {
    seq(|slots|, i requires 0 <= i < |slots| => Placeholder(slots[i].key))
  }

  function InsertSlot(slots: seq<Slot>, s: Slot): seq<Slot> {
    var i := Position(Keys(slots), s.key);
    slots[..i] + [s] + slots[i..]
  }

  lemma {:induction false} SlotViewsEach(slots: seq<Slot>, below: set<Entity>)
    requires ValidSlots(slots, below)
    ensures forall i :: 0 <= i < |slots| ==> FitsIn(slots[i], below) && SlotViews(slots, below)[i] == SlotView(slots[i])
    decreases |slots|
  {
    if slots != [] {
      var n := |slots| - 1;
      assert ValidSlots(slots[..n], below);
      SlotViewsEach(slots[..n], below);
      assert forall i :: 0 <= i < n ==> slots[..n][i] == slots[i];
    }
  }

  /** Slots and their views have the same keys in the same places. */
  lemma SlotViewsAt(slots: seq<Slot>, below: set<Entity>)
    requires ValidSlots(slots, below)
    ensures var v := SlotViews(slots, below);
      && |v| == |slots| && Sorted(v)
      && (forall i :: 0 <= i < |slots| ==>
            FitsIn(slots[i], below) && v[i] == SlotView(slots[i]) && v[i].key == slots[i].key)
      && (forall key :: InUse(v, key) <==> SlotInUse(slots, key))
  {
    SlotViewsEach(slots, below);
    var v := SlotViews(slots, below);
    forall key ensures InUse(v, key) <==> SlotInUse(slots, key) {
      if i :| 0 <= i < |slots| && slots[i].key == key { assert v[i].key == key; }
      if i :| 0 <= i < |v| && v[i].key == key { assert slots[i].key == key; }
    }
  }

  lemma {:induction false} SamePosition(a: seq<Member>, b: seq<Member>, key: Key)
    requires |a| == |b| && forall i :: 0 <= i < |a| ==> a[i].key == b[i].key
    ensures Position(a, key) == Position(b, key)
  {
    if a != [] && Less(a[0].key, key) { SamePosition(a[1..], b[1..], key); }
  }

  lemma InsertedIsSorted(slots: seq<Slot>, s: Slot)
    requires SortedSlots(slots) && !SlotInUse(slots, s.key)
    ensures SortedSlots(InsertSlot(slots, s))
  {
    var r := InsertSlot(slots, s);
    forall i | 0 <= i < |slots| ensures Keys(slots)[i].key != s.key {
      assert slots[i].key != s.key;
    }
    InsertKeepsSorted(Keys(slots), Placeholder(s.key));
    assert Keys(r) == Insert(Keys(slots), Placeholder(s.key));
    forall i, j | 0 <= i < j < |r| ensures Less(r[i].key, r[j].key) {
      assert Less(Keys(r)[i].key, Keys(r)[j].key);
    }
  }

  /** Where the slots of a member map end up when one is inserted. */
  lemma InsertSlotAt(slots: seq<Slot>, s: Slot) returns (p: nat, r: seq<Slot>)
    ensures p == Position(Keys(slots), s.key) && p <= |slots| && r == InsertSlot(slots, s)
    ensures r == slots[..p] + [s] + slots[p..]
  {
    p, r := Position(Keys(slots), s.key), InsertSlot(slots, s);
  }

  ghost predicate CanAdd(slots: seq<Slot>, below: set<Entity>, s: Slot)
    reads below`members, below`Repr, Held(s)`members, Held(s)`Repr, Brings(s)`members, Brings(s)`Repr
  {
    && ValidSlots(slots, below) && !SlotInUse(slots, s.key)
    && (s.obj != null ==> s.obj.Valid() && s.obj.Repr !! below)
  }

  lemma NewSlotFits(slots: seq<Slot>, below: set<Entity>, s: Slot)
    requires CanAdd(slots, below, s)
    ensures FitsIn(s, below + Brings(s)) && SortedSlots(InsertSlot(slots, s))
    ensures forall i :: 0 <= i < |slots| ==>
      FitsIn(slots[i], below + Brings(s)) && Apart(slots[i], s) && Apart(s, slots[i])
    ensures forall i, j :: 0 <= i < j < |slots| ==> Apart(slots[i], slots[j])
  {
    hide InsertSlot, SlotInUse;
    InsertedIsSorted(slots, s);
    forall i | 0 <= i < |slots|
      ensures FitsIn(slots[i], below + Brings(s)) && Apart(slots[i], s) && Apart(s, slots[i])
    {
      assert FitsIn(slots[i], below);
    }
  }

  /** Slots that fit and are apart, with one more among them. */
  lemma SplicedIsValid(slots: seq<Slot>, s: Slot, p: nat, r: seq<Slot>, below: set<Entity>)
    requires p <= |slots| && r == slots[..p] + [s] + slots[p..] && SortedSlots(r) && FitsIn(s, below)
    requires forall i :: 0 <= i < |slots| ==> FitsIn(slots[i], below) && Apart(slots[i], s) && Apart(s, slots[i])
    requires forall i, j :: 0 <= i < j < |slots| ==> Apart(slots[i], slots[j])
    ensures ValidSlots(r, below)
  {
    hide SortedSlots, FitsIn, Apart;
    forall i | 0 <= i < |r| ensures FitsIn(r[i], below) {
      Spliced(slots, s, p, i);
    }
    forall i, j | 0 <= i < j < |r| ensures Apart(r[i], r[j]) {
      Spliced(slots, s, p, i);
      Spliced(slots, s, p, j);
    }
  }

  lemma Spliced<T>(a: seq<T>, x: T, p: nat, i: nat)
    requires p <= |a| && i <= |a|
    ensures (a[..p] + [x] + a[p..])[i] == if i < p then a[i] else if i == p then x else a[i - 1]
  {
  }

  lemma AddSlotValid(slots: seq<Slot>, below: set<Entity>, s: Slot)
    requires CanAdd(slots, below, s)
    ensures ValidSlots(InsertSlot(slots, s), below + Brings(s))
  {
    hide ValidSlots, SlotInUse, FitsIn, Apart, SortedSlots;
    NewSlotFits(slots, below, s);
    SplicedIsValid(slots, s, Position(Keys(slots), s.key), InsertSlot(slots, s), below + Brings(s));
  }

  /** Where the members of a map end up when one is inserted. */
  lemma InsertAt(members: seq<Member>, m: Member) returns (p: nat, r: seq<Member>)
    ensures p == Position(members, m.key) && p <= |members| && r == Insert(members, m)
    ensures r == members[..p] + [m] + members[p..]
  {
    p, r := Position(members, m.key), Insert(members, m);
  }

  /** A new slot keeps the tree shape, and inserts the member's view into the view. */
  lemma AddSlot(slots: seq<Slot>, below: set<Entity>, s: Slot)
    requires CanAdd(slots, below, s)
    ensures ValidSlots(InsertSlot(slots, s), below + Brings(s))
    ensures SlotViews(InsertSlot(slots, s), below + Brings(s)) == Insert(SlotViews(slots, below), SlotView(s))
  {
    hide InsertSlot, Insert, ValidSlots, SlotViews, SlotView, SlotInUse, Position, Keys;
    AddSlotValid(slots, below, s);
    var p, r := InsertSlotAt(slots, s);
    var v := SlotViews(slots, below);
    SlotViewsEach(slots, below);
    SamePosition(Keys(slots), v, s.key);
    var q, inserted := InsertAt(v, SlotView(s));
    var w := SlotViews(r, below + Brings(s));
    SlotViewsEach(r, below + Brings(s));
    forall i | 0 <= i < |r| ensures w[i] == inserted[i] {
      assert w[i] == SlotView(r[i]);
      if i < p {
        assert r[i] == slots[i] && v[i] == SlotView(slots[i]);
      } else if i > p {
        assert r[i] == slots[i - 1] && v[i - 1] == SlotView(slots[i - 1]);
      }
    }
    assert w == inserted;
  }
}
