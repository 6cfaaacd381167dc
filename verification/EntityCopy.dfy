/** Copy construction and copy assignment of entities. */
module EntityCopy {
  import opened Wrappers
  import opened EntityValues
  import opened Entities

  /** The type every entity derives from; a copy made as this type has lost the derived fields. */
  const BASE := "Entity"

  /** `dynamic_cast<const T&>` succeeds on the object's own type and on the common base. */
  predicate Fits(T: string, kind: string) { T == kind || T == BASE }

  /** Calling the function under `key` copies an object of type `kind`; an empty function throws. */
  predicate HasConstructor(constructors: map<Key, Option<string>>, key: Key, kind: string) {
    key in constructors && constructors[key].Some? && Fits(constructors[key].value, kind)
  }

  /** An object and the key under which a failed lookup enters an empty function, if there is one. */
  type Mark = Option<(Entity, Key)>

  /** The constructors of an object after that. */
  function After(mark: Mark, e: Entity, was: map<Key, Option<string>>): map<Key, Option<string>> {
    if mark.Some? && mark.value.0 == e then was[mark.value.1 := None] else was
  }

  function CopiedAs(T: string, p: Payload): Payload {
    if T == p.kind then p else Payload(BASE, "")
  }

  /** No member pointer in the tree is null; copying dereferences every one of them. */
  ghost predicate Solid(e: Entity)
    requires e.Valid()
    reads e, e.Repr
    decreases e.Repr
  {
    forall i :: 0 <= i < |e.members| ==> e.members[i].obj != null && Solid(e.At(i))
  }

  /** Every member has a key, and a constructor registered under it that can take the member. */
  ghost predicate Copyable(e: Entity)
    requires e.Valid()
    reads e, e.Repr
    decreases e.Repr
  {
    forall i :: 0 <= i < |e.members| ==> MemberCopyable(e, i)
  }

  ghost predicate MemberCopyable(e: Entity, i: nat)
    requires e.Valid() && i < |e.members|
    reads e, e.Repr
    decreases e.Repr, 0
  {
    e.members[i].obj != null &&
    var m := e.At(i);
    m.key != "" && HasConstructor(e.constructors, m.key, m.payload.kind) && Copyable(m)
  }

  /** Every member, at any depth, is there, has a key, and was aggregated under it as its own type or the base. */
  ghost predicate Aggregated(e: Entity)
    requires e.Valid()
    reads e, e.Repr
    decreases e.Repr
  {
    forall i :: 0 <= i < |e.members| ==> MemberAggregated(e, i)
  }

  ghost predicate MemberAggregated(e: Entity, i: nat)
    requires e.Valid() && i < |e.members|
    reads e, e.Repr
    decreases e.Repr, 0
  {
    e.members[i].obj != null &&
    var m := e.At(i);
    && m.key != "" && m.key in e.constructors && Aggregated(m)
    && (e.constructors[m.key] == Some(m.payload.kind) || e.constructors[m.key] == Some("Entity"))
  }

  /** Such entities can be copied, and no others: a member aggregated as the base is copied too, sliced. */
  lemma {:induction false} CopyableIffAggregated(e: Entity)
    requires e.Valid()
    ensures Copyable(e) <==> Aggregated(e)
    decreases e.Repr
  {
    forall i | 0 <= i < |e.members| ensures MemberCopyable(e, i) <==> MemberAggregated(e, i) {
      if e.members[i].obj != null { CopyableIffAggregated(e.At(i)); }
    }
  }

  /**
   What a copy of `e` marks: the members are copied in order, up to the first that cannot be.  If
   no constructor is found under its key, that is marked here; if one is found that takes the
   member, whatever the copy of the member marks; otherwise nothing.
   */
  ghost function MarkOf(e: Entity): Mark
    requires e.Valid()
    reads e, e.Repr
  {
    MarkFrom(e, 0)
  }

  ghost function MarkFrom(e: Entity, i: nat): Mark
    requires e.Valid() && i <= |e.members|
    reads e, e.Repr
    decreases e.Repr, 1, |e.members| - i
  {
    if i == |e.members| then None
    else if MemberCopyable(e, i) then MarkFrom(e, i + 1)
    else MemberMark(e, i)
  }

  ghost function MemberMark(e: Entity, i: nat): Mark
    requires e.Valid() && i < |e.members|
    reads e, e.Repr
    decreases e.Repr, 0
  {
    if e.members[i].obj == null || e.At(i).key == "" then None
    else
      var m := e.At(i);
      if m.key !in e.constructors then Some((e, m.key))
      else if HasConstructor(e.constructors, m.key, m.payload.kind) then MarkFrom(m, 0)
      else None
  }

  /** A copy of `e` leaves an empty constructor behind. */
  ghost predicate LeavesMark(e: Entity)
    requires e.Valid()
    reads e, e.Repr
  {
    MarkOf(e).Some?
  }

  /** It does so at the member where copying stops, or inside it, and never twice. */
  ghost predicate MarksAt(e: Entity, i: nat)
    requires e.Valid() && i < |e.members|
    reads e, e.Repr
  {
    && (forall j :: 0 <= j < i ==> MemberCopyable(e, j))
    && e.members[i].obj != null && e.At(i).key != ""
    && var m := e.At(i);
       || m.key !in e.constructors
       || (HasConstructor(e.constructors, m.key, m.payload.kind) && LeavesMark(m))
  }

  lemma LeavesMarkIff(e: Entity)
    requires e.Valid()
    ensures LeavesMark(e) <==> exists i :: 0 <= i < |e.members| && MarksAt(e, i)
  {
    if LeavesMark(e) {
      var i := Stops(e, 0);
      assert MarksAt(e, i);
    }
    forall i | 0 <= i < |e.members| && MarksAt(e, i) ensures LeavesMark(e) {
      var m := e.At(i);
      MarkIsMissing(m, 0);
      MarkSkips(e, i);
    }
  }

  /** Where copying stops, if it leaves a mark. */
  lemma {:induction false} Stops(e: Entity, from: nat) returns (i: nat)
    requires e.Valid() && from <= |e.members| && MarkFrom(e, from).Some?
    ensures from <= i < |e.members| && !MemberCopyable(e, i) && MemberMark(e, i) == MarkFrom(e, from)
    ensures forall j :: from <= j < i ==> MemberCopyable(e, j)
    decreases |e.members| - from
  {
    i := from;
    if MemberCopyable(e, from) {
      i := Stops(e, from + 1);
    }
  }

  /** Members that can be copied leave no mark. */
  lemma {:induction false} MarkSkips(e: Entity, i: nat)
    requires e.Valid() && i <= |e.members| && forall j :: 0 <= j < i ==> MemberCopyable(e, j)
    ensures MarkOf(e) == MarkFrom(e, i)
  {
    if i > 0 { MarkSkips(e, i - 1); }
  }

  /** A mark is a change, in an object of the tree; and what leaves one cannot be copied. */
  lemma {:induction false} MarkIsMissing(e: Entity, i: nat)
    requires e.Valid() && i <= |e.members|
    ensures var mark := MarkFrom(e, i);
      mark.Some? ==>
        && mark.value.0 in e.Repr && mark.value.0.Repr <= e.Repr && mark.value.0.Valid()
        && mark.value.1 !in mark.value.0.constructors
        && !Copyable(e)
    decreases e.Repr, |e.members| - i
  {
    if i < |e.members| {
      if MemberCopyable(e, i) {
        MarkIsMissing(e, i + 1);
      } else if e.members[i].obj != null && e.At(i).key in e.constructors {
        MarkIsMissing(e.At(i), 0);
      }
    }
  }

  /** What becomes of a member, case by case. */
  lemma MemberOutcome(e: Entity, i: nat)
    requires e.Valid() && i < |e.members|
    ensures e.members[i].obj == null ==> !MemberCopyable(e, i) && MemberMark(e, i) == None
    ensures e.members[i].obj != null ==>
      var m := e.At(i);
      var found := HasConstructor(e.constructors, m.key, m.payload.kind);
      && (MemberCopyable(e, i) <==> m.key != "" && found && Copyable(m))
      && (MemberMark(e, i) ==
            if m.key == "" then None
            else if m.key !in e.constructors then Some((e, m.key))
            else if found then MarkOf(m)
            else None)
      && (MarkOf(m).Some? ==> MarkOf(m).value.0 in m.Repr && !Copyable(m))
    ensures MemberCopyable(e, i) ==>
      var m := e.At(i);
      && MemberMark(e, i) == None
      && MemberCopyView(e, i) ==
           Loaded(e.members[i].key, CopyView(m).(payload := CopiedAs(e.constructors[m.key].value, m.payload)))
  {
    if e.members[i].obj != null { MarkIsMissing(e.At(i), 0); }
  }

  /** The tree that a copy shows. */
  ghost function CopyView(e: Entity): EntityTree
    requires e.Valid() && Copyable(e)
    reads e, e.Repr
    decreases e.Repr, 2
  {
    EntityTree(e.key, e.payload,
      seq(|e.members|, i requires 0 <= i < |e.members| && e.Valid() && Copyable(e) reads e, e.Repr =>
        MemberCopyView(e, i)))
  }

  ghost function MemberCopyView(e: Entity, i: nat): Member
    requires e.Valid() && i < |e.members| && MemberCopyable(e, i)
    reads e, e.Repr
    decreases e.Repr, 1
  {
    var m := e.At(i);
    Loaded(e.members[i].key, CopyView(m).(payload := CopiedAs(e.constructors[m.key].value, m.payload)))
  }

  /** Every member was aggregated as the type it has. */
  ghost predicate Typed(e: Entity)
    requires e.Valid() && Copyable(e)
    reads e, e.Repr
    decreases e.Repr
  {
    forall i :: 0 <= i < |e.members| ==>
      MemberCopyable(e, i) && e.constructors[e.At(i).key] == Some(e.At(i).payload.kind) && Typed(e.At(i))
  }

  /** The copy shows the same tree exactly when nothing was aggregated as less than it is. */
  lemma {:induction false} CopyIsEqualIffTyped(e: Entity)
    requires e.Valid() && Copyable(e)
    ensures CopyView(e) == e.View() <==> Typed(e)
    decreases e.Repr
  {
    var below := e.Repr - {e};
    var v, w := CopyView(e).members, SlotViews(e.members, below);
    SlotViewsAt(e.members, below);
    forall i | 0 <= i < |e.members|
      ensures MemberCopyable(e, i)
      ensures v[i] == w[i] <==> e.constructors[e.At(i).key] == Some(e.At(i).payload.kind) && Typed(e.At(i))
    {
      assert MemberCopyable(e, i);
      var m := e.At(i);
      CopyIsEqualIffTyped(m);
      assert v[i] == MemberCopyView(e, i) && w[i] == SlotView(e.members[i]);
    }
    assert v == w <==> forall i :: 0 <= i < |e.members| ==> v[i] == w[i];
  }

  /**
   The copy constructor of the object's own type.  The copy shows the source's tree and shares no
   object with it; it has no constructors of its own.  A copy that throws may leave an empty
   constructor behind in the source, and changes nothing else there.
   */
  method CopyConstruct(other: Entity) returns (r: Result<Entity>)
    requires other.Valid() && Solid(other)
    modifies other.Repr`constructors
    ensures r.Ok? <==> old(Copyable(other))
    ensures r.Ok? ==>
      && r.value.Valid() && fresh(r.value.Repr) && r.value.View() == old(CopyView(other))
      && r.value.constructors == map[]
    ensures forall e :: e in other.Repr ==> e.constructors == After(old(MarkOf(other)), e, old(e.constructors))
    ensures (forall e :: e in other.Repr ==> e.constructors == old(e.constructors)) <==> !old(LeavesMark(other))
    decreases other.Repr, 3
  {
    MarkIsMissing(other, 0);
    hide Solid, Copyable, CopyView, MarkFrom;
    var copy := new Entity(other.key, other.payload);
    var done := CopyMembers(copy, other);
    r := if done.Ok? then Ok(copy) else Throw(done.reason);
  }

  /** Copy assignment between objects of one type; assigning an entity to itself does nothing. */
  method CopyAssign(target: Entity, other: Entity) returns (r: Result<()>)
    requires target.Valid() && other.Valid() && Solid(other)
    requires target == other || (target.Repr !! other.Repr && target.payload.kind == other.payload.kind)
    modifies target`key, target`payload, target`members, target`Repr, other.Repr`constructors
    ensures target.Valid()
    ensures target == other ==> r.Ok? && unchanged(target)
    ensures target != other ==>
      && (r.Ok? <==> old(Copyable(other)))
      && (r.Ok? ==> target.View() == old(CopyView(other)) && fresh(target.Repr - {target}))
      && target.key == other.key && (r.Throw? ==> target.payload == old(target.payload))
      && target.constructors == old(target.constructors)
      && (forall e :: e in other.Repr ==> e.constructors == After(old(MarkOf(other)), e, old(e.constructors)))
      && ((forall e :: e in other.Repr ==> e.constructors == old(e.constructors)) <==> !old(LeavesMark(other)))
  {
    hide Solid, Copyable, CopyView, MarkFrom, ValidSlots, SlotViews;
    MarkIsMissing(other, 0);
    CopyViewRoot(other);
    if target == other {
      return Ok(());
    }
    target.key := other.key;
    target.members := [];
    target.Repr := {target};
    Childless(target);
    r := CopyMembers(target, other);
    if r.Ok? {
      target.payload := other.payload;
    }
  }

  lemma Childless(e: Entity)
    requires e.members == [] && e.Repr == {e}
    ensures e.Valid()
  {
    assert e.Repr - {e} == {};
  }

  lemma CopyViewRoot(e: Entity)
    requires e.Valid()
    ensures Copyable(e) ==> CopyView(e) == EntityTree(e.key, e.payload, CopyView(e).members)
  {
  }

  /** The loop that both share. */
  method CopyMembers(target: Entity, other: Entity) returns (r: Result<()>)
    requires target.Valid() && target.members == [] && target.Repr == {target}
    requires other.Valid() && Solid(other) && target !in other.Repr
    modifies target`members, target`Repr, other.Repr`constructors
    ensures target.Valid() && fresh(target.Repr - {target})
    ensures r.Ok? <==> old(Copyable(other))
    ensures r.Ok? ==> target.View() == EntityTree(target.key, target.payload, old(CopyView(other)).members)
    ensures forall e :: e in other.Repr ==> e.constructors == After(old(MarkOf(other)), e, old(e.constructors))
    decreases other.Repr, 2
  {
    NothingMarked();
    hide *;
    ghost var plans := CopyPlans(other);
    NoMembers(target, other, plans);
    for i := 0 to |other.members|
      invariant CopiedTo(target, other, i, plans) && fresh(target.Repr - {target})
      invariant forall e :: e in other.Repr ==> e.constructors == old(e.constructors)
      invariant forall j :: 0 <= j < i ==> plans[j].able
    {
      r := CopyMember(target, other, i, plans);
      if r.Throw? {
        return;
      }
    }
    r := Ok(());
    AllMembers(target, other, plans);
  }

  lemma NothingMarked()
    ensures forall e, was :: After(None, e, was) == was
  {
  }

  /** What copying makes of a member. */
  datatype Plan = Plan(able: bool, mark: Mark, view: Member)

  ghost predicate Planned(e: Entity, plans: seq<Plan>)
    requires e.Valid()
    reads e, e.Repr
  {
    |plans| == |e.members| && forall i :: 0 <= i < |plans| ==> plans[i] == PlanOf(e, i)
  }

  ghost function PlanOf(e: Entity, i: nat): Plan
    requires e.Valid() && i < |e.members|
    reads e, e.Repr
  {
    var able := MemberCopyable(e, i);
    Plan(able, MemberMark(e, i), if able then MemberCopyView(e, i) else Placeholder(""))
  }

  lemma CopyPlans(e: Entity) returns (plans: seq<Plan>)
    requires e.Valid()
    ensures Planned(e, plans) && |plans| == |e.members|
    ensures Copyable(e) ==> forall i :: 0 <= i < |plans| ==> plans[i].able
    ensures (forall i :: 0 <= i < |plans| ==> plans[i].able) ==> Copyable(e)
    ensures Copyable(e) ==>
      var v := CopyView(e).members;
      |v| == |plans| && forall i :: 0 <= i < |plans| ==> v[i] == plans[i].view
    ensures Copyable(e) ==> MarkOf(e) == None
    ensures forall i :: 0 <= i < |plans| && !plans[i].able && (forall j :: 0 <= j < i ==> plans[j].able) ==>
      MarkOf(e) == plans[i].mark
    ensures forall i :: 0 <= i < |plans| && plans[i].able ==> plans[i].mark == None
  {
    MarkIsMissing(e, 0);
    var n := |e.members|;
    plans := seq(n, i requires 0 <= i < n && e.Valid() && n == |e.members| reads e, e.Repr => PlanOf(e, i));
    assert forall i :: 0 <= i < n ==> plans[i].able == MemberCopyable(e, i);
    forall i | 0 <= i < n && plans[i].able ensures plans[i].mark == None {
      MemberOutcome(e, i);
    }
    forall i | 0 <= i < n && !plans[i].able && (forall j :: 0 <= j < i ==> plans[j].able)
      ensures MarkOf(e) == plans[i].mark
    {
      MarkSkips(e, i);
    }
  }

  /** The members of `other` before `i` have been copied as planned. */
  ghost predicate CopiedTo(target: Entity, other: Entity, i: nat, plans: seq<Plan>)
    reads other`members, target`key, target`payload, target`members, target`Repr
    reads target.Repr`key, target.Repr`payload, target.Repr`members, target.Repr`Repr
  {
    && target.Valid() && |target.members| == i <= |other.members| == |plans|
    && (forall j :: 0 <= j < i ==> target.members[j].key == other.members[j].key)
    && target.View() == EntityTree(target.key, target.payload, target.View().members)
    && (forall j :: 0 <= j < i ==> target.View().members[j] == plans[j].view)
  }

  lemma NoMembers(target: Entity, other: Entity, plans: seq<Plan>)
    requires target.Valid() && target.members == [] && |plans| == |other.members|
    ensures CopiedTo(target, other, 0, plans)
  {
  }

  lemma AllMembers(target: Entity, other: Entity, plans: seq<Plan>)
    requires CopiedTo(target, other, |plans|, plans)
    ensures target.Valid() && target.View() == EntityTree(target.key, target.payload, target.View().members)
    ensures |target.View().members| == |plans|
    ensures forall j :: 0 <= j < |plans| ==> target.View().members[j] == plans[j].view
  {
  }

  /** One round of that loop. */
  method CopyMember(target: Entity, other: Entity, i: nat, ghost plans: seq<Plan>) returns (r: Result<()>)
    requires other.Valid() && Solid(other) && target !in other.Repr && i < |other.members|
    requires Planned(other, plans) && CopiedTo(target, other, i, plans)
    modifies target`members, target`Repr, other.Repr`constructors
    ensures target.Valid() && fresh(target.Repr - old(target.Repr))
    ensures i < |plans|
    ensures r.Ok? <==> plans[i].able
    ensures r.Ok? ==> CopiedTo(target, other, i + 1, plans)
    ensures forall e :: e in other.Repr ==> e.constructors == After(plans[i].mark, e, old(e.constructors))
    decreases other.Repr, 1
  {
    hide Solid, MemberCopyable, MemberCopyView, MemberMark, After, ValidSlots, SlotViews, Less;
    MemberKeys(other);
    var member := ConstructEntity(other, i);
    if member.Throw? {
      return Throw(member.reason);
    }
    AppendMember(target, other.members[i].key, member.value);
    r := Ok(());
  }

  /** The keys of a member map come in increasing order. */
  lemma MemberKeys(e: Entity)
    requires e.Valid()
    ensures forall i, j :: 0 <= i < j < |e.members| ==> Less(e.members[i].key, e.members[j].key)
  {
    assert ValidSlots(e.members, e.Repr - {e});
  }

  /** `ConstructEntity` on member `i`: looks its constructor up by the member's own key. */
  method ConstructEntity(other: Entity, i: nat) returns (r: Result<Entity>)
    requires other.Valid() && Solid(other) && i < |other.members|
    modifies other.Repr`constructors
    ensures r.Ok? <==> old(MemberCopyable(other, i))
    ensures r.Ok? ==>
      && r.value.Valid() && fresh(r.value.Repr)
      && Loaded(other.members[i].key, r.value.View()) == old(MemberCopyView(other, i))
    ensures forall e :: e in other.Repr ==>
      e.constructors == After(old(MemberMark(other, i)), e, old(e.constructors))
    decreases other.Repr, 0
  {
    assert other.At(i) == other.members[i].obj && Solid(other.At(i)) && other in other.Repr;
    MemberOutcome(other, i);
    hide MemberCopyable, MemberCopyView, MemberMark, MarkOf, LeavesMark, Solid, Copyable, CopyView;
    var member: Entity := other.members[i].obj;
    var key := member.GetKey();
    if key.Throw? {
      return Throw("runtime_error");
    }
    if key.value !in other.constructors {
      other.constructors := other.constructors[key.value := None];
    }
    if other.constructors[key.value].None? {
      return Throw("bad_function_call");
    }
    r := CallConstructor(member, other.constructors[key.value].value);
  }

  /** The function that `RegisterEntityConstructor<T>` enters: a copy as a `T`, if the object is one. */
  method CallConstructor(member: Entity, T: string) returns (r: Result<Entity>)
    requires member.Valid() && Solid(member)
    modifies member.Repr`constructors
    ensures r.Ok? <==> (T == member.payload.kind || T == "Entity") && old(Copyable(member))
    ensures r.Ok? ==>
      && r.value.Valid() && fresh(r.value.Repr)
      && r.value.payload == (if T == member.payload.kind then member.payload else Payload("Entity", ""))
      && r.value.View() == old(CopyView(member)).(payload := r.value.payload)
    ensures forall e :: e in member.Repr ==>
      e.constructors ==
        After(old(if Fits(T, member.payload.kind) then MarkOf(member) else None), e, old(e.constructors))
    decreases member.Repr, 4
  {
    hide Solid, Copyable, CopyView, MarkOf, LeavesMark;
    if !Fits(T, member.payload.kind) {
      return Throw("bad_cast");
    }
    r := CopyConstruct(member);
    if r.Ok? {
      r.value.payload := CopiedAs(T, member.payload);
    }
  }

  lemma InsertSlotLast(slots: seq<Slot>, s: Slot)
    requires forall i :: 0 <= i < |slots| ==> Less(slots[i].key, s.key)
    ensures InsertSlot(slots, s) == slots + [s] && !SlotInUse(slots, s.key)
  {
    hide Position;
    forall i | 0 <= i < |slots| ensures slots[i].key != s.key {
      LessIsStrict(slots[i].key, s.key);
    }
    var p, r := InsertSlotAt(slots, s);
    BeyondAll(Keys(slots), s.key);
    assert slots[..|slots|] == slots && slots[|slots|..] == [];
  }

  lemma {:induction false} BeyondAll(members: seq<Member>, key: Key)
    requires forall i :: 0 <= i < |members| ==> Less(members[i].key, key)
    ensures Position(members, key) == |members|
  {
    if members != [] { BeyondAll(members[1..], key); }
  }

  /** `membersMap_[key] = ...` for a key beyond all others. */
  method AppendMember(target: Entity, key: Key, member: Entity)
    requires target.Valid() && member.Valid() && target.Repr !! member.Repr
    requires forall j :: 0 <= j < |target.members| ==> Less(target.members[j].key, key)
    modifies target`members, target`Repr
    ensures target.Valid() && target.Repr == old(target.Repr) + member.Repr
    ensures target.members == old(target.members) + [Slot(key, member)]
    ensures target.View() == old(target.View()).(members := old(target.View()).members + [Loaded(key, member.View())])
  {
    hide InsertSlot, Insert, Position, ValidSlots, SlotViews, SlotInUse, Keys, Less;
    ghost var below := target.Repr - {target};
    assert ValidSlots(target.members, below);
    ghost var view := SlotViews(target.members, below);
    SlotViewsAt(target.members, below);
    var s := Slot(key, member);
    InsertLast(view, SlotView(s));
    InsertSlotLast(target.members, s);
    AddSlot(target.members, below, s);
    target.members := InsertSlot(target.members, s);
    target.Repr := target.Repr + member.Repr;
    assert target.Repr - {target} == below + Brings(s);
  }

  /** A copy can itself be copied only if it has no members: the constructors are not copied. */
  lemma CopyOfCopy(copy: Entity)
    requires copy.Valid() && copy.constructors == map[]
    ensures Copyable(copy) <==> copy.members == []
  {
    if copy.members != [] { assert !MemberCopyable(copy, 0); }
  }

  /** A member whose key holds another constructor, or an empty one, keeps its owner from being copied. */
  lemma StaleConstructor(e: Entity, i: nat)
    requires e.Valid() && i < |e.members| && e.members[i].obj != null
    requires !HasConstructor(e.constructors, e.At(i).key, e.At(i).payload.kind)
    ensures !Copyable(e)
  {
    assert !MemberCopyable(e, i);
  }

  /**
   The constructor registered first stays, an empty one included: whatever is aggregated under
   its key in place of the old member, as whatever type, leaves an entity that cannot be copied if
   that constructor does not take it.
   */
  method ReuseKey(e: Entity, obj: Entity, T: string) returns (r: Result<()>)
    requires e.Valid() && obj.Valid() && e.Repr !! obj.Repr
    requires obj.key in e.constructors && !HasConstructor(e.constructors, obj.key, obj.payload.kind)
    modifies e`members, e`constructors, e`Repr
    ensures e.Valid() && e.constructors == old(e.constructors)
    ensures r.Ok? ==> !Copyable(e)
  {
    var removed := e.RemoveMember(obj.key);
    ghost var slots := e.members;
    r := e.AggregateMember(obj, T);
    if r.Ok? {
      var p, inserted := InsertSlotAt(slots, Slot(obj.key, obj));
      assert e.members[p] == Slot(obj.key, obj) && e.At(p) == obj;
      StaleConstructor(e, p);
    }
  }

  /**
   A mark stays: after the copy that leaves it in `x`, replacing the member by one aggregated with
   its own type, which registers a constructor otherwise, does not make `x` copyable any more.
   */
  method FailedCopySticks(e: Entity, x: Entity, obj: Entity) returns (copy: Result<Entity>, again: Result<()>)
    requires e.Valid() && Solid(e) && MarkOf(e) == Some((x, obj.key))
    requires obj.Valid() && e.Repr !! obj.Repr
    modifies x`members, x`Repr, e.Repr`constructors
    ensures copy.Throw? && x.Valid()
    ensures obj.key in x.constructors && x.constructors[obj.key] == None
    ensures again.Ok? ==> !Copyable(x)
  {
    MarkIsMissing(e, 0);
    copy := CopyConstruct(e);
    again := ReuseKey(x, obj, obj.payload.kind);
  }

  /** No pointer in the tree is null. */
  predicate AllLoaded(t: EntityTree) {
    forall m :: m in t.members ==> m.Loaded? && AllLoaded(m.entity)
  }

  lemma {:induction false} CopyIsLoaded(e: Entity)
    requires e.Valid() && Copyable(e)
    ensures AllLoaded(CopyView(e))
    decreases e.Repr
  {
    var v := CopyView(e).members;
    forall i | 0 <= i < |v| ensures v[i].Loaded? && AllLoaded(v[i].entity) {
      assert MemberCopyable(e, i) && v[i] == MemberCopyView(e, i);
      CopyIsLoaded(e.At(i));
    }
  }

  lemma {:induction false} LoadedIsSolid(e: Entity)
    requires e.Valid() && AllLoaded(e.View())
    ensures Solid(e)
    decreases e.Repr
  {
    var below := e.Repr - {e};
    SlotViewsEach(e.members, below);
    forall i | 0 <= i < |e.members| ensures e.members[i].obj != null && Solid(e.At(i)) {
      assert FitsIn(e.members[i], below) && e.View().members[i] == SlotView(e.members[i]);
      assert e.View().members[i] in e.View().members;
      LoadedIsSolid(e.At(i));
    }
  }

  /** The first member of an object that shows a copy has the key of the member copied. */
  lemma FirstOfCopy(copy: Entity, view: EntityTree, key: Key)
    requires copy.Valid() && copy.View() == view && AllLoaded(view)
    requires view.members != [] && view.members[0].Loaded? && view.members[0].entity.key == key != ""
    requires copy.constructors == map[]
    ensures Solid(copy) && copy.members != [] && MarkOf(copy) == Some((copy, key))
  {
    LoadedIsSolid(copy);
    var below := copy.Repr - {copy};
    SlotViewsEach(copy.members, below);
    assert FitsIn(copy.members[0], below) && view.members[0] == SlotView(copy.members[0]);
    assert copy.At(0).key == key && !MemberCopyable(copy, 0);
    assert MarkFrom(copy, 0) == MemberMark(copy, 0);
  }

  /** Copying a copy of an entity that has members is such a case: it throws and leaves a mark. */
  method CopyACopy(e: Entity) returns (copy: Result<Entity>, again: Result<Entity>)
    requires e.Valid() && Solid(e) && Copyable(e) && e.members != []
    modifies e.Repr`constructors
    ensures copy.Ok? && copy.value.Valid() && copy.value.View() == old(CopyView(e)) && again.Throw?
    ensures copy.value.constructors == map[old(e.At(0).key) := None]
  {
    ghost var view, key := CopyView(e), e.At(0).key;
    CopyIsLoaded(e);
    FirstMember(e);
    copy := CopyConstruct(e);
    FirstOfCopy(copy.value, view, key);
    MarkIsMissing(copy.value, 0);
    again := CopyConstruct(copy.value);
  }

  lemma FirstMember(e: Entity)
    requires e.Valid() && Copyable(e) && e.members != []
    ensures e.members[0].obj != null && e.At(0).key != ""
    ensures var v := CopyView(e).members;
      v != [] && v[0].Loaded? && v[0].entity.key == e.At(0).key
  {
    assert MemberCopyable(e, 0) && CopyView(e).members[0] == MemberCopyView(e, 0);
  }

  /** And such entities exist: a parent with one member. */
  method FailedCopyHappens(parentKey: Key, childKey: Key, payload: Payload)
    returns (copy: Result<Entity>, again: Result<Entity>)
    requires childKey != ""
    ensures copy.Ok? && again.Throw? && copy.value.constructors == map[childKey := None]
  {
    var parent := new Entity(parentKey, payload);
    var child := new Entity(childKey, payload);
    var added := parent.AggregateMember(child, payload.kind);
    OneMember(parent, child);
    copy, again := CopyACopy(parent);
  }

  lemma OneMember(e: Entity, child: Entity)
    requires e.Valid() && e.members == [Slot(child.key, child)]
    requires child.Valid() && child.key != "" && child.members == []
    requires e.constructors == map[child.key := Some(child.payload.kind)]
    ensures Solid(e) && Copyable(e) && e.At(0) == child
  {
    assert e.At(0) == child && Copyable(child) && Solid(child);
    assert MemberCopyable(e, 0);
  }

  // ---- Members aggregated as the base, as the loaders do ----

  /** Nothing was ever aggregated except as a bare `Entity`, at any depth, and every member is there. */
  ghost predicate AllAsBase(e: Entity)
    requires e.Valid()
    reads e, e.Repr
    decreases e.Repr, 1
  {
    && (forall k :: k in e.constructors ==> e.constructors[k] == Some("Entity"))
    && forall i :: 0 <= i < |e.members| ==> e.members[i].obj != null && AsBase(e.At(i), e.constructors)
  }

  ghost predicate AsBase(m: Entity, constructors: map<Key, Option<string>>)
    requires m.Valid()
    reads m, m.Repr
    decreases m.Repr, 2
  {
    m.key != "" && m.key in constructors && AllAsBase(m)
  }

  /** The tree with nothing left of any member but its key and its own members. */
  function Stripped(t: EntityTree): EntityTree {
    t.(members := seq(|t.members|, i requires 0 <= i < |t.members| =>
         var m := t.members[i];
         if m.Loaded? then Loaded(m.key, Stripped(m.entity).(payload := Bare(m.entity.payload))) else m))
  }

  /** What copying as an `Entity` leaves of a payload. */
  function Bare(p: Payload): Payload { if p.kind == "Entity" then p else Payload("Entity", "") }

  /** Such an entity can be copied, but every member comes out as a bare `Entity`. */
  lemma {:induction false} AsBaseCopies(e: Entity)
    requires e.Valid() && AllAsBase(e)
    ensures Copyable(e) && CopyView(e) == Stripped(e.View())
    decreases e.Repr
  {
    var below := e.Repr - {e};
    SlotViewsAt(e.members, below);
    forall i | 0 <= i < |e.members| ensures MemberCopyable(e, i) {
      AsBaseCopies(e.At(i));
    }
    var v, w := CopyView(e).members, Stripped(e.View()).members;
    forall i | 0 <= i < |e.members| ensures v[i] == w[i] {
      AsBaseCopies(e.At(i));
      assert v[i] == MemberCopyView(e, i) && e.View().members[i] == SlotView(e.members[i]);
    }
    assert v == w;
  }

  /** All members, at any depth, are bare entities. */
  predicate AllBare(t: EntityTree) {
    forall m :: m in t.members && m.Loaded? ==> m.entity.payload.kind == "Entity" && AllBare(m.entity)
  }

  /** Such a copy has lost something unless there was nothing to lose. */
  lemma {:induction false} StrippedIff(t: EntityTree)
    ensures Stripped(t) == t <==> AllBare(t)
  {
    var v := Stripped(t).members;
    forall i | 0 <= i < |v|
      ensures var m := t.members[i];
        v[i] == m <==> (m.Loaded? ==> m.entity.payload.kind == "Entity" && AllBare(m.entity))
    {
      if t.members[i].Loaded? { StrippedIff(t.members[i].entity); }
    }
    assert v == t.members <==> forall i :: 0 <= i < |v| ==> v[i] == t.members[i];
  }

  lemma {:induction false} CopyableIsSolid(e: Entity)
    requires e.Valid() && Copyable(e)
    ensures Solid(e)
    decreases e.Repr
  {
    forall i | 0 <= i < |e.members| ensures e.members[i].obj != null && Solid(e.At(i)) {
      assert MemberCopyable(e, i);
      CopyableIsSolid(e.At(i));
    }
  }

  /** The same for the slots of a member map by themselves. */
  ghost predicate SlotsAsBase(slots: seq<Slot>, below: set<Entity>, constructors: map<Key, Option<string>>)
    requires ValidSlots(slots, below)
    reads below
  {
    && (forall k :: k in constructors ==> constructors[k] == Some("Entity"))
    && forall i :: 0 <= i < |slots| ==> FitsIn(slots[i], below) && HeldAsBase(slots[i], below, constructors)
  }

  ghost predicate HeldAsBase(s: Slot, below: set<Entity>, constructors: map<Key, Option<string>>)
    requires FitsIn(s, below)
    reads below
  {
    s.obj != null && AsBase(s.obj, constructors)
  }

  lemma MembersAsBase(e: Entity)
    requires e.Valid()
    ensures ValidSlots(e.members, e.Repr - {e})
    ensures AllAsBase(e) <==> SlotsAsBase(e.members, e.Repr - {e}, e.constructors)
  {
    var below := e.Repr - {e};
    forall i | 0 <= i < |e.members|
      ensures FitsIn(e.members[i], below)
      ensures HeldAsBase(e.members[i], below, e.constructors) <==>
        e.members[i].obj != null && AsBase(e.At(i), e.constructors)
    {
    }
  }

  /** One more member, aggregated as an `Entity` unless its key has been in use before. */
  lemma AddAsBase(e: Entity, slots: seq<Slot>, below: set<Entity>, s: Slot, was: map<Key, Option<string>>)
    requires e.Valid() && e.members == InsertSlot(slots, s)
    requires ValidSlots(slots, below) && SlotsAsBase(slots, below, was)
    requires s.obj != null && s.obj.Valid() && s.obj.key == s.key != "" && AllAsBase(s.obj)
    requires e.constructors == if s.key in was then was else was[s.key := Some("Entity")]
    ensures AllAsBase(e)
  {
    hide InsertSlot;
    var p, r := InsertSlotAt(slots, s);
    forall i | 0 <= i < |e.members| ensures e.members[i].obj != null && AsBase(e.At(i), e.constructors) {
      if i != p {
        var j := if i < p then i else i - 1;
        assert e.members[i] == slots[j] && HeldAsBase(slots[j], below, was);
      }
    }
  }
}
