/**
 The persister and the loader as objects that work on entities in the heap.  The serializer and
 the deserializer run the same code with a file path in place of the database handle.
 */
module EntityAdapters {
  import opened Wrappers
  import opened PropertyTree
  import opened KeyPaths
  import opened EntityValues
  import opened HierarchyStore
  import opened HierarchyRoundTrip
  import opened Entities
  import opened EntityCopy

  class EntityPersister {
    const codec: Codec
    var hierarchy: Tree
    var isOpen: bool

    constructor (codec: Codec)
      ensures this.codec == codec && hierarchy == EMPTY && !isOpen
    {
      this.codec, hierarchy, isOpen := codec, EMPTY, false;
    }

    /** `Persist`, up to handing the hierarchy to the database. */
    method PersistEntity(e: Entity) returns (r: Result<()>)
      requires e.Valid()
      modifies this`hierarchy
      ensures r.Ok? <==> isOpen && Persist(codec, old(hierarchy), e.View(), "").Ok?
      ensures r.Ok? ==> Persist(codec, old(hierarchy), e.View(), "") == Ok(hierarchy)
      ensures isOpen && e.key != "" ==> Spares(old(hierarchy), hierarchy, Split(e.key))
      ensures !isOpen || e.key == "" ==> hierarchy == old(hierarchy)
    {
      if !isOpen || e.key == "" {
        return Throw("runtime_error");
      }
      r := PersistWithParentKey(e, "");
    }

    method PersistWithParentKey(e: Entity, parentKey: string) returns (r: Result<()>)
      requires e.Valid()
      modifies this`hierarchy
      ensures r.Ok? <==> Persist(codec, old(hierarchy), e.View(), parentKey).Ok?
      ensures r.Ok? ==> Persist(codec, old(hierarchy), e.View(), parentKey) == Ok(hierarchy)
      ensures if e.key == "" then hierarchy == old(hierarchy)
              else Spares(old(hierarchy), hierarchy, Split(SearchPath(parentKey, e.key)))
      decreases e.Repr, 1
    {
      hide Spares;
      ghost var h0 := hierarchy;
      var key := e.GetKey();
      if key.Throw? {
        return Throw("runtime_error");
      }
      var searchPath := SearchPath(parentKey, key.value);
      ghost var p := Split(searchPath);
      hierarchy := PutChild(hierarchy, Split(searchPath), EMPTY);
      PutSpares(h0, p, EMPTY);
      ghost var h1 := hierarchy;
      hierarchy := PutChild(hierarchy, Split(searchPath), codec.save(e.payload, searchPath));
      PutSpares(h1, p, codec.save(e.payload, searchPath));
      ghost var h2 := hierarchy;
      r := PersistAggregated(e, searchPath);
      assert p + [] == p;
      SparesMore(h0, h1, h2, p, []);
      SparesMore(h0, h2, hierarchy, p, []);
    }

    /** The loop of `PersistWithParentKey` over the members of the adapter's type. */
    method PersistAggregated(e: Entity, searchPath: string) returns (r: Result<()>)
      requires e.Valid() && searchPath != ""
      modifies this`hierarchy
      ensures r.Ok? <==> PersistMembers(codec, old(hierarchy), e.View().members, searchPath).Ok?
      ensures r.Ok? ==> PersistMembers(codec, old(hierarchy), e.View().members, searchPath) == Ok(hierarchy)
      ensures Spares(old(hierarchy), hierarchy, Split(searchPath))
      decreases e.Repr, 0
    {
      hide Persist, PersistMembers, ValidSlots, SlotViews, Kept, Spares;
      ghost var h0, p := hierarchy, Split(searchPath);
      SparesItself(h0, p);
      ghost var view := e.View().members;
      MemberAt(e);
      ghost var result := PersistMembers(codec, hierarchy, view, searchPath);
      assert view[0..] == view;
      for i := 0 to |e.members|
        invariant result == PersistMembers(codec, hierarchy, view[i..], searchPath)
        invariant Spares(h0, hierarchy, p)
      {
        PersistOne(codec, hierarchy, view, i, searchPath);
        var member := e.members[i].obj;
        if member != null && codec.storable(member.payload.kind) {
          assert Kept(codec, view[i]);
          ghost var before := hierarchy;
          r := PersistWithParentKey(member, searchPath);
          MemberSpares(h0, before, hierarchy, searchPath, member.key);
          if r.Throw? {
            return;
          }
        }
      }
      assert view[|view|..] == [];
      PersistNothing(codec, hierarchy, searchPath);
      r := Ok(());
    }

    /** What the loop sees of each slot. */
    lemma MemberAt(e: Entity)
      requires e.Valid()
      ensures |e.View().members| == |e.members|
      ensures forall i :: 0 <= i < |e.members| ==>
        var obj, m := e.members[i].obj, e.View().members[i];
        && (Kept(codec, m) <==> obj != null && codec.storable(obj.payload.kind))
        && (obj != null ==> obj.Valid() && obj.Repr < e.Repr && m == Loaded(e.members[i].key, obj.View()))
    {
      SlotViewsAt(e.members, e.Repr - {e});
      forall i | 0 <= i < |e.members|
        ensures var obj, m := e.members[i].obj, e.View().members[i];
          && (Kept(codec, m) <==> obj != null && codec.storable(obj.payload.kind))
          && (obj != null ==> obj.Valid() && obj.Repr < e.Repr && m == Loaded(e.members[i].key, obj.View()))
      {
        var obj := e.members[i].obj;
        assert e.View().members[i] == SlotView(e.members[i]);
        if obj != null {
          assert obj.Repr <= e.Repr - {e} && e in e.Repr;
          assert obj.View().payload == obj.payload;
        }
      }
    }
  }

  lemma MemberSpares(h: Tree, before: Tree, after: Tree, path: string, key: Key)
    requires path != "" && Spares(h, before, Split(path))
    requires if key == "" then after == before else Spares(before, after, Split(SearchPath(path, key)))
    ensures Spares(h, after, Split(path))
  {
    hide Spares;
    if key != "" {
      var q := SplitExtends(path, key);
      SparesMore(h, before, after, Split(path), q);
    }
  }

  lemma PersistNothing(c: Codec, h: Tree, path: string)
    ensures PersistMembers(c, h, [], path) == Ok(h)
  {
  }

  /** One round of the persister's loop, at slot `i` of the map. */
  lemma PersistOne(c: Codec, h: Tree, members: seq<Member>, i: nat, path: string)
    requires i < |members|
    ensures PersistMembers(c, h, members[i..], path) ==
      if !Kept(c, members[i]) then PersistMembers(c, h, members[i + 1..], path)
      else
        var r := Persist(c, h, members[i].entity, path);
        if r.Throw? then r else PersistMembers(c, r.value, members[i + 1..], path)
  {
    hide Persist;
    assert members[i..][0] == members[i] && members[i..][1..] == members[i + 1..];
  }

  class EntityLoader {
    const codec: Codec
    const registry: Registry
    var hierarchy: Tree
    var isOpen: bool

    constructor (codec: Codec, registry: Registry, hierarchy: Tree)
      requires "" !in registry
      ensures this.codec == codec && this.registry == registry && this.hierarchy == hierarchy && isOpen
    {
      this.codec, this.registry, this.hierarchy, isOpen := codec, registry, hierarchy, true;
    }

    /** `GenerateEntity` of the registry. */
    method GenerateEntity(key: Key) returns (r: Result<Entity>)
      ensures r.Ok? <==> key in registry
      ensures r.Ok? ==> fresh(r.value) && r.value.Valid() && r.value.Repr == {r.value} && r.value.members == []
      ensures r.Ok? ==> r.value.View() == Fresh(key, registry[key]) && AllAsBase(r.value)
    {
      if key !in registry {
        return Throw("runtime_error");
      }
      var e := new Entity(key, registry[key]);
      r := Ok(e);
    }

    /** Fills in the entity; whatever is added to its tree is newly allocated. */
    method LoadWithParentKey(entity: Entity, parentKey: string) returns (r: Result<()>)
      requires entity.Valid() && "" !in registry
      modifies entity
      ensures entity.Valid() && fresh(entity.Repr - old(entity.Repr)) && entity.key == old(entity.key)
      ensures r.Ok? <==> Load(codec, registry, hierarchy, old(entity.View()), parentKey).Ok?
      ensures r.Ok? ==> Load(codec, registry, hierarchy, old(entity.View()), parentKey) == Ok(entity.View())
      ensures r.Ok? && old(AllAsBase(entity)) ==> AllAsBase(entity)
      decreases LookupSize(hierarchy, SearchPath(parentKey, entity.key)), 1
    {
      var key := entity.GetKey();
      if key.Throw? {
        return Throw("runtime_error");
      }
      var searchPath := SearchPath(parentKey, key.value);
      var tree := GetChild(hierarchy, Split(searchPath));
      if tree.None? {
        return Throw("runtime_error");
      }
      entity.payload := codec.load(entity.payload, tree.value, searchPath);
      r := AggregateChildren(entity, searchPath, tree.value);
    }

    /** The loop of `LoadWithParentKey` over the children of the node. */
    method AggregateChildren(entity: Entity, searchPath: string, tree: Tree) returns (r: Result<()>)
      requires entity.Valid() && "" !in registry
      requires searchPath != "" && GetChild(hierarchy, Split(searchPath)) == Some(tree)
      modifies entity
      ensures entity.Valid() && fresh(entity.Repr - old(entity.Repr)) && entity.key == old(entity.key)
      ensures r.Ok? <==> LoadMembers(codec, registry, hierarchy, old(entity.View()), searchPath, tree, 0).Ok?
      ensures r.Ok? ==>
        LoadMembers(codec, registry, hierarchy, old(entity.View()), searchPath, tree, 0) == Ok(entity.View())
      ensures r.Ok? && old(AllAsBase(entity)) ==> AllAsBase(entity)
      decreases LookupSize(hierarchy, searchPath), 0
    {
      ghost var result := LoadMembers(codec, registry, hierarchy, entity.View(), searchPath, tree, 0);
      for i := 0 to |tree.children|
        invariant entity.Valid() && fresh(entity.Repr - old(entity.Repr)) && entity.key == old(entity.key)
        invariant result == LoadMembers(codec, registry, hierarchy, entity.View(), searchPath, tree, i)
        invariant old(AllAsBase(entity)) ==> AllAsBase(entity)
      {
        var key := tree.children[i].key;
        if key in registry {
          LookupDescends(hierarchy, searchPath, key);
          r := LoadMember(entity, searchPath, tree, key);
          if r.Throw? {
            return;
          }
        }
      }
      r := Ok(());
    }

    /** One round of that loop: aggregate a new member, then load it. */
    method LoadMember(entity: Entity, searchPath: string, ghost tree: Tree, key: Key) returns (r: Result<()>)
      requires entity.Valid() && "" !in registry && key in registry
      requires searchPath != "" && GetChild(hierarchy, Split(searchPath)) == Some(tree)
      modifies entity
      ensures entity.Valid() && fresh(entity.Repr - old(entity.Repr)) && entity.key == old(entity.key)
      ensures
        var v := old(entity.View());
        var child := Load(codec, registry, hierarchy, Fresh(key, registry[key]), searchPath);
        && (r.Ok? <==> !InUse(v.members, key) && child.Ok?)
        && (r.Ok? ==> entity.View() == v.(members := Insert(v.members, Loaded(key, child.value))))
      ensures r.Ok? && old(AllAsBase(entity)) ==> AllAsBase(entity)
      decreases LookupSize(hierarchy, SearchPath(searchPath, key)), 2
    {
      hide Load, InUse, SlotInUse, Insert, InsertSlot, ValidSlots, SlotViews, LookupSize, CanAdd;
      hide AllAsBase, SlotsAsBase, FitsIn, Apart, Less, Stripped;
      ghost var slots, below, was := entity.members, entity.Repr - {entity}, entity.constructors;
      SlotViewsAt(slots, below) by { assert ValidSlots(slots, below); }
      ghost var view := entity.View();
      assert view == EntityTree(entity.key, entity.payload, SlotViews(slots, below));
      ghost var asBase := AllAsBase(entity);
      MembersAsBase(entity);
      var added := AggregateNew(entity, key);
      if added.Throw? {
        return Throw(added.reason);
      }
      var memberEntity := added.value;
      r := LoadWithParentKey(memberEntity, searchPath);
      var s := Slot(key, memberEntity);
      assert memberEntity.Repr !! below;
      Addable(slots, below, key, memberEntity);
      AddSlot(slots, below, s);
      entity.Repr := old(entity.Repr) + memberEntity.Repr;
      assert entity.Repr - {entity} == below + Brings(s);
      if asBase && r.Ok? { AddAsBase(entity, slots, below, s, was); }
    }

    /** Aggregates a newly generated entity. */
    method AggregateNew(entity: Entity, key: Key) returns (r: Result<Entity>)
      requires entity.Valid() && "" !in registry && key in registry
      modifies entity
      ensures r.Ok? <==> !SlotInUse(old(entity.members), key)
      ensures r.Throw? ==> unchanged(entity)
      ensures r.Ok? ==>
        && fresh(r.value) && r.value.Valid() && r.value.Repr == {r.value} && r.value.View() == Fresh(key, registry[key])
        && entity.members == InsertSlot(old(entity.members), Slot(key, r.value))
        && entity.key == old(entity.key) && entity.payload == old(entity.payload) && AllAsBase(r.value)
      ensures r.Ok? ==>
        var was := old(entity.constructors);
        entity.constructors == if key in was then was else was[key := Some("Entity")]
    {
      hide InUse, SlotInUse, Insert, InsertSlot, ValidSlots, SlotViews;
      SlotViewsAt(entity.members, entity.Repr - {entity}) by {
        assert ValidSlots(entity.members, entity.Repr - {entity});
      }
      var generated := GenerateEntity(key);
      var added := entity.AggregateMember(generated.value, "Entity");
      r := if added.Ok? then generated else Throw(added.reason);
    }

    method LoadEntityByKey(entity: Entity) returns (r: Result<()>)
      requires entity.Valid() && "" !in registry
      modifies entity
      ensures entity.Valid() && fresh(entity.Repr - old(entity.Repr)) && entity.key == old(entity.key)
      ensures r.Ok? <==> isOpen && LoadEntity(codec, registry, hierarchy, old(entity.View())).Ok?
      ensures r.Ok? ==> LoadEntity(codec, registry, hierarchy, old(entity.View())) == Ok(entity.View())
      ensures r.Ok? && old(AllAsBase(entity)) ==> AllAsBase(entity)
    {
      if !isOpen {
        return Throw("runtime_error");
      }
      var key := entity.GetKey();
      if key.Throw? {
        return Throw("runtime_error");
      }
      var keyPath := GetKeyPath(key.value, hierarchy);
      if keyPath == "" {
        return Ok(());
      }
      r := LoadWithParentKey(entity, GetParentKeyPath(keyPath));
    }

    /**
     The overridden `GetAggregatedMember`: a placeholder with a registered key is loaded the first
     time it is asked for, and the object stays.
     */
    method GetAggregatedMember(owner: Entity, key: Key) returns (r: Result<Entity?>)
      requires owner.Valid() && "" !in registry
      modifies owner`members, owner`Repr
      ensures owner.Valid() && fresh(owner.Repr - old(owner.Repr))
      // the key is not in use
      ensures !SlotInUse(old(owner.members), key) ==> r.Throw? && unchanged(owner)
      ensures forall i :: 0 <= i < |old(owner.members)| && old(owner.members)[i].key == key ==>
        var found := old(owner.members)[i].obj;
        // already there, or not registered: the pointer as it is
        if found != null || key !in registry then r == Ok(found) && unchanged(owner)
        else
          var loaded := LoadEntity(codec, registry, hierarchy, Fresh(key, registry[key]));
          && (r.Ok? <==> isOpen && loaded.Ok?)
          && (r.Throw? ==> unchanged(owner))
          // loaded on demand: the new object takes the placeholder's slot
          && (r.Ok? ==>
                && r.value != null && fresh(r.value) && r.value.Valid() && r.value.View() == loaded.value
                && owner.members == old(owner.members)[i := Slot(key, r.value)]
                && owner.View() ==
                     old(owner.View()).(members := old(owner.View()).members[i := Loaded(key, loaded.value)]))
    {
      hide LoadEntity, Load;
      var i := FindSlot(owner.members, key);
      if i == |owner.members| {
        return Throw("runtime_error");
      }
      UniqueSlot(owner.members, i);
      if owner.members[i].obj != null || key !in registry {
        return Ok(owner.members[i].obj);
      }
      r := LoadPlaceholder(owner, i);
    }

    /** The part of `GetAggregatedMember` that loads. */
    method LoadPlaceholder(owner: Entity, i: nat) returns (r: Result<Entity?>)
      requires owner.Valid() && "" !in registry && i < |owner.members| && owner.members[i].obj == null
      requires owner.members[i].key in registry
      modifies owner`members, owner`Repr
      ensures owner.Valid() && fresh(owner.Repr - old(owner.Repr))
      ensures
        var key := old(owner.members)[i].key;
        var loaded := LoadEntity(codec, registry, hierarchy, Fresh(key, registry[key]));
        && (r.Ok? <==> isOpen && loaded.Ok?)
        && (r.Throw? ==> unchanged(owner))
        && (r.Ok? ==>
              && r.value != null && fresh(r.value) && r.value.Valid() && r.value.View() == loaded.value
              && owner.members == old(owner.members)[i := Slot(key, r.value)]
              && |old(owner.View()).members| == |old(owner.members)|
              && owner.View() ==
                   old(owner.View()).(members := old(owner.View()).members[i := Loaded(key, loaded.value)]))
    {
      hide LoadEntity, Load, ValidSlots, SlotViews;
      ghost var below := owner.Repr - {owner};
      ghost var slots := owner.members;
      assert ValidSlots(slots, below);
      var key := owner.members[i].key;
      var generated := GenerateEntity(key);
      var entity := generated.value;
      var ok := LoadEntityByKey(entity);
      if ok.Throw? {
        return Throw("runtime_error");
      }
      FillSlot(slots, below, i, entity);
      owner.members := owner.members[i := Slot(key, entity)];
      owner.Repr := owner.Repr + entity.Repr;
      assert owner.Repr - {owner} == below + entity.Repr;
      r := Ok(entity);
    }

    /** Asking again gives the same object, without loading. */
    method AskTwice(owner: Entity, key: Key) returns (first: Result<Entity?>, second: Result<Entity?>)
      requires owner.Valid() && "" !in registry && key in registry
      modifies owner`members, owner`Repr
      ensures first.Ok? ==> second == first && first.value != null
    {
      first := GetAggregatedMember(owner, key);
      ghost var slots := owner.members;
      second := GetAggregatedMember(owner, key);
      if first.Ok? {
        ghost var i :| 0 <= i < |old(owner.members)| && old(owner.members)[i].key == key;
        assert slots[i].key == key && slots[i].obj == first.value;
      }
    }
  }

  /**
   The round trip in the heap: persist an entity into an empty hierarchy and load a fresh one from
   it.  The new objects show the old tree, without its placeholders and unstorable members.
   */
  method PersistAndReload(codec: Codec, registry: Registry, e: Entity, initial: Payload) returns (loaded: Entity)
    requires e.Valid() && GoodRegistry(registry) && GoodKeys(codec, e.View())
    requires Loadable(codec, registry, initial, e.View(), "")
    ensures loaded.Valid() && fresh(loaded.Repr) && loaded.View() == Prune(codec, e.View())
    ensures Whole(codec, e.View()) ==> loaded.View() == e.View()
  {
    ghost var view := e.View();
    PersistThenLoadEntity(codec, registry, initial, view);
    assert "" !in registry;
    hide Persist, Loadable, GoodKeys, Prune, Whole, LoadEntity;
    var hierarchy := PersistNew(codec, e);
    loaded := LoadNew(codec, registry, hierarchy, e.key, initial);
  }

  method PersistNew(codec: Codec, e: Entity) returns (hierarchy: Tree)
    requires e.Valid() && Persist(codec, EMPTY, e.View(), "").Ok?
    ensures Persist(codec, EMPTY, e.View(), "") == Ok(hierarchy)
  {
    var persister := new EntityPersister(codec);
    persister.isOpen := true;
    var persisted := persister.PersistEntity(e);
    hierarchy := persister.hierarchy;
  }

  method LoadNew(codec: Codec, registry: Registry, hierarchy: Tree, key: Key, initial: Payload) returns (loaded: Entity)
    requires "" !in registry && LoadEntity(codec, registry, hierarchy, Fresh(key, initial)).Ok?
    ensures loaded.Valid() && fresh(loaded.Repr)
    ensures LoadEntity(codec, registry, hierarchy, Fresh(key, initial)) == Ok(loaded.View()) && AllAsBase(loaded)
  {
    var loader := new EntityLoader(codec, registry, hierarchy);
    loaded := new Entity(key, initial);
    var ok := loader.LoadEntityByKey(loaded);
  }

  /**
   What a loader has filled in can be copied, but the loader aggregates every member as a bare
   `Entity`, so the copy has lost all that the types of the members added: it shows the same tree
   exactly when they added nothing.
   */
  method LoadAndCopy(codec: Codec, registry: Registry, hierarchy: Tree, key: Key, initial: Payload)
    returns (loaded: Entity, copy: Result<Entity>)
    requires "" !in registry && LoadEntity(codec, registry, hierarchy, Fresh(key, initial)).Ok?
    ensures loaded.Valid() && LoadEntity(codec, registry, hierarchy, Fresh(key, initial)) == Ok(loaded.View())
    ensures copy.Ok? && copy.value.Valid() && copy.value.Repr !! loaded.Repr
    ensures copy.value.View() == Stripped(loaded.View())
    ensures copy.value.View() == loaded.View() <==> AllBare(loaded.View())
  {
    hide LoadEntity, AllAsBase, Stripped, AllBare, Copyable, CopyView, Solid, MarkOf;
    loaded := LoadNew(codec, registry, hierarchy, key, initial);
    AsBaseCopies(loaded);
    CopyableIsSolid(loaded);
    StrippedIff(loaded.View());
    copy := CopyConstruct(loaded);
  }

  lemma Addable(slots: seq<Slot>, below: set<Entity>, key: Key, e: Entity)
    requires ValidSlots(slots, below) && !SlotInUse(slots, key) && e.Valid() && e.Repr !! below
    ensures CanAdd(slots, below, Slot(key, e))
  {
  }

  /** Putting an object where a placeholder was keeps the tree shape. */
  lemma FillSlot(slots: seq<Slot>, below: set<Entity>, i: nat, e: Entity)
    requires ValidSlots(slots, below) && i < |slots| && slots[i].obj == null
    requires e.Valid() && e.Repr !! below
    ensures var r := slots[i := Slot(slots[i].key, e)];
      && ValidSlots(r, below + e.Repr)
      && SlotViews(r, below + e.Repr) == SlotViews(slots, below)[i := Loaded(slots[i].key, e.View())]
  {
    hide SlotViews;
    var r, wider := slots[i := Slot(slots[i].key, e)], below + e.Repr;
    FilledFits(slots, below, i, e);
    assert ValidSlots(r, wider) by {
      hide Less, FitsIn, Apart;
      assert forall j :: 0 <= j < |r| ==> r[j].key == slots[j].key;
    }
    hide ValidSlots, FitsIn, Apart;
    SlotViewsEach(slots, below);
    SlotViewsEach(r, wider);
    var v, w := SlotViews(slots, below), SlotViews(r, wider);
    forall j | 0 <= j < |r| ensures w[j] == v[i := Loaded(slots[i].key, e.View())][j] {
      assert w[j] == SlotView(r[j]) && v[j] == SlotView(slots[j]);
    }
  }

  lemma FilledFits(slots: seq<Slot>, below: set<Entity>, i: nat, e: Entity)
    requires ValidSlots(slots, below) && i < |slots| && slots[i].obj == null
    requires e.Valid() && e.Repr !! below
    ensures var r := slots[i := Slot(slots[i].key, e)];
      && (forall j :: 0 <= j < |r| ==> FitsIn(r[j], below + e.Repr))
      && forall j, k :: 0 <= j < k < |r| ==> Apart(r[j], r[k])
  {
    var r := slots[i := Slot(slots[i].key, e)];
    forall j | 0 <= j < |r|
      ensures FitsIn(r[j], below + e.Repr) && (j != i ==> Apart(r[j], r[i]) && Apart(r[i], r[j]))
    {
      assert FitsIn(slots[j], below);
    }
    forall j, k | 0 <= j < k < |r| ensures Apart(r[j], r[k]) {
      assert Apart(slots[j], slots[k]);
    }
  }
}
