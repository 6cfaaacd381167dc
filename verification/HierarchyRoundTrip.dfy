/** Writing an entity tree and loading it back, eagerly or on demand. */
module HierarchyRoundTrip {
  import opened Wrappers
  import opened PropertyTree
  import opened KeyPaths
  import opened EntityValues
  import opened HierarchyStore

  function WithChildren(t: Tree, extra: seq<Child>): Tree { t.(children := t.children + extra) }

  predicate AllRegistered(reg: Registry, children: seq<Child>) {
    forall x :: x in children ==> x.key in reg
  }

  /**
   At one path, `Load` on an entity that starts from `initial` restores the payload `p` from what
   `Save` wrote, whatever members were put beside it, and `Save` uses no registered key of its own.
   */
  ghost predicate Restores(c: Codec, reg: Registry, initial: Payload, p: Payload, path: string) {
    && (forall x :: x in c.save(p, path).children ==> x.key !in reg)
    && forall extra :: AllRegistered(reg, extra) ==> c.load(initial, WithChildren(c.save(p, path), extra), path) == p
  }

  /** What the round trip asks of an entity tree whose root is loaded into a payload `initial`. */
  ghost predicate Loadable(c: Codec, reg: Registry, initial: Payload, e: EntityTree, parentKey: string)
    decreases e
  {
    var path := SearchPath(parentKey, e.key);
    && Restores(c, reg, initial, e.payload, path)
    && Sorted(e.members)
    && forall m :: m in e.members && Kept(c, m) ==>
         m.key == m.entity.key && m.key in reg && Loadable(c, reg, reg[m.key], m.entity, path)
  }

  /**
   A codec of the usual kind meets this: it puts the fields under one key of the node and reads
   them back, as a type that calls `put(field, value)` and `get_child(field)` does.
   */
  function FieldCodec(field: string): Codec {
    Codec((p: Payload, path: string) => Tree("", [Child(field, Tree(p.fields, []))]),
          (initial: Payload, t: Tree, path: string) => Payload(initial.kind, Below(t, field).data),
          (kind: string) => true)
  }

  lemma FieldCodecRestores(field: string, reg: Registry, initial: Payload, p: Payload, path: string)
    requires field !in reg && initial.kind == p.kind
    ensures Restores(FieldCodec(field), reg, initial, p, path)
  {
    var c := FieldCodec(field);
    forall extra | AllRegistered(reg, extra) ensures c.load(initial, WithChildren(c.save(p, path), extra), path) == p {
      var t := WithChildren(c.save(p, path), extra);
      assert t.children[0] == Child(field, Tree(p.fields, []));
    }
  }

  /** Registered keys give entities of the types that are stored under them. */
  predicate RegisteredAs(reg: Registry, e: EntityTree) {
    && Sorted(e.members)
    && forall m :: m in e.members && m.Loaded? ==>
         && m.key == m.entity.key && m.key in reg
         && reg[m.key].kind == m.entity.payload.kind && RegisteredAs(reg, m.entity)
  }

  /** With such a codec everything can be loaded back, if keys are registered for the right types. */
  lemma {:induction false} FieldCodecLoads(
    field: string, reg: Registry, initial: Payload, e: EntityTree, parentKey: string)
    requires field !in reg && initial.kind == e.payload.kind && RegisteredAs(reg, e)
    ensures Loadable(FieldCodec(field), reg, initial, e, parentKey)
    decreases e
  {
    var c, path := FieldCodec(field), SearchPath(parentKey, e.key);
    FieldCodecRestores(field, reg, initial, e.payload, path);
    forall m | m in e.members && Kept(c, m) ensures Loadable(c, reg, reg[m.key], m.entity, path) {
      FieldCodecLoads(field, reg, reg[m.key], m.entity, path);
    }
  }

  /** The tree without placeholders and without members the adapter does not store. */
  function Prune(c: Codec, e: EntityTree): EntityTree
    decreases e, 1
  {
    EntityTree(e.key, e.payload, PruneMembers(c, e.members))
  }

  function PruneMembers(c: Codec, members: seq<Member>): seq<Member>
    decreases members, 0
  {
    if members == [] then []
    else if !Kept(c, members[0]) then PruneMembers(c, members[1..])
    else [Loaded(members[0].key, Prune(c, members[0].entity))] + PruneMembers(c, members[1..])
  }

  /** What is written of an entity's members: those that are there and of a storable type, and no others. */
  lemma {:induction false} WrittenMembers(c: Codec, members: seq<Member>, path: string)
    ensures forall x :: x in Images(c, members, path) <==>
      exists m :: m in members && m.Loaded? && c.storable(m.entity.payload.kind)
                  && x == Child(m.entity.key, Image(c, m.entity, path))
    ensures forall n :: n in PruneMembers(c, members) <==>
      exists m :: m in members && m.Loaded? && c.storable(m.entity.payload.kind)
                  && n == Loaded(m.key, Prune(c, m.entity))
    decreases members
  {
    hide Image, Prune;
    if members != [] {
      var rest := members[1..];
      WrittenMembers(c, rest, path);
      assert members == [members[0]] + rest;
      assert forall m :: m in members <==> m == members[0] || m in rest;
    }
  }

  /** Nothing in the tree is a placeholder or not storable. */
  predicate Whole(c: Codec, e: EntityTree) {
    forall m :: m in e.members ==> Kept(c, m) && Whole(c, m.entity)
  }

  lemma {:induction false} WholeIsUnpruned(c: Codec, e: EntityTree)
    ensures Prune(c, e) == e <==> Whole(c, e)
    decreases e, 1
  {
    WholeMembers(c, e.members);
  }

  lemma {:induction false} WholeMembers(c: Codec, members: seq<Member>)
    ensures |PruneMembers(c, members)| <= |members|
    ensures PruneMembers(c, members) == members <==> forall m :: m in members ==> Kept(c, m) && Whole(c, m.entity)
    decreases members, 0
  {
    if members != [] {
      var m := members[0];
      WholeMembers(c, members[1..]);
      assert members == [m] + members[1..];
      assert forall x :: x in members <==> x == m || x in members[1..];
      if Kept(c, m) {
        WholeIsUnpruned(c, m.entity);
        var pruned := PruneMembers(c, members);
        assert pruned[0] == Loaded(m.key, Prune(c, m.entity)) && pruned[1..] == PruneMembers(c, members[1..]);
      }
    }
  }

  /** The children that stand for the members. */
  function Images(c: Codec, members: seq<Member>, path: string): (r: seq<Child>)
    ensures forall x :: x in r ==> exists m :: m in members && Kept(c, m) && x.key == m.entity.key
  {
    if members == [] then []
    else if !Kept(c, members[0]) then Images(c, members[1..], path)
    else [Child(members[0].entity.key, Image(c, members[0].entity, path))] + Images(c, members[1..], path)
  }

  ghost predicate MembersLoadable(c: Codec, reg: Registry, members: seq<Member>, path: string) {
    && Sorted(members)
    && forall m :: m in members && Kept(c, m) ==>
         m.key == m.entity.key && m.key in reg && Loadable(c, reg, reg[m.key], m.entity, path)
  }

  /** Members with keys of their own are appended, in map order. */
  lemma {:induction false} ImagesAreAppended(c: Codec, reg: Registry, t: Tree, members: seq<Member>, path: string)
    requires MembersLoadable(c, reg, members, path)
    requires forall x, m :: x in t.children && m in members && Kept(c, m) ==> x.key != m.key
    ensures PutImages(c, t, members, path) == WithChildren(t, Images(c, members, path))
    decreases |members|
  {
    if members == [] {
      assert t.children + [] == t.children;
    } else {
      var m := members[0];
      assert m in members && Sorted(members[1..]);
      if Kept(c, m) {
        var image := Child(m.key, Image(c, m.entity, path));
        assert Find(t.children, m.key) == |t.children|;
        var t1 := Put(t, m.key, image.node);
        assert t1.children == t.children + [image];
        forall x, n | x in t1.children && n in members[1..] && Kept(c, n) ensures x.key != n.key {
          if x == image { LessIsStrict(m.key, n.key); }
        }
        ImagesAreAppended(c, reg, t1, members[1..], path);
        var rest := Images(c, members[1..], path);
        assert (t.children + [image]) + rest == t.children + ([image] + rest);
      } else {
        ImagesAreAppended(c, reg, t, members[1..], path);
      }
    }
  }

  lemma ImageShape(c: Codec, reg: Registry, initial: Payload, e: EntityTree, parentKey: string)
    requires Loadable(c, reg, initial, e, parentKey)
    ensures var path := SearchPath(parentKey, e.key);
      && Image(c, e, parentKey) == WithChildren(c.save(e.payload, path), Images(c, e.members, path))
      && AllRegistered(reg, Images(c, e.members, path))
  {
    var path := SearchPath(parentKey, e.key);
    ImagesAreAppended(c, reg, c.save(e.payload, path), e.members, path);
  }

  /** Building from the image gives the tree back, without what was not stored. */
  lemma {:induction false} BuildUndoesImage(c: Codec, reg: Registry, initial: Payload, e: EntityTree, parentKey: string)
    requires Loadable(c, reg, initial, e, parentKey)
    ensures Build(c, reg, Fresh(e.key, initial), Image(c, e, parentKey), parentKey) == Ok(Prune(c, e))
    decreases e, 1
  {
    ImageShape(c, reg, initial, e, parentKey);
    var path := SearchPath(parentKey, e.key);
    var start := EntityTree(e.key, e.payload, []);
    BuildSkips(c, reg, start, c.save(e.payload, path).children, Images(c, e.members, path), path);
    BuildImages(c, reg, start, e.members, path);
    assert [] + PruneMembers(c, e.members) == PruneMembers(c, e.members);
  }

  /** The fields that `Save` wrote are no registered keys and are passed over. */
  lemma {:induction false} BuildSkips(c: Codec, reg: Registry, e: EntityTree, fields: seq<Child>, rest: seq<Child>,
                                      path: string)
    requires forall x :: x in fields ==> x.key !in reg
    ensures BuildMembers(c, reg, e, fields + rest, path) == BuildMembers(c, reg, e, rest, path)
  {
    if fields == [] {
      assert fields + rest == rest;
    } else {
      assert (fields + rest)[1..] == fields[1..] + rest;
      BuildSkips(c, reg, e, fields[1..], rest, path);
    }
  }

  ghost predicate Precede(e: EntityTree, members: seq<Member>) {
    forall x, m :: x in e.members && m in members ==> Less(x.key, m.key)
  }

  lemma LoadableTail(c: Codec, reg: Registry, e: EntityTree, members: seq<Member>, path: string)
    requires members != [] && MembersLoadable(c, reg, members, path) && Precede(e, members)
    ensures var m, rest := members[0], members[1..];
      && MembersLoadable(c, reg, rest, path) && Precede(e, rest)
      && (forall x :: x in e.members ==> Less(x.key, m.key))
      && (Kept(c, m) ==>
            m.Loaded? && m.key == m.entity.key && m.key in reg && Loadable(c, reg, reg[m.key], m.entity, path))
      && (forall last: Member :: last.key == m.key ==> Precede(e.(members := e.members + [last]), rest))
  {
    hide Loadable, Less;
    assert members[0] in members;
  }

  lemma {:induction false} BuildImages(c: Codec, reg: Registry, e: EntityTree, members: seq<Member>, path: string)
    requires MembersLoadable(c, reg, members, path) && Precede(e, members)
    ensures BuildMembers(c, reg, e, Images(c, members, path), path) ==
            Ok(e.(members := e.members + PruneMembers(c, members)))
    decreases members, 0
  {
    hide *;
    if members == [] {
      NothingToBuild(c, reg, e, path);
    } else {
      var m, rest := members[0], members[1..];
      LoadableTail(c, reg, e, members, path);
      OneMember(c, members, path);
      if Kept(c, m) {
        BuildUndoesImage(c, reg, reg[m.key], m.entity, path);
        BuildOne(c, reg, e, m, Images(c, rest, path), path);
        var built := Loaded(m.key, Prune(c, m.entity));
        BuildImages(c, reg, e.(members := e.members + [built]), rest, path);
        assert (e.members + [built]) + PruneMembers(c, rest) == e.members + ([built] + PruneMembers(c, rest));
      } else {
        BuildImages(c, reg, e, rest, path);
      }
    }
  }

  lemma NothingToBuild(c: Codec, reg: Registry, e: EntityTree, path: string)
    ensures BuildMembers(c, reg, e, Images(c, [], path), path) == Ok(e.(members := e.members + PruneMembers(c, [])))
  {
    assert e.members + [] == e.members;
  }

  lemma OneMember(c: Codec, members: seq<Member>, path: string)
    requires members != []
    ensures var m, rest := members[0], members[1..];
      && Images(c, members, path) ==
           (if Kept(c, m) then [Child(m.entity.key, Image(c, m.entity, path))] + Images(c, rest, path)
            else Images(c, rest, path))
      && PruneMembers(c, members) ==
           (if Kept(c, m) then [Loaded(m.key, Prune(c, m.entity))] + PruneMembers(c, rest) else PruneMembers(c, rest))
      && (Kept(c, m) ==> m.Loaded?)
  {
  }

  /** One round of the loader's loop, on the image of a member. */
  lemma BuildOne(c: Codec, reg: Registry, e: EntityTree, m: Member, rest: seq<Child>, path: string)
    requires Kept(c, m) && m.key == m.entity.key && m.key in reg
    requires forall x :: x in e.members ==> Less(x.key, m.key)
    requires Build(c, reg, Fresh(m.key, reg[m.key]), Image(c, m.entity, path), path) == Ok(Prune(c, m.entity))
    ensures BuildMembers(c, reg, e, [Child(m.key, Image(c, m.entity, path))] + rest, path) ==
            BuildMembers(c, reg, e.(members := e.members + [Loaded(m.key, Prune(c, m.entity))]), rest, path)
  {
    hide Build, Image, Prune;
    var cs := [Child(m.key, Image(c, m.entity, path))] + rest;
    assert cs[1..] == rest && cs[0].key == m.key;
    InsertLast(e.members, Loaded(m.key, Prune(c, m.entity)));
  }

  /**
   Round trip: persist below any good parent path of any hierarchy, then load a fresh entity of
   the same key from there.  What comes back is the tree without its placeholders and unstorable
   members; it is the tree itself exactly when there were none.
   */
  lemma PersistThenLoad(c: Codec, reg: Registry, h: Tree, p: Path, initial: Payload, e: EntityTree)
    requires GoodRegistry(reg) && GoodPath(p) && GoodKeys(c, e) && Loadable(c, reg, initial, e, PathOf(p))
    ensures var saved := Persist(c, h, e, PathOf(p));
      saved.Ok? && Load(c, reg, saved.value, Fresh(e.key, initial), PathOf(p)) == Ok(Prune(c, e))
    ensures Prune(c, e) == e <==> Whole(c, e)
  {
    PersistPutsImage(c, h, e, p);
    var q := p + [e.key];
    var image := Image(c, e, PathOf(p));
    GetAfterPut(h, q, image);
    LoadIsBuild(c, reg, PutChild(h, q, image), Fresh(e.key, initial), p, image);
    BuildUndoesImage(c, reg, initial, e, PathOf(p));
    WholeIsUnpruned(c, e);
  }

  /** The public calls: `Persist` into an empty hierarchy, then `LoadEntity` on a fresh root. */
  lemma PersistThenLoadEntity(c: Codec, reg: Registry, initial: Payload, e: EntityTree)
    requires GoodRegistry(reg) && GoodKeys(c, e) && Loadable(c, reg, initial, e, "")
    ensures var saved := Persist(c, EMPTY, e, "");
      saved.Ok? && LoadEntity(c, reg, saved.value, Fresh(e.key, initial)) == Ok(Prune(c, e))
    ensures Prune(c, e) == e <==> Whole(c, e)
  {
    PersistThenLoad(c, reg, EMPTY, [], initial, e);
    PersistPutsImage(c, EMPTY, e, []);
    var saved := PutChild(EMPTY, [e.key], Image(c, e, ""));
    assert saved.children == [Child(e.key, Image(c, e, ""))];
    assert [] + [e.key] == [e.key];
    assert GetKeyPath(e.key, saved) == e.key;
    assert LastDot(e.key) == -1;
  }

  // ---- Loading on demand ----

  /**
   In a tidy hierarchy `LoadEntity` builds the entity from the first node in preorder that has
   its key, wherever in the hierarchy that is.
   */
  lemma LoadEntityBuildsFirst(c: Codec, reg: Registry, h: Tree, e: EntityTree)
    requires GoodRegistry(reg) && Tidy(h) && GoodKey(e.key)
    ensures var first := FirstPlace(e.key, Preorder(h.children));
      LoadEntity(c, reg, h, e) ==
        if first.None? then Ok(e) else Build(c, reg, e, first.value.node, PathOf(ParentOf(first.value)))
  {
    SearchLeadsToFirst(e.key, h);
    var places := Preorder(h.children);
    var first := FirstPlace(e.key, places);
    if first.Some? {
      PlaceIsFirst(e.key, places);
      LoadFrom(c, reg, h, e, first.value);
    }
  }

  lemma LoadFrom(c: Codec, reg: Registry, h: Tree, e: EntityTree, x: Place)
    requires GoodRegistry(reg) && GoodKey(e.key)
    requires GoodPath(x.path) && x.path != [] && PlaceKey(x) == e.key && GetChild(h, x.path) == Some(x.node)
    ensures Load(c, reg, h, e, PathOf(ParentOf(x))) == Build(c, reg, e, x.node, PathOf(ParentOf(x)))
  {
    var front := ParentOf(x);
    assert x.path == front + [e.key] && GoodPath(front);
    LoadIsBuild(c, reg, h, e, front, x.node);
  }

  /** `key` names one place in the hierarchy only. */
  ghost predicate UniqueKey(h: Tree, key: string) {
    var places := Preorder(h.children);
    forall i, j :: 0 <= i < |places| && 0 <= j < |places| && PlaceKey(places[i]) == PlaceKey(places[j]) == key ==>
      i == j
  }

  /** When a key unique in a tidy hierarchy is a child of a node, loading by key loads from there. */
  lemma LazyLoadsSamePlace(c: Codec, reg: Registry, h: Tree, parent: Path, key: Key, node: Tree)
    requires GoodRegistry(reg) && Tidy(h) && GoodPath(parent) && key in reg
    requires GetChild(h, parent + [key]) == Some(node) && UniqueKey(h, key)
    ensures LoadEntity(c, reg, h, Fresh(key, reg[key])) == Load(c, reg, h, Fresh(key, reg[key]), PathOf(parent))
  {
    var newcomer := Fresh(key, reg[key]);
    LoadEntityBuildsFirst(c, reg, h, newcomer);
    LoadIsBuild(c, reg, h, newcomer, parent, node);
    PathIsPlace(h.children, h, parent + [key], node);
    var places := Preorder(h.children);
    var first := FirstPlace(key, places);
    var x := Place(parent + [key], node);
    assert PlaceKey(x) == key;
    var i :| 0 <= i < |places| && places[i] == x;
    FirstPlaceIsFirst(key, places);
    var j :| 0 <= j < |places| && places[j] == first.value && PlaceKey(places[j]) == key;
    assert i == j;
  }

  lemma InsertKeeps(members: seq<Member>, m: Member)
    ensures forall x :: x in Insert(members, m) <==> x == m || x in members
  {
    var i := Position(members, m.key);
    var r := Insert(members, m);
    assert r[i] == m && members == members[..i] + members[i..];
  }

  /** A member that is there stays while the remaining children are loaded. */
  lemma {:induction false} MembersStay(
    c: Codec, reg: Registry, h: Tree, e: EntityTree, path: string, node: Tree, i: nat, m: Member)
    requires "" !in reg && path != "" && GetChild(h, Split(path)) == Some(node) && i <= |node.children|
    requires m in e.members
    ensures var r := LoadMembers(c, reg, h, e, path, node, i); r.Ok? ==> m in r.value.members
    decreases |node.children| - i
  {
    hide Load, Insert, InUse;
    if i < |node.children| {
      var key := node.children[i].key;
      if key !in reg {
        MembersStay(c, reg, h, e, path, node, i + 1, m);
      } else if !InUse(e.members, key) {
        LookupDescends(h, path, key);
        var child := Load(c, reg, h, Fresh(key, reg[key]), path);
        if child.Ok? {
          var x := Loaded(key, child.value);
          InsertKeeps(e.members, x);
          MembersStay(c, reg, h, e.(members := Insert(e.members, x)), path, node, i + 1, m);
        }
      }
    }
  }

  /** Every registered child of a node that loads becomes a member. */
  lemma {:induction false} ChildrenAttach(
    c: Codec, reg: Registry, h: Tree, e: EntityTree, path: string, node: Tree, i: nat, j: nat)
    requires "" !in reg && path != "" && GetChild(h, Split(path)) == Some(node)
    requires i <= j < |node.children| && node.children[j].key in reg
    ensures var key := node.children[j].key;
      var r, child := LoadMembers(c, reg, h, e, path, node, i), Load(c, reg, h, Fresh(key, reg[key]), path);
      r.Ok? ==> child.Ok? && Loaded(key, child.value) in r.value.members
    decreases |node.children| - i
  {
    hide Load, Insert, InUse;
    var key := node.children[i].key;
    if key !in reg {
      ChildrenAttach(c, reg, h, e, path, node, i + 1, j);
    } else if !InUse(e.members, key) {
      LookupDescends(h, path, key);
      var child := Load(c, reg, h, Fresh(key, reg[key]), path);
      if child.Ok? {
        var x := Loaded(key, child.value);
        var f := e.(members := Insert(e.members, x));
        if i == j {
          InsertKeeps(e.members, x);
          MembersStay(c, reg, h, f, path, node, i + 1, x);
        } else {
          ChildrenAttach(c, reg, h, f, path, node, i + 1, j);
        }
      }
    }
  }

  /** `key` is registered, and `m` is the member that it gets at a path. */
  predicate IsAttached(c: Codec, reg: Registry, h: Tree, path: string, key: Key, m: Member)
    requires "" !in reg
  {
    && key in reg && Load(c, reg, h, Fresh(key, reg[key]), path).Ok?
    && m == Loaded(key, Load(c, reg, h, Fresh(key, reg[key]), path).value)
  }

  /** Nothing else becomes a member, and nothing else changes. */
  lemma {:induction false} OnlyChildrenAttach(
    c: Codec, reg: Registry, h: Tree, e: EntityTree, path: string, node: Tree, i: nat, m: Member)
    requires "" !in reg && path != "" && GetChild(h, Split(path)) == Some(node) && i <= |node.children|
    requires var r := LoadMembers(c, reg, h, e, path, node, i); r.Ok? && m in r.value.members
    ensures
      m in e.members ||
      exists j :: i <= j < |node.children| && IsAttached(c, reg, h, path, node.children[j].key, m)
    decreases |node.children| - i
  {
    hide Load, Insert, InUse;
    if i < |node.children| {
      var key := node.children[i].key;
      if key !in reg {
        OnlyChildrenAttach(c, reg, h, e, path, node, i + 1, m);
      } else {
        LookupDescends(h, path, key);
        var x := Loaded(key, Load(c, reg, h, Fresh(key, reg[key]), path).value);
        InsertKeeps(e.members, x);
        OnlyChildrenAttach(c, reg, h, e.(members := Insert(e.members, x)), path, node, i + 1, m);
        if m == x { assert IsAttached(c, reg, h, path, node.children[i].key, m); }
      }
    }
  }

  lemma {:induction false} LoadMembersKeepsRest(
    c: Codec, reg: Registry, h: Tree, e: EntityTree, path: string, node: Tree, i: nat)
    requires "" !in reg && path != "" && GetChild(h, Split(path)) == Some(node) && i <= |node.children|
    ensures var r := LoadMembers(c, reg, h, e, path, node, i);
      r.Ok? ==> r.value.key == e.key && r.value.payload == e.payload
    decreases |node.children| - i
  {
    hide Load, Insert, InUse;
    if i < |node.children| {
      var key := node.children[i].key;
      if key !in reg {
        LoadMembersKeepsRest(c, reg, h, e, path, node, i + 1);
      } else if !InUse(e.members, key) {
        LookupDescends(h, path, key);
        var child := Load(c, reg, h, Fresh(key, reg[key]), path);
        if child.Ok? {
          var x := Loaded(key, child.value);
          LoadMembersKeepsRest(c, reg, h, e.(members := Insert(e.members, x)), path, node, i + 1);
        }
      }
    }
  }

  /**
   What loading gives, in any hierarchy and for any entity: `Load` has read the node at the search
   path, the members that were there are still there, every registered child of the node has become
   a member, loaded from its own place, and there are no others.
   */
  lemma LoadGives(c: Codec, reg: Registry, h: Tree, e: EntityTree, parentKey: string)
    requires "" !in reg && Load(c, reg, h, e, parentKey).Ok?
    ensures var r, path := Load(c, reg, h, e, parentKey).value, SearchPath(parentKey, e.key);
      var found := GetChild(h, Split(path));
      && e.key != "" && found.Some?
      && r.key == e.key && r.payload == c.load(e.payload, found.value, path)
      && forall m :: m in r.members <==>
           m in e.members
           || exists j :: 0 <= j < |found.value.children| && IsAttached(c, reg, h, path, found.value.children[j].key, m)
  {
    var r, path := Load(c, reg, h, e, parentKey).value, SearchPath(parentKey, e.key);
    var node := GetChild(h, Split(path)).value;
    var start := e.(payload := c.load(e.payload, node, path));
    assert Ok(r) == LoadMembers(c, reg, h, start, path, node, 0);
    LoadMembersKeepsRest(c, reg, h, start, path, node, 0);
    hide LoadMembers, Load;
    forall m
      ensures m in r.members <==>
        m in e.members || exists j :: 0 <= j < |node.children| && IsAttached(c, reg, h, path, node.children[j].key, m)
    {
      if m in r.members { OnlyChildrenAttach(c, reg, h, start, path, node, 0, m); }
      if m in e.members { MembersStay(c, reg, h, start, path, node, 0, m); }
      if j :| 0 <= j < |node.children| && IsAttached(c, reg, h, path, node.children[j].key, m) {
        ChildrenAttach(c, reg, h, start, path, node, 0, j);
      }
    }
  }

  /**
   Lazy refines eager: wherever in a tidy hierarchy a parent is loaded from, if its node has a
   registered child with a key unique in the hierarchy, then the member that the parent gets is the
   entity that loading by this key alone gives.
   */
  lemma LazyIsEager(c: Codec, reg: Registry, h: Tree, p: Path, parent: EntityTree, key: Key, node: Tree)
    requires GoodRegistry(reg) && Tidy(h) && GoodPath(p) && GoodKey(parent.key) && key in reg
    requires GetChild(h, p + [parent.key] + [key]) == Some(node) && UniqueKey(h, key)
    ensures var eager, lazy := Load(c, reg, h, parent, PathOf(p)), LoadEntity(c, reg, h, Fresh(key, reg[key]));
      eager.Ok? ==> lazy.Ok? && Loaded(key, lazy.value) in eager.value.members
  {
    var q := p + [parent.key];
    LazyLoadsSamePlace(c, reg, h, q, key, node);
    PathOfSnoc(p, parent.key);
    SplitOfPath(q);
    GetInSteps(h, q, [key]);
    var above := GetChild(h, q).value;
    var e := parent.(payload := c.load(parent.payload, above, PathOf(q)));
    ChildrenAttach(c, reg, h, e, PathOf(q), above, 0, Find(above.children, key));
  }

  /** What a path leads to is among the places. */
  lemma {:induction false} PathIsPlace(children: seq<Child>, t: Tree, p: Path, node: Tree)
    requires p != [] && GetChild(t, p) == Some(node) && children == t.children
    ensures Place(p, node) in Preorder(children)
    decreases |p|
  {
    var i := Find(children, p[0]);
    var c := children[i];
    if |p| == 1 {
      assert p == [p[0]];
      ChildPlaces(children, i, 0);
    } else {
      PathIsPlace(c.node.children, c.node, p[1..], node);
      var inner := Preorder(c.node.children);
      var j :| 0 <= j < |inner| && inner[j] == Place(p[1..], node);
      assert [p[0]] + p[1..] == p;
      ChildPlaces(children, i, j);
    }
  }

  lemma {:induction false} ChildPlaces(children: seq<Child>, i: nat, j: nat)
    requires i < |children|
    ensures var c := children[i];
      && Place([c.key], c.node) in Preorder(children)
      && (j < |Preorder(c.node.children)| ==>
            Place([c.key] + Preorder(c.node.children)[j].path, Preorder(c.node.children)[j].node) in Preorder(children))
  {
    var c := children[0];
    var under := Under(c.key, Preorder(c.node.children));
    var all := Preorder(children);
    if i > 0 {
      ChildPlaces(children[1..], i - 1, j);
      assert forall x :: x in Preorder(children[1..]) ==> x in all;
    } else {
      assert all[0] == Place([c.key], c.node);
      assert forall k :: 0 <= k < |under| ==> all[1 + k] == under[k];
    }
  }
}
