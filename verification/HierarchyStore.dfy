/**
 Writing entity trees into a hierarchy and building them again.  The persister and the serializer
 share one algorithm, and so do the loader and the deserializer.  The latter of each hand `Save` and
 `Load` a file path made from the search path; the former hand them the database.
 */
module HierarchyStore {
  import opened Wrappers
  import opened PropertyTree
  import opened KeyPaths
  import opened EntityValues

  /**
   The virtual functions of the entity types.  `save` gives the node that `Save` fills in, which
   was empty before, for an entity at a search path; `load` gives the payload of an entity at a
   search path after `Load` has read a node.
   `storable` says which dynamic types derive from the adapter's entity interface.
   */
  datatype Codec =
    Codec(save: (Payload, string) -> Tree, load: (Payload, Tree, string) -> Payload, storable: string -> bool)

  /** The registered keys, each with the payload of a default-constructed entity of its type. */
  type Registry = map<Key, Payload>

  /** A freshly generated entity. */
  function Fresh(key: Key, payload: Payload): EntityTree { EntityTree(key, payload, []) }

  // ---- Writing, as the code does it ----

  /** `GetAggregatedMemberKeys<...>` keeps the members that are present and of a storable type. */
  predicate Kept(c: Codec, m: Member) {
    m.Loaded? && c.storable(m.entity.payload.kind)
  }

  /** `PersistWithParentKey` and `SerializeWithParentKey`: the hierarchy afterwards. */
  function Persist(c: Codec, h: Tree, e: EntityTree, parentKey: string): Result<Tree>
    decreases e, 1
  {
    if e.key == "" then Throw("runtime_error")
    else
      var path := SearchPath(parentKey, e.key);
      var h1 := PutChild(h, Split(path), EMPTY);
      var h2 := PutChild(h1, Split(path), c.save(e.payload, path));
      PersistMembers(c, h2, e.members, path)
  }

  function PersistMembers(c: Codec, h: Tree, members: seq<Member>, path: string): Result<Tree>
    decreases members, 0
  {
    if members == [] then Ok(h)
    else if !Kept(c, members[0]) then PersistMembers(c, h, members[1..], path)
    else
      var r := Persist(c, h, members[0].entity, path);
      if r.Throw? then r else PersistMembers(c, r.value, members[1..], path)
  }

  /**
   Writing an entity leaves the rest of the hierarchy alone, whatever the keys: only nodes at and
   below its own path change, and nodes above may gain one child.
   */
  lemma {:induction false} PersistSpares(c: Codec, h: Tree, e: EntityTree, parentKey: string)
    requires Persist(c, h, e, parentKey).Ok?
    ensures Spares(h, Persist(c, h, e, parentKey).value, Split(SearchPath(parentKey, e.key)))
    decreases e, 1
  {
    hide Spares, PutChild;
    var path := SearchPath(parentKey, e.key);
    var p := Split(path);
    var h1 := PutChild(h, p, EMPTY);
    var h2 := PutChild(h1, p, c.save(e.payload, path));
    PutSpares(h, p, EMPTY);
    PutSpares(h1, p, c.save(e.payload, path));
    assert p + [] == p;
    SparesMore(h, h1, h2, p, []);
    MembersSpare(c, h2, e.members, path);
    SparesMore(h, h2, Persist(c, h, e, parentKey).value, p, []);
  }

  lemma {:induction false} MembersSpare(c: Codec, h: Tree, members: seq<Member>, path: string)
    requires path != "" && PersistMembers(c, h, members, path).Ok?
    ensures Spares(h, PersistMembers(c, h, members, path).value, Split(path))
    decreases members, 0
  {
    hide Spares;
    if members == [] {
      SparesItself(h, Split(path));
    } else if !Kept(c, members[0]) {
      MembersSpare(c, h, members[1..], path);
    } else {
      var e := members[0].entity;
      var h1 := Persist(c, h, e, path).value;
      PersistSpares(c, h, e, path);
      var q := SplitExtends(path, e.key);
      SparesItself(h, Split(path));
      SparesMore(h, h, h1, Split(path), q);
      MembersSpare(c, h1, members[1..], path);
      assert Split(path) + [] == Split(path);
      SparesMore(h, h1, PersistMembers(c, h, members, path).value, Split(path), []);
    }
  }

  // ---- What has been written ----

  /** The node that stands for an entity: what `Save` wrote, with the images of the members put into it. */
  function Image(c: Codec, e: EntityTree, parentKey: string): Tree
    decreases e, 1
  {
    var path := SearchPath(parentKey, e.key);
    PutImages(c, c.save(e.payload, path), e.members, path)
  }

  function PutImages(c: Codec, t: Tree, members: seq<Member>, path: string): Tree
    decreases members, 0
  {
    if members == [] then t
    else if !Kept(c, members[0]) then PutImages(c, t, members[1..], path)
    else PutImages(c, Put(t, members[0].entity.key, Image(c, members[0].entity, path)), members[1..], path)
  }

  /** Every key that gets written is non-empty and free of dots. */
  predicate GoodKeys(c: Codec, e: EntityTree) {
    GoodKey(e.key) && forall m :: m in e.members && Kept(c, m) ==> GoodKeys(c, m.entity)
  }

  /** Writing an entity path by path amounts to putting its image at its own path, once. */
  lemma {:induction false} PersistPutsImage(c: Codec, h: Tree, e: EntityTree, p: Path)
    requires GoodKeys(c, e) && GoodPath(p)
    ensures Persist(c, h, e, PathOf(p)) == Ok(PutChild(h, p + [e.key], Image(c, e, PathOf(p))))
    decreases e, 1
  {
    var q := p + [e.key];
    PathOfSnoc(p, e.key);
    SplitOfPath(q);
    var node := c.save(e.payload, PathOf(q));
    PutTwice(h, q, EMPTY, node);
    MembersPutImages(c, h, q, node, e.members);
  }

  lemma {:induction false} MembersPutImages(c: Codec, h: Tree, q: Path, t: Tree, members: seq<Member>)
    requires GoodPath(q) && q != []
    requires forall m :: m in members && Kept(c, m) ==> GoodKeys(c, m.entity)
    ensures PersistMembers(c, PutChild(h, q, t), members, PathOf(q)) ==
            Ok(PutChild(h, q, PutImages(c, t, members, PathOf(q))))
    decreases members, 0
  {
    if members != [] {
      var m := members[0];
      assert m in members;
      if Kept(c, m) {
        var image := Image(c, m.entity, PathOf(q));
        PersistPutsImage(c, PutChild(h, q, t), m.entity, q);
        PutBelowPut(h, q, t, [m.entity.key], image);
        assert PutChild(t, [m.entity.key], image) == Put(t, m.entity.key, image);
        MembersPutImages(c, h, q, Put(t, m.entity.key, image), members[1..]);
      } else {
        MembersPutImages(c, h, q, t, members[1..]);
      }
    }
  }

  /** Writing the same entity again changes nothing, whatever the hierarchy held before. */
  lemma PersistTwice(c: Codec, h: Tree, e: EntityTree, p: Path)
    requires GoodKeys(c, e) && GoodPath(p)
    ensures var once := Persist(c, h, e, PathOf(p));
      once.Ok? && Persist(c, once.value, e, PathOf(p)) == once
  {
    PersistPutsImage(c, h, e, p);
    var image := Image(c, e, PathOf(p));
    PersistPutsImage(c, PutChild(h, p + [e.key], image), e, p);
    PutTwice(h, p + [e.key], image, image);
  }

  // ---- Building, as the code does it ----

  /** The node that `LoadWithParentKey` looks up, as a size that bounds the recursion. */
  function LookupSize(h: Tree, path: string): nat {
    var node := GetChild(h, Split(path));
    if node.Some? then Size(node.value) else 0
  }

  /** Every member is looked up again from the root of the hierarchy, strictly below its parent. */
  lemma LookupDescends(h: Tree, path: string, key: string)
    requires path != "" && key != "" && GetChild(h, Split(path)).Some?
    ensures LookupSize(h, SearchPath(path, key)) < LookupSize(h, path)
  {
    var q := SplitExtends(path, key);
    GetInSteps(h, Split(path), q);
    var node := GetChild(h, Split(path)).value;
    if GetChild(node, q).Some? {
      DescendantIsSmaller(node, q);
    }
  }

  /** `LoadWithParentKey`: the entity afterwards. */
  function Load(c: Codec, reg: Registry, h: Tree, e: EntityTree, parentKey: string): Result<EntityTree>
    requires "" !in reg
    decreases LookupSize(h, SearchPath(parentKey, e.key)), 1, 0
  {
    if e.key == "" then Throw("runtime_error")
    else
      var path := SearchPath(parentKey, e.key);
      var node := GetChild(h, Split(path));
      if node.None? then Throw("runtime_error")
      else LoadMembers(c, reg, h, e.(payload := c.load(e.payload, node.value, path)), path, node.value, 0)
  }

  /** The loop over the children of `node`, from child `i` on. */
  function LoadMembers(c: Codec, reg: Registry, h: Tree, e: EntityTree, path: string, node: Tree, i: nat)
    : Result<EntityTree>
    requires "" !in reg && path != "" && GetChild(h, Split(path)) == Some(node) && i <= |node.children|
    decreases LookupSize(h, path), 0, |node.children| - i
  {
    if i == |node.children| then Ok(e)
    else
      var key := node.children[i].key;
      if key !in reg then LoadMembers(c, reg, h, e, path, node, i + 1)
      else if InUse(e.members, key) then Throw("runtime_error")
      else
        LookupDescends(h, path, key);
        var child := Load(c, reg, h, Fresh(key, reg[key]), path);
        if child.Throw? then child
        else LoadMembers(c, reg, h, e.(members := Insert(e.members, Loaded(key, child.value))), path, node, i + 1)
  }

  /** `LoadEntity`: an entity whose key is not found is left alone. */
  function LoadEntity(c: Codec, reg: Registry, h: Tree, e: EntityTree): Result<EntityTree>
    requires "" !in reg
  {
    if e.key == "" then Throw("runtime_error")
    else
      var keyPath := GetKeyPath(e.key, h);
      if keyPath == "" then Ok(e) else Load(c, reg, h, e, GetParentKeyPath(keyPath))
  }

  // ---- What has been built ----

  /** The entity that a node at a place describes, by recursion on the node alone. */
  function Build(c: Codec, reg: Registry, e: EntityTree, node: Tree, parentKey: string): Result<EntityTree>
    decreases node, 1
  {
    var path := SearchPath(parentKey, e.key);
    BuildMembers(c, reg, e.(payload := c.load(e.payload, node, path)), node.children, path)
  }

  function BuildMembers(c: Codec, reg: Registry, e: EntityTree, children: seq<Child>, path: string): Result<EntityTree>
    decreases children, 0
  {
    if children == [] then Ok(e)
    else
      var key := children[0].key;
      if key !in reg then BuildMembers(c, reg, e, children[1..], path)
      else if InUse(e.members, key) then Throw("runtime_error")
      else
        var child := Build(c, reg, Fresh(key, reg[key]), children[0].node, path);
        if child.Throw? then child
        else BuildMembers(c, reg, e.(members := Insert(e.members, Loaded(key, child.value))), children[1..], path)
  }

  predicate GoodRegistry(reg: Registry) {
    forall key :: key in reg ==> GoodKey(key)
  }

  lemma InsertInUse(members: seq<Member>, m: Member)
    ensures InUse(Insert(members, m), m.key)
    ensures forall key :: InUse(members, key) ==> InUse(Insert(members, m), key)
  {
    var i := Position(members, m.key);
    var r := Insert(members, m);
    assert r[i] == m;
    forall key | InUse(members, key) ensures InUse(r, key) {
      var j :| 0 <= j < |members| && members[j].key == key;
      assert r[if j < i then j else j + 1] == members[j];
    }
  }

  /**
   Looking every member up again from the root gives what plain recursion on the node gives, in
   any hierarchy, as long as registered keys have no dots: a second sibling of the same name is
   never looked up, because aggregating it throws first.
   */
  lemma {:induction false} LoadIsBuild(c: Codec, reg: Registry, h: Tree, e: EntityTree, p: Path, node: Tree)
    requires GoodRegistry(reg) && GoodPath(p) && GoodKey(e.key)
    requires GetChild(h, p + [e.key]) == Some(node)
    ensures Load(c, reg, h, e, PathOf(p)) == Build(c, reg, e, node, PathOf(p))
    decreases node, 1, 0
  {
    PathOfSnoc(p, e.key);
    SplitOfPath(p + [e.key]);
    assert node.children[0..] == node.children;
    var q := p + [e.key];
    MembersAreBuilt(c, reg, h, e.(payload := c.load(e.payload, node, PathOf(q))), q, node, 0);
  }

  lemma {:induction false} MembersAreBuilt(c: Codec, reg: Registry, h: Tree, e: EntityTree, q: Path, node: Tree, i: nat)
    requires GoodRegistry(reg) && GoodPath(q) && q != [] && i <= |node.children|
    requires PathOf(q) != "" && Split(PathOf(q)) == q && GetChild(h, q) == Some(node)
    requires forall j :: 0 <= j < i && node.children[j].key in reg ==> InUse(e.members, node.children[j].key)
    ensures LoadMembers(c, reg, h, e, PathOf(q), node, i) == BuildMembers(c, reg, e, node.children[i..], PathOf(q))
    decreases node, 0, |node.children| - i
  {
    if i < |node.children| {
      var rest := node.children[i..];
      var key := node.children[i].key;
      assert rest[0] == node.children[i] && rest[1..] == node.children[i + 1..];
      if key !in reg {
        MembersAreBuilt(c, reg, h, e, q, node, i + 1);
      } else if !InUse(e.members, key) {
        FindIsFirst(node.children, key, i);
        GetInSteps(h, q, [key]);
        assert [key][1..] == [];
        assert GetChild(node, [key]) == Some(node.children[i].node);
        var newcomer := Fresh(key, reg[key]);
        LoadIsBuild(c, reg, h, newcomer, q, node.children[i].node);
        LookupDescends(h, PathOf(q), key);
        var child := Build(c, reg, newcomer, node.children[i].node, PathOf(q));
        if child.Ok? {
          InsertInUse(e.members, Loaded(key, child.value));
          MembersAreBuilt(c, reg, h, e.(members := Insert(e.members, Loaded(key, child.value))), q, node, i + 1);
        }
      }
    }
  }
}
