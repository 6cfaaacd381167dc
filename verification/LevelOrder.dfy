/** Streaming an entity tree: a queue of entities gives the tree level by level. */
module LevelOrder {
  import opened EntityValues
  import opened Entities

  const DELIM := ":"

  /** What the entity types contribute: which derive from the streamable interface, and `ToString`. */
  datatype StreamType = StreamType(streamable: string -> bool, render: Payload -> string)

  // ---- The levels of a tree ----

  /** The members present, in map order. */
  function Present(members: seq<Member>): seq<EntityTree> {
    if members == [] then []
    else if members[0].Loaded? then [members[0].entity] + Present(members[1..])
    else Present(members[1..])
  }

  /** The nodes of `t` at depth `d`, from left to right. */
  function AtDepth(t: EntityTree, d: nat): seq<EntityTree>
    decreases t, 1
  {
    if d == 0 then [t] else AllAtDepth(t.members, d - 1)
  }

  function AllAtDepth(members: seq<Member>, d: nat): seq<EntityTree>
    decreases members, 0
  {
    if members == [] then []
    else if members[0].Loaded? then AtDepth(members[0].entity, d) + AllAtDepth(members[1..], d)
    else AllAtDepth(members[1..], d)
  }

  function Height(t: EntityTree): nat
    decreases t, 1
  {
    HeightAll(t.members)
  }

  /** The number of levels below the root. */
  function HeightAll(members: seq<Member>): nat
    decreases members, 0
  {
    if members == [] then 0
    else
      var h := if members[0].Loaded? then 1 + Height(members[0].entity) else 0;
      var rest := HeightAll(members[1..]);
      if h > rest then h else rest
  }

  /** Levels `0` to `n - 1`, one after the other. */
  function Levels(t: EntityTree, n: nat): seq<EntityTree> {
    if n == 0 then [] else Levels(t, n - 1) + AtDepth(t, n - 1)
  }

  function LevelOrder(t: EntityTree): seq<EntityTree> { Levels(t, Height(t) + 1) }

  // ---- The queue ----

  function NodesIn(t: EntityTree): nat
    decreases t, 1
  {
    1 + NodesInAll(t.members)
  }

  function NodesInAll(members: seq<Member>): nat
    decreases members, 0
  {
    if members == [] then 0
    else (if members[0].Loaded? then NodesIn(members[0].entity) else 0) + NodesInAll(members[1..])
  }

  /** The total number of nodes of the queued subtrees. */
  function Queued(que: seq<EntityTree>): nat {
    if que == [] then 0 else NodesIn(que[0]) + Queued(que[1..])
  }

  lemma {:induction false} QueuedAppend(a: seq<EntityTree>, b: seq<EntityTree>)
    ensures Queued(a + b) == Queued(a) + Queued(b)
  {
    if a == [] {
      assert a + b == b;
    } else {
      assert (a + b)[1..] == a[1..] + b;
      QueuedAppend(a[1..], b);
    }
  }

  lemma {:induction false} QueuedPresent(members: seq<Member>)
    ensures Queued(Present(members)) == NodesInAll(members)
  {
    if members != [] {
      QueuedPresent(members[1..]);
      if members[0].Loaded? {
        assert Present(members)[1..] == Present(members[1..]);
      }
    }
  }

  lemma QueueShrinks(que: seq<EntityTree>)
    requires que != []
    ensures Queued(que[1..] + Present(que[0].members)) == Queued(que) - 1
  {
    QueuedAppend(que[1..], Present(que[0].members));
    QueuedPresent(que[0].members);
  }

  /** The entities in the order in which the loop takes them from the queue. */
  function Taken(que: seq<EntityTree>): seq<EntityTree>
    decreases Queued(que)
  {
    if que == [] then []
    else
      QueueShrinks(que);
      [que[0]] + Taken(que[1..] + Present(que[0].members))
  }

  function NextLevel(que: seq<EntityTree>): seq<EntityTree> {
    if que == [] then [] else Present(que[0].members) + NextLevel(que[1..])
  }

  lemma TakenStep(que: seq<EntityTree>)
    requires que != []
    ensures Taken(que) == [que[0]] + Taken(que[1..] + Present(que[0].members))
  {
  }

  lemma NextLevelStep(que: seq<EntityTree>)
    requires que != []
    ensures NextLevel(que) == Present(que[0].members) + NextLevel(que[1..])
  {
  }

  /** The loop empties one level while it fills in the next. */
  lemma {:induction false} LevelByLevel(level: seq<EntityTree>, next: seq<EntityTree>)
    ensures Taken(level + next) == level + Taken(next + NextLevel(level))
  {
    if level == [] {
      assert level + next == next && next + [] == next;
    } else {
      var que := level + next;
      var kids := Present(level[0].members);
      TakenStep(que);
      NextLevelStep(level);
      hide Taken, Present, NextLevel;
      assert que[1..] + kids == level[1..] + (next + kids);
      LevelByLevel(level[1..], next + kids);
      assert (next + kids) + NextLevel(level[1..]) == next + NextLevel(level);
      var rest := Taken(next + NextLevel(level));
      assert [level[0]] + (level[1..] + rest) == level + rest;
    }
  }

  /** The nodes at depth `d` below any of `que`. */
  function ForestAt(que: seq<EntityTree>, d: nat): seq<EntityTree> {
    if que == [] then [] else AtDepth(que[0], d) + ForestAt(que[1..], d)
  }

  function ForestLevels(que: seq<EntityTree>, d: nat, n: nat): seq<EntityTree>
    decreases n
  {
    if n == 0 then [] else ForestAt(que, d) + ForestLevels(que, d + 1, n - 1)
  }

  lemma {:induction false} ForestAppend(a: seq<EntityTree>, b: seq<EntityTree>, d: nat)
    ensures ForestAt(a + b, d) == ForestAt(a, d) + ForestAt(b, d)
  {
    if a == [] {
      assert a + b == b;
    } else {
      assert (a + b)[1..] == a[1..] + b;
      ForestAppend(a[1..], b, d);
    }
  }

  lemma {:induction false} ForestOfPresent(members: seq<Member>, d: nat)
    ensures ForestAt(Present(members), d) == AllAtDepth(members, d)
  {
    if members != [] {
      ForestOfPresent(members[1..], d);
      if members[0].Loaded? {
        assert Present(members)[1..] == Present(members[1..]);
      }
    }
  }

  lemma {:induction false} ForestOneDown(que: seq<EntityTree>, d: nat)
    ensures ForestAt(que, d + 1) == ForestAt(NextLevel(que), d)
    ensures ForestAt(que, 0) == que
  {
    if que != [] {
      var t := que[0];
      ForestOneDown(que[1..], d);
      ForestAppend(Present(t.members), NextLevel(que[1..]), d);
      ForestOfPresent(t.members, d);
      assert AtDepth(t, 0) == [t];
    }
  }

  lemma {:induction false} LevelsOneDown(que: seq<EntityTree>, d: nat, n: nat)
    ensures ForestLevels(que, d + 1, n) == ForestLevels(NextLevel(que), d, n)
    decreases n
  {
    ForestOneDown(que, d);
    if n > 0 { LevelsOneDown(que, d + 1, n - 1); }
  }

  predicate NoTallerThan(que: seq<EntityTree>, n: nat) {
    forall t :: t in que ==> Height(t) < n
  }

  lemma {:induction false} PresentIsLower(members: seq<Member>)
    ensures forall t :: t in Present(members) ==> Height(t) < HeightAll(members)
  {
    if members != [] { PresentIsLower(members[1..]); }
  }

  lemma {:induction false} NextLevelIsLower(que: seq<EntityTree>, n: nat)
    requires NoTallerThan(que, n + 1)
    ensures NoTallerThan(NextLevel(que), n)
  {
    if que != [] {
      assert que[0] in que;
      PresentIsLower(que[0].members);
      NextLevelIsLower(que[1..], n);
    }
  }

  lemma {:induction false} TakenIsLevels(que: seq<EntityTree>, n: nat)
    requires NoTallerThan(que, n)
    ensures Taken(que) == ForestLevels(que, 0, n)
    decreases n
  {
    hide *;
    if que == [] {
      NothingTaken();
      NothingBelow(0, n);
    } else {
      SomeLevel(que, n);
      NextLevelIsLower(que, n - 1);
      ForestLevelsStep(que, n);
      assert que + [] == que && [] + NextLevel(que) == NextLevel(que);
      LevelByLevel(que, []);
      TakenIsLevels(NextLevel(que), n - 1);
      LevelsOneDown(que, 0, n - 1);
      ForestOneDown(que, 0);
    }
  }

  lemma NothingTaken()
    ensures Taken([]) == []
  {
  }

  lemma SomeLevel(que: seq<EntityTree>, n: nat)
    requires que != [] && NoTallerThan(que, n)
    ensures n > 0
  {
    assert que[0] in que;
  }

  lemma ForestLevelsStep(que: seq<EntityTree>, n: nat)
    requires n > 0
    ensures ForestLevels(que, 0, n) == ForestAt(que, 0) + ForestLevels(que, 1, n - 1)
  {
  }

  lemma {:induction false} NothingBelow(d: nat, n: nat)
    ensures ForestLevels([], d, n) == []
    decreases n
  {
    if n > 0 { NothingBelow(d + 1, n - 1); }
  }

  lemma {:induction false} LevelsOfOne(t: EntityTree, d: nat, n: nat)
    ensures Levels(t, d) + ForestLevels([t], d, n) == Levels(t, d + n)
    decreases n
  {
    if n > 0 {
      LevelsOfOne(t, d + 1, n - 1);
      assert [t][1..] == [] && AtDepth(t, d) + [] == AtDepth(t, d);
      assert ForestAt([t], d) == AtDepth(t, d);
      assert Levels(t, d) + (AtDepth(t, d) + ForestLevels([t], d + 1, n - 1)) ==
             (Levels(t, d) + AtDepth(t, d)) + ForestLevels([t], d + 1, n - 1);
    }
  }

  lemma {:induction false} AllAtDepthAppend(a: seq<Member>, b: seq<Member>, d: nat)
    ensures AllAtDepth(a + b, d) == AllAtDepth(a, d) + AllAtDepth(b, d)
  {
    if a == [] {
      assert a + b == b;
    } else {
      assert (a + b)[1..] == a[1..] + b;
      AllAtDepthAppend(a[1..], b, d);
    }
  }

  /** What is at a depth, from left to right: first what is below the members before `m`, then what is below `m`. */
  lemma DepthReadsLeftToRight(t: EntityTree, before: seq<Member>, m: Member, after: seq<Member>, d: nat)
    requires t.members == before + [m] + after
    ensures AtDepth(t, 0) == [t]
    ensures AtDepth(t, d + 1) ==
      AtDepth(t.(members := before), d + 1) + (if m.Loaded? then AtDepth(m.entity, d) else [])
      + AtDepth(t.(members := after), d + 1)
  {
    AllAtDepthAppend(before + [m], after, d);
    AllAtDepthAppend(before, [m], d);
    assert [m][1..] == [];
  }

  /** The queue loop takes the nodes in level order: depth by depth, each depth from left to right. */
  lemma QueueIsLevelOrder(t: EntityTree)
    ensures Taken([t]) == LevelOrder(t)
  {
    TakenIsLevels([t], Height(t) + 1);
    LevelsOfOne(t, 0, Height(t) + 1);
  }

  lemma {:induction false} TakesEveryNode(que: seq<EntityTree>)
    ensures |Taken(que)| == Queued(que)
    decreases Queued(que)
  {
    if que != [] {
      QueueShrinks(que);
      TakesEveryNode(que[1..] + Present(que[0].members));
    }
  }

  /** Level order visits each node once. */
  lemma LevelOrderCounts(t: EntityTree)
    ensures |LevelOrder(t)| == NodesIn(t)
  {
    QueueIsLevelOrder(t);
    TakesEveryNode([t]);
    assert [t][1..] == [];
  }

  // ---- The stream operator ----

  /** What gets written for these nodes. */
  function Text(s: StreamType, nodes: seq<EntityTree>): string {
    if nodes == [] then "" else s.render(nodes[0].payload) + DELIM + Text(s, nodes[1..])
  }

  /** One `render` and one colon for each node, in order. */
  lemma {:induction false} TextOfEach(s: StreamType, a: seq<EntityTree>, n: EntityTree, b: seq<EntityTree>)
    ensures Text(s, []) == ""
    ensures Text(s, a + [n] + b) == Text(s, a) + (s.render(n.payload) + ":") + Text(s, b)
  {
    if a == [] {
      assert (a + [n] + b)[1..] == b && (a + [n] + b)[0] == n;
    } else {
      assert (a + [n] + b)[1..] == a[1..] + [n] + b;
      TextOfEach(s, a[1..], n, b);
    }
  }

  /** Every member below `t` is there and is streamable. */
  predicate Streams(s: StreamType, t: EntityTree) {
    forall m :: m in t.members ==> m.Loaded? && s.streamable(m.entity.payload.kind) && Streams(s, m.entity)
  }

  predicate AllStream(s: StreamType, que: seq<EntityTree>) {
    forall t :: t in que ==> Streams(s, t)
  }

  /** Whether the direct members can be queued. */
  predicate MembersFit(s: StreamType, members: seq<Member>) {
    forall m :: m in members ==> m.Loaded? && s.streamable(m.entity.payload.kind)
  }

  lemma {:induction false} PresentMembers(members: seq<Member>)
    ensures forall t :: t in Present(members) <==> exists m :: m in members && m.Loaded? && m.entity == t
  {
    if members != [] {
      PresentMembers(members[1..]);
      assert members == [members[0]] + members[1..];
    }
  }

  /** One round of the loop keeps the question open, or answers it. */
  lemma StreamStep(s: StreamType, que: seq<EntityTree>)
    requires que != []
    ensures AllStream(s, que) <==>
      MembersFit(s, que[0].members) && AllStream(s, que[1..] + Present(que[0].members))
  {
    var t, rest := que[0], que[1..];
    PresentMembers(t.members);
    assert que == [t] + rest;
    assert forall x :: x in rest + Present(t.members) <==> x in rest || x in Present(t.members);
    assert Streams(s, t) <==> MembersFit(s, t.members) && AllStream(s, Present(t.members));
  }

  /** The loop gets through exactly if, at every node in level order, all members can be queued. */
  lemma {:induction false} StreamsTaken(s: StreamType, que: seq<EntityTree>)
    ensures AllStream(s, que) <==> forall n :: n in Taken(que) ==> MembersFit(s, n.members)
    decreases Queued(que)
  {
    if que != [] {
      var next := que[1..] + Present(que[0].members);
      TakenStep(que);
      QueueShrinks(que);
      StreamStep(s, que);
      StreamsTaken(s, next);
      hide *;
      assert forall n :: n in [que[0]] + Taken(next) <==> n == que[0] || n in Taken(next);
    }
  }

  lemma StreamsIff(s: StreamType, t: EntityTree)
    ensures Streams(s, t) <==>
      forall n, m :: n in LevelOrder(t) && m in n.members ==> m.Loaded? && s.streamable(m.entity.payload.kind)
  {
    StreamsTaken(s, [t]);
    QueueIsLevelOrder(t);
  }

  /** The queue as values. */
  ghost predicate Shows(que: seq<Entity>, view: seq<EntityTree>)
    reads que, set e, o | e in que && o in e.Repr :: o
  {
    |que| == |view| && forall i :: 0 <= i < |que| ==> que[i].Valid() && que[i].View() == view[i]
  }

  /**
   `operator<<`.  It throws exactly when some member below is missing or not streamable; what has
   been written by then is a prefix of the level-order text, and otherwise it is all of that text.
   */
  method Stream(s: StreamType, from: Entity) returns (thrown: bool, to: string)
    requires from.Valid()
    ensures thrown <==> !Streams(s, from.View())
    ensures !thrown ==> to == Text(s, LevelOrder(from.View()))
    ensures thrown ==> to <= Text(s, LevelOrder(from.View()))
  {
    hide *;
    var que := [from];
    to := "";
    ghost var root := from.View();
    ghost var view := [root];
    QueueIsLevelOrder(root);
    RootShows(s, from);
    while que != []
      invariant Shows(que, view)
      invariant to + Text(s, Taken(view)) == Text(s, LevelOrder(root))
      invariant AllStream(s, view) <==> Streams(s, root)
      decreases Queued(view)
    {
      FrontShows(que, view);
      var front := que[0];
      QueueShrinks(view);
      StreamStep(s, view);
      var fits, kids := StreamableMembers(s, front);
      if !fits {
        return true, to;
      }
      TextStep(s, view);
      RestShows(que, view, kids);
      to := to + (s.render(front.payload) + DELIM);
      que, view := que[1..] + kids, view[1..] + Present(view[0].members);
    }
    thrown := false;
    NothingLeft(s, que, view);
  }

  lemma RootShows(s: StreamType, from: Entity)
    requires from.Valid()
    ensures Shows([from], [from.View()]) && (AllStream(s, [from.View()]) <==> Streams(s, from.View()))
  {
  }

  lemma NothingLeft(s: StreamType, que: seq<Entity>, view: seq<EntityTree>)
    requires que == [] && Shows(que, view)
    ensures AllStream(s, view) && Text(s, Taken(view)) == ""
  {
    NothingTaken();
  }

  lemma FrontShows(que: seq<Entity>, view: seq<EntityTree>)
    requires que != [] && Shows(que, view)
    ensures view != [] && que[0].Valid() && que[0].View() == view[0] && que[0].payload == view[0].payload
  {
  }

  lemma RestShows(que: seq<Entity>, view: seq<EntityTree>, kids: seq<Entity>)
    requires que != [] && Shows(que, view) && view != [] && Shows(kids, Present(view[0].members))
    ensures Shows(que[1..] + kids, view[1..] + Present(view[0].members))
  {
  }

  lemma TextStep(s: StreamType, view: seq<EntityTree>)
    requires view != []
    ensures Text(s, Taken(view)) ==
            s.render(view[0].payload) + DELIM + Text(s, Taken(view[1..] + Present(view[0].members)))
  {
    assert Taken(view)[1..] == Taken(view[1..] + Present(view[0].members));
  }

  /** The inner loop: collects the members of one entity, unless one is not streamable. */
  method StreamableMembers(s: StreamType, front: Entity) returns (fits: bool, kids: seq<Entity>)
    requires front.Valid()
    ensures fits <==> MembersFit(s, front.View().members)
    ensures fits ==> Shows(kids, Present(front.View().members))
  {
    hide Shows, Present, MembersFit, ValidSlots, SlotViews;
    ghost var view := front.View().members;
    MembersShow(front);
    NothingShows(s);
    kids := [];
    assert view[..0] == [];
    for i := 0 to |front.members|
      invariant MembersFit(s, view[..i]) && Shows(kids, Present(view[..i]))
    {
      var se := front.members[i].obj;
      if se == null {
        Misfit(s, view, i);
        return false, [];
      }
      if !s.streamable(se.payload.kind) {
        Misfit(s, view, i);
        return false, [];
      }
      OneMoreShows(s, kids, view, i, se);
      kids := kids + [se];
    }
    assert view[..|view|] == view;
    fits := true;
  }

  /** What the loop sees of each slot. */
  lemma MembersShow(e: Entity)
    requires e.Valid()
    ensures |e.View().members| == |e.members|
    ensures forall i :: 0 <= i < |e.members| ==>
      var obj, m := e.members[i].obj, e.View().members[i];
      && (m.Loaded? <==> obj != null)
      && (obj != null ==> obj.Valid() && m.entity == obj.View() && m.entity.payload == obj.payload)
  {
    var below := e.Repr - {e};
    assert ValidSlots(e.members, below);
    hide ValidSlots, SlotViews;
    SlotViewsEach(e.members, below);
    forall i | 0 <= i < |e.members|
      ensures var obj, m := e.members[i].obj, e.View().members[i];
        && (m.Loaded? <==> obj != null)
        && (obj != null ==> obj.Valid() && m.entity == obj.View() && m.entity.payload == obj.payload)
    {
      assert FitsIn(e.members[i], below) && e.View().members[i] == SlotView(e.members[i]);
    }
  }

  lemma NothingShows(s: StreamType)
    ensures MembersFit(s, []) && Shows([], Present([]))
  {
  }

  lemma Misfit(s: StreamType, view: seq<Member>, i: nat)
    requires i < |view| && !(view[i].Loaded? && s.streamable(view[i].entity.payload.kind))
    ensures !MembersFit(s, view)
  {
    assert view[i] in view;
  }

  lemma OneMoreShows(s: StreamType, kids: seq<Entity>, view: seq<Member>, i: nat, se: Entity)
    requires i < |view| && MembersFit(s, view[..i]) && Shows(kids, Present(view[..i]))
    requires view[i].Loaded? && s.streamable(view[i].entity.payload.kind) && se.Valid() && se.View() == view[i].entity
    ensures MembersFit(s, view[..i + 1]) && Shows(kids + [se], Present(view[..i + 1]))
  {
    hide Present;
    assert view[..i + 1] == view[..i] + [view[i]];
    PresentSnoc(view[..i], view[i]);
  }

  lemma {:induction false} PresentSnoc(members: seq<Member>, m: Member)
    requires m.Loaded?
    ensures Present(members + [m]) == Present(members) + [m.entity]
  {
    if members == [] {
      assert [m][1..] == [] && members + [m] == [m];
    } else {
      assert (members + [m])[1..] == members[1..] + [m];
      PresentSnoc(members[1..], m);
    }
  }
}
