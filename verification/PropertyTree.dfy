/** The part of `boost::property_tree::ptree` that entity hierarchies use. */
module PropertyTree {
  import opened Wrappers

  datatype Tree = Tree(data: string, children: seq<Child>)
  datatype Child = Child(key: string, node: Tree)

  const EMPTY := Tree("", [])

  type Path = seq<string>

  /** The first child named `key`, or the number of children. */
  function Find(children: seq<Child>, key: string): (i: nat)
    ensures i <= |children|
    ensures i < |children| ==> children[i].key == key
    ensures forall j :: 0 <= j < i ==> children[j].key != key
  {
    if children == [] || children[0].key == key then 0 else 1 + Find(children[1..], key)
  }

  predicate Has(t: Tree, key: string) { Find(t.children, key) < |t.children| }

  /** The node below `t` at `key`; an empty one where there is none yet. */
  function Below(t: Tree, key: string): Tree {
    var i := Find(t.children, key);
    if i < |t.children| then t.children[i].node else EMPTY
  }

  /** `put_child` with a single key: replaces the first such child or appends one. */
  function Put(t: Tree, key: string, node: Tree): Tree {
    var i := Find(t.children, key);
    if i < |t.children| then t.(children := t.children[i := Child(key, node)])
    else t.(children := t.children + [Child(key, node)])
  }

  /** `put_child`: creates the missing nodes on the way. */
  function PutChild(t: Tree, path: Path, node: Tree): Tree
    requires path != []
    decreases |path|
  {
    if |path| == 1 then Put(t, path[0], node)
    else Put(t, path[0], PutChild(Below(t, path[0]), path[1..], node))
  }

  /** `get_child_optional`: the first match at every segment. */
  function GetChild(t: Tree, path: Path): Option<Tree>
    decreases |path|
  {
    if path == [] then Some(t)
    else if !Has(t, path[0]) then None
    else GetChild(Below(t, path[0]), path[1..])
  }

  // ---- Laws ----

  lemma {:induction false} FindIsFirst(children: seq<Child>, key: string, i: nat)
    requires i <= |children| && (i < |children| ==> children[i].key == key)
    requires forall j :: 0 <= j < i ==> children[j].key != key
    ensures Find(children, key) == i
  {
  }

  lemma PutLaws(t: Tree, key: string, a: Tree, b: Tree)
    ensures Has(Put(t, key, a), key) && Below(Put(t, key, a), key) == a
    ensures Put(Put(t, key, a), key, b) == Put(t, key, b)
  {
    var i := Find(t.children, key);
    FindIsFirst(Put(t, key, a).children, key, i);
    if i == |t.children| {
      assert (t.children + [Child(key, a)])[i := Child(key, b)] == t.children + [Child(key, b)];
    } else {
      assert t.children[i := Child(key, a)][i := Child(key, b)] == t.children[i := Child(key, b)];
    }
  }

  /** Writing below a node that was just put is putting the node with the change already made. */
  lemma {:induction false} PutBelowPut(t: Tree, p: Path, a: Tree, q: Path, b: Tree)
    requires p != [] && q != []
    ensures PutChild(PutChild(t, p, a), p + q, b) == PutChild(t, p, PutChild(a, q, b))
    decreases |p|
  {
    assert (p + q)[1..] == p[1..] + q;
    if |p| == 1 {
      assert p[1..] + q == q;
      PutLaws(t, p[0], a, PutChild(a, q, b));
    } else {
      var below := Below(t, p[0]);
      PutBelowPut(below, p[1..], a, q, b);
      PutLaws(t, p[0], PutChild(below, p[1..], a), PutChild(below, p[1..], PutChild(a, q, b)));
    }
  }

  lemma {:induction false} PutTwice(t: Tree, p: Path, a: Tree, b: Tree)
    requires p != []
    ensures PutChild(PutChild(t, p, a), p, b) == PutChild(t, p, b)
    decreases |p|
  {
    if |p| == 1 {
      PutLaws(t, p[0], a, b);
    } else {
      var below := Below(t, p[0]);
      PutTwice(below, p[1..], a, b);
      PutLaws(t, p[0], PutChild(below, p[1..], a), PutChild(below, p[1..], b));
    }
  }

  lemma {:induction false} GetAfterPut(t: Tree, p: Path, a: Tree)
    requires p != []
    ensures GetChild(PutChild(t, p, a), p) == Some(a)
    decreases |p|
  {
    if |p| == 1 {
      PutLaws(t, p[0], a, a);
    } else {
      var below := Below(t, p[0]);
      GetAfterPut(below, p[1..], a);
      PutLaws(t, p[0], PutChild(below, p[1..], a), EMPTY);
    }
  }

  // ---- What writing leaves alone ----

  /** Neither path leads through the node of the other. */
  predicate Unrelated(p: Path, q: Path) { !(p <= q) && !(q <= p) }

  /** A put with a single key replaces its first child in place, or adds one at the end; nothing else changes. */
  lemma PutInPlace(t: Tree, key: string, node: Tree)
    ensures var r, i := Put(t, key, node), Find(t.children, key);
      && r.data == t.data && i < |r.children| && r.children[i] == Child(key, node)
      && |r.children| == |t.children| + (if Has(t, key) then 0 else 1)
      && forall j :: 0 <= j < |t.children| && j != i ==> r.children[j] == t.children[j]
  {
  }

  lemma PutSparesKeys(t: Tree, key: string, node: Tree, other: string)
    requires other != key
    ensures Has(Put(t, key, node), other) == Has(t, other) && Below(Put(t, key, node), other) == Below(t, other)
  {
    var r, k := Put(t, key, node), Find(t.children, other);
    PutInPlace(t, key, node);
    hide Put, Find;
    if k < |t.children| {
      FindIsFirst(r.children, other, k);
    } else {
      FindIsFirst(r.children, other, |r.children|);
    }
  }

  /** Every node that is neither above nor below the one written stays as it is. */
  lemma {:induction false} PutSparesOthers(t: Tree, p: Path, node: Tree, q: Path)
    requires p != [] && Unrelated(p, q)
    ensures GetChild(PutChild(t, p, node), q) == GetChild(t, q)
    decreases |p|
  {
    var key := p[0];
    if q[0] != key {
      PutSparesKeys(t, key, if |p| == 1 then node else PutChild(Below(t, key), p[1..], node), q[0]);
    } else {
      assert p == [key] + p[1..] && q == [key] + q[1..];
      var below := PutChild(Below(t, key), p[1..], node);
      PutSparesOthers(Below(t, key), p[1..], node, q[1..]);
      PutLaws(t, key, below, below);
      if !Has(t, key) { NothingInEmpty(q[1..]); }
    }
  }

  lemma NothingInEmpty(q: Path)
    requires q != []
    ensures GetChild(EMPTY, q) == None
  {
  }

  /** A node above keeps its own text and its children, in their order; one may come last. */
  lemma {:induction false} PutKeepsAbove(t: Tree, p: Path, node: Tree, q: Path)
    requires q < p && GetChild(t, q).Some?
    ensures var was, now := GetChild(t, q).value, GetChild(PutChild(t, p, node), q);
      && now.Some? && now.value.data == was.data
      && |was.children| <= |now.value.children| <= |was.children| + 1
      && forall i :: 0 <= i < |was.children| ==> now.value.children[i].key == was.children[i].key
    decreases |p|
  {
    var key := p[0];
    if q == [] {
      PutInPlace(t, key, if |p| == 1 then node else PutChild(Below(t, key), p[1..], node));
    } else {
      var below := PutChild(Below(t, key), p[1..], node);
      PutKeepsAbove(Below(t, key), p[1..], node, q[1..]);
      PutLaws(t, key, below, below);
    }
  }

  /** A node on the way that was missing has no text, and one child. */
  lemma {:induction false} PutCreatesEmpty(t: Tree, p: Path, node: Tree, q: Path)
    requires q < p && GetChild(t, q).None?
    ensures var now := GetChild(PutChild(t, p, node), q);
      now.Some? && now.value.data == "" && |now.value.children| == 1 && now.value.children[0].key == p[|q|]
    decreases |p|
  {
    var key := p[0];
    var below := PutChild(Below(t, key), p[1..], node);
    PutLaws(t, key, below, below);
    if Has(t, key) {
      PutCreatesEmpty(Below(t, key), p[1..], node, q[1..]);
    } else if |q| > 1 {
      NothingInEmpty(q[1..]);
      PutCreatesEmpty(EMPTY, p[1..], node, q[1..]);
    }
  }

  function Keys(t: Tree): (r: seq<string>)
    ensures |r| == |t.children| && forall i :: 0 <= i < |r| ==> r[i] == t.children[i].key
  {
    seq(|t.children|, i requires 0 <= i < |t.children| => t.children[i].key)
  }

  /** `u` differs from `t` at and below `p` only, but for children that nodes above it gained at the end. */
  ghost predicate Spares(t: Tree, u: Tree, p: Path) {
    && (forall q :: Unrelated(p, q) ==> GetChild(u, q) == GetChild(t, q))
    && forall q :: q < p && GetChild(t, q).Some? ==>
         var was, now := GetChild(t, q).value, GetChild(u, q);
         now.Some? && now.value.data == was.data && Keys(was) <= Keys(now.value)
  }

  lemma PutSpares(t: Tree, p: Path, node: Tree)
    requires p != []
    ensures Spares(t, PutChild(t, p, node), p)
  {
    var u := PutChild(t, p, node);
    forall q | Unrelated(p, q) ensures GetChild(u, q) == GetChild(t, q) {
      PutSparesOthers(t, p, node, q);
    }
    forall q | q < p && GetChild(t, q).Some?
      ensures var was, now := GetChild(t, q).value, GetChild(u, q);
        now.Some? && now.value.data == was.data && Keys(was) <= Keys(now.value)
    {
      PutKeepsAbove(t, p, node, q);
    }
  }

  lemma SparesMore(t: Tree, u: Tree, v: Tree, p: Path, q: Path)
    requires Spares(t, u, p) && Spares(u, v, p + q)
    ensures Spares(t, v, p)
  {
    hide GetChild, Keys;
    forall x | Unrelated(p, x) ensures GetChild(v, x) == GetChild(t, x) {
      UnrelatedExtends(p, q, x);
    }
    forall x | x < p && GetChild(t, x).Some?
      ensures var was, now := GetChild(t, x).value, GetChild(v, x);
        now.Some? && now.value.data == was.data && Keys(was) <= Keys(now.value)
    {
      assert x < p + q;
      assert GetChild(u, x).Some?;
    }
  }

  lemma UnrelatedExtends(p: Path, q: Path, x: Path)
    requires Unrelated(p, x)
    ensures Unrelated(p + q, x)
  {
    var i :| 0 <= i < |p| && i < |x| && p[i] != x[i];
    assert (p + q)[i] != x[i];
  }

  lemma SparesItself(t: Tree, p: Path)
    ensures Spares(t, t, p)
  {
  }

  lemma {:induction false} GetInSteps(t: Tree, p: Path, q: Path)
    ensures GetChild(t, p + q) == if GetChild(t, p).Some? then GetChild(GetChild(t, p).value, q) else None
    decreases |p|
  {
    if p == [] {
      assert p + q == q;
    } else {
      assert (p + q)[1..] == p[1..] + q;
      if Has(t, p[0]) { GetInSteps(Below(t, p[0]), p[1..], q); }
    }
  }

  // ---- Size, for termination ----

  function Size(t: Tree): nat { 1 + SizeAll(t.children) }

  function SizeAll(children: seq<Child>): nat {
    if children == [] then 0 else Size(children[0].node) + SizeAll(children[1..])
  }

  lemma {:induction false} ChildIsSmaller(children: seq<Child>, i: nat)
    requires i < |children|
    ensures Size(children[i].node) <= SizeAll(children)
  {
    if i > 0 { ChildIsSmaller(children[1..], i - 1); }
  }

  lemma {:induction false} DescendantIsSmaller(t: Tree, p: Path)
    requires GetChild(t, p).Some?
    ensures Size(GetChild(t, p).value) <= Size(t)
    ensures p != [] ==> Size(GetChild(t, p).value) < Size(t)
    decreases |p|
  {
    if p != [] {
      ChildIsSmaller(t.children, Find(t.children, p[0]));
      DescendantIsSmaller(Below(t, p[0]), p[1..]);
    }
  }
}
