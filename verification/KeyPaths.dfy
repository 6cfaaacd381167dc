/**
 Dotted paths as strings, and the search for a key in a hierarchy.
 The loaders of both adapters share this code.
 */
module KeyPaths {
  import opened Wrappers
  import opened PropertyTree

  /** A key that survives being part of a path. */
  predicate GoodKey(key: string) { key != "" && '.' !in key }

  predicate GoodPath(p: Path) { forall i :: 0 <= i < |p| ==> GoodKey(p[i]) }

  // ---- Strings and paths ----

  /** The position of the first dot, or the length. */
  function FirstDot(s: string): (i: nat)
    ensures i <= |s| && (i < |s| ==> s[i] == '.') && forall j :: 0 <= j < i ==> s[j] != '.'
  {
    if s == "" || s[0] == '.' then 0 else 1 + FirstDot(s[1..])
  }

  /** How boost cuts a path into segments; a trailing dot adds none. */
  function Split(s: string): (p: Path)
    ensures s != "" ==> p != []
  {
    if s == "" then []
    else
      var i := FirstDot(s);
      if i == |s| then [s] else [s[..i]] + Split(s[i + 1..])
  }

  /** `parentKey.empty() ? key : parentKey + "." + key`, in persisters and loaders alike. */
  function SearchPath(parentKey: string, key: string): string {
    if parentKey == "" then key else parentKey + "." + key
  }

  function PathOf(p: Path): string {
    if p == [] then "" else SearchPath(PathOf(p[..|p| - 1]), p[|p| - 1])
  }

  lemma {:induction false} FirstDotIs(s: string, i: nat)
    requires i <= |s| && (i < |s| ==> s[i] == '.') && forall j :: 0 <= j < i ==> s[j] != '.'
    ensures FirstDot(s) == i
  {
  }

  lemma SplitAtDot(s: string, i: nat)
    requires i < |s| && s[i] == '.' && forall j :: 0 <= j < i ==> s[j] != '.'
    ensures Split(s) == [s[..i]] + Split(s[i + 1..])
  {
    FirstDotIs(s, i);
  }

  /** Appending a segment to a path string only ever appends segments to the path. */
  lemma {:induction false} SplitExtends(s: string, key: string) returns (q: Path)
    requires s != "" && key != ""
    ensures q != [] && Split(s + "." + key) == Split(s) + q
    ensures GoodKey(key) && s[|s| - 1] != '.' ==> q == [key]
    decreases |s|
  {
    hide Split;
    var t := s + "." + key;
    var i := FirstDot(s);
    SplitAtDot(t, i);
    assert t[..i] == s[..i];
    if i == |s| {
      assert t[i + 1..] == key && s[..i] == s;
      q := Split(key);
      SplitWhole(s);
      if GoodKey(key) { SplitWhole(key); }
    } else if i == |s| - 1 {
      SplitAtDot(s, i);
      assert s[i + 1..] == "";
      assert t[i + 1..] == "." + key;
      SplitAtDot("." + key, 0);
      assert ("." + key)[1..] == key && ("." + key)[..0] == "";
      q := [""] + Split(key);
      SplitNothing();
      assert ([s[..i]] + []) + q == [s[..i]] + q;
    } else {
      SplitAtDot(s, i);
      assert t[i + 1..] == s[i + 1..] + "." + key;
      q := SplitExtends(s[i + 1..], key);
      assert [s[..i]] + (Split(s[i + 1..]) + q) == ([s[..i]] + Split(s[i + 1..])) + q;
    }
  }

  lemma SplitNothing()
    ensures Split("") == []
  {
  }

  lemma SplitWhole(s: string)
    requires s != "" && '.' !in s
    ensures Split(s) == [s]
  {
    FirstDotIs(s, |s|);
  }

  /** A good path survives being printed and cut up again. */
  lemma {:induction false} SplitOfPath(p: Path)
    requires GoodPath(p)
    ensures Split(PathOf(p)) == p
    ensures p != [] ==> PathOf(p) != "" && PathOf(p)[|PathOf(p)| - 1] != '.'
  {
    if p != [] {
      var front, key := p[..|p| - 1], p[|p| - 1];
      assert p == front + [key];
      SplitOfPath(front);
      if front == [] {
        FirstDotIs(key, |key|);
      } else {
        var q := SplitExtends(PathOf(front), key);
      }
    }
  }

  lemma PathOfSnoc(p: Path, key: string)
    ensures PathOf(p + [key]) == SearchPath(PathOf(p), key)
  {
    assert (p + [key])[..|p|] == p;
  }

  /** The segments of `p` with dots between them. */
  function Dotted(p: Path): string {
    if p == [] then "" else if |p| == 1 then p[0] else p[0] + "." + Dotted(p[1..])
  }

  lemma {:induction false} DottedSnoc(p: Path, key: string)
    requires p != []
    ensures Dotted(p + [key]) == Dotted(p) + "." + key
    decreases |p|
  {
    assert (p + [key])[1..] == p[1..] + [key];
    if |p| > 1 { DottedSnoc(p[1..], key); }
  }

  lemma {:induction false} DottedIsPathOf(p: Path)
    requires GoodPath(p)
    ensures Dotted(p) == PathOf(p)
    ensures p != [] ==> PathOf(p) != ""
    decreases |p|
  {
    if p != [] {
      var front, key := p[..|p| - 1], p[|p| - 1];
      assert p == front + [key];
      DottedIsPathOf(front);
      if front != [] { DottedSnoc(front, key); }
    }
  }

  // ---- The search, as the code does it ----

  /** `find_last_of('.')`, with -1 for `npos`. */
  function LastDot(s: string): (i: int)
    ensures -1 <= i < |s| && (i >= 0 ==> s[i] == '.') && forall j :: i < j < |s| ==> s[j] != '.'
  {
    if s == "" then -1 else if s[|s| - 1] == '.' then |s| - 1 else LastDot(s[..|s| - 1])
  }

  predicate EndsWithKey(path: string, key: string) {
    var pos := LastDot(path);
    (pos == -1 && path == key) || (pos != -1 && path[pos + 1..] == key)
  }

  function GetKeyPath(key: string, t: Tree): string {
    SearchChildren(key, t.children)
  }

  /** The loop over the children, from any of them on. */
  function SearchChildren(key: string, children: seq<Child>): string {
    if children == [] then ""
    else if children[0].key == key then children[0].key
    else
      var returned := GetKeyPath(key, children[0].node);
      if EndsWithKey(returned, key) then children[0].key + "." + returned
      else SearchChildren(key, children[1..])
  }

  function GetParentKeyPath(keyPath: string): string {
    var pos := LastDot(keyPath);
    if pos == -1 then "" else keyPath[..pos]
  }

  // ---- What it finds ----

  /** A node of a hierarchy with the path that leads to it. */
  datatype Place = Place(path: Path, node: Tree)

  function PlaceKey(x: Place): string
    requires x.path != []
  {
    x.path[|x.path| - 1]
  }

  function ParentOf(x: Place): Path
    requires x.path != []
  {
    x.path[..|x.path| - 1]
  }

  /** All places below a list of children, in preorder. */
  function Preorder(children: seq<Child>): (places: seq<Place>)
    ensures forall x :: x in places ==> x.path != []
  {
    if children == [] then []
    else
      var c := children[0];
      [Place([c.key], c.node)] + Under(c.key, Preorder(c.node.children)) + Preorder(children[1..])
  }

  function Under(key: string, places: seq<Place>): (r: seq<Place>)
    ensures |r| == |places|
    ensures forall i :: 0 <= i < |r| ==> r[i] == Place([key] + places[i].path, places[i].node)
  {
    seq(|places|, i requires 0 <= i < |places| => Place([key] + places[i].path, places[i].node))
  }

  /** The key occurs at none of these places. */
  ghost predicate Absent(key: string, places: seq<Place>)
    requires forall x :: x in places ==> x.path != []
  {
    forall x :: x in places ==> PlaceKey(x) != key
  }

  /** The first place whose own key is `key`. */
  function FirstPlace(key: string, places: seq<Place>): (r: Option<Place>)
    requires forall x :: x in places ==> x.path != []
    ensures r.Some? ==> r.value.path != [] && PlaceKey(r.value) == key
  {
    if places == [] then None
    else if PlaceKey(places[0]) == key then Some(places[0])
    else FirstPlace(key, places[1..])
  }

  lemma {:induction false} FirstPlaceIsFirst(key: string, places: seq<Place>)
    requires forall x :: x in places ==> x.path != []
    ensures FirstPlace(key, places).None? <==> Absent(key, places)
    ensures FirstPlace(key, places).Some? ==>
      exists i :: 0 <= i < |places| && places[i] == FirstPlace(key, places).value
                  && forall j :: 0 <= j < i ==> PlaceKey(places[j]) != key
  {
    if places != [] && PlaceKey(places[0]) != key {
      var rest := places[1..];
      FirstPlaceIsFirst(key, rest);
      assert places == [places[0]] + rest;
      if FirstPlace(key, rest).Some? {
        var i :| 0 <= i < |rest| && rest[i] == FirstPlace(key, rest).value
                 && forall j :: 0 <= j < i ==> PlaceKey(rest[j]) != key;
        assert places[i + 1] == rest[i] && forall j :: 0 < j < i + 1 ==> places[j] == rest[j - 1];
      }
    }
  }

  lemma {:induction false} FirstPlaceAppend(key: string, a: seq<Place>, b: seq<Place>)
    requires forall x :: x in a + b ==> x.path != []
    ensures (forall x :: x in a ==> x in a + b) && (forall x :: x in b ==> x in a + b)
    ensures FirstPlace(key, a + b) == if FirstPlace(key, a).Some? then FirstPlace(key, a) else FirstPlace(key, b)
  {
    assert forall i :: 0 <= i < |b| ==> (a + b)[|a| + i] == b[i];
    if a == [] {
      assert a + b == b;
    } else {
      assert (a + b)[1..] == a[1..] + b;
      FirstPlaceAppend(key, a[1..], b);
    }
  }

  lemma {:induction false} FirstPlaceUnder(key: string, k: string, places: seq<Place>)
    requires forall x :: x in places ==> x.path != []
    ensures FirstPlace(key, places).None? ==> FirstPlace(key, Under(k, places)) == None
    ensures FirstPlace(key, places).Some? ==>
      FirstPlace(key, Under(k, places))
        == Some(Place([k] + FirstPlace(key, places).value.path, FirstPlace(key, places).value.node))
  {
    hide FirstPlace, Under, Absent;
    if places == [] {
      assert Under(k, places) == [];
      NoFirstPlace(key);
    } else {
      var x := places[0];
      var moved, rest := Place([k] + x.path, x.node), places[1..];
      assert Under(k, places) == [moved] + Under(k, rest);
      assert places == [x] + rest;
      OneMorePlace(key, x, rest);
      OneMorePlace(key, moved, Under(k, rest));
      FirstPlaceUnder(key, k, rest);
    }
  }

  lemma NoFirstPlace(key: string)
    ensures FirstPlace(key, []) == None
  {
  }

  lemma OneMorePlace(key: string, x: Place, rest: seq<Place>)
    requires x.path != [] && forall y :: y in rest ==> y.path != []
    ensures FirstPlace(key, [x] + rest) == if PlaceKey(x) == key then Some(x) else FirstPlace(key, rest)
  {
    assert ([x] + rest)[1..] == rest;
  }

  /** Cutting at dots loses nothing but a trailing dot, and leaves no dot in a segment. */
  lemma {:induction false} SplitLosesNothing(s: string)
    ensures s == Dotted(Split(s)) + if s != "" && s[|s| - 1] == '.' then "." else ""
    ensures forall i :: 0 <= i < |Split(s)| ==> '.' !in Split(s)[i]
    decreases |s|
  {
    hide Split, Dotted;
    SplitNothing();
    NothingDotted();
    if s != "" {
      var i := FirstDot(s);
      if i < |s| {
        var key, rest := s[..i], s[i + 1..];
        SplitAtDot(s, i);
        SplitLosesNothing(rest);
        DottedCons(key, Split(rest));
        assert s == key + "." + rest;
        if rest != "" {
          var tail := if rest[|rest| - 1] == '.' then "." else "";
          assert key + "." + (Dotted(Split(rest)) + tail) == (key + "." + Dotted(Split(rest))) + tail;
        }
      } else {
        SplitWhole(s);
        DottedCons(s, []);
        assert [s] + [] == [s];
      }
    }
  }

  lemma {:induction false} LastDotIs(s: string, i: int)
    requires -1 <= i < |s| && (i >= 0 ==> s[i] == '.') && forall j :: i < j < |s| ==> s[j] != '.'
    ensures LastDot(s) == i
  {
    if s != "" && s[|s| - 1] != '.' { LastDotIs(s[..|s| - 1], i); }
  }

  /** The last segment of a printed path can be told apart, and the parent path restored. */
  lemma {:induction false} KeyEndsPath(p: Path)
    requires p != [] && GoodKey(p[|p| - 1])
    ensures var s, key, front := Dotted(p), p[|p| - 1], Dotted(p[..|p| - 1]);
      && s != "" && EndsWithKey(s, key) && GetParentKeyPath(s) == front
      && (front != "" || |p| == 1 ==> SearchPath(GetParentKeyPath(s), key) == s)
  {
    hide Dotted, LastDot;
    var s, key, front := Dotted(p), p[|p| - 1], p[..|p| - 1];
    assert p == front + [key];
    if front == [] {
      DottedCons(key, []);
      NothingDotted();
      assert p == [key] + [];
      LastDotIs(s, -1);
    } else {
      DottedSnoc(front, key);
      LastDotIs(s, |Dotted(front)|);
    }
  }

  lemma {:induction false} SearchIsFirstPlace(key: string, children: seq<Child>)
    requires GoodKey(key)
    ensures var first := FirstPlace(key, Preorder(children));
      SearchChildren(key, children) == if first.None? then "" else Dotted(first.value.path)
  {
    hide EndsWithKey, Dotted, Preorder, FirstPlace;
    if children == [] {
      NothingFirst(key);
    } else {
      var c := children[0];
      var inner := Preorder(c.node.children);
      SearchIsFirstPlace(key, c.node.children);
      SearchIsFirstPlace(key, children[1..]);
      FirstInPreorder(key, children);
      var found := FirstPlace(key, inner);
      DottedCons(c.key, []);
      assert [c.key] + [] == [c.key];
      if found.Some? {
        KeyEndsPath(found.value.path);
        DottedCons(c.key, found.value.path);
      }
      NoKeyInNothing(key);
    }
  }

  /**
   For a non-empty dot-free key, in any hierarchy: `GetKeyPath` returns "" exactly when the key
   occurs nowhere, and otherwise the path of its first occurrence in preorder.
   */
  lemma SearchFindsFirst(key: string, t: Tree)
    requires GoodKey(key)
    ensures var first := FirstPlace(key, Preorder(t.children));
      GetKeyPath(key, t) == if first.None? then "" else Dotted(first.value.path)
    ensures GetKeyPath(key, t) == "" <==> Absent(key, Preorder(t.children))
  {
    hide Preorder, FirstPlace, SearchChildren, Dotted, Absent, EndsWithKey, GetParentKeyPath;
    SearchIsFirstPlace(key, t.children);
    var places := Preorder(t.children);
    var first := FirstPlace(key, places);
    FirstPlaceIsFirst(key, places);
    if first.Some? {
      PlaceIsFirst(key, places);
      KeyEndsPath(first.value.path);
    }
  }

  lemma PlaceIsFirst(key: string, places: seq<Place>)
    requires (forall x :: x in places ==> x.path != []) && FirstPlace(key, places).Some?
    ensures var x := FirstPlace(key, places).value;
      x in places && x.path != [] && PlaceKey(x) == key && x.path[|x.path| - 1] == key
  {
    FirstPlaceIsFirst(key, places);
  }

  lemma NothingFirst(key: string)
    ensures FirstPlace(key, Preorder([])) == None
  {
  }

  lemma NothingDotted()
    ensures Dotted([]) == ""
  {
  }

  lemma DottedCons(key: string, p: Path)
    ensures Dotted([key] + p) == if p == [] then key else key + "." + Dotted(p)
  {
    assert ([key] + p)[1..] == p;
  }

  lemma NoKeyInNothing(key: string)
    requires key != ""
    ensures !EndsWithKey("", key)
  {
  }

  lemma FirstInPreorder(key: string, children: seq<Child>)
    requires children != []
    ensures var c := children[0];
      var found := FirstPlace(key, Preorder(c.node.children));
      FirstPlace(key, Preorder(children)) ==
        if c.key == key then Some(Place([c.key], c.node))
        else if found.Some? then Some(Place([c.key] + found.value.path, found.value.node))
        else FirstPlace(key, Preorder(children[1..]))
  {
    var c := children[0];
    var here := [Place([c.key], c.node)];
    var inner := Preorder(c.node.children);
    var under := Under(c.key, inner);
    var rest := Preorder(children[1..]);
    FirstPlaceAppend(key, here + under, rest);
    FirstPlaceAppend(key, here, under);
    FirstPlaceUnder(key, c.key, inner);
    assert here[1..] == [];
  }

  /**
   A key with a dot in it is a different matter: the test on the last segment never accepts it,
   so it is found at the top level or not at all.
   */
  lemma {:induction false} DottedKeyOnlyAtTop(key: string, children: seq<Child>)
    requires '.' in key
    ensures SearchChildren(key, children) == if exists c :: c in children && c.key == key then key else ""
  {
    if children != [] {
      var c := children[0];
      DottedKeyOnlyAtTop(key, c.node.children);
      DottedKeyOnlyAtTop(key, children[1..]);
      assert children == [c] + children[1..];
      assert forall d :: d in children <==> d == c || d in children[1..];
      var i :| 0 <= i < |key| && key[i] == '.';
      assert LastDot(key) >= i;
      assert |key[LastDot(key) + 1..]| < |key|;
    }
  }

  // ---- Where the path leads ----

  /** Keys are non-empty and dot-free, and siblings have different keys. */
  predicate Tidy(t: Tree) {
    TidyAll(t.children)
  }

  predicate TidyAll(children: seq<Child>) {
    && (forall c :: c in children ==> GoodKey(c.key) && TidyAll(c.node.children))
    && forall i, j :: 0 <= i < j < |children| ==> children[i].key != children[j].key
  }

  /** In a tidy hierarchy the path of a place is good and leads to it. */
  lemma {:induction false} PathsLead(t: Tree, i: nat, x: Place)
    requires Tidy(t) && i <= |t.children| && x in Preorder(t.children[i..])
    ensures GoodPath(x.path) && GetChild(t, x.path) == Some(x.node)
    decreases t, |t.children| - i
  {
    var c := t.children[i];
    assert t.children[i..][0] == c && t.children[i..][1..] == t.children[i + 1..];
    assert c in t.children;
    var inner := Preorder(c.node.children);
    if x in Preorder(t.children[i + 1..]) {
      PathsLead(t, i + 1, x);
    } else {
      FindIsFirst(t.children, c.key, i);
      assert Below(t, c.key) == c.node;
      if x == Place([c.key], c.node) {
        assert [c.key][1..] == [];
      } else {
        assert x in Under(c.key, inner);
        var j :| 0 <= j < |inner| && x == Under(c.key, inner)[j];
        var y := inner[j];
        assert c.node.children[0..] == c.node.children;
        PathsLead(c.node, 0, y);
        assert x.path[1..] == y.path;
      }
    }
  }

  /**
   In a tidy hierarchy, the path found for a key, cut into parent path and key and put together
   again, leads to the first place in preorder that has this key.
   */
  lemma SearchLeadsToFirst(key: string, t: Tree)
    requires GoodKey(key) && Tidy(t)
    ensures var keyPath, first := GetKeyPath(key, t), FirstPlace(key, Preorder(t.children));
      && (keyPath == "" <==> first.None?)
      && (first.Some? ==>
            && GoodPath(first.value.path)
            && keyPath == PathOf(first.value.path)
            && GetParentKeyPath(keyPath) == PathOf(ParentOf(first.value))
            && SearchPath(GetParentKeyPath(keyPath), key) == keyPath
            && Split(keyPath) == first.value.path
            && GetChild(t, Split(keyPath)) == Some(first.value.node))
  {
    hide Preorder, FirstPlace, GetKeyPath, Dotted, Absent, EndsWithKey, GetParentKeyPath, PathOf, Split, GetChild;
    SearchFindsFirst(key, t);
    var places := Preorder(t.children);
    var first := FirstPlace(key, places);
    FirstPlaceIsFirst(key, places);
    if first.Some? {
      PlaceIsFirst(key, places);
      PlaceCanBeReached(key, t, first.value);
    }
  }

  /** From the printed path of a place, the key and the path of the parent can be restored. */
  lemma PlaceCanBeReached(key: string, t: Tree, x: Place)
    requires GoodKey(key) && Tidy(t) && x in Preorder(t.children) && PlaceKey(x) == key
    ensures var keyPath := Dotted(x.path);
      && keyPath != "" && GoodPath(x.path) && keyPath == PathOf(x.path)
      && GetParentKeyPath(keyPath) == PathOf(ParentOf(x))
      && SearchPath(GetParentKeyPath(keyPath), key) == keyPath
      && Split(keyPath) == x.path && GetChild(t, Split(keyPath)) == Some(x.node)
  {
    hide Preorder, Dotted, PathOf, Split, GetChild, EndsWithKey, LastDot, GetParentKeyPath, Tidy;
    assert t.children[0..] == t.children;
    PathsLead(t, 0, x);
    SplitOfPath(x.path);
    DottedIsPathOf(x.path);
    assert GoodPath(ParentOf(x));
    DottedIsPathOf(ParentOf(x));
    KeyEndsPath(x.path);
  }
}
