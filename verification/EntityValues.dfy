/** Entity trees as values, and the ordered maps that hold their members. */
module EntityValues {
  type Key = string

  // ---- std::string order ----

  predicate Less(a: string, b: string) {
    b != "" && (a == "" || a[0] < b[0] || (a[0] == b[0] && Less(a[1..], b[1..])))
  }

  lemma {:induction false} LessTotal(a: string, b: string)
    ensures Less(a, b) || a == b || Less(b, a)
  {
    if a != "" && b != "" && a[0] == b[0] {
      LessTotal(a[1..], b[1..]);
      if a[1..] == b[1..] {
        assert a == [a[0]] + a[1..] && b == [b[0]] + b[1..];
      }
    }
  }

  lemma {:induction false} LessIsStrict(a: string, b: string)
    requires Less(a, b)
    ensures a != b && !Less(b, a)
  {
    if a != "" && a[0] == b[0] { LessIsStrict(a[1..], b[1..]); }
  }

  lemma {:induction false} LessTransitive(a: string, b: string, c: string)
    requires Less(a, b) && Less(b, c)
    ensures Less(a, c)
  {
    if a != "" && a[0] == b[0] == c[0] { LessTransitive(a[1..], b[1..], c[1..]); }
  }

  /** After a common prefix the smaller character decides, and a prefix comes before what extends it. */
  lemma {:induction false} LessAtDifference(prefix: string, a: string, b: string)
    ensures a != "" && b != "" && a[0] != b[0] ==> (Less(prefix + a, prefix + b) <==> a[0] < b[0])
    ensures a == "" ==> (Less(prefix + a, prefix + b) <==> b != "")
    ensures b == "" ==> !Less(prefix + a, prefix + b)
  {
    if prefix == "" {
      assert prefix + a == a && prefix + b == b;
    } else {
      assert (prefix + a)[1..] == prefix[1..] + a && (prefix + b)[1..] == prefix[1..] + b;
      LessAtDifference(prefix[1..], a, b);
    }
  }

  // ---- Entities ----

  /** Everything of an entity that is not its key or its members: its dynamic type and that type's fields. */
  datatype Payload = Payload(kind: string, fields: string)

  datatype EntityTree = EntityTree(key: Key, payload: Payload, members: seq<Member>)

  /** One entry of the member map, in the order of the map; a placeholder maps its key to nullptr. */
  datatype Member = Placeholder(key: Key) | Loaded(key: Key, entity: EntityTree)

  predicate Sorted(members: seq<Member>) {
    forall i, j :: 0 <= i < j < |members| ==> Less(members[i].key, members[j].key)
  }

  /** The position of the first key that is not less than `key`. */
  function Position(members: seq<Member>, key: Key): (i: nat)
    ensures i <= |members|
    ensures i < |members| ==> !Less(members[i].key, key)
    ensures forall j :: 0 <= j < i ==> Less(members[j].key, key)
  {
    if members == [] || !Less(members[0].key, key) then 0 else 1 + Position(members[1..], key)
  }

  /** `membersMap_.find(key) != cend()`. */
  predicate InUse(members: seq<Member>, key: Key) {
    exists i :: 0 <= i < |members| && members[i].key == key
  }

  function Insert(members: seq<Member>, m: Member): seq<Member> {
    var i := Position(members, m.key);
    members[..i] + [m] + members[i..]
  }

  lemma InsertKeepsSorted(members: seq<Member>, m: Member)
    requires Sorted(members) && !InUse(members, m.key)
    ensures Sorted(Insert(members, m))
  {
    var i := Position(members, m.key);
    forall j | i <= j < |members| ensures Less(m.key, members[j].key) {
      LessTotal(members[j].key, m.key);
      if j > i {
        assert Less(members[i].key, members[j].key);
        LessTotal(members[i].key, m.key);
        LessTransitive(m.key, members[i].key, members[j].key);
      }
    }
  }

  /** A key greater than all others goes to the end. */
  lemma InsertLast(members: seq<Member>, m: Member)
    requires forall i :: 0 <= i < |members| ==> Less(members[i].key, m.key)
    ensures Insert(members, m) == members + [m]
    ensures !InUse(members, m.key)
  {
    forall i | 0 <= i < |members| ensures members[i].key != m.key {
      LessIsStrict(members[i].key, m.key);
    }
  }
}
