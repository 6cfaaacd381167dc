/**
 The event channel as a step system, for any kinds `E` of emitters and `C` of consumers.
 A weak pointer remembers its object and whether the object has died.
 */
module EventRuns {
  type Key = string
  type PairKey = (Key, Key)   // consumer key, emitter key

  datatype Weak<T> = Weak(obj: T, expired: bool)

  /** One call of `Connect` that the channel made, on account of a registered pair. */
  datatype Link<E, C> = Link(emitter: E, pair: PairKey, consumer: C)

  datatype State<E(==), C(==)> = State(
    emitters: map<Key, Weak<E>>,
    consumers: map<PairKey, Weak<C>>,
    links: multiset<Link<E, C>>)

  /** `order` lists the pairs whose consumers a `RegisterEmitter` call connects, one after the other. */
  datatype Action<E(==), C(==)> =
    | RegisterEmitter(key: Key, emitter: E, order: seq<PairKey>)
    | RegisterConsumer(pair: PairKey, consumer: C)
    | UnregisterEmitter(key: Key)
    | UnregisterConsumer(pair: PairKey)
    | EmitterDies(emitter: E)
    | ConsumerDies(consumer: C)

  /** The pairs that wait for an emitter key, with a consumer that is alive. */
  ghost function Waiting<E, C>(s: State<E, C>, key: Key): set<PairKey> {
    set p | p in s.consumers && p.1 == key && !s.consumers[p].expired
  }

  ghost predicate Distinct<T>(order: seq<T>) {
    forall i, j :: 0 <= i < j < |order| ==> order[i] != order[j]
  }

  /** `Connect` succeeds on every waiting consumer. */
  ghost predicate AllFit<E, C>(fits: (E, C) -> bool, s: State<E, C>, key: Key, e: E) {
    forall p :: p in Waiting(s, key) ==> fits(e, s.consumers[p].obj)
  }

  /**
   In whatever order the map is walked: all waiting consumers get connected if all of them fit;
   otherwise some that fit, before the first that does not makes `Connect` throw.
   */
  ghost predicate IsOrder<E, C>(fits: (E, C) -> bool, s: State<E, C>, key: Key, e: E, order: seq<PairKey>) {
    && Distinct(order)
    && (forall p :: p in order ==> p in Waiting(s, key) && fits(e, s.consumers[p].obj))
    && (AllFit(fits, s, key, e) ==> forall p :: p in Waiting(s, key) ==> p in order)
  }

  /** The call gets past its tests of the arguments. */
  ghost predicate EmitterAccepted<E, C>(s: State<E, C>, key: Key) {
    key != "" && key !in s.emitters
  }

  ghost predicate ConsumerAccepted<E, C>(s: State<E, C>, pair: PairKey) {
    pair.0 != "" && pair.1 != "" && pair !in s.consumers
  }

  ghost predicate Enabled<E, C>(fits: (E, C) -> bool, s: State<E, C>, a: Action<E, C>) {
    a.RegisterEmitter? && EmitterAccepted(s, a.key) ==> IsOrder(fits, s, a.key, a.emitter, a.order)
  }

  ghost function LinksOf<E, C>(s: State<E, C>, e: E, order: seq<PairKey>): (r: seq<Link<E, C>>)
    requires forall p :: p in order ==> p in s.consumers
  {
    seq(|order|, i requires 0 <= i < |order| => Link(e, order[i], s.consumers[order[i]].obj))
  }

  ghost function Next<E, C>(fits: (E, C) -> bool, s: State<E, C>, a: Action<E, C>): State<E, C>
    requires Enabled(fits, s, a)
  {
    match a
    case RegisterEmitter(key, e, order) =>
      if !EmitterAccepted(s, key) then s
      else
        var s1 := s.(links := s.links + multiset(LinksOf(s, e, order)));
        if AllFit(fits, s, key, e) then s1.(emitters := s.emitters[key := Weak(e, false)]) else s1
    case RegisterConsumer(pair, c) =>
      if !ConsumerAccepted(s, pair) then s
      else if pair.1 in s.emitters && !s.emitters[pair.1].expired then
        var e := s.emitters[pair.1].obj;
        if !fits(e, c) then s
        else s.(consumers := s.consumers[pair := Weak(c, false)], links := s.links + multiset{Link(e, pair, c)})
      else s.(consumers := s.consumers[pair := Weak(c, false)])
    case UnregisterEmitter(key) => s.(emitters := s.emitters - {key})
    case UnregisterConsumer(pair) => s.(consumers := s.consumers - {pair})
    case EmitterDies(e) =>
      s.(emitters := map k | k in s.emitters :: if s.emitters[k].obj == e then Weak(e, true) else s.emitters[k])
    case ConsumerDies(c) =>
      s.(consumers := map p | p in s.consumers :: if s.consumers[p].obj == c then Weak(c, true) else s.consumers[p])
  }

  /** One enabled action leads from `s` to `t`. */
  ghost predicate Step<E, C>(fits: (E, C) -> bool, s: State<E, C>, a: Action<E, C>, t: State<E, C>) {
    Enabled(fits, s, a) && t == Next(fits, s, a)
  }

  ghost function Empty<E, C>(): State<E, C> { State(map[], map[], multiset{}) }

  ghost predicate Reaches<E, C>(fits: (E, C) -> bool, s: State<E, C>, acts: seq<Action<E, C>>, t: State<E, C>)
    decreases |acts|
  {
    if acts == [] then s == t
    else Enabled(fits, s, acts[0]) && Reaches(fits, Next(fits, s, acts[0]), acts[1..], t)
  }

  // ---- Coverage ----

  /** The pair and its emitter are registered, and both objects are alive. */
  ghost predicate LivePair<E, C>(s: State<E, C>, p: PairKey) {
    p in s.consumers && !s.consumers[p].expired && p.1 in s.emitters && !s.emitters[p.1].expired
  }

  ghost predicate Covered<E, C>(s: State<E, C>) {
    forall p :: LivePair(s, p) ==> Link(s.emitters[p.1].obj, p, s.consumers[p].obj) in s.links
  }

  lemma LinksAreAdded<E, C>(s: State<E, C>, e: E, order: seq<PairKey>, p: PairKey)
    requires p in order && forall q :: q in order ==> q in s.consumers
    ensures Link(e, p, s.consumers[p].obj) in multiset(LinksOf(s, e, order))
  {
    var i :| 0 <= i < |order| && order[i] == p;
    assert LinksOf(s, e, order)[i] == Link(e, p, s.consumers[p].obj);
  }

  lemma StepKeepsCovered<E, C>(fits: (E, C) -> bool, s: State<E, C>, a: Action<E, C>)
    requires Covered(s) && Enabled(fits, s, a)
    ensures Covered(Next(fits, s, a))
  {
    var t := Next(fits, s, a);
    forall p | LivePair(t, p) ensures Link(t.emitters[p.1].obj, p, t.consumers[p].obj) in t.links {
      if a.RegisterEmitter? && t.emitters != s.emitters && p.1 == a.key {
        assert p in Waiting(s, a.key);
        LinksAreAdded(s, a.emitter, a.order, p);
      } else if a.RegisterConsumer? && t.consumers != s.consumers && p == a.pair {
      } else {
        assert LivePair(s, p);
      }
    }
  }

  /**
   After any run of registrations, unregistrations, deaths and failed `Connect` calls, every
   registered pair whose emitter key is registered and whose two objects are alive is connected.
   */
  lemma {:induction false} AlwaysCovered<E, C>(
    fits: (E, C) -> bool, s: State<E, C>, acts: seq<Action<E, C>>, t: State<E, C>)
    requires Covered(s) && Reaches(fits, s, acts, t)
    ensures Covered(t)
    decreases |acts|
  {
    if acts != [] {
      StepKeepsCovered(fits, s, acts[0]);
      AlwaysCovered(fits, Next(fits, s, acts[0]), acts[1..], t);
    }
  }

  // ---- What unregistering undoes ----

  /**
   Unregistering an emitter takes back its key but not its connections, so registering it again
   connects every waiting consumer a second time.
   */
  lemma ReregisteringConnectsTwice<E, C>(fits: (E, C) -> bool, s: State<E, C>, key: Key, e: E, order: seq<PairKey>)
    requires EmitterAccepted(s, key) && IsOrder(fits, s, key, e, order) && AllFit(fits, s, key, e)
    ensures
      var register := RegisterEmitter(key, e, order);
      var t := Next(fits, s, register);
      var u := Next(fits, t, UnregisterEmitter(key));
      var made := multiset(LinksOf(s, e, order));
      && t.links == s.links + made
      && u == s.(links := t.links)
      && Enabled(fits, u, register)
      && Next(fits, u, register) == t.(links := s.links + made + made)
  {
    var register := RegisterEmitter(key, e, order);
    var t := Next(fits, s, register);
    var u := Next(fits, t, UnregisterEmitter(key));
    assert t.emitters - {key} == s.emitters;
    assert Waiting(u, key) == Waiting(s, key);
    assert LinksOf(u, e, order) == LinksOf(s, e, order);
  }

  /** `a` asks for the pair, or for the emitter key, to be registered. */
  ghost predicate AsksForPair<E, C>(a: Action<E, C>, pair: PairKey) { a.RegisterConsumer? && a.pair == pair }

  ghost predicate AsksForKey<E, C>(a: Action<E, C>, key: Key) { a.RegisterEmitter? && a.key == key }

  /** The pair is not registered, and what was connected on its account is as in `s`. */
  ghost predicate PairIsOut<E, C>(s: State<E, C>, pair: PairKey, t: State<E, C>) {
    && pair !in t.consumers && s.links <= t.links
    && forall x :: x in t.links && x.pair == pair ==> t.links[x] == s.links[x]
  }

  ghost predicate KeyIsOut<E, C>(s: State<E, C>, key: Key, t: State<E, C>) {
    && key !in t.emitters && s.links <= t.links
    && forall x :: x in t.links && x.pair.1 == key ==> t.links[x] == s.links[x]
  }

  lemma LinksAreOfOrder<E, C>(s: State<E, C>, e: E, order: seq<PairKey>)
    requires forall p :: p in order ==> p in s.consumers
    ensures forall x: Link<E, C> :: x.pair !in order ==> multiset(LinksOf(s, e, order))[x] == 0
  {
    var made := LinksOf(s, e, order);
    assert forall x :: x in multiset(made) <==> x in made;
    forall x | x in made ensures x.pair in order {
      var i :| 0 <= i < |made| && made[i] == x;
      assert order[i] in order;
    }
  }

  /** The calls that can connect somebody on account of a pair. */
  ghost predicate Connects<E, C>(s: State<E, C>, a: Action<E, C>, pair: PairKey) {
    || (AsksForKey(a, pair.1) && pair in s.consumers)
    || (AsksForPair(a, pair) && pair.1 in s.emitters)
  }

  lemma StepConnects<E, C>(fits: (E, C) -> bool, s: State<E, C>, a: Action<E, C>, x: Link<E, C>)
    requires Enabled(fits, s, a)
    ensures Next(fits, s, a).links[x] == s.links[x] || Connects(s, a, x.pair)
  {
    hide AllFit;
    if a.RegisterEmitter? && EmitterAccepted(s, a.key) {
      LinksAreOfOrder(s, a.emitter, a.order);
    }
  }

  lemma LinksGrow<E, C>(fits: (E, C) -> bool, s: State<E, C>, a: Action<E, C>)
    requires Enabled(fits, s, a)
    ensures s.links <= Next(fits, s, a).links
  {
    hide AllFit;
  }

  /** Only its own registering call enters a pair or a key. */
  lemma StepEnters<E, C>(fits: (E, C) -> bool, s: State<E, C>, a: Action<E, C>)
    requires Enabled(fits, s, a)
    ensures forall p :: p in Next(fits, s, a).consumers ==> p in s.consumers || AsksForPair(a, p)
    ensures forall k :: k in Next(fits, s, a).emitters ==> k in s.emitters || AsksForKey(a, k)
  {
  }

  /** No step but a `RegisterConsumer` for the pair enters it or connects anybody on its account. */
  lemma StepKeepsPairOut<E, C>(fits: (E, C) -> bool, s: State<E, C>, a: Action<E, C>, pair: PairKey, was: State<E, C>)
    requires Enabled(fits, s, a) && !AsksForPair(a, pair) && PairIsOut(was, pair, s)
    ensures PairIsOut(was, pair, Next(fits, s, a))
  {
    hide Next, Enabled, AsksForPair, AsksForKey;
    var t := Next(fits, s, a);
    LinksGrow(fits, s, a);
    StepEnters(fits, s, a);
    forall x | x in t.links && x.pair == pair ensures t.links[x] == was.links[x] {
      StepConnects(fits, s, a, x);
      assert was.links[x] <= s.links[x] && (x in s.links ==> s.links[x] == was.links[x]);
    }
  }

  lemma StepKeepsKeyOut<E, C>(fits: (E, C) -> bool, s: State<E, C>, a: Action<E, C>, key: Key, was: State<E, C>)
    requires Enabled(fits, s, a) && !AsksForKey(a, key) && KeyIsOut(was, key, s)
    ensures KeyIsOut(was, key, Next(fits, s, a))
  {
    hide Next, Enabled, AsksForPair, AsksForKey;
    var t := Next(fits, s, a);
    LinksGrow(fits, s, a);
    StepEnters(fits, s, a);
    forall x | x in t.links && x.pair.1 == key ensures t.links[x] == was.links[x] {
      StepConnects(fits, s, a, x);
      assert was.links[x] <= s.links[x] && (x in s.links ==> s.links[x] == was.links[x]);
    }
  }

  lemma {:induction false} RunKeepsPairOut<E, C>(
    fits: (E, C) -> bool, s: State<E, C>, acts: seq<Action<E, C>>, pair: PairKey, was: State<E, C>, t: State<E, C>)
    requires PairIsOut(was, pair, s) && Reaches(fits, s, acts, t) && forall a :: a in acts ==> !AsksForPair(a, pair)
    ensures PairIsOut(was, pair, t)
    decreases |acts|
  {
    if acts != [] {
      hide Next, Enabled, PairIsOut, AsksForPair;
      StepKeepsPairOut(fits, s, acts[0], pair, was);
      RunKeepsPairOut(fits, Next(fits, s, acts[0]), acts[1..], pair, was, t);
    }
  }

  lemma {:induction false} RunKeepsKeyOut<E, C>(
    fits: (E, C) -> bool, s: State<E, C>, acts: seq<Action<E, C>>, key: Key, was: State<E, C>, t: State<E, C>)
    requires KeyIsOut(was, key, s) && Reaches(fits, s, acts, t) && forall a :: a in acts ==> !AsksForKey(a, key)
    ensures KeyIsOut(was, key, t)
    decreases |acts|
  {
    if acts != [] {
      hide Next, Enabled, KeyIsOut, AsksForKey;
      StepKeepsKeyOut(fits, s, acts[0], key, was);
      RunKeepsKeyOut(fits, Next(fits, s, acts[0]), acts[1..], key, was, t);
    }
  }

  /**
   After `UnregisterConsumer`, and until the pair is asked for again, the pair is not registered and
   nobody gets connected on its account, whatever else is called; what was connected stays so.  The
   pair is then free to be registered.
   */
  lemma UnregisteredPairStaysOut<E, C>(
    fits: (E, C) -> bool, s: State<E, C>, pair: PairKey, acts: seq<Action<E, C>>, t: State<E, C>)
    requires Reaches(fits, s, [UnregisterConsumer(pair)] + acts, t)
    requires forall a :: a in acts ==> !(a.RegisterConsumer? && a.pair == pair)
    ensures pair !in t.consumers && forall x: Link<E, C> :: x.pair == pair ==> t.links[x] == s.links[x]
    ensures pair.0 != "" && pair.1 != "" ==> ConsumerAccepted(t, pair)
  {
    var all := [UnregisterConsumer(pair)] + acts;
    assert all[0] == UnregisterConsumer(pair) && all[1..] == acts;
    RunKeepsPairOut(fits, Next(fits, s, all[0]), acts, pair, s, t);
  }

  /** The same for `UnregisterEmitter` and all pairs that name the emitter key. */
  lemma UnregisteredKeyStaysOut<E, C>(
    fits: (E, C) -> bool, s: State<E, C>, key: Key, acts: seq<Action<E, C>>, t: State<E, C>)
    requires Reaches(fits, s, [UnregisterEmitter(key)] + acts, t)
    requires forall a :: a in acts ==> !(a.RegisterEmitter? && a.key == key)
    ensures key !in t.emitters && forall x: Link<E, C> :: x.pair.1 == key ==> t.links[x] == s.links[x]
    ensures key != "" ==> EmitterAccepted(t, key)
  {
    var all := [UnregisterEmitter(key)] + acts;
    assert all[0] == UnregisterEmitter(key) && all[1..] == acts;
    RunKeepsKeyOut(fits, Next(fits, s, all[0]), acts, key, s, t);
  }

  /** What is registered in `s` is registered in `t`, with the same objects, except under these keys. */
  ghost predicate Keeps<E, C>(s: State<E, C>, t: State<E, C>, keys: set<Key>, pairs: set<PairKey>) {
    && (forall k :: k in s.emitters && k !in keys ==> k in t.emitters && t.emitters[k].obj == s.emitters[k].obj)
    && (forall p :: p in s.consumers && p !in pairs ==> p in t.consumers && t.consumers[p].obj == s.consumers[p].obj)
    && s.links <= t.links
  }

  lemma StepKeepsEntries<E, C>(
    fits: (E, C) -> bool, s: State<E, C>, a: Action<E, C>, keys: set<Key>, pairs: set<PairKey>)
    requires Enabled(fits, s, a)
    requires (a.UnregisterEmitter? ==> a.key in keys) && (a.UnregisterConsumer? ==> a.pair in pairs)
    ensures Keeps(s, Next(fits, s, a), keys, pairs)
  {
    hide AllFit, LinksOf;
  }

  /**
   An entry leaves the maps through its own unregistering call alone, and a connection never goes
   away: a run keeps every entry whose key it does not unregister.
   */
  lemma {:induction false} EntriesStay<E, C>(
    fits: (E, C) -> bool, s: State<E, C>, acts: seq<Action<E, C>>, keys: set<Key>, pairs: set<PairKey>, t: State<E, C>)
    requires Reaches(fits, s, acts, t)
    requires forall a :: a in acts ==> (a.UnregisterEmitter? ==> a.key in keys)
    requires forall a :: a in acts ==> (a.UnregisterConsumer? ==> a.pair in pairs)
    ensures Keeps(s, t, keys, pairs)
    decreases |acts|
  {
    if acts != [] {
      var u := Next(fits, s, acts[0]);
      StepKeepsEntries(fits, s, acts[0], keys, pairs);
      hide Next, Enabled;
      EntriesStay(fits, u, acts[1..], keys, pairs, t);
    }
  }

  // ---- Registrations only: exactness and order independence ----

  datatype Registration<E(==), C(==)> =
    | Emits(key: Key, emitter: E)
    | Consumes(pair: PairKey, consumer: C)

  /** No two registrations claim the same key, keys are not empty, and types match. */
  ghost predicate Compatible<E, C>(fits: (E, C) -> bool, regs: seq<Registration<E, C>>) {
    && (forall r :: r in regs ==> GoodKeys(r))
    && (forall i, j :: 0 <= i < j < |regs| ==> !SameKey(regs[i], regs[j]))
    && forall r, q :: r in regs && q in regs && r.Emits? && q.Consumes? && q.pair.1 == r.key ==>
         fits(r.emitter, q.consumer)
  }

  ghost predicate GoodKeys<E, C>(r: Registration<E, C>) {
    if r.Emits? then r.key != "" else r.pair.0 != "" && r.pair.1 != ""
  }

  ghost predicate SameKey<E, C>(r: Registration<E, C>, q: Registration<E, C>) {
    || (r.Emits? && q.Emits? && r.key == q.key)
    || (r.Consumes? && q.Consumes? && r.pair == q.pair)
  }

  /** `a` is the call that makes registration `r`. */
  ghost predicate Makes<E, C>(a: Action<E, C>, r: Registration<E, C>) {
    if r.Emits? then a.RegisterEmitter? && a.key == r.key && a.emitter == r.emitter
    else a == RegisterConsumer(r.pair, r.consumer)
  }

  ghost predicate MakesAll<E, C>(acts: seq<Action<E, C>>, regs: seq<Registration<E, C>>) {
    |acts| == |regs| && forall i :: 0 <= i < |acts| ==> Makes(acts[i], regs[i])
  }

  /** The links that the registered pairs call for: one per pair whose emitter key is registered. */
  ghost function CalledFor<E, C>(s: State<E, C>): set<Link<E, C>> {
    set p | p in s.consumers && p.1 in s.emitters :: Link(s.emitters[p.1].obj, p, s.consumers[p].obj)
  }

  ghost predicate Exact<E, C>(s: State<E, C>) { s.links == multiset(CalledFor(s)) }

  /** The state holds these registrations and no others, and everybody is alive. */
  ghost predicate Holds<E, C>(s: State<E, C>, regs: seq<Registration<E, C>>) {
    && (forall k :: k in s.emitters ==> !s.emitters[k].expired && Emits(k, s.emitters[k].obj) in regs)
    && (forall p :: p in s.consumers ==> !s.consumers[p].expired && Consumes(p, s.consumers[p].obj) in regs)
    && (forall r :: r in regs && r.Emits? ==> r.key in s.emitters && s.emitters[r.key].obj == r.emitter)
    && (forall r :: r in regs && r.Consumes? ==> r.pair in s.consumers && s.consumers[r.pair].obj == r.consumer)
  }

  lemma {:induction false} DistinctOnce<T>(a: seq<T>)
    requires Distinct(a)
    ensures forall x :: multiset(a)[x] == if x in a then 1 else 0
  {
    if a != [] {
      var n := |a| - 1;
      DistinctOnce(a[..n]);
      assert a == a[..n] + [a[n]];
      assert a[n] !in a[..n];
    }
  }

  lemma DistinctCounts<T>(a: seq<T>, b: set<T>)
    requires Distinct(a) && forall x :: x in a <==> x in b
    ensures multiset(a) == multiset(b)
  {
    DistinctOnce(a);
    forall x ensures multiset(a)[x] == multiset(b)[x] {}
  }

  lemma OnceIsDistinct<T>(a: seq<T>)
    requires forall x :: multiset(a)[x] <= 1
    ensures Distinct(a)
  {
    forall i, j | 0 <= i < j < |a| ensures a[i] != a[j] {
      assert a == a[..j] + a[j..];
      assert a[..j][i] == a[i] && a[j..][0] == a[j];
      assert multiset(a)[a[i]] == multiset(a[..j])[a[i]] + multiset(a[j..])[a[i]];
    }
  }

  /** The links that a newly registered emitter key calls for. */
  ghost function NewLinks<E, C>(s: State<E, C>, key: Key, e: E): set<Link<E, C>> {
    set p | p in s.consumers && p.1 == key :: Link(e, p, s.consumers[p].obj)
  }

  lemma OrderGivesNewLinks<E, C>(fits: (E, C) -> bool, s: State<E, C>, key: Key, e: E, order: seq<PairKey>)
    requires IsOrder(fits, s, key, e, order) && AllFit(fits, s, key, e)
    requires forall p :: p in s.consumers ==> !s.consumers[p].expired
    ensures multiset(LinksOf(s, e, order)) == multiset(NewLinks(s, key, e))
  {
    var a, b := LinksOf(s, e, order), NewLinks(s, key, e);
    forall x ensures x in a <==> x in b {
      if x in a {
        var i :| 0 <= i < |a| && a[i] == x;
        assert order[i] in order;
      }
      if x in b {
        var p :| p in s.consumers && p.1 == key && x == Link(e, p, s.consumers[p].obj);
        assert p in Waiting(s, key);
        var i :| 0 <= i < |order| && order[i] == p;
        assert a[i] == x;
      }
    }
    DistinctCounts(a, b);
  }

  lemma DisjointUnion<T>(a: set<T>, b: set<T>)
    requires a !! b
    ensures multiset(a + b) == multiset(a) + multiset(b)
  {
  }

  lemma EmitterIsAccepted<E, C>(fits: (E, C) -> bool, s: State<E, C>, regs: seq<Registration<E, C>>, key: Key, e: E)
    requires Holds(s, regs) && Compatible(fits, regs + [Emits(key, e)])
    ensures EmitterAccepted(s, key) && AllFit(fits, s, key, e)
  {
    var r := Emits(key, e);
    var all := regs + [r];
    assert all[|regs|] == r && r in all && forall q :: q in regs ==> q in all;
    assert GoodKeys(r);
    if key in s.emitters {
      var i :| 0 <= i < |regs| && regs[i] == Emits(key, s.emitters[key].obj);
      assert SameKey(all[i], all[|regs|]);
      assert false;
    }
    forall p | p in Waiting(s, key) ensures fits(e, s.consumers[p].obj) {
      assert Consumes(p, s.consumers[p].obj) in all;
    }
  }

  lemma EmitterStep<E, C>(fits: (E, C) -> bool, s: State<E, C>, regs: seq<Registration<E, C>>, a: Action<E, C>)
    requires Holds(s, regs) && Exact(s) && a.RegisterEmitter? && Enabled(fits, s, a)
    requires Compatible(fits, regs + [Emits(a.key, a.emitter)])
    ensures Holds(Next(fits, s, a), regs + [Emits(a.key, a.emitter)]) && Exact(Next(fits, s, a))
  {
    EmitterIsAccepted(fits, s, regs, a.key, a.emitter);
    hide Compatible;
    EmitterStepExact(fits, s, a);
    EmitterIsHeld(s, Next(fits, s, a), regs, a.key, a.emitter);
  }

  lemma EmitterStepExact<E, C>(fits: (E, C) -> bool, s: State<E, C>, a: Action<E, C>)
    requires Exact(s) && a.RegisterEmitter? && Enabled(fits, s, a)
    requires EmitterAccepted(s, a.key) && AllFit(fits, s, a.key, a.emitter)
    requires forall p :: p in s.consumers ==> !s.consumers[p].expired
    ensures Exact(Next(fits, s, a))
  {
    var t := Next(fits, s, a);
    OrderGivesNewLinks(fits, s, a.key, a.emitter, a.order);
    CalledForGrows(s, t, a.key, a.emitter);
    NewLinksAreNew(s, a.key, a.emitter);
    hide CalledFor, NewLinks, IsOrder, AllFit;
    DisjointUnion(CalledFor(s), NewLinks(s, a.key, a.emitter));
  }

  lemma NewLinksAreNew<E, C>(s: State<E, C>, key: Key, e: E)
    requires key !in s.emitters
    ensures CalledFor(s) !! NewLinks(s, key, e)
  {
  }

  lemma EmitterIsHeld<E, C>(s: State<E, C>, t: State<E, C>, regs: seq<Registration<E, C>>, key: Key, e: E)
    requires Holds(s, regs) && key !in s.emitters
    requires t.consumers == s.consumers && t.emitters == s.emitters[key := Weak(e, false)]
    ensures Holds(t, regs + [Emits(key, e)])
  {
    var all := regs + [Emits(key, e)];
    assert forall q :: q in all <==> q in regs || q == Emits(key, e);
    forall k | k in t.emitters ensures !t.emitters[k].expired && Emits(k, t.emitters[k].obj) in all {
      assert k != key ==> k in s.emitters;
    }
  }

  lemma CalledForGrows<E, C>(s: State<E, C>, t: State<E, C>, key: Key, e: E)
    requires key !in s.emitters && t.consumers == s.consumers && t.emitters == s.emitters[key := Weak(e, false)]
    ensures CalledFor(t) == CalledFor(s) + NewLinks(s, key, e)
  {
    forall x ensures x in CalledFor(t) <==> x in CalledFor(s) + NewLinks(s, key, e) {
      if x in CalledFor(t) {
        var p :| p in t.consumers && p.1 in t.emitters && x == Link(t.emitters[p.1].obj, p, t.consumers[p].obj);
        assert p.1 != key ==> p.1 in s.emitters;
      }
    }
  }

  lemma ConsumerIsAccepted<E, C>(
    fits: (E, C) -> bool, s: State<E, C>, regs: seq<Registration<E, C>>, pair: PairKey, c: C)
    requires Holds(s, regs) && Compatible(fits, regs + [Consumes(pair, c)])
    ensures ConsumerAccepted(s, pair)
    ensures pair.1 in s.emitters ==> !s.emitters[pair.1].expired && fits(s.emitters[pair.1].obj, c)
  {
    var r := Consumes(pair, c);
    var all := regs + [r];
    assert all[|regs|] == r && r in all && forall q :: q in regs ==> q in all;
    assert GoodKeys(r);
    if pair in s.consumers {
      var i :| 0 <= i < |regs| && regs[i] == Consumes(pair, s.consumers[pair].obj);
      assert SameKey(all[i], all[|regs|]);
      assert false;
    }
    if pair.1 in s.emitters {
      assert Emits(pair.1, s.emitters[pair.1].obj) in all;
    }
  }

  lemma ConsumerStep<E, C>(fits: (E, C) -> bool, s: State<E, C>, regs: seq<Registration<E, C>>, pair: PairKey, c: C)
    requires Holds(s, regs) && Exact(s) && Compatible(fits, regs + [Consumes(pair, c)])
    ensures var t := Next(fits, s, RegisterConsumer(pair, c));
      Holds(t, regs + [Consumes(pair, c)]) && Exact(t)
  {
    ConsumerIsAccepted(fits, s, regs, pair, c);
    hide Compatible;
    ConsumerStepExact(fits, s, pair, c);
    hide Exact, Holds;
    ConsumerIsHeld(s, Next(fits, s, RegisterConsumer(pair, c)), regs, pair, c);
  }

  lemma ConsumerIsHeld<E, C>(s: State<E, C>, t: State<E, C>, regs: seq<Registration<E, C>>, pair: PairKey, c: C)
    requires Holds(s, regs) && pair !in s.consumers
    requires t.emitters == s.emitters && t.consumers == s.consumers[pair := Weak(c, false)]
    ensures Holds(t, regs + [Consumes(pair, c)])
  {
    var all := regs + [Consumes(pair, c)];
    assert forall q :: q in all <==> q in regs || q == Consumes(pair, c);
    forall p | p in t.consumers ensures !t.consumers[p].expired && Consumes(p, t.consumers[p].obj) in all {
      assert p != pair ==> p in s.consumers;
    }
  }

  lemma ConsumerStepExact<E, C>(fits: (E, C) -> bool, s: State<E, C>, pair: PairKey, c: C)
    requires Exact(s) && ConsumerAccepted(s, pair)
    requires pair.1 in s.emitters ==> !s.emitters[pair.1].expired && fits(s.emitters[pair.1].obj, c)
    ensures Exact(Next(fits, s, RegisterConsumer(pair, c)))
  {
    var t := Next(fits, s, RegisterConsumer(pair, c));
    CalledForOneMore(s, t, pair, c);
    hide CalledFor;
    if pair.1 in s.emitters {
      var x := Link(s.emitters[pair.1].obj, pair, c);
      assert x !in CalledFor(s) by { NotCalledFor(s, x); }
      DisjointUnion(CalledFor(s), {x});
    } else {
      assert CalledFor(s) + {} == CalledFor(s);
    }
  }

  lemma NotCalledFor<E, C>(s: State<E, C>, x: Link<E, C>)
    requires x.pair !in s.consumers
    ensures x !in CalledFor(s)
  {
  }

  lemma CalledForOneMore<E, C>(s: State<E, C>, t: State<E, C>, pair: PairKey, c: C)
    requires pair !in s.consumers && t.emitters == s.emitters && t.consumers == s.consumers[pair := Weak(c, false)]
    ensures CalledFor(t) ==
      CalledFor(s) + if pair.1 in s.emitters then {Link(s.emitters[pair.1].obj, pair, c)} else {}
  {
    var more := if pair.1 in s.emitters then {Link(s.emitters[pair.1].obj, pair, c)} else {};
    forall x ensures x in CalledFor(t) <==> x in CalledFor(s) + more {
      if x in CalledFor(t) {
        var p :| p in t.consumers && p.1 in t.emitters && x == Link(t.emitters[p.1].obj, p, t.consumers[p].obj);
        assert p != pair ==> p in s.consumers;
      }
      if x in CalledFor(s) {
        var p :| p in s.consumers && p.1 in s.emitters && x == Link(s.emitters[p.1].obj, p, s.consumers[p].obj);
        assert p in t.consumers;
      }
      if x in more { assert pair in t.consumers; }
    }
  }

  lemma CompatiblePrefix<E, C>(fits: (E, C) -> bool, regs: seq<Registration<E, C>>, n: nat)
    requires Compatible(fits, regs) && n <= |regs|
    ensures Compatible(fits, regs[..n])
  {
    assert forall r :: r in regs[..n] ==> r in regs;
  }

  /** The first `n` of compatible registrations, made in this order, lead from nothing to `s`. */
  ghost predicate Built<E, C>(
    fits: (E, C) -> bool, regs: seq<Registration<E, C>>, acts: seq<Action<E, C>>, s: State<E, C>)
  {
    MakesAll(acts, regs) && Reaches(fits, Empty(), acts, s)
  }

  lemma {:induction false} RegisterMore<E, C>(
    fits: (E, C) -> bool, regs: seq<Registration<E, C>>, n: nat,
    s: State<E, C>, acts: seq<Action<E, C>>, t: State<E, C>)
    requires Compatible(fits, regs) && n <= |regs| && Holds(s, regs[..n]) && Exact(s)
    requires MakesAll(acts, regs[n..]) && Reaches(fits, s, acts, t)
    ensures Holds(t, regs) && Exact(t)
    decreases |acts|
  {
    hide Holds, Exact, GoodKeys, SameKey, Compatible, Next;
    if acts == [] {
      assert regs[..n] == regs;
    } else {
      var r := regs[n];
      assert regs[n..][0] == r && regs[..n + 1] == regs[..n] + [r];
      CompatiblePrefix(fits, regs, n + 1);
      if r.Emits? {
        EmitterStep(fits, s, regs[..n], acts[0]);
      } else {
        ConsumerStep(fits, s, regs[..n], r.pair, r.consumer);
      }
      assert forall i :: 0 <= i < |acts| - 1 ==> acts[1..][i] == acts[i + 1] && regs[n + 1..][i] == regs[n..][i + 1];
      RegisterMore(fits, regs, n + 1, Next(fits, s, acts[0]), acts[1..], t);
    }
  }

  /**
   Compatible registrations leave exactly one link per registered pair whose emitter key is
   registered, an emitter under several keys and a consumer in several pairs counted each time.
   */
  lemma RegistrationsAreExact<E, C>(
    fits: (E, C) -> bool, regs: seq<Registration<E, C>>, acts: seq<Action<E, C>>, s: State<E, C>)
    requires Compatible(fits, regs) && Built(fits, regs, acts, s)
    ensures Holds(s, regs) && Exact(s)
  {
    assert regs[..0] == [] && regs[0..] == regs;
    RegisterMore(fits, regs, 0, Empty(), acts, s);
  }

  // ---- Runs with refused registrations ----

  ghost predicate Registers<E, C>(a: Action<E, C>) { a.RegisterEmitter? || a.RegisterConsumer? }

  /** Every emitter and every consumer that name the same emitter key are of one type. */
  ghost predicate MatchingTypes<E, C>(fits: (E, C) -> bool, acts: seq<Action<E, C>>) {
    forall a, b :: a in acts && b in acts && a.RegisterEmitter? && b.RegisterConsumer? && b.pair.1 == a.key ==>
      fits(a.emitter, b.consumer)
  }

  /** Everybody registered is alive and fits whatever is still to be registered. */
  ghost predicate Welcomes<E, C>(fits: (E, C) -> bool, s: State<E, C>, acts: seq<Action<E, C>>) {
    && (forall k :: k in s.emitters ==> !s.emitters[k].expired)
    && (forall p :: p in s.consumers ==> !s.consumers[p].expired)
    && (forall a, p :: a in acts && a.RegisterEmitter? && p in s.consumers && p.1 == a.key ==>
          fits(a.emitter, s.consumers[p].obj))
    && (forall b :: b in acts && b.RegisterConsumer? && b.pair.1 in s.emitters ==>
          fits(s.emitters[b.pair.1].obj, b.consumer))
  }

  /** What is registered stays registered, for the same object. */
  ghost predicate Grows<E, C>(s: State<E, C>, t: State<E, C>) {
    && (forall k :: k in s.emitters ==> k in t.emitters && t.emitters[k] == s.emitters[k])
    && (forall p :: p in s.consumers ==> p in t.consumers && t.consumers[p] == s.consumers[p])
  }

  /** The keys of a call are in use. */
  ghost predicate Entered<E, C>(s: State<E, C>, a: Action<E, C>) {
    && (a.RegisterEmitter? && a.key != "" ==> a.key in s.emitters)
    && (a.RegisterConsumer? && a.pair.0 != "" && a.pair.1 != "" ==> a.pair in s.consumers)
  }

  lemma WelcomesRest<E, C>(fits: (E, C) -> bool, s: State<E, C>, a: Action<E, C>, rest: seq<Action<E, C>>)
    requires Welcomes(fits, s, [a] + rest) && MatchingTypes(fits, [a] + rest)
    ensures Welcomes(fits, s, rest) && MatchingTypes(fits, rest)
  {
    assert forall b :: b in rest ==> b in [a] + rest;
  }

  lemma WelcomesEmitter<E, C>(
    fits: (E, C) -> bool, s: State<E, C>, a: Action<E, C>, rest: seq<Action<E, C>>, t: State<E, C>)
    requires Welcomes(fits, s, rest) && MatchingTypes(fits, [a] + rest) && a.RegisterEmitter? && a.key !in s.emitters
    requires t.consumers == s.consumers && t.emitters == s.emitters[a.key := Weak(a.emitter, false)]
    ensures Welcomes(fits, t, rest) && Grows(s, t)
  {
    assert a in [a] + rest && forall b :: b in rest ==> b in [a] + rest;
  }

  lemma WelcomesConsumer<E, C>(
    fits: (E, C) -> bool, s: State<E, C>, a: Action<E, C>, rest: seq<Action<E, C>>, t: State<E, C>)
    requires Welcomes(fits, s, rest) && MatchingTypes(fits, [a] + rest) && a.RegisterConsumer? && a.pair !in s.consumers
    requires t.emitters == s.emitters && t.consumers == s.consumers[a.pair := Weak(a.consumer, false)]
    ensures Welcomes(fits, t, rest) && Grows(s, t)
  {
    assert a in [a] + rest && forall b :: b in rest ==> b in [a] + rest;
  }

  /** The one who is registered next fits those who are there. */
  lemma NextFits<E, C>(fits: (E, C) -> bool, s: State<E, C>, a: Action<E, C>, rest: seq<Action<E, C>>)
    requires Welcomes(fits, s, [a] + rest)
    ensures a.RegisterEmitter? ==> AllFit(fits, s, a.key, a.emitter)
    ensures a.RegisterConsumer? && a.pair.1 in s.emitters ==>
      !s.emitters[a.pair.1].expired && fits(s.emitters[a.pair.1].obj, a.consumer)
    ensures forall p :: p in s.consumers ==> !s.consumers[p].expired
  {
    assert a in [a] + rest;
  }

  /** A call that is accepted adds its links; one that is refused changes nothing. */
  lemma RegistrationStep<E, C>(fits: (E, C) -> bool, s: State<E, C>, a: Action<E, C>, rest: seq<Action<E, C>>)
    requires Registers(a) && Enabled(fits, s, a) && Exact(s)
    requires Welcomes(fits, s, [a] + rest) && MatchingTypes(fits, [a] + rest)
    ensures var t := Next(fits, s, a);
      Exact(t) && Welcomes(fits, t, rest) && Grows(s, t) && Entered(t, a)
    ensures MatchingTypes(fits, rest)
  {
    NextFits(fits, s, a, rest);
    WelcomesRest(fits, s, a, rest);
    hide Exact, Welcomes, MatchingTypes, AllFit, IsOrder, LinksOf;
    var t := Next(fits, s, a);
    if a.RegisterEmitter? && EmitterAccepted(s, a.key) {
      EmitterStepExact(fits, s, a);
      WelcomesEmitter(fits, s, a, rest, t);
    }
    if a.RegisterConsumer? && ConsumerAccepted(s, a.pair) {
      ConsumerStepExact(fits, s, a.pair, a.consumer);
      WelcomesConsumer(fits, s, a, rest, t);
    }
  }

  lemma StaysEntered<E, C>(s: State<E, C>, u: State<E, C>, a: Action<E, C>, t: State<E, C>)
    requires Grows(s, u) && Entered(u, a) && Grows(u, t)
    ensures Grows(s, t) && Entered(t, a)
  {
  }

  /** Calls `acts`, with `more` to follow. */
  lemma {:induction false} RegistrationRun<E, C>(
    fits: (E, C) -> bool, s: State<E, C>, acts: seq<Action<E, C>>, more: seq<Action<E, C>>, t: State<E, C>)
    requires Exact(s) && Welcomes(fits, s, acts + more) && MatchingTypes(fits, acts + more)
    requires Reaches(fits, s, acts, t) && forall a :: a in acts ==> Registers(a)
    ensures Exact(t) && Welcomes(fits, t, more) && Grows(s, t) && forall a :: a in acts ==> Entered(t, a)
    decreases |acts|
  {
    if acts == [] {
      assert acts + more == more;
    } else {
      var a, rest := acts[0], acts[1..];
      assert acts + more == [a] + (rest + more);
      assert a in acts && forall b :: b in rest ==> b in acts;
      assert forall b :: b in acts ==> b == a || b in rest;
      hide Exact, Welcomes, MatchingTypes, Next, Enabled, Registers, Grows, Entered;
      var u := Next(fits, s, a);
      RegistrationStep(fits, s, a, rest + more);
      RegistrationRun(fits, u, rest, more, t);
      StaysEntered(s, u, a, t);
    }
  }

  /**
   Exactness of every run of registrations in which types match, with calls that are refused for
   an empty key or a key in use among them: one link per registered pair whose emitter key is
   registered, and no other.  Every key asked for is then in use, and stays with its first object.
   */
  lemma RegistrationRunsAreExact<E, C>(
    fits: (E, C) -> bool, acts: seq<Action<E, C>>, s: State<E, C>, more: seq<Action<E, C>>, t: State<E, C>)
    requires Reaches(fits, Empty(), acts, s) && Reaches(fits, s, more, t)
    requires MatchingTypes(fits, acts + more) && forall a :: a in acts + more ==> Registers(a)
    ensures Exact(s) && Exact(t) && Grows(s, t)
    ensures (forall a :: a in acts ==> Entered(s, a)) && forall a :: a in more ==> Entered(t, a)
  {
    RegistrationRun(fits, Empty(), acts, more, s);
    assert more + [] == more && forall a :: a in more ==> a in acts + more;
    assert MatchingTypes(fits, more);
    hide Exact, Welcomes, MatchingTypes, Registers;
    RegistrationRun(fits, s, more, [], t);
  }

  /** In a permutation of distinct registrations, no two claim the same key if none did before. */
  lemma PermutedKeysDiffer<E, C>(a: seq<Registration<E, C>>, b: seq<Registration<E, C>>)
    requires forall i, j :: 0 <= i < j < |a| ==> !SameKey(a[i], a[j])
    requires Distinct(b) && forall r :: r in b ==> r in a
    ensures forall i, j :: 0 <= i < j < |b| ==> !SameKey(b[i], b[j])
  {
    forall i, j | 0 <= i < j < |b| ensures !SameKey(b[i], b[j]) {
      assert b[i] in a && b[j] in a;
      var k :| 0 <= k < |a| && a[k] == b[i];
      var l :| 0 <= l < |a| && a[l] == b[j];
      assert b[i] != b[j];
      assert k < l ==> !SameKey(a[k], a[l]);
      assert l < k ==> !SameKey(a[l], a[k]);
    }
  }

  lemma PermutedDistinct<T>(a: seq<T>, b: seq<T>)
    requires Distinct(a) && multiset(a) == multiset(b)
    ensures Distinct(b) && forall x :: x in a <==> x in b
  {
    DistinctOnce(a);
    OnceIsDistinct(b);
    assert forall x :: x in a <==> x in multiset(a);
    assert forall x :: x in b <==> x in multiset(b);
  }

  lemma PermutationIsCompatible<E, C>(fits: (E, C) -> bool, a: seq<Registration<E, C>>, b: seq<Registration<E, C>>)
    requires Compatible(fits, a) && multiset(a) == multiset(b)
    ensures Compatible(fits, b) && forall r :: r in a <==> r in b
  {
    assert Distinct(a) by {
      forall i, j | 0 <= i < j < |a| ensures a[i] != a[j] { assert !SameKey(a[i], a[j]); }
    }
    hide Distinct, SameKey, GoodKeys;
    PermutedDistinct(a, b);
    PermutedKeysDiffer(a, b);
  }

  /**
   Order independence: the same compatible registrations made in any two orders leave the same
   maps and the same links.
   */
  lemma OrderDoesNotMatter<E, C>(
    fits: (E, C) -> bool,
    a: seq<Registration<E, C>>, actsA: seq<Action<E, C>>, s: State<E, C>,
    b: seq<Registration<E, C>>, actsB: seq<Action<E, C>>, t: State<E, C>)
    requires Compatible(fits, a) && multiset(a) == multiset(b)
    requires Built(fits, a, actsA, s) && Built(fits, b, actsB, t)
    ensures s == t
  {
    hide Compatible, Built, Holds, Exact;
    PermutationIsCompatible(fits, a, b);
    RegistrationsAreExact(fits, a, actsA, s);
    RegistrationsAreExact(fits, b, actsB, t);
    SameState(s, t, a, b);
  }

  lemma SameState<E, C>(s: State<E, C>, t: State<E, C>, a: seq<Registration<E, C>>, b: seq<Registration<E, C>>)
    requires Holds(s, a) && Exact(s) && Holds(t, b) && Exact(t) && forall r :: r in a <==> r in b
    ensures s == t
  {
    hide Holds;
    SameMaps(s, t, a, b);
    SameMaps(t, s, b, a);
    assert s.emitters.Keys == t.emitters.Keys && s.emitters == t.emitters;
    assert s.consumers.Keys == t.consumers.Keys && s.consumers == t.consumers;
  }

  lemma SameMaps<E, C>(s: State<E, C>, t: State<E, C>, a: seq<Registration<E, C>>, b: seq<Registration<E, C>>)
    requires Holds(s, a) && Holds(t, b) && forall r :: r in a <==> r in b
    ensures forall k :: k in s.emitters ==> k in t.emitters && t.emitters[k] == s.emitters[k]
    ensures forall p :: p in s.consumers ==> p in t.consumers && t.consumers[p] == s.consumers[p]
  {
    forall k | k in s.emitters ensures k in t.emitters && t.emitters[k] == s.emitters[k] {
      var r: Registration<E, C> := Emits(k, s.emitters[k].obj);
      assert r in b;
    }
    forall p | p in s.consumers ensures p in t.consumers && t.consumers[p] == s.consumers[p] {
      var r: Registration<E, C> := Consumes(p, s.consumers[p].obj);
      assert r in b;
    }
  }

  // ---- What emitters see ----

  /** The consumers that these `Connect` calls gave to an emitter, in order. */
  ghost function SlotsOf<E, C>(made: seq<Link<E, C>>, e: E): seq<C> {
    if made == [] then []
    else
      var last := made[|made| - 1];
      SlotsOf(made[..|made| - 1], e) + if last.emitter == e then [last.consumer] else []
  }

  lemma {:induction false} SlotsOfBoth<E, C>(a: seq<Link<E, C>>, b: seq<Link<E, C>>, e: E)
    ensures SlotsOf(a + b, e) == SlotsOf(a, e) + SlotsOf(b, e)
    decreases |b|
  {
    if b == [] {
      assert a + b == a;
    } else {
      var front := b[..|b| - 1];
      assert (a + b)[..|a + b| - 1] == a + front;
      SlotsOfBoth(a, front, e);
    }
  }

  lemma SlotsOfOneMore<E, C>(made: seq<Link<E, C>>, x: Link<E, C>, e: E)
    ensures SlotsOf(made + [x], e) == SlotsOf(made, e) + if x.emitter == e then [x.consumer] else []
  {
    assert (made + [x])[..|made|] == made;
  }

  lemma FindIn<T>(a: seq<T>, b: seq<T>) returns (j: nat)
    requires a != [] && multiset(a) == multiset(b)
    ensures j < |b| && b[j] == a[0]
  {
    assert a[0] in multiset(a) && a[0] in multiset(b);
    j :| 0 <= j < |b| && b[j] == a[0];
  }

  lemma NothingLeft<T>(b: seq<T>)
    requires multiset(b) == multiset([])
    ensures b == []
  {
    assert |multiset(b)| == |b|;
  }

  /** The slots of an emitter are settled, up to order, by the links that were made. */
  lemma {:induction false} SlotsFollowLinks<E, C>(a: seq<Link<E, C>>, b: seq<Link<E, C>>, e: E)
    requires multiset(a) == multiset(b)
    ensures multiset(SlotsOf(a, e)) == multiset(SlotsOf(b, e))
    decreases |a|
  {
    hide SlotsOf;
    if a == [] {
      NothingLeft(b);
    } else {
      var j := FindIn(a, b);
      TakeOut(a, 0, e);
      TakeOut(b, j, e);
      var restA, restB := a[..0] + a[1..], b[..j] + b[j + 1..];
      assert |restA| < |a| && multiset(restA) == multiset(restB);
      SlotsFollowLinks(restA, restB, e);
    }
  }

  /** Wherever a link stands, it adds one slot to its emitter. */
  lemma TakeOut<E, C>(made: seq<Link<E, C>>, j: nat, e: E)
    requires j < |made|
    ensures var x, rest := made[j], made[..j] + made[j + 1..];
      && multiset(made) - multiset{x} == multiset(rest)
      && multiset(SlotsOf(made, e)) ==
           multiset(SlotsOf(rest, e)) + multiset(if x.emitter == e then [x.consumer] else [])
  {
    var x, front, back := made[j], made[..j], made[j + 1..];
    assert made == front + [x] + back;
    SlotsOfBoth(front + [x], back, e);
    SlotsOfOneMore(front, x, e);
    SlotsOfBoth(front, back, e);
    hide SlotsOf;
    var one := if x.emitter == e then [x.consumer] else [];
    assert multiset(front + [x] + back) == multiset(front + back) + multiset{x};
    assert multiset(SlotsOf(front, e) + one + SlotsOf(back, e)) ==
           multiset(SlotsOf(front, e) + SlotsOf(back, e)) + multiset(one);
  }

  /** The pairs on account of which an emitter has been connected to a consumer. */
  ghost function PairsIn<E, C>(made: seq<Link<E, C>>, e: E, c: C): set<PairKey> {
    set x | x in made && x.emitter == e && x.consumer == c :: x.pair
  }

  lemma {:induction false} SlotsCountPairs<E, C>(made: seq<Link<E, C>>, e: E, c: C)
    requires Distinct(made)
    ensures multiset(SlotsOf(made, e))[c] == |PairsIn(made, e, c)|
    decreases |made|
  {
    if made != [] {
      var n := |made| - 1;
      var front, x := made[..n], made[n];
      assert made == front + [x] && x !in front;
      SlotsCountPairs(front, e, c);
      SlotsOfOneMore(front, x, e);
      OnePairMore(front, x, e, c);
    }
  }

  lemma OnePairMore<E, C>(made: seq<Link<E, C>>, x: Link<E, C>, e: E, c: C)
    requires x !in made
    ensures var fits := x.emitter == e && x.consumer == c;
      && PairsIn(made + [x], e, c) == PairsIn(made, e, c) + (if fits then {x.pair} else {})
      && (fits ==> x.pair !in PairsIn(made, e, c))
  {
    assert forall y :: y in made + [x] <==> y in made || y == x;
  }

  /** The registered pairs of a consumer whose emitter key belongs to `e`. */
  ghost function PairsOf<E, C>(s: State<E, C>, e: E, c: C): set<PairKey> {
    set p | p in s.consumers && p.1 in s.emitters && s.emitters[p.1].obj == e && s.consumers[p].obj == c
  }

  lemma ExactSlots<E, C>(s: State<E, C>, made: seq<Link<E, C>>, e: E, c: C)
    requires Exact(s) && multiset(made) == s.links
    ensures multiset(SlotsOf(made, e))[c] == |PairsOf(s, e, c)|
  {
    OnceIsDistinct(made);
    SlotsCountPairs(made, e, c);
    assert forall x :: x in made <==> x in multiset(made);
    forall p ensures p in PairsIn(made, e, c) <==> p in PairsOf(s, e, c) {
      if p in PairsIn(made, e, c) {
        assert Link(e, p, c) in CalledFor(s);
      }
      if p in PairsOf(s, e, c) {
        assert Link(e, p, c) in CalledFor(s);
      }
    }
    assert PairsIn(made, e, c) == PairsOf(s, e, c);
  }

  /**
   Exactness, as the emitters see it: after any run of registrations with matching types an emitter
   has one slot for a consumer per registered pair that connects the two.
   */
  lemma SlotsAreExact<E, C>(
    fits: (E, C) -> bool, acts: seq<Action<E, C>>, s: State<E, C>, made: seq<Link<E, C>>, e: E, c: C)
    requires Reaches(fits, Empty(), acts, s) && MatchingTypes(fits, acts) && forall a :: a in acts ==> Registers(a)
    requires multiset(made) == s.links
    ensures multiset(SlotsOf(made, e))[c] == |PairsOf(s, e, c)|
  {
    assert acts + [] == acts;
    RegistrationRunsAreExact(fits, acts, s, [], s);
    ExactSlots(s, made, e, c);
  }

  /** Order independence, as the emitters see it: the same slots, each as often. */
  lemma OrderDoesNotMatterToEmitters<E, C>(
    fits: (E, C) -> bool,
    a: seq<Registration<E, C>>, actsA: seq<Action<E, C>>, s: State<E, C>, madeA: seq<Link<E, C>>,
    b: seq<Registration<E, C>>, actsB: seq<Action<E, C>>, t: State<E, C>, madeB: seq<Link<E, C>>, e: E)
    requires Compatible(fits, a) && multiset(a) == multiset(b)
    requires Built(fits, a, actsA, s) && Built(fits, b, actsB, t)
    requires multiset(madeA) == s.links && multiset(madeB) == t.links
    ensures multiset(SlotsOf(madeA, e)) == multiset(SlotsOf(madeB, e))
  {
    hide *;
    OrderDoesNotMatter(fits, a, actsA, s, b, actsB, t);
    SlotsFollowLinks(madeA, madeB, e);
  }

  // ---- Such runs exist ----

  lemma {:induction false} Enumerate<T>(all: set<T>) returns (order: seq<T>)
    ensures Distinct(order) && forall x :: x in order <==> x in all
  {
    if all == {} {
      order := [];
    } else {
      var x :| x in all;
      var rest := Enumerate(all - {x});
      order := rest + [x];
    }
  }

  lemma {:induction false} ExtendRun<E, C>(
    fits: (E, C) -> bool, s: State<E, C>, acts: seq<Action<E, C>>, t: State<E, C>, a: Action<E, C>)
    requires Reaches(fits, s, acts, t) && Enabled(fits, t, a)
    ensures Reaches(fits, s, acts + [a], Next(fits, t, a))
    decreases |acts|
  {
    hide Next, Enabled;
    if acts == [] {
      assert acts + [a] == [a] && [a][1..] == [];
    } else {
      assert (acts + [a])[1..] == acts[1..] + [a];
      ExtendRun(fits, Next(fits, s, acts[0]), acts[1..], t, a);
    }
  }

  /** Compatible registrations can be made in the order given, and hence in any order. */
  lemma {:induction false} RegistrationsSucceed<E, C>(fits: (E, C) -> bool, regs: seq<Registration<E, C>>)
    returns (acts: seq<Action<E, C>>, s: State<E, C>)
    requires Compatible(fits, regs)
    ensures Built(fits, regs, acts, s) && Holds(s, regs) && Exact(s)
  {
    if regs == [] {
      acts, s := [], Empty();
    } else {
      var n := |regs| - 1;
      CompatiblePrefix(fits, regs, n);
      assert regs == regs[..n] + [regs[n]];
      acts, s := RegistrationsSucceed(fits, regs[..n]);
      var a := ActionFor(fits, s, regs[n]);
      hide Compatible, Holds, Exact, Next, Enabled, Makes;
      ExtendRun(fits, Empty(), acts, s, a);
      acts, s := acts + [a], Next(fits, s, a);
    }
    RegistrationsAreExact(fits, regs, acts, s);
  }

  lemma ActionFor<E, C>(fits: (E, C) -> bool, s: State<E, C>, r: Registration<E, C>) returns (a: Action<E, C>)
    ensures Makes(a, r) && Enabled(fits, s, a)
  {
    if r.Emits? {
      var order := Enumerate(set p | p in Waiting(s, r.key) && fits(r.emitter, s.consumers[p].obj));
      a := RegisterEmitter(r.key, r.emitter, order);
    } else {
      a := RegisterConsumer(r.pair, r.consumer);
    }
  }
}
