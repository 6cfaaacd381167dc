/**
 The event channel and the objects it connects.  Each call is proved to be one step of
 `EventRuns`, with the slots that it adds to emitters.
 */
module Events {
  import opened EventRuns

  /** `EventConsumer<T>`; `alive` goes down with the last shared pointer to it. */
  class Consumer {
    const subscriberType: string
    var alive: bool

    constructor (subscriberType: string)
      ensures this.subscriberType == subscriberType && alive
    {
      this.subscriberType, alive := subscriberType, true;
    }
  }

  /** `EventEmitter<T>`: its signal holds one slot per connection. */
  class Emitter {
    const subscriberType: string
    var slots: seq<Consumer>
    var alive: bool

    constructor (subscriberType: string)
      ensures this.subscriberType == subscriberType && alive && slots == []
    {
      this.subscriberType, slots, alive := subscriberType, [], true;
    }

    /** Throws if the consumer is of another type; otherwise adds a slot, whether or not it has one. */
    method Connect(subscriber: Consumer) returns (ok: bool)
      modifies this`slots
      ensures ok == TypesMatch(this, subscriber)
      ensures slots == if ok then old(slots) + [subscriber] else old(slots)
    {
      if subscriber.subscriberType != subscriberType {
        return false;
      }
      slots := slots + [subscriber];
      ok := true;
    }
  }

  predicate TypesMatch(e: Emitter, c: Consumer) { e.subscriberType == c.subscriberType }

  class EventChannel {
    var emitterMap: map<Key, Emitter>
    var consumerMap: map<PairKey, Consumer>
    ghost var made: seq<Link<Emitter, Consumer>>         // history: every Connect call that succeeded
    ghost var found: map<Emitter, seq<Consumer>>         // history: the slots that emitters came with

    ghost function Emitters(): map<Key, Weak<Emitter>>
      reads this`emitterMap, emitterMap.Values`alive
    {
      map k | k in emitterMap :: Weak(emitterMap[k], !emitterMap[k].alive)
    }

    ghost function Consumers(): map<PairKey, Weak<Consumer>>
      reads this`consumerMap, consumerMap.Values`alive
    {
      map p | p in consumerMap :: Weak(consumerMap[p], !consumerMap[p].alive)
    }

    ghost function View(): State<Emitter, Consumer>
      reads this`emitterMap, this`consumerMap, this`made, emitterMap.Values`alive, consumerMap.Values`alive
    {
      State(Emitters(), Consumers(), multiset(made))
    }

    /**
     The channel connects emitters it was given and no others, and to the slots that they came with
     it has added the consumers of the connections it made, and no others.
     */
    ghost predicate Valid()
      reads this`emitterMap, this`made, this`found, found.Keys`slots
    {
      && (forall k :: k in emitterMap ==> emitterMap[k] in found)
      && (forall x :: x in made ==> x.emitter in found)
      && forall e :: e in found ==> e.slots == found[e] + SlotsOf(made, e)
    }

    constructor ()
      ensures View() == Empty() && Valid()
    {
      emitterMap, consumerMap, made, found := map[], map[], [], map[];
    }

    method IsEmitterRegistered(emitterKey: Key) returns (r: bool)
      ensures r <==> emitterKey in emitterMap
    {
      r := emitterKey in emitterMap;
    }

    method IsConsumerRegistered(pair: PairKey) returns (r: bool)
      ensures r <==> pair in consumerMap
    {
      r := pair in consumerMap;
    }

    /**
     `RegisterEmitter`, for any order in which the consumer map is walked.  It throws for an empty
     key, for a key in use, and when a waiting consumer is of another type; in that last case the
     consumers before it stay connected although the emitter does not get registered.
     */
    method RegisterEmitter(emitterKey: Key, emitter: Emitter) returns (ok: bool, ghost order: seq<PairKey>)
      requires Valid() && emitter.alive
      modifies this`emitterMap, this`made, this`found, emitter`slots
      ensures Valid()
      ensures
        var s := old(View());
        && Step(TypesMatch, s, EventRuns.RegisterEmitter(emitterKey, emitter, order), View())
        && (ok <==> EmitterAccepted(s, emitterKey) && AllFit(TypesMatch, s, emitterKey, emitter))
      ensures emitterMap == if ok then old(emitterMap)[emitterKey := emitter] else old(emitterMap)
      ensures Distinct(order) && forall p :: p in order ==> p in consumerMap
      ensures forall p :: p in order ==>
        p.1 == emitterKey && consumerMap[p].alive && consumerMap[p].subscriberType == emitter.subscriberType
      ensures ok <==>
        && emitterKey != "" && emitterKey !in old(emitterMap)
        && forall p :: p in consumerMap && p.1 == emitterKey && consumerMap[p].alive ==> p in order
      ensures emitter.slots == old(emitter.slots) + ConsumersOf(consumerMap, order)
    {
      hide Step, AllFit, ConsumersOf, SlotsOf;
      EmitterRefused(TypesMatch, View(), emitterKey, emitter);
      NoConsumers(consumerMap);
      var registered := IsEmitterRegistered(emitterKey);
      if emitterKey == "" || registered {
        return false, [];
      }
      Meet(emitter);
      ok, order := ConnectAndEnter(emitterKey, emitter);
    }

    /** Takes down the slots of an emitter that the channel has not seen before. */
    ghost method Meet(emitter: Emitter)
      requires Valid()
      modifies this`found
      ensures Valid() && emitter in found && View() == old(View())
    {
      hide SlotsOf;
      if emitter !in found {
        NoSlots(made, emitter);
        found := found[emitter := emitter.slots];
      }
    }

    /** The rest of `RegisterEmitter`, after its tests of the arguments. */
    method ConnectAndEnter(emitterKey: Key, emitter: Emitter) returns (ok: bool, ghost order: seq<PairKey>)
      requires Valid() && emitter in found && emitter.alive && emitterKey != "" && emitterKey !in emitterMap
      modifies this`emitterMap, this`made, emitter`slots
      ensures Valid()
      ensures Step(TypesMatch, old(View()), EventRuns.RegisterEmitter(emitterKey, emitter, order), View())
      ensures ok <==> AllFit(TypesMatch, old(View()), emitterKey, emitter)
      ensures emitterMap == if ok then old(emitterMap)[emitterKey := emitter] else old(emitterMap)
      ensures Distinct(order) && forall p :: p in order ==> p in consumerMap
      ensures forall p :: p in order ==> Waits(p, emitterKey) && TypesMatch(emitter, consumerMap[p])
      ensures ok <==> forall p :: Waits(p, emitterKey) ==> p in order
      ensures emitter.slots == old(emitter.slots) + ConsumersOf(consumerMap, order)
    {
      hide Step, AllFit, IsOrder, LinksOf, ConsumersOf, SlotsOf;
      ghost var s := View();
      ok, order := ConnectAll(emitterKey, emitter);
      if ok {
        EnterEmitter(emitterKey, emitter);
      }
      EmitterNext(TypesMatch, s, emitterKey, emitter, order, View());
    }

    /** `emitterMap_[emitterKey] = emitter`. */
    method EnterEmitter(emitterKey: Key, emitter: Emitter)
      requires Valid() && emitter in found && emitter.alive
      modifies this`emitterMap
      ensures Valid()
      ensures emitterMap == old(emitterMap)[emitterKey := emitter]
      ensures View() == old(View()).(emitters := old(View()).emitters[emitterKey := Weak(emitter, false)])
    {
      hide SlotsOf;
      ghost var s := View();
      emitterMap := emitterMap[emitterKey := emitter];
      assert View().emitters == s.emitters[emitterKey := Weak(emitter, false)];
    }

    /** The loop of `RegisterEmitter`, in terms of the state. */
    method ConnectAll(emitterKey: Key, emitter: Emitter) returns (ok: bool, ghost order: seq<PairKey>)
      requires Valid() && emitter in found
      modifies this`made, emitter`slots
      ensures Valid()
      ensures
        var s := old(View());
        && IsOrder(TypesMatch, s, emitterKey, emitter, order)
        && View().emitters == s.emitters && View().consumers == s.consumers
        && View().links == s.links + multiset(LinksOf(s, emitter, order))
        && (ok <==> AllFit(TypesMatch, s, emitterKey, emitter))
      ensures Distinct(order) && forall p :: p in order ==> p in consumerMap
      ensures forall p :: p in order ==> Waits(p, emitterKey) && TypesMatch(emitter, consumerMap[p])
      ensures ok <==> forall p :: Waits(p, emitterKey) ==> p in order
      ensures emitter.slots == old(emitter.slots) + ConsumersOf(consumerMap, order)
    {
      hide AllFit, IsOrder, LinksOf, ConsumersOf, MadeBy, Waiting, Distinct, SlotsOf, Emitters, Consumers;
      ghost var s := View();
      ghost var waiting := Waiting(s, emitterKey);
      IsWaiting(emitterKey);
      ghost var before := made;
      ok, order := ConnectWaiting(emitterKey, emitter, waiting);
      SlotsGrow(before, consumerMap, emitter, order);
      Accounted(found, before, made, emitter, ConsumersOf(consumerMap, order));
      assert emitter.slots == found[emitter] + SlotsOf(made, emitter);
      assert Valid();
      SameLinks(s, consumerMap, emitter, order);
      WholeOrder(s, emitterKey, emitter, order, ok, consumerMap, waiting);
      assert View().emitters == s.emitters && View().consumers == s.consumers;
    }

    /** The pairs that name the key and have a live consumer. */
    ghost predicate Waits(p: PairKey, emitterKey: Key)
      reads this`consumerMap, consumerMap.Values`alive
    {
      p in consumerMap && p.1 == emitterKey && consumerMap[p].alive
    }

    /** The loop of `RegisterEmitter` over the consumer map. */
    method ConnectWaiting(emitterKey: Key, emitter: Emitter, ghost waiting: set<PairKey>)
      returns (ok: bool, ghost order: seq<PairKey>)
      requires forall p :: p in waiting <==> Waits(p, emitterKey)
      modifies this`made, emitter`slots
      ensures Distinct(order) && forall p :: p in order ==> p in consumerMap
      ensures forall p :: p in order ==> p in waiting && TypesMatch(emitter, consumerMap[p])
      ensures ok ==> forall p :: p in waiting ==> p in order
      ensures !ok ==> exists p :: p in waiting && p in consumerMap && !TypesMatch(emitter, consumerMap[p])
      ensures made == old(made) + MadeBy(consumerMap, emitter, order)
      ensures emitter.slots == old(emitter.slots) + ConsumersOf(consumerMap, order)
    {
      hide ConsumersOf, MadeBy;
      order := [];
      NoConsumers(consumerMap);
      NoneMade(consumerMap, emitter);
      var rest := set p | p in consumerMap;
      while rest != {}
        invariant rest <= consumerMap.Keys && Distinct(order) && forall p :: p in order ==> p in consumerMap
        invariant forall p :: p in order ==> p !in rest && p in waiting && TypesMatch(emitter, consumerMap[p])
        invariant forall p :: p in waiting ==> p in rest || p in order
        invariant emitter.slots == old(emitter.slots) + ConsumersOf(consumerMap, order)
        invariant made == old(made) + MadeBy(consumerMap, emitter, order)
      {
        var p :| p in rest;
        rest := rest - {p};
        if p.1 == emitterKey && consumerMap[p].alive {
          assert Waits(p, emitterKey);
          var connected := emitter.Connect(consumerMap[p]);
          if !connected {
            return false, order;
          }
          OneMore(consumerMap, emitter, order, p);
          made := made + [Link(emitter, p, consumerMap[p])];
          order := order + [p];
        }
      }
      ok := true;
    }

    lemma IsWaiting(emitterKey: Key)
      ensures forall p :: p in Waiting(View(), emitterKey) <==> Waits(p, emitterKey)
      ensures forall p :: p in consumerMap ==> p in View().consumers && View().consumers[p].obj == consumerMap[p]
    {
    }

    method UnregisterEmitter(emitterKey: Key) returns (ok: bool)
      modifies this`emitterMap
      ensures ok <==> emitterKey != "" && emitterKey in old(emitterMap)
      ensures ok ==> Step(TypesMatch, old(View()), EventRuns.UnregisterEmitter(emitterKey), View())
      ensures emitterMap == if ok then old(emitterMap) - {emitterKey} else old(emitterMap)
      ensures old(Valid()) ==> Valid()
    {
      var registered := IsEmitterRegistered(emitterKey);
      if emitterKey == "" || !registered {
        return false;
      }
      emitterMap := emitterMap - {emitterKey};
      ok := true;
    }

    /** `RegisterConsumer`: connects at once if the emitter is registered and alive. */
    method RegisterConsumer(consumerKey: Key, emitterKey: Key, consumer: Consumer) returns (ok: bool)
      requires Valid() && consumer.alive
      modifies this`consumerMap, this`made, if emitterKey in emitterMap then {emitterMap[emitterKey]} else {}
      ensures Valid()
      ensures
        var s := old(View());
        var a := EventRuns.RegisterConsumer((consumerKey, emitterKey), consumer);
        && Step(TypesMatch, s, a, View())
        && (ok <==>
              && ConsumerAccepted(s, (consumerKey, emitterKey))
              && (emitterKey in s.emitters && !s.emitters[emitterKey].expired ==>
                    TypesMatch(s.emitters[emitterKey].obj, consumer)))
      ensures var pair := (consumerKey, emitterKey);
        && consumerMap == (if ok then old(consumerMap)[pair := consumer] else old(consumerMap))
        && (ok <==>
              && consumerKey != "" && emitterKey != "" && pair !in old(consumerMap)
              && (emitterKey in emitterMap && old(emitterMap[emitterKey].alive) ==>
                    emitterMap[emitterKey].subscriberType == consumer.subscriberType))
      ensures emitterKey in emitterMap ==>
        var e := emitterMap[emitterKey];
        e.alive == old(e.alive) && e.slots == old(e.slots) + if ok && e.alive then [consumer] else []
    {
      var pair := (consumerKey, emitterKey);
      ConsumerRefused(TypesMatch, View(), pair, consumer);
      hide Step;
      var registered := IsConsumerRegistered(pair);
      if consumerKey == "" || emitterKey == "" || registered {
        return false;
      }
      ok := ConnectAndAdd(pair, consumer);
    }

    /** The rest of `RegisterConsumer`, after its tests of the arguments. */
    method ConnectAndAdd(pair: PairKey, consumer: Consumer) returns (ok: bool)
      requires Valid() && consumer.alive && pair.0 != "" && pair.1 != "" && pair !in consumerMap
      modifies this`consumerMap, this`made, if pair.1 in emitterMap then {emitterMap[pair.1]} else {}
      ensures Valid()
      ensures Step(TypesMatch, old(View()), EventRuns.RegisterConsumer(pair, consumer), View())
      ensures
        var s := old(View());
        ok <==> (pair.1 in s.emitters && !s.emitters[pair.1].expired ==> TypesMatch(s.emitters[pair.1].obj, consumer))
      ensures consumerMap == if ok then old(consumerMap)[pair := consumer] else old(consumerMap)
      ensures pair.1 in emitterMap ==>
        var e := emitterMap[pair.1];
        e.alive == old(e.alive) && e.slots == old(e.slots) + if ok && e.alive then [consumer] else []
    {
      ghost var s := View();
      hide Valid, TypesMatch, Step, Covered, Waiting, SlotsOf;
      var connected := ConnectIfThere(pair, consumer);
      if connected {
        EnterConsumer(pair, consumer);
      }
      ConsumerNext(TypesMatch, s, pair, consumer, View());
      ok := connected;
    }

    /** `consumerMap_[key] = consumer`. */
    method EnterConsumer(pair: PairKey, consumer: Consumer)
      requires consumer.alive
      modifies this`consumerMap
      ensures consumerMap == old(consumerMap)[pair := consumer]
      ensures View() == old(View()).(consumers := old(View()).consumers[pair := Weak(consumer, false)])
    {
      ghost var s := View();
      consumerMap := consumerMap[pair := consumer];
      assert View().consumers == s.consumers[pair := Weak(consumer, false)];
    }

    /** The loop of `RegisterConsumer`, which can meet the key once at most. */
    method ConnectIfThere(pair: PairKey, consumer: Consumer) returns (ok: bool)
      requires Valid()
      modifies this`made, if pair.1 in emitterMap then {emitterMap[pair.1]} else {}
      ensures Valid()
      ensures
        var s := old(View());
        if pair.1 in s.emitters && !s.emitters[pair.1].expired then
          var e := emitterMap[pair.1];
          && ok == TypesMatch(e, consumer)
          && View() == s.(links := if ok then s.links + multiset{Link(e, pair, consumer)} else s.links)
        else ok && View() == s
      ensures pair.1 in emitterMap ==>
        var e := emitterMap[pair.1];
        e.alive == old(e.alive) && e.slots == old(e.slots) + if ok && e.alive then [consumer] else []
    {
      hide Valid, SlotsOf, TypesMatch;
      ghost var s := View();
      if pair.1 in emitterMap && emitterMap[pair.1].alive {
        IsFound(pair.1);
        ok := ConnectOne(pair, emitterMap[pair.1], consumer);
      } else {
        ok := true;
      }
      assert View().emitters == s.emitters && View().consumers == s.consumers;
    }

    lemma IsFound(emitterKey: Key)
      requires Valid() && emitterKey in emitterMap
      ensures emitterMap[emitterKey] in found
    {
    }

    /** One call of `Connect`, and its entry in the history. */
    method ConnectOne(pair: PairKey, eventEmitter: Emitter, consumer: Consumer) returns (ok: bool)
      requires Valid() && eventEmitter in found
      modifies this`made, eventEmitter`slots
      ensures Valid() && ok == TypesMatch(eventEmitter, consumer)
      ensures made == if ok then old(made) + [Link(eventEmitter, pair, consumer)] else old(made)
      ensures eventEmitter.slots == old(eventEmitter.slots) + if ok then [consumer] else []
    {
      hide SlotsOf;
      ghost var before, x := made, Link(eventEmitter, pair, consumer);
      OneSlotMore(before, x);
      Accounted(found, before, before + [x], eventEmitter, [consumer]);
      ok := eventEmitter.Connect(consumer);
      if !ok {
        return;
      }
      made := before + [x];
      assert eventEmitter.slots == found[eventEmitter] + SlotsOf(made, eventEmitter);
      assert forall e :: e in found && e != eventEmitter ==>
        e.slots == old(e.slots) && SlotsOf(made, e) == SlotsOf(before, e);
    }

    method UnregisterConsumer(consumerKey: Key, emitterKey: Key) returns (ok: bool)
      modifies this`consumerMap
      ensures ok <==> consumerKey != "" && emitterKey != "" && (consumerKey, emitterKey) in old(consumerMap)
      ensures ok ==> Step(TypesMatch, old(View()), EventRuns.UnregisterConsumer((consumerKey, emitterKey)), View())
      ensures consumerMap == if ok then old(consumerMap) - {(consumerKey, emitterKey)} else old(consumerMap)
      ensures old(Valid()) ==> Valid()
    {
      var registered := IsConsumerRegistered((consumerKey, emitterKey));
      if consumerKey == "" || emitterKey == "" || !registered {
        return false;
      }
      consumerMap := consumerMap - {(consumerKey, emitterKey)};
      ok := true;
    }

    /** The last shared pointer to an emitter goes away. */
    method EmitterDies(emitter: Emitter)
      modifies emitter`alive
      ensures !emitter.alive
      ensures Step(TypesMatch, old(View()), EventRuns.EmitterDies(emitter), View())
      ensures old(Valid()) ==> Valid()
    {
      emitter.alive := false;
    }

    method ConsumerDies(consumer: Consumer)
      modifies consumer`alive
      ensures !consumer.alive
      ensures Step(TypesMatch, old(View()), EventRuns.ConsumerDies(consumer), View())
      ensures old(Valid()) ==> Valid()
    {
      consumer.alive := false;
    }
  }

  /** What `RegisterConsumer` does once its arguments are accepted. */
  lemma ConsumerNext<E, C>(fits: (E, C) -> bool, s: State<E, C>, pair: PairKey, c: C, t: State<E, C>)
    requires ConsumerAccepted(s, pair) && t.emitters == s.emitters
    requires
      var there := pair.1 in s.emitters && !s.emitters[pair.1].expired;
      var connected := there ==> fits(s.emitters[pair.1].obj, c);
      && t.consumers == (if connected then s.consumers[pair := Weak(c, false)] else s.consumers)
      && t.links == if there && connected then s.links + multiset{Link(s.emitters[pair.1].obj, pair, c)} else s.links
    ensures Step(fits, s, EventRuns.RegisterConsumer(pair, c), t)
  {
  }

  lemma ConsumerRefused<E, C>(fits: (E, C) -> bool, s: State<E, C>, pair: PairKey, c: C)
    ensures !ConsumerAccepted(s, pair) ==> Step(fits, s, EventRuns.RegisterConsumer(pair, c), s)
  {
  }

  /** What `RegisterEmitter` does once its arguments are accepted. */
  lemma EmitterNext<E, C>(
    fits: (E, C) -> bool, s: State<E, C>, key: Key, e: E, order: seq<PairKey>, t: State<E, C>)
    requires EmitterAccepted(s, key) && IsOrder(fits, s, key, e, order)
    requires t.links == s.links + multiset(LinksOf(s, e, order)) && t.consumers == s.consumers
    requires t.emitters == if AllFit(fits, s, key, e) then s.emitters[key := Weak(e, false)] else s.emitters
    ensures Step(fits, s, EventRuns.RegisterEmitter(key, e, order), t)
  {
  }

  lemma EmitterRefused<E, C>(fits: (E, C) -> bool, s: State<E, C>, key: Key, e: E)
    ensures !EmitterAccepted(s, key) ==> Step(fits, s, EventRuns.RegisterEmitter(key, e, []), s)
  {
  }

  /** What the loop has connected is an order that the model allows. */
  lemma WholeOrder(
    s: State<Emitter, Consumer>, key: Key, e: Emitter, order: seq<PairKey>, ok: bool,
    consumers: map<PairKey, Consumer>, waiting: set<PairKey>)
    requires waiting == Waiting(s, key) && Distinct(order)
    requires forall p :: p in consumers ==> p in s.consumers && s.consumers[p].obj == consumers[p]
    requires forall p :: p in order ==> p in consumers && p in waiting && TypesMatch(e, consumers[p])
    requires forall p :: p in waiting ==> p in consumers
    requires ok ==> forall p :: p in waiting ==> p in order
    requires !ok ==> exists p :: p in waiting && p in consumers && !TypesMatch(e, consumers[p])
    ensures IsOrder(TypesMatch, s, key, e, order) && (ok <==> AllFit(TypesMatch, s, key, e))
  {
  }

  /** The consumers of these pairs. */
  ghost function ConsumersOf(consumers: map<PairKey, Consumer>, order: seq<PairKey>): seq<Consumer>
    requires forall p :: p in order ==> p in consumers
  {
    if order == [] then []
    else ConsumersOf(consumers, order[..|order| - 1]) + [consumers[order[|order| - 1]]]
  }

  lemma NoConsumers(consumers: map<PairKey, Consumer>)
    ensures ConsumersOf(consumers, []) == []
  {
  }

  /** The links made by connecting the consumers of these pairs. */
  ghost function MadeBy(consumers: map<PairKey, Consumer>, e: Emitter, order: seq<PairKey>)
    : seq<Link<Emitter, Consumer>>
    requires forall p :: p in order ==> p in consumers
  {
    if order == [] then []
    else
      var p := order[|order| - 1];
      MadeBy(consumers, e, order[..|order| - 1]) + [Link(e, p, consumers[p])]
  }

  lemma NoneMade(consumers: map<PairKey, Consumer>, e: Emitter)
    ensures MadeBy(consumers, e, []) == []
  {
  }

  lemma OneMore(consumers: map<PairKey, Consumer>, e: Emitter, order: seq<PairKey>, p: PairKey)
    requires p in consumers && forall q :: q in order ==> q in consumers
    ensures ConsumersOf(consumers, order + [p]) == ConsumersOf(consumers, order) + [consumers[p]]
    ensures MadeBy(consumers, e, order + [p]) == MadeBy(consumers, e, order) + [Link(e, p, consumers[p])]
  {
    assert (order + [p])[..|order|] == order;
  }

  lemma NoSlots(made: seq<Link<Emitter, Consumer>>, e: Emitter)
    requires forall x :: x in made ==> x.emitter != e
    ensures SlotsOf(made, e) == []
  {
    if made != [] { NoSlots(made[..|made| - 1], e); }
  }

  lemma Accounted(
    found: map<Emitter, seq<Consumer>>, before: seq<Link<Emitter, Consumer>>, made: seq<Link<Emitter, Consumer>>,
    e: Emitter, more: seq<Consumer>)
    requires e in found && SlotsOf(made, e) == SlotsOf(before, e) + more
    ensures found[e] + SlotsOf(made, e) == found[e] + SlotsOf(before, e) + more
  {
    hide SlotsOf;
  }

  lemma OneSlotMore(made: seq<Link<Emitter, Consumer>>, x: Link<Emitter, Consumer>)
    ensures forall e ::
      SlotsOf(made + [x], e) == if e == x.emitter then SlotsOf(made, e) + [x.consumer] else SlotsOf(made, e)
  {
    forall e
      ensures SlotsOf(made + [x], e) == if e == x.emitter then SlotsOf(made, e) + [x.consumer] else SlotsOf(made, e)
    {
      SlotsOfOneMore(made, x, e);
    }
  }

  lemma SlotsGrow(
    made: seq<Link<Emitter, Consumer>>, consumers: map<PairKey, Consumer>, e: Emitter, order: seq<PairKey>)
    requires forall p :: p in order ==> p in consumers
    ensures
      var after := made + MadeBy(consumers, e, order);
      && (forall other :: SlotsOf(after, other) ==
            if other == e then SlotsOf(made, e) + ConsumersOf(consumers, order) else SlotsOf(made, other))
      && forall x :: x in after ==> x in made || x.emitter == e
  {
    var more := MadeBy(consumers, e, order);
    forall other ensures SlotsOf(made + more, other) ==
        if other == e then SlotsOf(made, e) + ConsumersOf(consumers, order) else SlotsOf(made, other)
    {
      SlotsOfBoth(made, more, other);
      MadeBySlots(consumers, e, order, other);
    }
    MadeBySlots(consumers, e, order, e);
  }

  /** Connecting these pairs gives the emitter their consumers, and other emitters nothing. */
  lemma {:induction false} MadeBySlots(
    consumers: map<PairKey, Consumer>, e: Emitter, order: seq<PairKey>, other: Emitter)
    requires forall p :: p in order ==> p in consumers
    ensures SlotsOf(MadeBy(consumers, e, order), other) == if other == e then ConsumersOf(consumers, order) else []
    ensures forall x :: x in MadeBy(consumers, e, order) ==> x.emitter == e
  {
    if order != [] {
      var p := order[|order| - 1];
      var front := order[..|order| - 1];
      MadeBySlots(consumers, e, front, other);
      SlotsOfOneMore(MadeBy(consumers, e, front), Link(e, p, consumers[p]), other);
    }
  }

  lemma LinksOfOneMore(s: State<Emitter, Consumer>, e: Emitter, order: seq<PairKey>, p: PairKey)
    requires p in s.consumers && forall q :: q in order ==> q in s.consumers
    ensures LinksOf(s, e, order + [p]) == LinksOf(s, e, order) + [Link(e, p, s.consumers[p].obj)]
  {
  }

  lemma {:induction false} SameLinks(
    s: State<Emitter, Consumer>, consumers: map<PairKey, Consumer>, e: Emitter, order: seq<PairKey>)
    requires forall p :: p in consumers ==> p in s.consumers && s.consumers[p].obj == consumers[p]
    requires forall p :: p in order ==> p in consumers
    ensures MadeBy(consumers, e, order) == LinksOf(s, e, order)
  {
    if order != [] {
      hide LinksOf;
      var front, p := order[..|order| - 1], order[|order| - 1];
      SameLinks(s, consumers, e, front);
      assert order == front + [p];
      LinksOfOneMore(s, e, front, p);
    }
  }
}
