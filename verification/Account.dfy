/**
 The account contract as the resolver sees it: a machine whose steps are the transactions the
 controller submits and the passing of time. The contract's source is not part of this model;
 the assumptions are that an add sets its flag (for a delegation, its expiry) and logs an event,
 that a remove clears the flag and logs nothing the resolver reads, that the log and the method
 arrays only grow, and that a deactivated method stays deactivated. Any string may be added, by
 anyone, any number of times; a contract that refuses more transactions reaches fewer states.
 */
module Account {
  import opened Bytes
  import opened Document
  import opened MemoDid
  import opened Wrappers

  // Seconds since 1970.
  type Time = t: int | t > 0 witness 1

  datatype Event = AddEvent(relation: Relation, did: string, id: string)

  datatype Chain = Chain(
    methods: map<string, seq<SolidityKey>>,
    closed: set<string>,
    flags: set<(Relation, string, string)>,
    expiries: map<(string, string), nat>,
    log: seq<Event>,
    now: Time)

  datatype Step =
    | Create(did: string, key: SolidityKey)
    | AddMethod(did: string, key: SolidityKey)
    | UpdateMethod(did: string, index: int, methodType: string, keyData: seq<Byte>)
    | DeactivateMethod(did: string, index: int)
    | Announce(relation: Relation, did: string, id: string, expiry: nat)
    | Withdraw(relation: Relation, did: string, id: string)
    | Close(did: string)
    | Advance(seconds: nat)

  function Start(now: Time): Chain { Chain(map[], {}, {}, map[], [], now) }

  function Next(c: Chain, step: Step): Chain {
    match step
    case Create(did, key) =>
      if did in c.methods then c else c.(methods := c.methods[did := [key.(deactivated := false)]])
    case AddMethod(did, key) =>
      if did !in c.methods then c
      else c.(methods := c.methods[did := c.methods[did] + [key.(deactivated := false)]])
    case UpdateMethod(did, index, methodType, keyData) =>
      if did !in c.methods || index < 0 || index >= |c.methods[did]| then c
      else
        var key := c.methods[did][index].(methodType := methodType, keyData := keyData);
        c.(methods := c.methods[did := c.methods[did][index := key]])
    case DeactivateMethod(did, index) =>
      if did !in c.methods || index < 0 || index >= |c.methods[did]| then c
      else
        var key := c.methods[did][index].(deactivated := true);
        c.(methods := c.methods[did := c.methods[did][index := key]])
    case Announce(relation, did, id, expiry) =>
      var logged := c.(log := c.log + [AddEvent(relation, did, id)]);
      if relation == CapabilityDelegation then logged.(expiries := c.expiries[(did, id) := expiry])
      else logged.(flags := c.flags + {(relation, did, id)})
    case Withdraw(relation, did, id) =>
      if relation == CapabilityDelegation then c.(expiries := c.expiries[(did, id) := 0])
      else c.(flags := c.flags - {(relation, did, id)})
    case Close(did) => c.(closed := c.closed + {did})
    case Advance(seconds) => c.(now := c.now + seconds)
  }

  function Run(c: Chain, steps: seq<Step>): Chain {
    if steps == [] then c else Next(Run(c, steps[..|steps| - 1]), steps[|steps| - 1])
  }

  // ---------- what the contract answers ----------

  // GetVeriLen
  function MethodCount(c: Chain, did: string): nat {
    if did in c.methods then |c.methods[did]| else 0
  }

  // GetVeri; reading past the array, or at -1, is an error.
  function MethodAt(c: Chain, did: string, index: int): Option<SolidityKey> {
    if 0 <= index < MethodCount(c, did) then Some(c.methods[did][index]) else None
  }

  // InDelegation
  function Expiry(c: Chain, did: string, id: string): nat {
    if (did, id) in c.expiries then c.expiries[(did, id)] else 0
  }

  // InAuth, InAssertion and InRecovery, and the caller's test of InDelegation's expiry.
  predicate Active(c: Chain, relation: Relation, did: string, id: string) {
    if relation == CapabilityDelegation then LowInt64(Expiry(c, did, id)) >= c.now
    else (relation, did, id) in c.flags
  }

  // The ids of the logged add events of one relation of one DID, oldest first.
  function Announced(log: seq<Event>, relation: Relation, did: string): seq<string> {
    if log == [] then []
    else
      var e := log[|log| - 1];
      Announced(log[..|log| - 1], relation, did) + if e.relation == relation && e.did == did then [e.id] else []
  }

  // Does a step add or remove this very relation?
  predicate Sets(step: Step, relation: Relation, did: string, id: string) {
    (step.Announce? || step.Withdraw?) && step.relation == relation && step.did == did && step.id == id
  }

  // Adding activates, for a delegation until its expiry as the resolver reads it, removing
  // deactivates, and nothing but time affects what other transactions are about.
  lemma ActiveAfter(c: Chain, step: Step, relation: Relation, did: string, id: string)
    ensures Sets(step, relation, did, id) ==>
      (Active(Next(c, step), relation, did, id) <==>
        step.Announce? && (relation == CapabilityDelegation ==> LowInt64(step.expiry) >= c.now))
    ensures !Sets(step, relation, did, id) && !step.Advance? ==>
      (Active(Next(c, step), relation, did, id) <==> Active(c, relation, did, id))
  {
  }

  // ---------- what every run keeps ----------

  // A flag or an expiry that is set was announced.
  predicate Sound(c: Chain) {
    && (forall t :: t in c.flags ==> t.2 in Announced(c.log, t.0, t.1))
    && (forall k :: k in c.expiries && c.expiries[k] > 0 ==> k.1 in Announced(c.log, CapabilityDelegation, k.0))
  }

  lemma AnnouncedGrows(log: seq<Event>, e: Event, relation: Relation, did: string)
    ensures Announced(log + [e], relation, did) ==
      Announced(log, relation, did) + if e.relation == relation && e.did == did then [e.id] else []
  {
  }

  lemma NextSound(c: Chain, step: Step)
    requires Sound(c)
    ensures Sound(Next(c, step))
  {
    if step.Announce? {
      var e := AddEvent(step.relation, step.did, step.id);
      forall relation, did
        ensures Announced(c.log + [e], relation, did) ==
          Announced(c.log, relation, did) + if e.relation == relation && e.did == did then [e.id] else []
      {
        AnnouncedGrows(c.log, e, relation, did);
      }
    }
  }

  lemma {:induction false} RunSound(c: Chain, steps: seq<Step>)
    requires Sound(c)
    ensures Sound(Run(c, steps))
  {
    if steps != [] {
      RunSound(c, steps[..|steps| - 1]);
      NextSound(Run(c, steps[..|steps| - 1]), steps[|steps| - 1]);
    }
  }

  // In every reachable state an active id has been announced.
  lemma ActiveAnnounced(now: Time, steps: seq<Step>, relation: Relation, did: string, id: string)
    ensures var c := Run(Start(now), steps);
      Active(c, relation, did, id) ==> id in Announced(c.log, relation, did)
  {
    RunSound(Start(now), steps);
    var c := Run(Start(now), steps);
    if Active(c, relation, did, id) && relation != CapabilityDelegation {
      var t := (relation, did, id);
      assert t in c.flags;
    } else if Active(c, relation, did, id) {
      var k := (did, id);
      assert k in c.expiries;
    }
  }

  // Later states: methods keep their place, deactivation is permanent, the log is only extended
  // and time does not run backwards.
  ghost predicate Extends(a: Chain, b: Chain) {
    && a.log <= b.log
    && a.now <= b.now
    && a.closed <= b.closed
    && (forall did, i :: MethodAt(a, did, i).Some? ==>
          && MethodAt(b, did, i).Some?
          && (MethodAt(a, did, i).value.deactivated ==> MethodAt(b, did, i).value.deactivated))
  }

  lemma MethodKept(c: Chain, step: Step, did: string, i: int)
    requires MethodAt(c, did, i).Some?
    ensures var after := MethodAt(Next(c, step), did, i);
      after.Some? && (MethodAt(c, did, i).value.deactivated ==> after.value.deactivated)
  {
  }

  lemma NextExtends(c: Chain, step: Step)
    ensures Extends(c, Next(c, step))
  {
    forall did, i | MethodAt(c, did, i).Some?
      ensures MethodAt(Next(c, step), did, i).Some?
      ensures MethodAt(c, did, i).value.deactivated ==> MethodAt(Next(c, step), did, i).value.deactivated
    {
      MethodKept(c, step, did, i);
    }
  }

  lemma {:induction false} RunExtends(c: Chain, steps: seq<Step>)
    ensures Extends(c, Run(c, steps))
  {
    if steps != [] {
      RunExtends(c, steps[..|steps| - 1]);
      NextExtends(Run(c, steps[..|steps| - 1]), steps[|steps| - 1]);
    }
  }

  // Method arrays and deactivation under a deactivating step.
  lemma DeactivatedAt(c: Chain, did: string, index: int, d: string, i: int)
    ensures var c' := Next(c, DeactivateMethod(did, index));
      MethodAt(c', d, i) ==
        match MethodAt(c, d, i)
        case None => None
        case Some(k) => Some(if d == did && i == index then k.(deactivated := true) else k)
  {
  }
}
