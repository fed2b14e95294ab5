/** How the relation lists change when the contract takes a step. */
module ResolverSteps {
  import opened Account
  import opened Bytes
  import opened Document
  import opened MemoDid
  import opened MemoResolver
  import opened Replays
  import opened ResolverProperties
  import opened Text
  import opened Wrappers

  // The list after a step that only takes entries away: `first` entries are not from the log.
  lemma QueryFiltered(c: Chain, c': Chain, relation: Relation, did: MemoDID, keep: Entry -> bool)
    requires Ids(c', relation, did) == Ids(c, relation, did)
    requires MasterEntry(c', did) == MasterEntry(c, did)
    requires forall id :: id in Ids(c, relation, did) ==>
      Judge(c', relation, did, id) == Drop(Judge(c, relation, did, id), keep)
    ensures Query(c, relation, did).Failure? ==> Query(c', relation, did) == Query(c, relation, did)
    ensures Query(c, relation, did).Success? ==>
      Query(c', relation, did) ==
      Success((if relation == Authentication then [MasterEntry(c, did)] else []) +
              Filter(Listed(c, relation, did).value, keep))
  {
    hide Judge;
    var ids := Ids(c, relation, did);
    ReplayFiltered(Verdicts(c, relation, did, ids), Verdicts(c', relation, did, ids), keep);
  }

  // Does a URL denote method `index` of DID `did`?
  predicate Denotes(u: MemoDIDUrl, did: string, index: int) {
    u.identifier == did && IndexOf(u) == index
  }

  lemma ReadAfterDeactivation(c: Chain, d: string, i: int, id: string)
    ensures ReadUrl(Next(c, DeactivateMethod(d, i)), id) ==
      match ReadUrl(c, id)
      case Failure(e) => Failure(e)
      case Success((u, k)) => Success((u, if Denotes(u, d, i) then k.(deactivated := true) else k))
  {
    if ParseMemoDIDUrl(id).Success? {
      IndexDefined(id);
      hide ParseMemoDIDUrl, MemoDIDUrl.GetMethodIndex, Next, MethodAt;
      var u := ParseMemoDIDUrl(id).value;
      DeactivatedAt(c, d, i, u.identifier, u.GetMethodIndex());
    }
  }

  lemma JudgeAfterDeactivation(c: Chain, d: string, i: int, relation: Relation, did: MemoDID, id: string,
                               keep: Entry -> bool)
    requires forall e :: keep(e) == !Denotes(e.url, d, i)
    ensures Judge(Next(c, DeactivateMethod(d, i)), relation, did, id) == Drop(Judge(c, relation, did, id), keep)
  {
    hide ReadUrl, Denotes, Next, MemoDIDUrl.ToString;
    ReadAfterDeactivation(c, d, i, id);
    SameActivity(c, d, i);
  }

  lemma SameActivity(c: Chain, d: string, i: int)
    ensures var c' := Next(c, DeactivateMethod(d, i));
      c'.now == c.now && c'.flags == c.flags && c'.expiries == c.expiries
  {
  }

  // Deactivating method i of DID d takes out of every relation list of every DID exactly the
  // URLs that denote (d, i), and moves nothing else; the leading master entry stays.
  lemma DeactivationEffect(c: Chain, d: string, i: int, relation: Relation, did: MemoDID)
    ensures var c' := Next(c, DeactivateMethod(d, i));
      && (Query(c, relation, did).Failure? ==> Query(c', relation, did) == Query(c, relation, did))
      && (Query(c, relation, did).Success? ==>
            Query(c', relation, did) ==
            Success((if relation == Authentication then [MasterEntry(c, did)] else []) +
                    Filter(Listed(c, relation, did).value, (e: Entry) => !Denotes(e.url, d, i))))
  {
    hide Judge, Query, Listed, Denotes;
    var c' := Next(c, DeactivateMethod(d, i));
    var keep := (e: Entry) => !Denotes(e.url, d, i);
    DeactivatedAt(c, d, i, did.identifier, 0);
    forall id
      ensures Judge(c', relation, did, id) == Drop(Judge(c, relation, did, id), keep)
    {
      JudgeAfterDeactivation(c, d, i, relation, did, id, keep);
    }
    QueryFiltered(c, c', relation, did, keep);
  }

  // What a filtered list holds: the entries that qualify, in the same order.
  lemma DeactivationRemoves(c: Chain, d: string, i: int, relation: Relation, did: MemoDID, e: Entry)
    requires Listed(c, relation, did).Success?
    ensures var c' := Next(c, DeactivateMethod(d, i));
      && Listed(c', relation, did).Success?
      && IsSubsequence(Listed(c', relation, did).value, Listed(c, relation, did).value)
      && (e in Listed(c', relation, did).value <==>
            e in Listed(c, relation, did).value && !Denotes(e.url, d, i))
  {
    hide Judge, Denotes;
    var c' := Next(c, DeactivateMethod(d, i));
    var keep := (e: Entry) => !Denotes(e.url, d, i);
    var ids := Ids(c, relation, did);
    forall id
      ensures Judge(c', relation, did, id) == Drop(Judge(c, relation, did, id), keep)
    {
      JudgeAfterDeactivation(c, d, i, relation, did, id, keep);
    }
    ReplayFiltered(Verdicts(c, relation, did, ids), Verdicts(c', relation, did, ids), keep);
    FilterSubsequence(Listed(c, relation, did).value, keep);
  }

  // Reading an event depends on the method arrays alone.
  lemma SameReads(c: Chain, c': Chain, id: string)
    requires c'.methods == c.methods
    ensures ReadUrl(c', id) == ReadUrl(c, id)
  {
    hide ParseMemoDIDUrl, MemoDIDUrl.GetMethodIndex;
  }

  // Has a delegation an expiry that has not passed?
  predicate Unexpired(c: Chain, did: MemoDID, e: Entry) {
    LowInt64(Expiry(c, did.identifier, e.url.ToString())) >= c.now
  }

  lemma JudgeAfterAdvance(c: Chain, seconds: nat, relation: Relation, did: MemoDID, id: string, keep: Entry -> bool)
    requires forall e :: keep(e) == (relation != CapabilityDelegation || Unexpired(Next(c, Advance(seconds)), did, e))
    ensures Judge(Next(c, Advance(seconds)), relation, did, id) == Drop(Judge(c, relation, did, id), keep)
  {
    hide ReadUrl, MemoDIDUrl.ToString;
    SameReads(c, Next(c, Advance(seconds)), id);
  }

  // As time passes a delegation list loses exactly the URLs that have expired, and the other
  // lists stay as they are.
  lemma ClockEffect(c: Chain, seconds: nat, relation: Relation, did: MemoDID)
    ensures var c' := Next(c, Advance(seconds));
      && (Query(c, relation, did).Failure? || relation != CapabilityDelegation ==>
            Query(c', relation, did) == Query(c, relation, did))
      && (Query(c, relation, did).Success? && relation == CapabilityDelegation ==>
            && Query(c', relation, did).Success?
            && IsSubsequence(Query(c', relation, did).value, Query(c, relation, did).value)
            && forall e :: e in Query(c', relation, did).value <==>
                 e in Query(c, relation, did).value && Unexpired(c', did, e))
  {
    hide Judge, MemoDIDUrl.ToString;
    var c' := Next(c, Advance(seconds));
    var keep := (e: Entry) => relation != CapabilityDelegation || Unexpired(c', did, e);
    forall id
      ensures Judge(c', relation, did, id) == Drop(Judge(c, relation, did, id), keep)
    {
      JudgeAfterAdvance(c, seconds, relation, did, id, keep);
    }
    QueryFiltered(c, c', relation, did, keep);
    if Listed(c, relation, did).Success? {
      var es := Listed(c, relation, did).value;
      FilterSubsequence(es, keep);
      if relation != CapabilityDelegation {
        FilterAll(es, keep);
      } else {
        assert [] + es == es && [] + Filter(es, keep) == Filter(es, keep);
      }
    }
  }

  lemma {:induction false} FilterAll<E>(es: seq<E>, keep: E -> bool)
    requires forall e :: e in es ==> keep(e)
    ensures Filter(es, keep) == es
  {
    if es != [] {
      assert es == es[..|es| - 1] + [es[|es| - 1]];
      FilterAll(es[..|es| - 1], keep);
    }
  }

  // The relation and DID a step's announcement or withdrawal is about.
  predicate About(step: Step, relation: Relation, did: MemoDID) {
    (step.Announce? || step.Withdraw?) && step.relation == relation && step.did == did.identifier
  }

  lemma JudgeAfterWithdrawal(c: Chain, relation: Relation, did: MemoDID, gone: string, id: string, keep: Entry -> bool)
    requires forall e :: keep(e) == (e.url.ToString() != gone)
    ensures Judge(Next(c, Withdraw(relation, did.identifier, gone)), relation, did, id) ==
      Drop(Judge(c, relation, did, id), keep)
  {
    var c' := Next(c, Withdraw(relation, did.identifier, gone));
    hide ReadUrl, MemoDIDUrl.ToString;
    SameReads(c, c', id);
    assert forall s :: Active(c', relation, did.identifier, s) <==>
      Active(c, relation, did.identifier, s) && s != gone;
  }

  // Withdrawing a URL takes out all of its entries, however often it was announced, and leaves
  // every other entry where it was.
  lemma WithdrawalEffect(c: Chain, relation: Relation, did: MemoDID, gone: string)
    ensures var c' := Next(c, Withdraw(relation, did.identifier, gone));
      && (Query(c, relation, did).Failure? ==> Query(c', relation, did) == Query(c, relation, did))
      && (Query(c, relation, did).Success? ==>
            Query(c', relation, did) ==
            Success((if relation == Authentication then [MasterEntry(c, did)] else []) +
                    Filter(Listed(c, relation, did).value, (e: Entry) => e.url.ToString() != gone)))
  {
    hide Judge, Query, Listed, MemoDIDUrl.ToString;
    var c' := Next(c, Withdraw(relation, did.identifier, gone));
    var keep := (e: Entry) => e.url.ToString() != gone;
    forall id
      ensures Judge(c', relation, did, id) == Drop(Judge(c, relation, did, id), keep)
    {
      JudgeAfterWithdrawal(c, relation, did, gone, id, keep);
    }
    QueryFiltered(c, c', relation, did, keep);
  }

  // An announcement or withdrawal for one relation of one DID changes no other list.
  lemma OtherListsKept(c: Chain, step: Step, relation: Relation, did: MemoDID)
    requires (step.Announce? || step.Withdraw?) && !About(step, relation, did)
    ensures Query(Next(c, step), relation, did) == Query(c, relation, did)
  {
    hide Judge, Query, MasterEntry;
    var c' := Next(c, step);
    if step.Announce? {
      AnnouncedGrows(c.log, AddEvent(step.relation, step.did, step.id), relation, did.identifier);
      assert Announced(c.log, relation, did.identifier) + [] == Announced(c.log, relation, did.identifier);
    }
    forall id
      ensures Judge(c', relation, did, id) == Judge(c, relation, did, id)
    {
      JudgeElsewhere(c, step, relation, did, id);
    }
    SameQuery(c, c', relation, did);
  }

  lemma SameQuery(c: Chain, c': Chain, relation: Relation, did: MemoDID)
    requires Ids(c', relation, did) == Ids(c, relation, did) && c'.methods == c.methods
    requires forall id :: Judge(c', relation, did, id) == Judge(c, relation, did, id)
    ensures Query(c', relation, did) == Query(c, relation, did)
  {
    hide Judge;
    var ids := Ids(c, relation, did);
    assert Verdicts(c', relation, did, ids) == Verdicts(c, relation, did, ids);
  }

  lemma JudgeElsewhere(c: Chain, step: Step, relation: Relation, did: MemoDID, id: string)
    requires (step.Announce? || step.Withdraw?) && !About(step, relation, did)
    ensures Judge(Next(c, step), relation, did, id) == Judge(c, relation, did, id)
  {
    var c' := Next(c, step);
    hide ReadUrl, MemoDIDUrl.ToString;
    SameReads(c, c', id);
    assert forall s :: Active(c', relation, did.identifier, s) <==> Active(c, relation, did.identifier, s);
  }

  // Deactivating a DID changes no list.
  lemma ListsKeptWhenClosed(c: Chain, d: string, relation: Relation, did: MemoDID)
    ensures Query(Next(c, Close(d)), relation, did) == Query(c, relation, did)
  {
    hide Judge, Query;
    var c' := Next(c, Close(d));
    forall id
      ensures Judge(c', relation, did, id) == Judge(c, relation, did, id)
    {
      JudgeWhenClosed(c, d, relation, did, id);
    }
    SameQuery(c, c', relation, did);
  }

  lemma JudgeWhenClosed(c: Chain, d: string, relation: Relation, did: MemoDID, id: string)
    ensures Judge(Next(c, Close(d)), relation, did, id) == Judge(c, relation, did, id)
  {
    hide ReadUrl, MemoDIDUrl.ToString;
    SameReads(c, Next(c, Close(d)), id);
  }

  // The truncated expiry is compared faithfully below 2^63; from there to 2^64 it reads as a
  // negative number, so a delegation that is to last beyond that never shows. The last clause says
  // exactly when the comparison agrees with the expiry.
  lemma DelegationExpiry(c: Chain, did: string, id: string)
    ensures Expiry(c, did, id) <= MAX_INT64 ==>
      (Active(c, CapabilityDelegation, did, id) <==> Expiry(c, did, id) >= c.now)
    ensures MAX_INT64 < Expiry(c, did, id) < 0x1_0000_0000_0000_0000 ==> !Active(c, CapabilityDelegation, did, id)
    ensures c.now <= MAX_INT64 ==>
      ((Active(c, CapabilityDelegation, did, id) <==> Expiry(c, did, id) >= c.now) <==>
       Expiry(c, did, id) <= MAX_INT64 || c.now <= Expiry(c, did, id) % 0x1_0000_0000_0000_0000 <= MAX_INT64)
  {
  }

  // A URL whose method exists and is not deactivated.
  predicate Usable(c: Chain, u: MemoDIDUrl) {
    && ValidUrl(u)
    && MethodAt(c, u.identifier, IndexOf(u)).Some?
    && !MethodAt(c, u.identifier, IndexOf(u)).value.deactivated
  }

  // In every reachable state, whether the delegation list agrees with the expiries themselves:
  // it does for a usable URL exactly when truncating its expiry does not change the comparison.
  lemma DelegationListExpiry(now: Time, steps: seq<Step>, did: MemoDID, u: MemoDIDUrl)
    requires ValidDID(did) && Run(Start(now), steps).now <= MAX_INT64
    requires Query(Run(Start(now), steps), CapabilityDelegation, did).Success?
    ensures var c := Run(Start(now), steps);
      var expiry := Expiry(c, did.identifier, u.ToString());
      (u in Urls(Query(c, CapabilityDelegation, did).value) <==> Usable(c, u) && expiry >= c.now) <==>
      (Usable(c, u) ==> expiry <= MAX_INT64 || c.now <= expiry % 0x1_0000_0000_0000_0000 <= MAX_INT64)
  {
    var c := Run(Start(now), steps);
    ListsExactlyTheLive(now, steps, CapabilityDelegation, did, u);
    DelegationExpiry(c, did.identifier, u.ToString());
    hide Query, ValidUrl, ValidDID, IndexOf, MemoDIDUrl.ToString, Run, Expiry;
    assert Live(c, CapabilityDelegation, did, u) <==>
      Usable(c, u) && Active(c, CapabilityDelegation, did.identifier, u.ToString());
  }

  // The run in which the master key gets a delegation until 2^63.
  function LongDelegation(id: string, key: SolidityKey, url: string): seq<Step> {
    [Create(id, key), Announce(CapabilityDelegation, id, url, MAX_INT64 + 1)]
  }

  lemma LongDelegationState(now: Time, id: string, key: SolidityKey, url: string)
    ensures var c := Run(Start(now), LongDelegation(id, key, url));
      && c.methods == map[id := [key.(deactivated := false)]] && c.now == now
      && Expiry(c, id, url) == MAX_INT64 + 1 && Announced(c.log, CapabilityDelegation, id) == [url]
  {
    var steps := LongDelegation(id, key, url);
    assert steps[..1] == [steps[0]] && steps[..1][..0] == [];
    assert Run(Start(now), []) == Start(now);
    var created := Run(Start(now), steps[..1]);
    assert created == Next(Start(now), steps[0]);
    assert Run(Start(now), steps) == Next(created, steps[1]);
    AnnouncedGrows([], AddEvent(CapabilityDelegation, id, url), CapabilityDelegation, id);
  }

  // After it the delegation list is empty, although the key is usable and its expiry lies ahead.
  lemma LongDelegationMissing(now: Time, id: string, key: SolidityKey)
    requires Is32ByteHex(id) && now <= MAX_INT64
    ensures var did := MemoDID("memo", id, [id]);
      var u := MasterUrl(did);
      var c := Run(Start(now), LongDelegation(id, key, u.ToString()));
      && Usable(c, u) && Expiry(c, id, u.ToString()) > c.now
      && Query(c, CapabilityDelegation, did) == Success([])
  {
    var did := MemoDID("memo", id, [id]);
    var u := MasterUrl(did);
    MasterParses(did);
    var text := u.ToString();
    var c := Run(Start(now), LongDelegation(id, key, text));
    LongDelegationState(now, id, key, text);
    IndexDefined(text);
    assert IndexOf(u) == 0;
    DelegationExpiry(c, id, text);
    hide ParseMemoDIDUrl, ValidUrl, MemoDIDUrl.ToString, Run, Expiry;
    assert Judge(c, CapabilityDelegation, did, text) == Skip;
    SingleSkip(c, did, text);
  }

  lemma SingleSkip(c: Chain, did: MemoDID, id: string)
    requires Announced(c.log, CapabilityDelegation, did.identifier) == [id]
    requires Judge(c, CapabilityDelegation, did, id) == Skip
    ensures Query(c, CapabilityDelegation, did) == Success([])
  {
    hide Judge;
    var vs := Verdicts(c, CapabilityDelegation, did, [id]);
    assert vs == [] + [Skip];
    ReplayMore<Entry, ResolveError>([], Skip);
    assert Listed(c, CapabilityDelegation, did) == Success([]);
    var none: seq<Entry> := [];
    assert none + none == none;
  }

  // Does an id parse to a URL that prints the given text?
  predicate Names(id: string, text: string) {
    ParseMemoDIDUrl(id).Success? && ParseMemoDIDUrl(id).value.ToString() == text
  }

  lemma JudgeAfterAnnouncement(c: Chain, relation: Relation, did: MemoDID, text: string, expiry: nat, id: string)
    requires Passed(relation, did, id) || !Names(id, text)
    ensures Judge(Next(c, Announce(relation, did.identifier, text, expiry)), relation, did, id) ==
      Judge(c, relation, did, id)
  {
    hide ParseMemoDIDUrl, MemoDIDUrl.ToString, MemoDIDUrl.GetMethodIndex;
    var c' := Next(c, Announce(relation, did.identifier, text, expiry));
    SameReads(c, c', id);
    assert forall s :: s != text ==>
      (Active(c', relation, did.identifier, s) <==> Active(c, relation, did.identifier, s));
  }

  lemma NotMentioned(relation: Relation, did: MemoDID, ids: seq<string>, id: string, u: MemoDIDUrl)
    requires ValidUrl(u) && Mentions(relation, did, ids, u) == 0 && id in ids
    ensures Passed(relation, did, id) || !Names(id, u.ToString())
  {
    if !Passed(relation, did, id) && Names(id, u.ToString()) {
      UrlPrintParse(id);
      UrlTextInjective(ParseMemoDIDUrl(id).value, u);
      hide ParseMemoDIDUrl, ValidUrl, MemoDIDUrl.ToString, Passed;
      MentionedWhenLogged(relation, did, ids, id, u);
    }
  }

  // The first announcement of a URL whose method exists adds its entry at the end of the list
  // when it makes the URL live, and moves nothing else.
  lemma FirstAnnouncement(c: Chain, relation: Relation, did: MemoDID, u: MemoDIDUrl, expiry: nat)
    requires ValidDID(did) && ValidUrl(u) && !IsMaster(relation, did, u)
    requires Mentions(relation, did, Ids(c, relation, did), u) == 0
    requires Listed(c, relation, did).Success? && MethodAt(c, u.identifier, IndexOf(u)).Some?
    ensures var c' := Next(c, Announce(relation, did.identifier, u.ToString(), expiry));
      Listed(c', relation, did) == Success(
        Listed(c, relation, did).value +
        if Live(c', relation, did, u) then [Entry(u, ListedKey(c, u))] else [])
  {
    hide Judge, ParseMemoDIDUrl, ValidUrl, ValidDID, MemoDIDUrl.ToString;
    hide Live, Passed, Names, IndexOf, Mentions, IsMaster;
    var id := u.ToString();
    var c' := Next(c, Announce(relation, did.identifier, id, expiry));
    var ids := Ids(c, relation, did);
    JudgeNew(c', relation, did, u);
    forall past | past in ids
      ensures Judge(c', relation, did, past) == Judge(c, relation, did, past)
    {
      NotMentioned(relation, did, ids, past, u);
      JudgeAfterAnnouncement(c, relation, did, id, expiry, past);
    }
    AnnouncedGrows(c.log, AddEvent(relation, did.identifier, id), relation, did.identifier);
    assert ListedKey(c', u) == ListedKey(c, u);
    OneMoreVerdict(c, c', relation, did, ids, id);
    ReplayMore(Verdicts(c, relation, did, ids), Judge(c', relation, did, id));
  }

  lemma OneMoreVerdict(c: Chain, c': Chain, relation: Relation, did: MemoDID, ids: seq<string>, id: string)
    requires forall past :: past in ids ==> Judge(c', relation, did, past) == Judge(c, relation, did, past)
    ensures Verdicts(c', relation, did, ids + [id]) == Verdicts(c, relation, did, ids) + [Judge(c', relation, did, id)]
  {
    hide Judge;
  }

  lemma JudgeNew(c: Chain, relation: Relation, did: MemoDID, u: MemoDIDUrl)
    requires ValidDID(did) && ValidUrl(u) && !IsMaster(relation, did, u)
    requires MethodAt(c, u.identifier, IndexOf(u)).Some?
    ensures Judge(c, relation, did, u.ToString()) ==
      if Live(c, relation, did, u) then Keep(Entry(u, ListedKey(c, u))) else Skip
  {
    PrintedIsRead(relation, did, u);
    FragmentPlain(u.fragment);
    IndexDefined(u.ToString());
    hide ParseMemoDIDUrl, ValidUrl, MemoDIDUrl.GetMethodIndex;
  }
}
