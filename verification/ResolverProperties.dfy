/**
 What the resolver promises over every run of the contract: each relation list is the live
 relation, in log order and with the log's multiplicities, and it changes under a step exactly
 as the live relation does.
 */
module ResolverProperties {
  import opened Account
  import opened Bytes
  import opened Document
  import opened MemoDid
  import opened MemoResolver
  import opened Replays
  import opened Text
  import opened Wrappers

  // The method index of a URL; every URL a document shows has a fragment of four bytes or more.
  function IndexOf(u: MemoDIDUrl): int {
    if |u.fragment| < 4 then -1 else u.GetMethodIndex()
  }

  // The live relation, without reference to any log: u is a URL a document can show, the method
  // it denotes exists and is not deactivated, and the contract holds the relation to be active.
  predicate Live(c: Chain, relation: Relation, did: MemoDID, u: MemoDIDUrl) {
    && ValidUrl(u)
    && MethodAt(c, u.identifier, IndexOf(u)).Some?
    && !MethodAt(c, u.identifier, IndexOf(u)).value.deactivated
    && Active(c, relation, did.identifier, u.ToString())
  }

  // The key a live URL is listed with.
  function ListedKey(c: Chain, u: MemoDIDUrl): PublicKey {
    PlainKey(MethodOrNone(c, u.identifier, IndexOf(u)))
  }

  // The authentication loop passes over the master URL's own text.
  predicate Passed(relation: Relation, did: MemoDID, id: string) {
    relation == Authentication && id == MasterUrl(did).ToString()
  }

  // How often a list of announced ids names a URL.
  function Mentions(relation: Relation, did: MemoDID, ids: seq<string>, u: MemoDIDUrl): nat {
    if ids == [] then 0
    else
      var id := ids[|ids| - 1];
      Mentions(relation, did, ids[..|ids| - 1], u) +
      if !Passed(relation, did, id) && ParseMemoDIDUrl(id) == Success(u) then 1 else 0
  }

  // The URLs that a list of announced ids names, in order.
  function NamedUrls(ids: seq<string>): seq<MemoDIDUrl> {
    if ids == [] then []
    else
      var parsed := ParseMemoDIDUrl(ids[|ids| - 1]);
      NamedUrls(ids[..|ids| - 1]) + if parsed.Success? then [parsed.value] else []
  }

  function Ids(c: Chain, relation: Relation, did: MemoDID): seq<string> {
    Announced(c.log, relation, did.identifier)
  }

  function List(c: Chain, relation: Relation, did: MemoDID, ids: seq<string>): Result<seq<Entry>, ResolveError> {
    Replay(Verdicts(c, relation, did, ids))
  }

  // ---------- one event ----------

  // An announced id contributes nothing or the entry of the URL it parses to.
  lemma JudgeKeeps(c: Chain, relation: Relation, did: MemoDID, id: string, e: Entry)
    ensures Judge(c, relation, did, id) == Keep(e) <==>
      && !Passed(relation, did, id)
      && ParseMemoDIDUrl(id) == Success(e.url)
      && Live(c, relation, did, e.url) && e.key == ListedKey(c, e.url)
  {
    if ParseMemoDIDUrl(id).Success? {
      UrlPrintParse(id);
      IndexDefined(id);
      hide ParseMemoDIDUrl, ValidUrl;
      var u := ParseMemoDIDUrl(id).value;
      assert Judge(c, relation, did, id).Keep? ==> Judge(c, relation, did, id).entry.url == u;
    }
  }

  lemma JudgeBreaks(c: Chain, relation: Relation, did: MemoDID, id: string)
    ensures Judge(c, relation, did, id).Broken? <==> !Passed(relation, did, id) && ReadUrl(c, id).Failure?
  {
    hide ReadUrl;
  }

  // ---------- when a query succeeds ----------

  // A query succeeds exactly when every logged id that is not passed over can be read.
  lemma QuerySucceeds(c: Chain, relation: Relation, did: MemoDID)
    ensures Query(c, relation, did).Success? <==>
      forall i :: 0 <= i < |Ids(c, relation, did)| ==>
        Passed(relation, did, Ids(c, relation, did)[i]) || ReadUrl(c, Ids(c, relation, did)[i]).Success?
  {
    hide ReadUrl, Judge;
    var ids := Ids(c, relation, did);
    var vs := Verdicts(c, relation, did, ids);
    ReplaySucceeds(vs);
    forall i | 0 <= i < |ids|
      ensures vs[i].Broken? <==> !Passed(relation, did, ids[i]) && ReadUrl(c, ids[i]).Failure?
    {
      JudgeBreaks(c, relation, did, ids[i]);
    }
  }

  // An id that can be read stays readable for the rest of every run.
  lemma ReadableForever(c: Chain, steps: seq<Step>, id: string)
    requires ReadUrl(c, id).Success?
    ensures ReadUrl(Run(c, steps), id).Success?
    ensures ReadUrl(Run(c, steps), id).value.0 == ReadUrl(c, id).value.0
  {
    RunExtends(c, steps);
    hide ParseMemoDIDUrl, MemoDIDUrl.GetMethodIndex;
    var u := ParseMemoDIDUrl(id).value;
    IndexDefined(id);
    assert MethodAt(c, u.identifier, u.GetMethodIndex()).Some?;
  }

  lemma {:induction false} AnnouncedPrefix(log: seq<Event>, later: seq<Event>, relation: Relation, did: string)
    requires log <= later
    ensures Announced(log, relation, did) <= Announced(later, relation, did)
    decreases |later|
  {
    if |log| < |later| {
      AnnouncedPrefix(log, later[..|later| - 1], relation, did);
    } else {
      assert log == later;
    }
  }

  // An id that does not parse makes its query fail from its announcement to the end of every run.
  lemma UnparsableForever(c: Chain, relation: Relation, did: MemoDID, id: string, expiry: nat, steps: seq<Step>)
    requires ValidDID(did) && ParseMemoDIDUrl(id).Failure?
    ensures var announced := Next(c, Announce(relation, did.identifier, id, expiry));
      Query(Run(announced, steps), relation, did).Failure?
  {
    hide ParseMemoDIDUrl, ValidDID, ValidUrl, Query, Run, MemoDIDUrl.ToString;
    var announced := Next(c, Announce(relation, did.identifier, id, expiry));
    MasterParses(did);
    RunExtends(announced, steps);
    AnnouncedGrows(c.log, AddEvent(relation, did.identifier, id), relation, did.identifier);
    UnparsableLogged(announced, Run(announced, steps), relation, did, id, |Ids(c, relation, did)|);
  }

  lemma UnparsableLogged(c: Chain, later: Chain, relation: Relation, did: MemoDID, id: string, i: nat)
    requires c.log <= later.log && i < |Ids(c, relation, did)| && Ids(c, relation, did)[i] == id
    requires ParseMemoDIDUrl(id).Failure? && !Passed(relation, did, id)
    ensures Query(later, relation, did).Failure?
  {
    assert ReadUrl(later, id).Failure?;
    hide ParseMemoDIDUrl, Query, Passed, ReadUrl;
    AnnouncedPrefix(c.log, later.log, relation, did.identifier);
    assert Ids(later, relation, did)[i] == id;
    QuerySucceeds(later, relation, did);
  }

  lemma MasterParses(did: MemoDID)
    requires ValidDID(did)
    ensures ValidUrl(MasterUrl(did)) && ParseMemoDIDUrl(MasterUrl(did).ToString()) == Success(MasterUrl(did))
  {
    assert SUPPORTED_FRAGMENTS[4] == "masterKey";
    UrlParsePrint(MasterUrl(did));
  }

  // ---------- the list is the live relation ----------

  lemma ListStep(c: Chain, relation: Relation, did: MemoDID, ids: seq<string>)
    requires ids != [] && List(c, relation, did, ids).Success?
    ensures var init, v := ids[..|ids| - 1], Judge(c, relation, did, ids[|ids| - 1]);
      && List(c, relation, did, init).Success?
      && !v.Broken?
      && List(c, relation, did, ids).value == List(c, relation, did, init).value + if v.Keep? then [v.entry] else []
  {
    hide Judge;
    var vs := Verdicts(c, relation, did, ids);
    assert vs[..|vs| - 1] == Verdicts(c, relation, did, ids[..|ids| - 1]);
  }

  // How often each URL is listed.
  lemma {:induction false} ListMultiplicity(c: Chain, relation: Relation, did: MemoDID, ids: seq<string>, u: MemoDIDUrl)
    requires List(c, relation, did, ids).Success?
    ensures Occurrences(Urls(List(c, relation, did, ids).value), u) ==
      if Live(c, relation, did, u) then Mentions(relation, did, ids, u) else 0
  {
    hide Judge, ParseMemoDIDUrl, Live, Passed;
    if ids != [] {
      var init, id := ids[..|ids| - 1], ids[|ids| - 1];
      ListStep(c, relation, did, ids);
      ListMultiplicity(c, relation, did, init, u);
      var v := Judge(c, relation, did, id);
      JudgeKeeps(c, relation, did, id, Entry(u, ListedKey(c, u)));
      var before := List(c, relation, did, init).value;
      if v.Keep? {
        JudgeKeeps(c, relation, did, id, v.entry);
        ColumnsGrow(before, v.entry);
        OccursOnceMore(Urls(before), v.entry.url, u);
      } else {
        assert before + [] == before;
      }
    }
  }

  lemma {:induction false} OccursOnceMoreInFront<E>(first: E, es: seq<E>, e: E)
    ensures Occurrences([first] + es, e) == Occurrences(es, e) + if first == e then 1 else 0
  {
    if es == [] {
      assert [first] + es == [] + [first];
      OccursOnceMore([], first, e);
    } else {
      var init := es[..|es| - 1];
      OccursOnceMoreInFront(first, init, e);
      OccursOnceMore([first] + init, es[|es| - 1], e);
      assert [first] + es == [first] + init + [es[|es| - 1]];
    }
  }

  predicate IsMaster(relation: Relation, did: MemoDID, u: MemoDIDUrl) {
    relation == Authentication && u == MasterUrl(did)
  }

  // Each live URL is listed once for every logged id that names it; the master URL is listed
  // once more, in front, by the authentication query.
  lemma Multiplicity(c: Chain, relation: Relation, did: MemoDID, u: MemoDIDUrl)
    requires Query(c, relation, did).Success?
    ensures Occurrences(Urls(Query(c, relation, did).value), u) ==
      (if IsMaster(relation, did, u) then 1 else 0) +
      (if Live(c, relation, did, u) then Mentions(relation, did, Ids(c, relation, did), u) else 0)
  {
    hide Judge, Live, Mentions, ParseMemoDIDUrl;
    var es := Listed(c, relation, did).value;
    assert Listed(c, relation, did) == List(c, relation, did, Ids(c, relation, did));
    ListMultiplicity(c, relation, did, Ids(c, relation, did), u);
    if relation == Authentication {
      assert Urls([MasterEntry(c, did)] + es) == [MasterUrl(did)] + Urls(es);
      OccursOnceMoreInFront(MasterUrl(did), Urls(es), u);
    } else {
      assert [] + es == es;
    }
  }

  lemma {:induction false} MentionedWhenLogged(
      relation: Relation, did: MemoDID, ids: seq<string>, id: string, u: MemoDIDUrl)
    requires id in ids && !Passed(relation, did, id) && ParseMemoDIDUrl(id) == Success(u)
    ensures Mentions(relation, did, ids, u) > 0
  {
    hide ParseMemoDIDUrl, Passed;
    var init, last := ids[..|ids| - 1], ids[|ids| - 1];
    if last != id {
      assert ids == init + [last];
      MentionedWhenLogged(relation, did, init, id, u);
    }
  }

  lemma PrintedIsRead(relation: Relation, did: MemoDID, u: MemoDIDUrl)
    requires ValidUrl(u) && ValidDID(did) && !IsMaster(relation, did, u)
    ensures !Passed(relation, did, u.ToString()) && ParseMemoDIDUrl(u.ToString()) == Success(u)
  {
    UrlParsePrint(u);
    MasterText(did, u);
  }

  lemma MasterText(did: MemoDID, u: MemoDIDUrl)
    requires ValidDID(did) && ValidUrl(u)
    ensures ValidUrl(MasterUrl(did))
    ensures u.ToString() == MasterUrl(did).ToString() <==> u == MasterUrl(did)
  {
    assert SUPPORTED_FRAGMENTS[4] == "masterKey";
    UrlTextInjective(u, MasterUrl(did));
  }

  // In every reachable state, what a query lists is the live relation, and the master URL.
  lemma ListsExactlyTheLive(now: Time, steps: seq<Step>, relation: Relation, did: MemoDID, u: MemoDIDUrl)
    requires ValidDID(did)
    requires Query(Run(Start(now), steps), relation, did).Success?
    ensures var c := Run(Start(now), steps);
      u in Urls(Query(c, relation, did).value) <==> Live(c, relation, did, u) || IsMaster(relation, did, u)
  {
    var c := Run(Start(now), steps);
    Multiplicity(c, relation, did, u);
    OccursOrNot(Urls(Query(c, relation, did).value), u);
    if Live(c, relation, did, u) && !IsMaster(relation, did, u) {
      ActiveAnnounced(now, steps, relation, did.identifier, u.ToString());
      PrintedIsRead(relation, did, u);
      MentionedWhenLogged(relation, did, Ids(c, relation, did), u.ToString(), u);
    }
  }

  // The listed URLs are the named ones, in the order they were announced, with some left out.
  lemma {:induction false} InLogOrder(c: Chain, relation: Relation, did: MemoDID, ids: seq<string>)
    requires List(c, relation, did, ids).Success?
    ensures IsSubsequence(Urls(List(c, relation, did, ids).value), NamedUrls(ids))
  {
    hide Judge, ParseMemoDIDUrl, Live, Passed;
    if ids != [] {
      var init, id := ids[..|ids| - 1], ids[|ids| - 1];
      ListStep(c, relation, did, ids);
      InLogOrder(c, relation, did, init);
      var before := List(c, relation, did, init).value;
      var v := Judge(c, relation, did, id);
      if v.Keep? {
        JudgeKeeps(c, relation, did, id, v.entry);
        ColumnsGrow(before, v.entry);
        SubsequenceBoth(Urls(before), NamedUrls(init), v.entry.url);
      } else {
        assert before + [] == before;
        if ParseMemoDIDUrl(id).Success? {
          SubsequenceMore(Urls(before), NamedUrls(init), ParseMemoDIDUrl(id).value);
        } else {
          assert NamedUrls(init) + [] == NamedUrls(init);
        }
      }
    }
  }

  // A list is free of duplicates exactly when no live URL was announced twice and, for
  // authentication, no live master URL was announced under another text.
  lemma DuplicateFree(c: Chain, relation: Relation, did: MemoDID)
    requires Query(c, relation, did).Success?
    ensures Distinct(Urls(Query(c, relation, did).value)) <==>
      forall u :: Live(c, relation, did, u) ==>
        Mentions(relation, did, Ids(c, relation, did), u) + (if IsMaster(relation, did, u) then 1 else 0) <= 1
  {
    hide Live, Mentions, Query;
    var us, ids := Urls(Query(c, relation, did).value), Ids(c, relation, did);
    if Distinct(us) {
      forall u | Live(c, relation, did, u)
        ensures Mentions(relation, did, ids, u) + (if IsMaster(relation, did, u) then 1 else 0) <= 1
      {
        Multiplicity(c, relation, did, u);
        DistinctOccursOnce(us, u);
      }
    } else {
      var u := RepeatedElement(us);
      Multiplicity(c, relation, did, u);
      assert Live(c, relation, did, u);
    }
  }

  // The other text that denotes the master URL, with an empty query.
  function MasterAlias(did: MemoDID): string { MemoText(did.identifier, "?#masterKey") }

  lemma MasterTexts(did: MemoDID, id: string)
    requires ValidDID(did)
    ensures ParseMemoDIDUrl(id) == Success(MasterUrl(did)) <==>
      id == MasterUrl(did).ToString() || id == MasterAlias(did)
    ensures MasterAlias(did) != MasterUrl(did).ToString()
  {
    hide ParseMemoDIDUrl, ValidUrl, MasterAlias, MemoDIDUrl.ToString;
    var u := MasterUrl(did);
    MasterParses(did);
    UrlText(u);
    AliasText(did);
    EmptyQueryAccepted(did.identifier, "masterKey");
    if ParseMemoDIDUrl(id) == Success(u) {
      UrlForm(id);
      MasterTail(id[73..]);
      assert id == MemoText(id[9..73], id[73..]);
    }
  }

  lemma AliasText(did: MemoDID)
    ensures MasterAlias(did) == MemoText(did.identifier, "?" + ("#" + "masterKey"))
    ensures |MasterAlias(did)| == |MemoText(did.identifier, "" + ("#" + "masterKey"))| + 1
  {
    assert "?" + ("#" + "masterKey") == "?#masterKey";
  }

  lemma MasterTail(rest: string)
    requires UrlTail(rest) == Some("masterKey")
    ensures rest == "" + ("#" + "masterKey") || rest == "?" + ("#" + "masterKey")
  {
    assert rest == TailQuery(rest) + ("#" + "masterKey");
  }

  lemma {:induction false} MasterMentions(did: MemoDID, ids: seq<string>)
    requires ValidDID(did)
    ensures Mentions(Authentication, did, ids, MasterUrl(did)) == 0 <==> MasterAlias(did) !in ids
  {
    hide ParseMemoDIDUrl, ValidDID, MasterAlias;
    if ids != [] {
      var id := ids[|ids| - 1];
      assert ids == ids[..|ids| - 1] + [id];
      MasterMentions(did, ids[..|ids| - 1]);
      MasterTexts(did, id);
    }
  }

  // The master URL heads the authentication list, and occurs again exactly when it is live and
  // some logged id names it under another text: for a DID as the parser returns it, under the one
  // with an empty query.
  lemma MasterOccurrences(c: Chain, did: MemoDID)
    requires Query(c, Authentication, did).Success?
    ensures var us := Urls(Query(c, Authentication, did).value);
      && |us| > 0 && us[0] == MasterUrl(did)
      && (Occurrences(us, MasterUrl(did)) == 1 <==>
            !Live(c, Authentication, did, MasterUrl(did)) ||
            Mentions(Authentication, did, Ids(c, Authentication, did), MasterUrl(did)) == 0)
      && (ValidDID(did) ==>
            (Occurrences(us, MasterUrl(did)) == 1 <==>
              !Live(c, Authentication, did, MasterUrl(did)) || MasterAlias(did) !in Ids(c, Authentication, did)))
  {
    hide Live, Mentions, ValidDID, MasterAlias;
    Multiplicity(c, Authentication, did, MasterUrl(did));
    if ValidDID(did) {
      MasterMentions(did, Ids(c, Authentication, did));
    }
  }

  // Ids that the SDK prints have no query, and then the master URL occurs exactly once.
  lemma {:induction false} PrintedIdsPassMaster(did: MemoDID, ids: seq<string>)
    requires forall id :: id in ids ==> '?' !in id
    ensures Mentions(Authentication, did, ids, MasterUrl(did)) == 0
  {
    if ids != [] {
      var id := ids[|ids| - 1];
      assert ids == ids[..|ids| - 1] + [id] && id in ids;
      PrintedIdsPassMaster(did, ids[..|ids| - 1]);
      if ParseMemoDIDUrl(id).Success? {
        UrlPrintParse(id);
      }
    }
  }

  lemma AnnouncedTwo(did: string, a: string, b: string)
    ensures Announced([AddEvent(Authentication, did, a), AddEvent(Authentication, did, b)], Authentication, did) ==
      [a, b]
  {
    AnnouncedGrows([], AddEvent(Authentication, did, a), Authentication, did);
    AnnouncedGrows([AddEvent(Authentication, did, a)], AddEvent(Authentication, did, b), Authentication, did);
    assert [] + [AddEvent(Authentication, did, a)] == [AddEvent(Authentication, did, a)];
  }

  // The run in which a master key is announced twice, the first time with an empty query.
  function MasterTwice(id: string, key: SolidityKey): seq<Step> {
    [ Create(id, key),
      Announce(Authentication, id, MemoText(id, "?" + ("#" + "masterKey")), 0),
      Announce(Authentication, id, MasterUrl(MemoDID("memo", id, [id])).ToString(), 0) ]
  }

  lemma MasterTwiceState(now: Time, id: string, key: SolidityKey, first: string, second: string)
    requires MasterTwice(id, key)[1].id == first && MasterTwice(id, key)[2].id == second
    ensures var c := Run(Start(now), MasterTwice(id, key));
      && c.methods == map[id := [key.(deactivated := false)]]
      && (Authentication, id, second) in c.flags
      && Announced(c.log, Authentication, id) == [first, second]
  {
    var steps := MasterTwice(id, key);
    var s2, s1 := steps[..|steps| - 1], steps[..|steps| - 1][..|steps| - 2];
    assert s1 == [steps[0]] && s1[..|s1| - 1] == [];
    assert Run(Start(now), []) == Start(now);
    var c1 := Run(Start(now), s1);
    assert c1 == Next(Start(now), steps[0]);
    var c2 := Run(Start(now), s2);
    assert c2 == Next(c1, steps[1]);
    var c := Run(Start(now), steps);
    assert c == Next(c2, steps[2]);
    AnnouncedTwo(id, first, second);
  }

  // There the authentication list shows the master URL twice.
  lemma MasterListedTwice(now: Time, id: string, key: SolidityKey)
    requires Is32ByteHex(id)
    ensures var c := Run(Start(now), MasterTwice(id, key)); var did := MemoDID("memo", id, [id]);
      && Query(c, Authentication, did).Success?
      && Occurrences(Urls(Query(c, Authentication, did).value), MasterUrl(did)) == 2
  {
    hide ParseMemoDIDUrl, ValidUrl, MemoDIDUrl.ToString, MemoText, MasterAlias, Run, Query;
    var c, did := Run(Start(now), MasterTwice(id, key)), MemoDID("memo", id, [id]);
    var u := MasterUrl(did);
    var first, second := MemoText(id, "?" + ("#" + "masterKey")), u.ToString();
    MasterTwiceState(now, id, key, first, second);
    MasterParses(did);
    AliasText(did);
    MasterTexts(did, first);
    assert IndexOf(u) == 0 && Live(c, Authentication, did, u);
    var e := Entry(u, ListedKey(c, u));
    JudgeKeeps(c, Authentication, did, first, e);
    assert Judge(c, Authentication, did, second) == Skip;
    TwoAnnounced(c, did, first, second, e);
  }

  lemma TwoAnnounced(c: Chain, did: MemoDID, first: string, second: string, e: Entry)
    requires Ids(c, Authentication, did) == [first, second] && e.url == MasterUrl(did)
    requires Judge(c, Authentication, did, first) == Keep(e) && Judge(c, Authentication, did, second) == Skip
    ensures Query(c, Authentication, did).Success?
    ensures Occurrences(Urls(Query(c, Authentication, did).value), MasterUrl(did)) == 2
  {
    hide Judge;
    var vs := Verdicts(c, Authentication, did, [first, second]);
    assert vs == [] + [Keep(e)] + [Skip];
    ReplayMore<Entry, ResolveError>([], Keep(e));
    ReplayMore<Entry, ResolveError>([] + [Keep(e)], Skip);
    assert Urls(Query(c, Authentication, did).value) == [] + [MasterUrl(did)] + [MasterUrl(did)];
    OccursOnceMore([], MasterUrl(did), MasterUrl(did));
    OccursOnceMore([] + [MasterUrl(did)], MasterUrl(did), MasterUrl(did));
  }
}
