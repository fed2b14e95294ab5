/** Documents and dereferencing: the method list keeps its indices, and what is listed resolves. */
module ResolverDocuments {
  import opened Account
  import opened Bytes
  import opened Document
  import opened MemoDid
  import opened MemoResolver
  import opened Replays
  import opened ResolverProperties
  import opened ResolverSteps
  import opened Text
  import opened Wrappers

  // A document entry is the conversion of the record at the index its URL denotes.
  predicate ShowsMethod(c: Chain, did: MemoDID, m: VerificationMethod, index: int) {
    && 0 <= index <= MAX_INT64
    && MethodAt(c, did.identifier, index).Some?
    && !MethodAt(c, did.identifier, index).value.deactivated
    && did.DIDUrl(index) == Some(m.id)
    && m.key == PrefixedKey(MethodAt(c, did.identifier, index).value)
    && m.controller == ControllerOf(MethodAt(c, did.identifier, index).value)
    && ValidUrl(m.id) && IndexOf(m.id) == index
  }

  lemma ConvertedMethod(c: Chain, did: MemoDID, i: nat)
    requires ValidDID(did) && i <= MAX_INT64
    requires MethodAt(c, did.identifier, i).Some? && !MethodAt(c, did.identifier, i).value.deactivated
    requires ToMethod(did, i, MethodAt(c, did.identifier, i).value).Success?
    ensures ShowsMethod(c, did, ToMethod(did, i, MethodAt(c, did.identifier, i).value).value, i)
  {
    IndexOfDIDUrl(did, i);
    ShownController(did, i, MethodAt(c, did.identifier, i).value);
    hide ControllerOf, ParseMemoDID, ValidUrl, MemoDIDUrl.GetMethodIndex, MemoDID.DIDUrl;
  }

  function Indices(ms: seq<VerificationMethod>): (indices: seq<int>)
    ensures |indices| == |ms|
  {
    seq(|ms|, k requires 0 <= k < |ms| => IndexOf(ms[k].id))
  }

  // A list of entries shows exactly the methods below `size` that are not deactivated, in order.
  ghost predicate ShowsBelow(c: Chain, did: MemoDID, ms: seq<VerificationMethod>, size: nat) {
    && (forall k :: 0 <= k < |ms| ==> ShowsMethod(c, did, ms[k], Indices(ms)[k]))
    && (forall j, k :: 0 <= j < k < |ms| ==> Indices(ms)[j] < Indices(ms)[k])
    && (forall i :: i in Indices(ms) <==> 0 <= i < size && ActiveAt(c, did, i))
  }

  predicate ActiveAt(c: Chain, did: MemoDID, i: int) {
    MethodAt(c, did.identifier, i).Some? && !MethodAt(c, did.identifier, i).value.deactivated
  }

  // The indices of the method list are strictly increasing and are exactly the positions below
  // the loop's bound whose method is not deactivated; each entry shows the method at its index.
  lemma {:induction false} MethodListIndices(c: Chain, did: MemoDID, size: nat)
    requires ValidDID(did) && size <= MAX_INT64 + 1 && Methods(c, did, size).Success?
    ensures ShowsBelow(c, did, Methods(c, did, size).value, size)
  {
    hide ToMethod, ShowsMethod, IndexOf, ShowsBelow;
    if size == 0 {
      NothingBelowZero(c, did);
    } else {
      var i := size - 1;
      MethodListIndices(c, did, i);
      var before := Methods(c, did, i).value;
      var k := MethodAt(c, did.identifier, i).value;
      if k.deactivated {
        ShowsBelowSkip(c, did, before, i);
      } else {
        ConvertedMethod(c, did, i);
        ShowsBelowMore(c, did, before, i, ToMethod(did, i, k).value);
      }
    }
  }

  lemma NothingBelowZero(c: Chain, did: MemoDID)
    ensures ShowsBelow(c, did, [], 0)
  {
  }

  lemma ShowsBelowSkip(c: Chain, did: MemoDID, ms: seq<VerificationMethod>, i: nat)
    requires ShowsBelow(c, did, ms, i) && !ActiveAt(c, did, i)
    ensures ShowsBelow(c, did, ms, i + 1)
  {
  }

  lemma ShowsBelowMore(c: Chain, did: MemoDID, ms: seq<VerificationMethod>, i: nat, m: VerificationMethod)
    requires ShowsBelow(c, did, ms, i) && ActiveAt(c, did, i) && ShowsMethod(c, did, m, i)
    ensures ShowsBelow(c, did, ms + [m], i + 1)
  {
    hide ShowsMethod, IndexOf, ActiveAt;
    ShownIndex(c, did, m, i);
    var before := Indices(ms);
    assert Indices(ms + [m]) == before + [i];
    forall j | 0 <= j < |ms|
      ensures before[j] < i
    {
      assert before[j] in before;
    }
    assert forall x :: x in before + [i] <==> x in before || x == i;
  }

  lemma ShownIndex(c: Chain, did: MemoDID, m: VerificationMethod, i: int)
    requires ShowsMethod(c, did, m, i)
    ensures IndexOf(m.id) == i
  {
  }

  // The loop reads the whole array as long as its length fits an int64.
  lemma LoopBoundIsLength(c: Chain, did: MemoDID)
    ensures LoopBound(c, did) <= MAX_INT64
    ensures LoopBound(c, did) == MethodCount(c, did.identifier) <==> MethodCount(c, did.identifier) <= MAX_INT64
  {
  }

  // Dereferencing a master or key URL reads its method.
  lemma DereferenceMethod(c: Chain, u: MemoDIDUrl)
    requires ValidUrl(u) && FragmentRelation(u.fragment).None?
    ensures var k := MethodOrNone(c, u.identifier, IndexOf(u));
      DereferenceUrl(c, u.ToString()) == if k.deactivated then Failure(MethodDeactivated) else Success([PrefixedKey(k)])
  {
    UrlParsePrint(u);
    IndexDefined(u.ToString());
    hide ParseMemoDIDUrl, ValidUrl;
  }

  lemma IndexedIsKey(u: MemoDIDUrl)
    requires ValidUrl(u) && IndexOf(u) >= 0
    ensures FragmentRelation(u.fragment).None?
  {
    ParsedIndex(u);
    assert SUPPORTED_FRAGMENTS[0] == "authentication" && SUPPORTED_FRAGMENTS[1] == "assertion";
    assert SUPPORTED_FRAGMENTS[2] == "delegation" && SUPPORTED_FRAGMENTS[3] == "recovery";
    assert "masterKey"[0] == 'm';
  }

  // Every verification method that a document shows dereferences to its own key.
  lemma MethodsDereference(c: Chain, did: MemoDID, k: nat)
    requires ValidDID(did) && Methods(c, did, LoopBound(c, did)).Success?
    requires k < |Methods(c, did, LoopBound(c, did)).value|
    ensures var m := Methods(c, did, LoopBound(c, did)).value[k];
      DereferenceUrl(c, m.id.ToString()) == Success([m.key])
  {
    LoopBoundIsLength(c, did);
    MethodListIndices(c, did, LoopBound(c, did));
    var ms := Methods(c, did, LoopBound(c, did)).value;
    ShownDereferences(c, did, ms[k], Indices(ms)[k]);
  }

  lemma ShownDereferences(c: Chain, did: MemoDID, m: VerificationMethod, i: int)
    requires ShowsMethod(c, did, m, i)
    ensures DereferenceUrl(c, m.id.ToString()) == Success([m.key])
  {
    IndexedIsKey(m.id);
    DereferenceMethod(c, m.id);
    var read := MethodAt(c, did.identifier, i);
    assert m.id.identifier == did.identifier;
    hide DereferenceUrl, ValidUrl, IndexOf;
    assert MethodOrNone(c, m.id.identifier, i) == read.value;
  }

  // Every URL that a relation lists, other than the leading master entry, dereferences to the
  // key beside it, with the 0x prefix that the list leaves out.
  lemma ListedDereference(c: Chain, relation: Relation, did: MemoDID, e: Entry)
    requires Listed(c, relation, did).Success? && e in Listed(c, relation, did).value
    ensures DereferenceUrl(c, e.url.ToString()) ==
      Success([PublicKey(e.key.keyType, "0x" + e.key.publicKeyHex)])
  {
    var ids := Ids(c, relation, did);
    var vs := Verdicts(c, relation, did, ids);
    ReplayMembers(vs, e);
    var i :| 0 <= i < |vs| && vs[i] == Keep(e);
    JudgeKeeps(c, relation, did, ids[i], e);
    IndexedIsKey(e.url);
    DereferenceMethod(c, e.url);
    hide DereferenceUrl, ValidUrl, IndexOf, Judge, ParseMemoDIDUrl;
  }

  // The leading master entry dereferences to its own key unless the master key is deactivated.
  lemma MasterDereference(c: Chain, did: MemoDID)
    requires ValidDID(did)
    ensures var master := MasterEntry(c, did);
      DereferenceUrl(c, master.url.ToString()) ==
        if MethodOrNone(c, did.identifier, 0).deactivated then Failure(MethodDeactivated) else Success([master.key])
  {
    assert SUPPORTED_FRAGMENTS[4] == "masterKey";
    var u := MasterUrl(did);
    assert IndexOf(u) == 0;
    IndexedIsKey(u);
    DereferenceMethod(c, u);
  }

  // A URL whose method does not exist dereferences to an empty key and no error.
  lemma DanglingDereference(c: Chain, u: MemoDIDUrl)
    requires ValidUrl(u) && FragmentRelation(u.fragment).None?
    requires MethodAt(c, u.identifier, IndexOf(u)).None?
    ensures DereferenceUrl(c, u.ToString()) == Success([PublicKey("", "0x")])
  {
    DereferenceMethod(c, u);
    assert Hex([]) == "" && "0x" + "" == "0x";
  }

  // A document is either empty, for a deactivated DID, or shows each live relation exactly.
  lemma ResolvedDocument(now: Time, steps: seq<Step>, s: string, u: MemoDIDUrl)
    requires ResolveDid(Run(Start(now), steps), s).Success?
    ensures var c := Run(Start(now), steps);
      && ParseMemoDID(s).Success?
      && var did := ParseMemoDID(s).value;
        match ResolveDid(c, s).value
        case NoDocument => did.identifier in c.closed
        case DidDocument(id, methods, authentication, assertion, delegation, recovery) =>
          && id == did && did.identifier !in c.closed
          && Methods(c, did, LoopBound(c, did)) == Success(methods)
          && (u in authentication <==> Live(c, Authentication, did, u) || u == MasterUrl(did))
          && (u in assertion <==> Live(c, AssertionMethod, did, u))
          && (u in delegation <==> Live(c, CapabilityDelegation, did, u))
          && (u in recovery <==> Live(c, Recovery, did, u))
  {
    var c := Run(Start(now), steps);
    var did := ParseMemoDID(s).value;
    DidPrintParse(s);
    hide ParseMemoDID, ValidDID, Live, Query;
    if did.identifier !in c.closed {
      ListsExactlyTheLive(now, steps, Authentication, did, u);
      ListsExactlyTheLive(now, steps, AssertionMethod, did, u);
      ListsExactlyTheLive(now, steps, CapabilityDelegation, did, u);
      ListsExactlyTheLive(now, steps, Recovery, did, u);
    }
  }

  lemma UnannouncedQuery(c: Chain, relation: Relation, did: MemoDID)
    requires c.log == []
    ensures Query(c, relation, did) == Success(if relation == Authentication then [MasterEntry(c, did)] else [])
  {
    hide Judge, MasterEntry;
    var vs := Verdicts(c, relation, did, []);
    assert vs == [] && Replay(vs) == Success([]);
    assert Announced(c.log, relation, did.identifier) == [];
    assert Listed(c, relation, did) == Success([]);
    var first: seq<Entry> := if relation == Authentication then [MasterEntry(c, did)] else [];
    assert first + [] == first;
  }

  // The entry of a master key without a controller.
  function MasterMethod(did: MemoDID, key: SolidityKey): VerificationMethod {
    var zeros := NoController()[9..];
    VerificationMethod(MasterUrl(did), MemoDID("memo", zeros, [zeros]), PrefixedKey(key))
  }

  lemma MasterConverts(did: MemoDID, key: SolidityKey)
    requires key.controller == ""
    ensures ToMethod(did, 0, key) == Success(MasterMethod(did, key))
  {
    ZeroController();
    DidAcceptance(NoController());
    assert NoController()[9..] == NoController()[9..73];
    hide ParseMemoDID, NoController;
  }

  lemma SingleMethod(c: Chain, did: MemoDID, key: SolidityKey)
    requires c.methods == map[did.identifier := [key]] && key.controller == "" && !key.deactivated
    ensures Methods(c, did, LoopBound(c, did)) == Success([MasterMethod(did, key)])
  {
    hide ToMethod, MasterMethod;
    MasterConverts(did, key);
    assert Methods(c, did, 0) == Success([]);
    MethodsNext(c, did, 0, 1);
    assert LoopBound(c, did) == 1;
    assert MethodAt(c, did.identifier, 0) == Some(key);
    assert [] + [MasterMethod(did, key)] == [MasterMethod(did, key)];
  }

  // Creating a DID with a key makes it resolve to a document that shows just that key, as its
  // method 0 and as its means of authentication.
  lemma FreshDidResolves(now: Time, id: string, key: SolidityKey)
    requires Is32ByteHex(id) && key.controller == ""
    ensures var c, did := Run(Start(now), [Create(id, key)]), MemoDID("memo", id, [id]);
      ResolveDid(c, did.ToString()) ==
        Success(DidDocument(did, [MasterMethod(did, key)], [MasterUrl(did)], [], [], []))
  {
    var c, did := Run(Start(now), [Create(id, key)]), MemoDID("memo", id, [id]);
    DidParsePrint(did);
    hide ParseMemoDID, MemoDID.ToString, Methods, Query, LoopBound;
    assert [Create(id, key)][..0] == [] && c == Next(Run(Start(now), []), Create(id, key));
    assert did.identifier !in c.closed;
    SingleMethod(c, did, key.(deactivated := false));
    UnannouncedQuery(c, Authentication, did);
    UnannouncedQuery(c, AssertionMethod, did);
    UnannouncedQuery(c, CapabilityDelegation, did);
    UnannouncedQuery(c, Recovery, did);
    assert Urls([MasterEntry(c, did)]) == [MasterUrl(did)] && Urls([]) == [];
    hide MasterEntry, Run;
  }

  // Deactivating a DID empties its document, but no URL dereferences differently.
  lemma ClosedDereference(c: Chain, did: MemoDID, s: string)
    requires ValidDID(did)
    ensures var c' := Next(c, Close(did.identifier));
      ResolveDid(c', did.ToString()) == Success(NoDocument) && DereferenceUrl(c', s) == DereferenceUrl(c, s)
  {
    DidParsePrint(did);
    hide ParseMemoDID, ParseMemoDIDUrl, Query;
    if ParseMemoDIDUrl(s).Success? && FragmentRelation(ParseMemoDIDUrl(s).value.fragment).Some? {
      var u := ParseMemoDIDUrl(s).value;
      ListsKeptWhenClosed(c, did.identifier, FragmentRelation(u.fragment).value, u.DID());
    }
  }

  // A run in which a deactivated DID has no document and its master URL still gives its key.
  lemma ClosedDidDereferences(now: Time, id: string, key: SolidityKey)
    requires Is32ByteHex(id)
    ensures var c, did := Run(Start(now), [Create(id, key), Close(id)]), MemoDID("memo", id, [id]);
      && ResolveDid(c, did.ToString()) == Success(NoDocument)
      && DereferenceUrl(c, MasterUrl(did).ToString()) == Success([PrefixedKey(key)])
  {
    var did := MemoDID("memo", id, [id]);
    var created := Run(Start(now), [Create(id, key)]);
    assert [Create(id, key)][..0] == [] && created == Next(Run(Start(now), []), Create(id, key));
    assert [Create(id, key), Close(id)][..1] == [Create(id, key)];
    assert Run(Start(now), [Create(id, key), Close(id)]) == Next(created, Close(id));
    assert MethodOrNone(created, id, 0) == key.(deactivated := false);
    assert MasterEntry(created, did).key == PrefixedKey(key);
    hide ResolveDid, DereferenceUrl, MemoDID.ToString, MemoDIDUrl.ToString, Run;
    ClosedDereference(created, did, MasterUrl(did).ToString());
    MasterDereference(created, did);
  }
}
