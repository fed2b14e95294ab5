/** What resolving and dereferencing answer: when they succeed, and with which entries. */
module ResolverAnswers {
  import opened Account
  import opened Bytes
  import opened Document
  import opened MemoDid
  import opened MemoResolver
  import opened Replays
  import opened ResolverDocuments
  import opened ResolverProperties
  import opened Text
  import opened Wrappers

  // ---------- dereferencing a relation ----------

  // The key a list shows beside a URL: plain hex, but prefixed for the leading master entry.
  predicate IsKeyOf(c: Chain, u: MemoDIDUrl, key: PublicKey) {
    MethodAt(c, u.identifier, IndexOf(u)).Some? &&
    var k := MethodAt(c, u.identifier, IndexOf(u)).value;
    key == PublicKey(k.methodType, Hex(k.keyData))
  }

  predicate IsMasterKey(c: Chain, did: MemoDID, key: PublicKey) {
    match MethodAt(c, did.identifier, 0)
    case None => key == PublicKey("", "0x")
    case Some(k) => key == PublicKey(k.methodType, "0x" + Hex(k.keyData))
  }

  // As many keys as URLs, and each the key of the method that its URL denotes.
  ghost predicate ShowsKeys(c: Chain, urls: seq<MemoDIDUrl>, keys: seq<PublicKey>) {
    |keys| == |urls| && forall i :: 0 <= i < |urls| ==> IsKeyOf(c, urls[i], keys[i])
  }

  ghost predicate ShowsMasterAndKeys(c: Chain, did: MemoDID, urls: seq<MemoDIDUrl>, keys: seq<PublicKey>) {
    |urls| > 0 && |keys| > 0 && IsMasterKey(c, did, keys[0]) && ShowsKeys(c, urls[1..], keys[1..])
  }

  function RelationUrl(did: MemoDID, fragment: string): MemoDIDUrl {
    MemoDIDUrl(did.methodName, did.identifier, did.identifiers, fragment)
  }

  lemma RelationText(did: MemoDID, fragment: string)
    ensures RelationUrl(did, fragment).ToString() == did.ToString() + "#" + fragment
  {
  }

  lemma FragmentRelations()
    ensures FragmentRelation("authentication") == Some(Authentication)
    ensures FragmentRelation("assertion") == Some(AssertionMethod)
    ensures FragmentRelation("delegation") == Some(CapabilityDelegation)
    ensures FragmentRelation("recovery") == Some(Recovery)
    ensures IsFragment("authentication") && IsFragment("assertion")
    ensures IsFragment("delegation") && IsFragment("recovery")
  {
    assert "assertion"[1] != "authentication"[1];
    assert SUPPORTED_FRAGMENTS[0] == "authentication" && SUPPORTED_FRAGMENTS[1] == "assertion";
    assert SUPPORTED_FRAGMENTS[2] == "delegation" && SUPPORTED_FRAGMENTS[3] == "recovery";
  }

  lemma RelationQuery(c: Chain, did: MemoDID, fragment: string, relation: Relation)
    requires ValidDID(did) && IsFragment(fragment) && FragmentRelation(fragment) == Some(relation)
    ensures var q, r := Query(c, relation, did), DereferenceUrl(c, did.ToString() + "#" + fragment);
      && (r.Success? <==> q.Success?)
      && (q.Success? ==> r.value == Keys(q.value))
  {
    hide Query, FragmentRelation, IsFragment;
    var u := RelationUrl(did, fragment);
    RelationText(did, fragment);
    assert ValidUrl(u) && u.DID() == did;
    UrlParsePrint(u);
    hide ParseMemoDIDUrl, ValidUrl;
  }

  // Every entry from the log has its own method's key.
  lemma ListedKeys(c: Chain, relation: Relation, did: MemoDID)
    requires Listed(c, relation, did).Success?
    ensures ShowsKeys(c, Urls(Listed(c, relation, did).value), Keys(Listed(c, relation, did).value))
  {
    var es := Listed(c, relation, did).value;
    forall i | 0 <= i < |es|
      ensures IsKeyOf(c, es[i].url, es[i].key)
    {
      var ids := Ids(c, relation, did);
      var vs := Verdicts(c, relation, did, ids);
      ReplayMembers(vs, es[i]);
      var j :| 0 <= j < |vs| && vs[j] == Keep(es[i]);
      JudgeKeeps(c, relation, did, ids[j], es[i]);
    }
  }

  lemma QueriedKeys(c: Chain, relation: Relation, did: MemoDID)
    requires Query(c, relation, did).Success?
    ensures var urls, keys := Urls(Query(c, relation, did).value), Keys(Query(c, relation, did).value);
      if relation == Authentication then ShowsMasterAndKeys(c, did, urls, keys) else ShowsKeys(c, urls, keys)
  {
    ListedKeys(c, relation, did);
    hide ShowsKeys;
    var es := Listed(c, relation, did).value;
    if relation == Authentication {
      assert Urls([MasterEntry(c, did)] + es)[1..] == Urls(es);
      assert Keys([MasterEntry(c, did)] + es)[1..] == Keys(es);
      assert Hex([]) == "" && "0x" + "" == "0x";
    } else {
      assert [] + es == es;
    }
  }

  lemma ResolvedQueries(c: Chain, did: MemoDID)
    requires ValidDID(did) && ResolveDid(c, did.ToString()).Success? && ResolveDid(c, did.ToString()).value.DidDocument?
    ensures forall relation :: Query(c, relation, did).Success?
    ensures var doc := ResolveDid(c, did.ToString()).value;
      && doc.authentication == Urls(Query(c, Authentication, did).value)
      && doc.assertionMethod == Urls(Query(c, AssertionMethod, did).value)
      && doc.capabilityDelegation == Urls(Query(c, CapabilityDelegation, did).value)
      && doc.recovery == Urls(Query(c, Recovery, did).value)
  {
    DidParsePrint(did);
    hide ParseMemoDID, Query, ValidDID, Methods, MemoDID.ToString;
    forall relation
      ensures Query(c, relation, did).Success?
    {
      match relation
      case Authentication =>
      case AssertionMethod =>
      case CapabilityDelegation =>
      case Recovery =>
    }
  }

  // Dereferencing a relation of a DID that resolves gives the keys of the URLs that the document
  // shows for it, one by one.
  lemma RelationKeys(c: Chain, did: MemoDID)
    requires ValidDID(did) && ResolveDid(c, did.ToString()).Success? && ResolveDid(c, did.ToString()).value.DidDocument?
    ensures var doc := ResolveDid(c, did.ToString()).value;
      var authentication := DereferenceUrl(c, did.ToString() + "#" + "authentication");
      var assertion := DereferenceUrl(c, did.ToString() + "#" + "assertion");
      var delegation := DereferenceUrl(c, did.ToString() + "#" + "delegation");
      var recovery := DereferenceUrl(c, did.ToString() + "#" + "recovery");
      && authentication.Success? && ShowsMasterAndKeys(c, did, doc.authentication, authentication.value)
      && assertion.Success? && ShowsKeys(c, doc.assertionMethod, assertion.value)
      && delegation.Success? && ShowsKeys(c, doc.capabilityDelegation, delegation.value)
      && recovery.Success? && ShowsKeys(c, doc.recovery, recovery.value)
  {
    hide Query, DereferenceUrl, ResolveDid, ValidDID, MemoDID.ToString, FragmentRelation, IsFragment;
    hide ShowsKeys, ShowsMasterAndKeys;
    FragmentRelations();
    ResolvedQueries(c, did);
    RelationQuery(c, did, "authentication", Authentication);
    RelationQuery(c, did, "assertion", AssertionMethod);
    RelationQuery(c, did, "delegation", CapabilityDelegation);
    RelationQuery(c, did, "recovery", Recovery);
    QueriedKeys(c, Authentication, did);
    QueriedKeys(c, AssertionMethod, did);
    QueriedKeys(c, CapabilityDelegation, did);
    QueriedKeys(c, Recovery, did);
  }

  // Can every logged id of a relation be read, apart from those passed over?
  predicate Readable(c: Chain, relation: Relation, did: MemoDID) {
    forall i :: 0 <= i < |Ids(c, relation, did)| ==>
      Passed(relation, did, Ids(c, relation, did)[i]) || ReadUrl(c, Ids(c, relation, did)[i]).Success?
  }

  // It succeeds, whether or not the DID resolves, exactly when every logged id can be read.
  lemma RelationFailure(c: Chain, did: MemoDID)
    requires ValidDID(did)
    ensures DereferenceUrl(c, did.ToString() + "#" + "authentication").Success? <==> Readable(c, Authentication, did)
    ensures DereferenceUrl(c, did.ToString() + "#" + "assertion").Success? <==> Readable(c, AssertionMethod, did)
    ensures DereferenceUrl(c, did.ToString() + "#" + "delegation").Success? <==>
      Readable(c, CapabilityDelegation, did)
    ensures DereferenceUrl(c, did.ToString() + "#" + "recovery").Success? <==> Readable(c, Recovery, did)
  {
    hide Query, DereferenceUrl, ValidDID, MemoDID.ToString, FragmentRelation, IsFragment, ReadUrl, Passed;
    FragmentRelations();
    RelationQuery(c, did, "authentication", Authentication);
    RelationQuery(c, did, "assertion", AssertionMethod);
    RelationQuery(c, did, "delegation", CapabilityDelegation);
    RelationQuery(c, did, "recovery", Recovery);
    QuerySucceeds(c, Authentication, did);
    QuerySucceeds(c, AssertionMethod, did);
    QuerySucceeds(c, CapabilityDelegation, did);
    QuerySucceeds(c, Recovery, did);
  }

  // A query fails with the error of the first id that cannot be read: that it does not parse, or
  // that its method does not exist.
  lemma FirstError(c: Chain, relation: Relation, did: MemoDID, k: nat)
    requires k < |Ids(c, relation, did)|
    requires forall i :: 0 <= i < k ==>
      Passed(relation, did, Ids(c, relation, did)[i]) || ReadUrl(c, Ids(c, relation, did)[i]).Success?
    requires !Passed(relation, did, Ids(c, relation, did)[k]) && ReadUrl(c, Ids(c, relation, did)[k]).Failure?
    ensures var parsed := ParseMemoDIDUrl(Ids(c, relation, did)[k]);
      Query(c, relation, did) ==
        match parsed case Failure(e) => Failure(BadEvent(e)) case Success(u) => Failure(NoSuchMethod)
  {
    hide ParseMemoDIDUrl, MethodAt, MemoDIDUrl.GetMethodIndex;
    var vs := Verdicts(c, relation, did, Ids(c, relation, did));
    ReplaySucceeds(vs[..k]);
    ReplayBreaks(vs, k);
  }

  // ---------- resolving ----------

  // Does the record's controller convert?
  predicate Convertible(key: SolidityKey) {
    key.controller == "" ||
    (|key.controller| >= 64 && Is32ByteHex(key.controller[..64]) && EmptyDelimiters(key.controller[64..]))
  }

  predicate AllConvertible(c: Chain, did: MemoDID, size: nat) {
    forall i :: 0 <= i < size && ActiveAt(c, did, i) ==> Convertible(MethodAt(c, did.identifier, i).value)
  }

  lemma {:induction false} MethodsSucceed(c: Chain, did: MemoDID, size: nat)
    requires size <= MethodCount(c, did.identifier)
    ensures Methods(c, did, size).Success? <==> AllConvertible(c, did, size)
  {
    hide ToMethod, Convertible;
    if size > 0 {
      MethodsSucceed(c, did, size - 1);
      ControllerConverts(did, size - 1, MethodAt(c, did.identifier, size - 1).value);
    }
  }

  lemma ControllerConverts(did: MemoDID, index: nat, key: SolidityKey)
    ensures ToMethod(did, index, key).Success? <==> Convertible(key)
  {
    ControllerAccepted(did, index, key);
  }

  // Resolving succeeds exactly for a DID string whose DID is deactivated, or whose active records
  // convert and whose logged ids can be read.
  lemma ResolveSucceeds(c: Chain, s: string)
    ensures ResolveDid(c, s).Success? <==>
      && ParseMemoDID(s).Success?
      && var did := ParseMemoDID(s).value;
         did.identifier in c.closed ||
         (AllConvertible(c, did, LoopBound(c, did)) && forall relation :: Readable(c, relation, did))
  {
    hide ParseMemoDID, Query, Methods, AllConvertible, ReadUrl, Passed;
    if ParseMemoDID(s).Success? {
      var did := ParseMemoDID(s).value;
      BoundInArray(c, did);
      MethodsSucceed(c, did, LoopBound(c, did));
      forall relation
        ensures Readable(c, relation, did) <==> Query(c, relation, did).Success?
      {
        QuerySucceeds(c, relation, did);
      }
      assert (forall relation :: Readable(c, relation, did)) <==>
        (Readable(c, Authentication, did) && Readable(c, AssertionMethod, did) &&
         Readable(c, CapabilityDelegation, did) && Readable(c, Recovery, did));
    }
  }

  lemma BoundInArray(c: Chain, did: MemoDID)
    ensures LoopBound(c, did) <= MethodCount(c, did.identifier)
  {
  }

  // The URLs a document field shows for a relation: in log order, each live URL as often as it is
  // named, and nothing else.
  ghost predicate ShowsLog(c: Chain, relation: Relation, did: MemoDID, urls: seq<MemoDIDUrl>) {
    && IsSubsequence(urls, NamedUrls(Ids(c, relation, did)))
    && forall u :: Occurrences(urls, u) ==
         if Live(c, relation, did, u) then Mentions(relation, did, Ids(c, relation, did), u) else 0
  }

  lemma ListedLog(c: Chain, relation: Relation, did: MemoDID)
    requires Listed(c, relation, did).Success?
    ensures ShowsLog(c, relation, did, Urls(Listed(c, relation, did).value))
  {
    hide Live, Mentions, NamedUrls, IsSubsequence;
    var ids := Ids(c, relation, did);
    assert Listed(c, relation, did) == List(c, relation, did, ids);
    InLogOrder(c, relation, did, ids);
    forall u
      ensures Occurrences(Urls(Listed(c, relation, did).value), u) ==
        if Live(c, relation, did, u) then Mentions(relation, did, ids, u) else 0
    {
      ListMultiplicity(c, relation, did, ids, u);
    }
  }

  lemma QueriedLog(c: Chain, relation: Relation, did: MemoDID)
    requires Query(c, relation, did).Success?
    ensures var urls := Urls(Query(c, relation, did).value);
      if relation == Authentication
      then |urls| > 0 && urls[0] == MasterUrl(did) && ShowsLog(c, relation, did, urls[1..])
      else ShowsLog(c, relation, did, urls)
  {
    ListedLog(c, relation, did);
    hide ShowsLog;
    var es := Listed(c, relation, did).value;
    if relation == Authentication {
      assert Urls([MasterEntry(c, did)] + es)[1..] == Urls(es);
    } else {
      assert [] + es == es;
    }
  }

  // A document shows the master URL first for authentication, and apart from it each relation in
  // log order with the log's multiplicities.
  lemma DocumentOrder(c: Chain, did: MemoDID)
    requires ValidDID(did) && ResolveDid(c, did.ToString()).Success? && ResolveDid(c, did.ToString()).value.DidDocument?
    ensures var doc := ResolveDid(c, did.ToString()).value;
      && |doc.authentication| > 0 && doc.authentication[0] == MasterUrl(did)
      && ShowsLog(c, Authentication, did, doc.authentication[1..])
      && ShowsLog(c, AssertionMethod, did, doc.assertionMethod)
      && ShowsLog(c, CapabilityDelegation, did, doc.capabilityDelegation)
      && ShowsLog(c, Recovery, did, doc.recovery)
  {
    hide Query, ResolveDid, ValidDID, MemoDID.ToString, ShowsLog;
    ResolvedQueries(c, did);
    QueriedLog(c, Authentication, did);
    QueriedLog(c, AssertionMethod, did);
    QueriedLog(c, CapabilityDelegation, did);
    QueriedLog(c, Recovery, did);
  }
}
