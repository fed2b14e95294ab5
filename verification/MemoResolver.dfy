/**
 The memo resolver: the query loops over the contract's event logs and method arrays, and the
 functions they are proved against.
 */
module MemoResolver {
  import opened Account
  import opened Bytes
  import opened Document
  import opened MemoDid
  import opened Replays
  import opened Text
  import opened Wrappers

  datatype ResolveError =
    | BadDid(reason: DidError)
    | BadEvent(reason: DidError)
    | BadMethod(conversion: ConversionError)
    | NoSuchMethod
    | MethodDeactivated

  datatype Entry = Entry(url: MemoDIDUrl, key: PublicKey)

  function MasterUrl(did: MemoDID): MemoDIDUrl {
    MemoDIDUrl(did.methodName, did.identifier, did.identifiers, "masterKey")
  }

  // Keys of listed relations are plain hex; all others carry the 0x prefix.
  function PlainKey(k: SolidityKey): PublicKey { PublicKey(k.methodType, Hex(k.keyData)) }

  function PrefixedKey(k: SolidityKey): PublicKey { PublicKey(k.methodType, EncodeHex(k.keyData)) }

  // The record a failed read leaves behind.
  const NO_KEY := SolidityKey("", "", [], false)

  function MethodOrNone(c: Chain, did: string, index: int): SolidityKey {
    match MethodAt(c, did, index) case Some(k) => k case None => NO_KEY
  }

  // ---------- specification of the queries ----------

  // The URL an announced id denotes and the method it names, as every loop reads them.
  function ReadUrl(c: Chain, id: string): Result<(MemoDIDUrl, SolidityKey), ResolveError> {
    match ParseMemoDIDUrl(id)
    case Failure(e) => Failure(BadEvent(e))
    case Success(u) =>
      IndexDefined(id);
      match MethodAt(c, u.identifier, u.GetMethodIndex())
      case None => Failure(NoSuchMethod)
      case Some(k) => Success((u, k))
  }

  // What one announced id contributes to a relation list.
  function Judge(c: Chain, relation: Relation, did: MemoDID, id: string): Verdict<Entry, ResolveError> {
    if relation == Authentication && id == MasterUrl(did).ToString() then Skip
    else
      match ReadUrl(c, id)
      case Failure(e) => Broken(e)
      case Success((u, k)) =>
        if Active(c, relation, did.identifier, u.ToString()) && !k.deactivated then Keep(Entry(u, PlainKey(k)))
        else Skip
  }

  function Verdicts(c: Chain, relation: Relation, did: MemoDID, ids: seq<string>):
    (vs: seq<Verdict<Entry, ResolveError>>)
    ensures |vs| == |ids|
    ensures forall i :: 0 <= i < |ids| ==> vs[i] == Judge(c, relation, did, ids[i])
  {
    seq(|ids|, i requires 0 <= i < |ids| => Judge(c, relation, did, ids[i]))
  }

  // The entries that the log contributes.
  function Listed(c: Chain, relation: Relation, did: MemoDID): Result<seq<Entry>, ResolveError> {
    Replay(Verdicts(c, relation, did, Announced(c.log, relation, did.identifier)))
  }

  function MasterEntry(c: Chain, did: MemoDID): Entry {
    Entry(MasterUrl(did), PrefixedKey(MethodOrNone(c, did.identifier, 0)))
  }

  // Authentication starts with the master key whatever the log says.
  function Query(c: Chain, relation: Relation, did: MemoDID): Result<seq<Entry>, ResolveError> {
    var listed :- Listed(c, relation, did);
    Success((if relation == Authentication then [MasterEntry(c, did)] else []) + listed)
  }

  function Urls(es: seq<Entry>): (us: seq<MemoDIDUrl>)
    ensures |us| == |es|
  {
    seq(|es|, i requires 0 <= i < |es| => es[i].url)
  }

  function Keys(es: seq<Entry>): (ks: seq<PublicKey>)
    ensures |ks| == |es|
  {
    seq(|es|, i requires 0 <= i < |es| => es[i].key)
  }

  // The two parallel slices the loops return.
  function Columns(r: Result<seq<Entry>, ResolveError>): Result<(seq<MemoDIDUrl>, seq<PublicKey>), ResolveError> {
    match r
    case Failure(e) => Failure(e)
    case Success(es) => Success((Urls(es), Keys(es)))
  }

  // The first `size` verification methods that are not deactivated.
  function Methods(c: Chain, did: MemoDID, size: nat): Result<seq<VerificationMethod>, ResolveError> {
    if size == 0 then Success([])
    else
      var before :- Methods(c, did, size - 1);
      match MethodAt(c, did.identifier, size - 1)
      case None => Failure(NoSuchMethod)
      case Some(k) =>
        if k.deactivated then Success(before)
        else match ToMethod(did, size - 1, k)
          case Failure(e) => Failure(BadMethod(e))
          case Success(m) => Success(before + [m])
  }

  // The length as the loop reads it, truncated to 64 bits.
  function LoopBound(c: Chain, did: MemoDID): nat {
    var size := LowInt64(MethodCount(c, did.identifier));
    if size < 0 then 0 else size
  }

  datatype DidDocument =
    | NoDocument
    | DidDocument(id: MemoDID, methods: seq<VerificationMethod>, authentication: seq<MemoDIDUrl>,
                  assertionMethod: seq<MemoDIDUrl>, capabilityDelegation: seq<MemoDIDUrl>, recovery: seq<MemoDIDUrl>)

  function ResolveDid(c: Chain, s: string): Result<DidDocument, ResolveError> {
    match ParseMemoDID(s)
    case Failure(e) => Failure(BadDid(e))
    case Success(did) =>
      if did.identifier in c.closed then Success(NoDocument)
      else
        var methods :- Methods(c, did, LoopBound(c, did));
        var authentication :- Query(c, Authentication, did);
        var assertion :- Query(c, AssertionMethod, did);
        var delegation :- Query(c, CapabilityDelegation, did);
        var recovery :- Query(c, Recovery, did);
        Success(DidDocument(did, methods, Urls(authentication), Urls(assertion), Urls(delegation), Urls(recovery)))
  }

  function FragmentRelation(f: string): Option<Relation> {
    if f == "authentication" then Some(Authentication)
    else if f == "assertion" then Some(AssertionMethod)
    else if f == "delegation" then Some(CapabilityDelegation)
    else if f == "recovery" then Some(Recovery)
    else None
  }

  function DereferenceUrl(c: Chain, s: string): Result<seq<PublicKey>, ResolveError> {
    match ParseMemoDIDUrl(s)
    case Failure(e) => Failure(BadDid(e))
    case Success(u) =>
      match FragmentRelation(u.fragment)
      case Some(relation) =>
        var es :- Query(c, relation, u.DID());
        Success(Keys(es))
      case None =>
        IndexDefined(s);
        var k := MethodOrNone(c, u.identifier, u.GetMethodIndex());
        if k.deactivated then Failure(MethodDeactivated) else Success([PrefixedKey(k)])
  }

  // ---------- the loops ----------

  // An iterator over logged events: Event() is the one that the last Next() moved to.
  class EventIterator {
    const events: seq<string>
    var position: nat

    constructor (events: seq<string>)
      ensures this.events == events && position == 0
    {
      this.events := events;
      position := 0;
    }

    method Next() returns (more: bool)
      requires position <= |events|
      modifies this
      ensures more <==> old(position) < |events|
      ensures position == if more then old(position) + 1 else old(position)
    {
      more := position < |events|;
      if more {
        position := position + 1;
      }
    }

    function Event(): string
      requires 0 < position <= |events|
      reads this
    {
      events[position - 1]
    }
  }

  // Progress of a loop over n events: what the two slices hold, after what they started with.
  ghost predicate Collected(vs: seq<Verdict<Entry, ResolveError>>, n: nat, first: seq<Entry>,
                            urls: seq<MemoDIDUrl>, keys: seq<PublicKey>)
  {
    && n <= |vs|
    && Replay(vs[..n]).Success?
    && urls == Urls(first + Replay(vs[..n]).value)
    && keys == Keys(first + Replay(vs[..n]).value)
  }

  lemma SkipNext(vs: seq<Verdict<Entry, ResolveError>>, n: nat, first: seq<Entry>,
                 urls: seq<MemoDIDUrl>, keys: seq<PublicKey>)
    requires n < |vs| && Collected(vs, n, first, urls, keys) && vs[n].Skip?
    ensures Collected(vs, n + 1, first, urls, keys)
  {
    assert vs[..n + 1][..n] == vs[..n];
  }

  lemma KeepNext(vs: seq<Verdict<Entry, ResolveError>>, n: nat, first: seq<Entry>,
                 urls: seq<MemoDIDUrl>, keys: seq<PublicKey>, url: MemoDIDUrl, key: PublicKey)
    requires n < |vs| && Collected(vs, n, first, urls, keys) && vs[n] == Keep(Entry(url, key))
    ensures Collected(vs, n + 1, first, urls + [url], keys + [key])
  {
    assert vs[..n + 1][..n] == vs[..n];
    var es := first + Replay(vs[..n]).value;
    assert first + Replay(vs[..n + 1]).value == es + [Entry(url, key)];
    ColumnsGrow(es, Entry(url, key));
  }

  lemma ColumnsGrow(es: seq<Entry>, e: Entry)
    ensures Urls(es + [e]) == Urls(es) + [e.url] && Keys(es + [e]) == Keys(es) + [e.key]
  {
  }

  lemma CollectedAll(vs: seq<Verdict<Entry, ResolveError>>, first: seq<Entry>,
                     urls: seq<MemoDIDUrl>, keys: seq<PublicKey>)
    requires Collected(vs, |vs|, first, urls, keys)
    ensures Replay(vs).Success?
    ensures Columns(Success(first + Replay(vs).value)) == Success((urls, keys))
  {
    assert vs[..|vs|] == vs;
  }

  method QueryAllVerificationMethod(c: Chain, did: MemoDID) returns (r: Result<seq<VerificationMethod>, ResolveError>)
    ensures r == Methods(c, did, LoopBound(c, did))
  {
    hide ToMethod;
    var size := LowInt64(MethodCount(c, did.identifier));
    var verificationMethods: seq<VerificationMethod> := [];
    var i := 0;
    while i < size
      invariant 0 <= i <= LoopBound(c, did)
      invariant Methods(c, did, i) == Success(verificationMethods)
    {
      var read := MethodAt(c, did.identifier, i);
      MethodsNext(c, did, i, LoopBound(c, did));
      if read.None? {
        return Failure(NoSuchMethod);
      }
      if !read.value.deactivated {
        var record := new KeyRecord(read.value);
        var converted := FromSolityData(did, i, record);
        if converted.Failure? {
          return Failure(BadMethod(converted.error));
        }
        verificationMethods := verificationMethods + [converted.value];
      }
      i := i + 1;
    }
    r := Success(verificationMethods);
  }

  // What reading the method at index i adds, or how it ends the query.
  lemma MethodsNext(c: Chain, did: MemoDID, i: nat, n: nat)
    requires i < n && Methods(c, did, i).Success?
    ensures var read, before := MethodAt(c, did.identifier, i), Methods(c, did, i).value;
      match read
      case None => Methods(c, did, n) == Failure(NoSuchMethod)
      case Some(k) =>
        if k.deactivated then Methods(c, did, i + 1) == Success(before)
        else match ToMethod(did, i, k)
          case Failure(e) => Methods(c, did, n) == Failure(BadMethod(e))
          case Success(m) => Methods(c, did, i + 1) == Success(before + [m])
  {
    hide ToMethod;
    if Methods(c, did, i + 1).Failure? {
      MethodsFail(c, did, i + 1, n);
    }
  }

  lemma {:induction false} MethodsFail(c: Chain, did: MemoDID, k: nat, n: nat)
    requires k <= n && Methods(c, did, k).Failure?
    ensures Methods(c, did, n) == Methods(c, did, k)
    decreases n
  {
    if k < n {
      MethodsFail(c, did, k, n - 1);
    }
  }

  method QueryAllAuthtication(c: Chain, did: MemoDID)
    returns (r: Result<(seq<MemoDIDUrl>, seq<PublicKey>), ResolveError>)
    ensures r == Columns(Query(c, Authentication, did))
  {
    hide ReadUrl;
    var authIter := new EventIterator(Announced(c.log, Authentication, did.identifier));
    var verifyMethod := MethodOrNone(c, did.identifier, 0);
    var masterID := did.DIDUrl(0).value;
    var masterKey := PublicKey(verifyMethod.methodType, EncodeHex(verifyMethod.keyData));

    var authentications, keys := [masterID], [masterKey];
    ghost var vs := Verdicts(c, Authentication, did, authIter.events);
    ghost var n: nat := 0;
    var more := authIter.Next();
    while more
      invariant |vs| == |authIter.events| && n <= |vs|
      invariant authIter.position == (if more then n + 1 else n) <= |vs|
      invariant !more ==> n == |vs|
      invariant Collected(vs, n, [MasterEntry(c, did)], authentications, keys)
      decreases |vs| - n, more
    {
      if authIter.Event() != masterID.ToString() {
        var read := ReadUrl(c, authIter.Event());
        if read.Failure? {
          ReplayBreaks(vs, n);
          return Failure(read.error);
        }
        var (didUrl, verificationMethod) := read.value;
        var activated := Active(c, Authentication, did.identifier, didUrl.ToString());
        if activated && !verificationMethod.deactivated {
          var key := PublicKey(verificationMethod.methodType, Hex(verificationMethod.keyData));
          KeepNext(vs, n, [MasterEntry(c, did)], authentications, keys, didUrl, key);
          authentications := authentications + [didUrl];
          keys := keys + [key];
        } else {
          SkipNext(vs, n, [MasterEntry(c, did)], authentications, keys);
        }
      } else {
        SkipNext(vs, n, [MasterEntry(c, did)], authentications, keys);
      }
      n := n + 1;
      more := authIter.Next();
    }
    CollectedAll(vs, [MasterEntry(c, did)], authentications, keys);
    r := Success((authentications, keys));
  }

  method QueryAllAssertion(c: Chain, did: MemoDID)
    returns (r: Result<(seq<MemoDIDUrl>, seq<PublicKey>), ResolveError>)
    ensures r == Columns(Query(c, AssertionMethod, did))
  {
    hide ReadUrl;
    var assertionIter := new EventIterator(Announced(c.log, AssertionMethod, did.identifier));
    var assertions: seq<MemoDIDUrl>, keys: seq<PublicKey> := [], [];
    ghost var vs := Verdicts(c, AssertionMethod, did, assertionIter.events);
    ghost var n: nat := 0;
    var more := assertionIter.Next();
    while more
      invariant |vs| == |assertionIter.events| && n <= |vs|
      invariant assertionIter.position == (if more then n + 1 else n) <= |vs|
      invariant !more ==> n == |vs|
      invariant Collected(vs, n, [], assertions, keys)
      decreases |vs| - n, more
    {
      var read := ReadUrl(c, assertionIter.Event());
      if read.Failure? {
        ReplayBreaks(vs, n);
        return Failure(read.error);
      }
      var (didUrl, verificationMethod) := read.value;
      var activated := Active(c, AssertionMethod, did.identifier, didUrl.ToString());
      if activated && !verificationMethod.deactivated {
        var key := PublicKey(verificationMethod.methodType, Hex(verificationMethod.keyData));
        KeepNext(vs, n, [], assertions, keys, didUrl, key);
        assertions := assertions + [didUrl];
        keys := keys + [key];
      } else {
        SkipNext(vs, n, [], assertions, keys);
      }
      n := n + 1;
      more := assertionIter.Next();
    }
    CollectedAll(vs, [], assertions, keys);
    r := Success((assertions, keys));
  }

  method QueryAllDelagation(c: Chain, did: MemoDID)
    returns (r: Result<(seq<MemoDIDUrl>, seq<PublicKey>), ResolveError>)
    ensures r == Columns(Query(c, CapabilityDelegation, did))
  {
    hide ReadUrl;
    var delegationIter := new EventIterator(Announced(c.log, CapabilityDelegation, did.identifier));
    var delegations: seq<MemoDIDUrl>, keys: seq<PublicKey> := [], [];
    ghost var vs := Verdicts(c, CapabilityDelegation, did, delegationIter.events);
    ghost var n: nat := 0;
    var more := delegationIter.Next();
    while more
      invariant |vs| == |delegationIter.events| && n <= |vs|
      invariant delegationIter.position == (if more then n + 1 else n) <= |vs|
      invariant !more ==> n == |vs|
      invariant Collected(vs, n, [], delegations, keys)
      decreases |vs| - n, more
    {
      var read := ReadUrl(c, delegationIter.Event());
      if read.Failure? {
        ReplayBreaks(vs, n);
        return Failure(read.error);
      }
      var (didUrl, verificationMethod) := read.value;
      var expiration := Expiry(c, did.identifier, didUrl.ToString());
      if LowInt64(expiration) >= c.now && !verificationMethod.deactivated {
        var key := PublicKey(verificationMethod.methodType, Hex(verificationMethod.keyData));
        KeepNext(vs, n, [], delegations, keys, didUrl, key);
        delegations := delegations + [didUrl];
        keys := keys + [key];
      } else {
        SkipNext(vs, n, [], delegations, keys);
      }
      n := n + 1;
      more := delegationIter.Next();
    }
    CollectedAll(vs, [], delegations, keys);
    r := Success((delegations, keys));
  }

  method QueryAllRecovery(c: Chain, did: MemoDID)
    returns (r: Result<(seq<MemoDIDUrl>, seq<PublicKey>), ResolveError>)
    ensures r == Columns(Query(c, Recovery, did))
  {
    hide ReadUrl;
    var recoveryIter := new EventIterator(Announced(c.log, Recovery, did.identifier));
    var recovery: seq<MemoDIDUrl>, keys: seq<PublicKey> := [], [];
    ghost var vs := Verdicts(c, Recovery, did, recoveryIter.events);
    ghost var n: nat := 0;
    var more := recoveryIter.Next();
    while more
      invariant |vs| == |recoveryIter.events| && n <= |vs|
      invariant recoveryIter.position == (if more then n + 1 else n) <= |vs|
      invariant !more ==> n == |vs|
      invariant Collected(vs, n, [], recovery, keys)
      decreases |vs| - n, more
    {
      var read := ReadUrl(c, recoveryIter.Event());
      if read.Failure? {
        ReplayBreaks(vs, n);
        return Failure(read.error);
      }
      var (didUrl, verificationMethod) := read.value;
      var activated := Active(c, Recovery, did.identifier, didUrl.ToString());
      if activated && !verificationMethod.deactivated {
        var key := PublicKey(verificationMethod.methodType, Hex(verificationMethod.keyData));
        KeepNext(vs, n, [], recovery, keys, didUrl, key);
        recovery := recovery + [didUrl];
        keys := keys + [key];
      } else {
        SkipNext(vs, n, [], recovery, keys);
      }
      n := n + 1;
      more := recoveryIter.Next();
    }
    CollectedAll(vs, [], recovery, keys);
    r := Success((recovery, keys));
  }

  method Resolve(c: Chain, didString: string) returns (r: Result<DidDocument, ResolveError>)
    ensures r == ResolveDid(c, didString)
  {
    var parsed := ParseMemoDID(didString);
    if parsed.Failure? {
      return Failure(BadDid(parsed.error));
    }
    var did := parsed.value;
    if did.identifier in c.closed {
      return Success(NoDocument);
    }
    var methods := QueryAllVerificationMethod(c, did);
    if methods.Failure? {
      return Failure(methods.error);
    }
    var authentications := QueryAllAuthtication(c, did);
    if authentications.Failure? {
      return Failure(authentications.error);
    }
    var assertions := QueryAllAssertion(c, did);
    if assertions.Failure? {
      return Failure(assertions.error);
    }
    var delegation := QueryAllDelagation(c, did);
    if delegation.Failure? {
      return Failure(delegation.error);
    }
    var recovery := QueryAllRecovery(c, did);
    if recovery.Failure? {
      return Failure(recovery.error);
    }
    r := Success(DidDocument(did, methods.value, authentications.value.0, assertions.value.0,
                             delegation.value.0, recovery.value.0));
  }

  // A failed read in the last case leaves its error unreported and an empty key in the result.
  method Dereference(c: Chain, didUrlString: string) returns (r: Result<seq<PublicKey>, ResolveError>)
    ensures r == DereferenceUrl(c, didUrlString)
  {
    var parsed := ParseMemoDIDUrl(didUrlString);
    if parsed.Failure? {
      return Failure(BadDid(parsed.error));
    }
    var didUrl := parsed.value;
    var columns: Result<(seq<MemoDIDUrl>, seq<PublicKey>), ResolveError>;
    if didUrl.fragment == "authentication" {
      columns := QueryAllAuthtication(c, didUrl.DID());
    } else if didUrl.fragment == "assertion" {
      columns := QueryAllAssertion(c, didUrl.DID());
    } else if didUrl.fragment == "delegation" {
      columns := QueryAllDelagation(c, didUrl.DID());
    } else if didUrl.fragment == "recovery" {
      columns := QueryAllRecovery(c, didUrl.DID());
    } else {
      IndexDefined(didUrlString);
      var verifyMethod := MethodOrNone(c, didUrl.identifier, didUrl.GetMethodIndex());
      if verifyMethod.deactivated {
        return Failure(MethodDeactivated);
      }
      return Success([PublicKey(verifyMethod.methodType, EncodeHex(verifyMethod.keyData))]);
    }
    if columns.Failure? {
      return Failure(columns.error);
    }
    r := Success(columns.value.1);
  }
}
