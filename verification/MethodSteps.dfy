/** How documents and lists change when methods are added and updated. */
module MethodSteps {
  import opened Account
  import opened Bytes
  import opened Document
  import opened MemoDid
  import opened MemoResolver
  import opened Replays
  import opened ResolverDocuments
  import opened ResolverProperties
  import opened ResolverSteps
  import opened Text
  import opened Wrappers

  // ---------- adding ----------

  lemma AddedAt(c: Chain, d: string, key: SolidityKey, did: string, i: int)
    ensures var c' := Next(c, AddMethod(d, key));
      MethodAt(c', did, i) ==
        if did == d && d in c.methods && i == MethodCount(c, d) then Some(key.(deactivated := false))
        else MethodAt(c, did, i)
  {
  }

  // Records that are already there convert as before.
  lemma {:induction false} MethodsKept(c: Chain, c': Chain, did: MemoDID, size: nat)
    requires forall i :: 0 <= i < size ==> MethodAt(c', did.identifier, i) == MethodAt(c, did.identifier, i)
    ensures Methods(c', did, size) == Methods(c, did, size)
  {
    hide ToMethod, MethodAt;
    if size > 0 {
      MethodsKept(c, c', did, size - 1);
    }
  }

  // The new method is the document's last, at the index that was the array's length.
  lemma AddMethodEffect(c: Chain, d: string, key: SolidityKey, did: MemoDID)
    requires ValidDID(did) && d in c.methods && MethodCount(c, d) < MAX_INT64
    requires Methods(c, did, LoopBound(c, did)).Success?
    ensures var c' := Next(c, AddMethod(d, key));
      var before, after := Methods(c, did, LoopBound(c, did)), Methods(c', did, LoopBound(c', did));
      if did.identifier != d then after == before
      else if ParseMemoDID(Qualified(key.controller)).Failure? then after.Failure?
      else after == Success(before.value + [
             VerificationMethod(did.DIDUrl(MethodCount(c, d)).value, ControllerOf(key),
                                PublicKey(key.methodType, "0x" + Hex(key.keyData)))])
  {
    hide ParseMemoDID, ToMethod, ValidDID, Qualified, LoopBound;
    var c', n := Next(c, AddMethod(d, key)), MethodCount(c, d);
    if did.identifier == d {
      BoundAfterAdding(c, did, key);
      MethodsKept(c, c', did, n);
      var added := key.(deactivated := false);
      assert MethodAt(c', d, n) == Some(added);
      AddedEntry(did, n, added);
    } else {
      OtherBound(c, d, key, did);
      MethodsKept(c, c', did, LoopBound(c, did));
    }
  }

  lemma BoundAfterAdding(c: Chain, did: MemoDID, key: SolidityKey)
    requires did.identifier in c.methods && MethodCount(c, did.identifier) < MAX_INT64
    ensures var n := MethodCount(c, did.identifier);
      LoopBound(c, did) == n && LoopBound(Next(c, AddMethod(did.identifier, key)), did) == n + 1
  {
  }

  lemma OtherBound(c: Chain, d: string, key: SolidityKey, did: MemoDID)
    requires did.identifier != d
    ensures LoopBound(Next(c, AddMethod(d, key)), did) == LoopBound(c, did)
  {
  }

  lemma AddedEntry(did: MemoDID, n: nat, key: SolidityKey)
    ensures ToMethod(did, n, key).Success? <==> ParseMemoDID(Qualified(key.controller)).Success?
    ensures ToMethod(did, n, key).Success? ==>
      ToMethod(did, n, key).value ==
      VerificationMethod(did.DIDUrl(n).value, ControllerOf(key), PublicKey(key.methodType, "0x" + Hex(key.keyData)))
  {
    hide ParseMemoDID, ControllerOf, Qualified;
    if ToMethod(did, n, key).Success? {
      ShownController(did, n, key);
    }
  }

  lemma ReadAfterAdding(c: Chain, d: string, key: SolidityKey, id: string)
    requires ReadUrl(c, id).Success?
    ensures ReadUrl(Next(c, AddMethod(d, key)), id) == ReadUrl(c, id)
  {
    IndexDefined(id);
    hide ParseMemoDIDUrl, MemoDIDUrl.GetMethodIndex, Next, MethodAt;
    var u := ParseMemoDIDUrl(id).value;
    AddedAt(c, d, key, u.identifier, u.GetMethodIndex());
    MethodInArray(c, u.identifier, u.GetMethodIndex());
  }

  lemma MethodInArray(c: Chain, did: string, i: int)
    ensures MethodAt(c, did, i).Some? <==> 0 <= i < MethodCount(c, did)
  {
  }

  // A list that can be queried stays as it is, and so does the master entry unless the method is
  // the very first.
  lemma ListsKeptWhenAdding(c: Chain, d: string, key: SolidityKey, relation: Relation, did: MemoDID)
    requires Query(c, relation, did).Success?
    ensures var c' := Next(c, AddMethod(d, key));
      && Listed(c', relation, did) == Listed(c, relation, did)
      && (did.identifier != d || MethodCount(c, d) > 0 ==> MasterEntry(c', did) == MasterEntry(c, did))
  {
    var c' := Next(c, AddMethod(d, key));
    var ids := Ids(c, relation, did);
    QuerySucceeds(c, relation, did);
    hide ReadUrl;
    forall i | 0 <= i < |ids|
      ensures Judge(c', relation, did, ids[i]) == Judge(c, relation, did, ids[i])
    {
      if !Passed(relation, did, ids[i]) {
        ReadAfterAdding(c, d, key, ids[i]);
      }
    }
    assert Verdicts(c', relation, did, ids) == Verdicts(c, relation, did, ids);
  }

  // ---------- updating ----------

  lemma UpdatedAt(c: Chain, d: string, index: int, methodType: string, keyData: seq<Byte>, did: string, i: int)
    ensures var c' := Next(c, UpdateMethod(d, index, methodType, keyData));
      MethodAt(c', did, i) ==
        match MethodAt(c, did, i)
        case None => None
        case Some(k) => Some(if did == d && i == index then k.(methodType := methodType, keyData := keyData) else k)
  {
  }

  // An entry with the new key if it is the updated one.
  function Rekeyed(m: VerificationMethod, did: MemoDID, d: string, index: int, key: PublicKey): VerificationMethod {
    if did.identifier == d && IndexOf(m.id) == index then m.(key := key) else m
  }

  // The document's entries stay in place, and the updated one shows the new key.
  lemma {:induction false} UpdateMethodEffect(c: Chain, d: string, index: int, methodType: string, keyData: seq<Byte>,
                                              did: MemoDID, size: nat)
    requires ValidDID(did) && size <= MAX_INT64 + 1 && size <= MethodCount(c, did.identifier)
    ensures var c' := Next(c, UpdateMethod(d, index, methodType, keyData));
      var before, after := Methods(c, did, size), Methods(c', did, size);
      && (after.Success? <==> before.Success?)
      && (before.Success? ==>
            && |after.value| == |before.value|
            && forall k :: 0 <= k < |before.value| ==>
                 after.value[k] ==
                 Rekeyed(before.value[k], did, d, index, PublicKey(methodType, "0x" + Hex(keyData))))
  {
    hide ToMethod, Rekeyed, Next, ValidDID;
    if size > 0 {
      var i := size - 1;
      UpdateMethodEffect(c, d, index, methodType, keyData, did, i);
      UpdatedAt(c, d, index, methodType, keyData, did.identifier, i);
      var k := MethodAt(c, did.identifier, i).value;
      RekeyedEntry(did, d, i, index, k, methodType, keyData);
    }
  }

  lemma RekeyedEntry(
      did: MemoDID, d: string, i: nat, index: int, k: SolidityKey, methodType: string, keyData: seq<Byte>)
    requires ValidDID(did) && i <= MAX_INT64
    ensures var k' := if did.identifier == d && i == index then k.(methodType := methodType, keyData := keyData) else k;
      && (ToMethod(did, i, k').Success? <==> ToMethod(did, i, k).Success?)
      && (ToMethod(did, i, k).Success? ==>
            ToMethod(did, i, k').value ==
            Rekeyed(ToMethod(did, i, k).value, did, d, index, PublicKey(methodType, "0x" + Hex(keyData))))
  {
    IndexOfDIDUrl(did, i);
    hide ParseMemoDID, ValidUrl, MemoDIDUrl.GetMethodIndex, MemoDID.DIDUrl;
  }

  // A listed entry with the new key if its URL denotes the updated method.
  function RekeyedListed(e: Entry, d: string, index: int, key: PublicKey): Entry {
    if Denotes(e.url, d, index) then e.(key := key) else e
  }

  lemma ReadAfterUpdate(c: Chain, d: string, index: int, methodType: string, keyData: seq<Byte>, id: string)
    ensures ReadUrl(Next(c, UpdateMethod(d, index, methodType, keyData)), id) ==
      match ReadUrl(c, id)
      case Failure(e) => Failure(e)
      case Success((u, k)) =>
        Success((u, if Denotes(u, d, index) then k.(methodType := methodType, keyData := keyData) else k))
  {
    if ParseMemoDIDUrl(id).Success? {
      IndexDefined(id);
      hide ParseMemoDIDUrl, MemoDIDUrl.GetMethodIndex, Next, MethodAt;
      var u := ParseMemoDIDUrl(id).value;
      UpdatedAt(c, d, index, methodType, keyData, u.identifier, u.GetMethodIndex());
    }
  }

  lemma SameActivityAfterUpdate(c: Chain, d: string, index: int, methodType: string, keyData: seq<Byte>)
    ensures var c' := Next(c, UpdateMethod(d, index, methodType, keyData));
      c'.now == c.now && c'.flags == c.flags && c'.expiries == c.expiries && c'.log == c.log
  {
  }

  lemma JudgeAfterUpdate(c: Chain, d: string, index: int, methodType: string, keyData: seq<Byte>,
                         relation: Relation, did: MemoDID, id: string, f: Entry -> Entry)
    requires forall e :: f(e) == RekeyedListed(e, d, index, PublicKey(methodType, Hex(keyData)))
    ensures Judge(Next(c, UpdateMethod(d, index, methodType, keyData)), relation, did, id) ==
      Change(Judge(c, relation, did, id), f)
  {
    hide ReadUrl, Denotes, Next, MemoDIDUrl.ToString;
    ReadAfterUpdate(c, d, index, methodType, keyData, id);
    SameActivityAfterUpdate(c, d, index, methodType, keyData);
  }

  // Updating a method changes, in every list, the keys beside the URLs that denote it.
  lemma ListsAfterUpdate(c: Chain, d: string, index: int, methodType: string, keyData: seq<Byte>,
                         relation: Relation, did: MemoDID)
    ensures var c' := Next(c, UpdateMethod(d, index, methodType, keyData));
      var before, after := Listed(c, relation, did), Listed(c', relation, did);
      && (before.Failure? ==> after == before)
      && (before.Success? ==>
            && after.Success? && |after.value| == |before.value|
            && forall i :: 0 <= i < |before.value| ==>
                 after.value[i] == RekeyedListed(before.value[i], d, index, PublicKey(methodType, Hex(keyData))))
  {
    hide Judge, Next;
    var c' := Next(c, UpdateMethod(d, index, methodType, keyData));
    var f := (e: Entry) => RekeyedListed(e, d, index, PublicKey(methodType, Hex(keyData)));
    var ids := Ids(c, relation, did);
    SameActivityAfterUpdate(c, d, index, methodType, keyData);
    forall id
      ensures Judge(c', relation, did, id) == Change(Judge(c, relation, did, id), f)
    {
      JudgeAfterUpdate(c, d, index, methodType, keyData, relation, did, id, f);
    }
    ReplayChanged(Verdicts(c, relation, did, ids), Verdicts(c', relation, did, ids), f);
  }
}
