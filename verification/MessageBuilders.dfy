/**
 The controllers' message builders: each fills its byte buffers in place and concatenates.
 Nonces are what the proxy contract returned.
 */
module MessageBuilders {
  import opened Bytes
  import opened MemoDid
  import opened Messages
  import opened MfileDid
  import opened Text
  import opened Wrappers

  datatype BuildError = UnsupportedKeyType | UnsupportedRelation

  // make([]byte, size) with PutUint64(buf[size-8:], v).
  method WordBuffer(size: nat, v: Uint64) returns (s: string)
    requires size >= 8
    ensures s == Word(v, size)
  {
    var buf := new Byte[size](_ => 0);
    PutUint64(buf, size - 8, v);
    Spans();
    LeadingZerosValue(8, v, size);
    assert buf[..] == Zeros(size - 8) + BigEndian(v, 8);
    s := AsText(buf[..]);
  }

  method ByteBuffer(v: Byte) returns (s: string)
    ensures s == Word(v, 1)
  {
    var buf := new Byte[1](_ => 0);
    buf[0] := v;
    OneByte(v);
    assert buf[..] == BigEndian(v, 1);
    s := AsText(buf[..]);
  }

  // FillBytes panics when the price takes more than 32 bytes.
  method PriceBuffer(price: int) returns (s: string)
    requires Abs(price) < Span(32)
    ensures s == Word(Abs(price), 32)
  {
    var buf := new Byte[32](_ => 0);
    FillBytes(price, buf);
    s := AsText(buf[..]);
  }

  method JoinKeywords(keywords: seq<string>) returns (s: string)
    ensures s == Concat(keywords)
  {
    s := "";
    for i := 0 to |keywords|
      invariant s == Concat(keywords[..i])
    {
      s := s + keywords[i];
      assert keywords[..i + 1][..i] == keywords[..i];
    }
    assert keywords[..|keywords|] == keywords;
  }

  // ---------- memo/controller.go ----------

  method GetRegisterMessage(did: MemoDID, methodType: string, key: seq<Byte>)
    returns (r: Result<string, BuildError>)
    ensures r == if SupportedKeyType(methodType) then Success(Message(CreateDid(did.identifier, methodType, key)))
                 else Failure(UnsupportedKeyType)
  {
    if !SupportedKeyType(methodType) {
      return Failure(UnsupportedKeyType);
    }
    var nonceBuf := WordBuffer(8, 0);
    var message := "createDID" + did.identifier + methodType + AsText(key) + nonceBuf;
    Associate3("createDID", did.identifier, methodType, AsText(key) + nonceBuf);
    assert message == "createDID" + did.identifier + methodType + (AsText(key) + nonceBuf);
    return Success(message);
  }

  method GetAddVerificationMethodMessage(vtype: string, controller: MemoDID, key: seq<Byte>, nonce: Uint64)
    returns (r: Result<string, BuildError>)
    ensures r == if SupportedKeyType(vtype) then
                   Success(Message(AddVerification(vtype, controller.identifier, key, nonce)))
                 else Failure(UnsupportedKeyType)
  {
    if !SupportedKeyType(vtype) {
      return Failure(UnsupportedKeyType);
    }
    var nonceBuf := WordBuffer(8, nonce);
    var message := "addVerification" + vtype + controller.identifier + AsText(key) + nonceBuf;
    Associate3("addVerification", vtype, controller.identifier, AsText(key) + nonceBuf);
    assert message == "addVerification" + vtype + controller.identifier + (AsText(key) + nonceBuf);
    return Success(message);
  }

  method GetUpdateVerificationMethodMessage(didUrl: MemoDIDUrl, vtype: string, key: seq<Byte>, nonce: Uint64)
    returns (r: Result<string, BuildError>)
    requires |didUrl.fragment| >= 4
    ensures r == if SupportedKeyType(vtype) then
                   Success(Message(UpdateVerification(didUrl.identifier, didUrl.GetMethodIndex(), vtype, key, nonce)))
                 else Failure(UnsupportedKeyType)
  {
    if !SupportedKeyType(vtype) {
      return Failure(UnsupportedKeyType);
    }
    var nonceBuf := WordBuffer(8, nonce);
    var indexBuf := WordBuffer(8, ToUint64(didUrl.GetMethodIndex()));
    var message := "updateVerificationMethod" + didUrl.identifier + indexBuf + vtype + AsText(key) + nonceBuf;
    var tail := AsText(key) + nonceBuf;
    Associate3("updateVerificationMethod", didUrl.identifier, indexBuf, vtype + tail);
    assert message == "updateVerificationMethod" + didUrl.identifier + indexBuf + (vtype + tail);
    return Success(message);
  }

  method GetDeactivateVerificationMethodMessage(didUrl: MemoDIDUrl, nonce: Uint64) returns (message: string)
    requires |didUrl.fragment| >= 4
    ensures message == Message(DeactivateVerification(didUrl.identifier, didUrl.GetMethodIndex(), nonce))
  {
    var nonceBuf := WordBuffer(8, nonce);
    var indexBuf := WordBuffer(32, ToUint64(didUrl.GetMethodIndex()));
    var deactivateBuf := ByteBuffer(1);
    message := "deactivateVerification" + didUrl.identifier + indexBuf + deactivateBuf + nonceBuf;
    Associate3("deactivateVerification", didUrl.identifier, indexBuf, deactivateBuf + nonceBuf);
    assert message == "deactivateVerification" + didUrl.identifier + indexBuf + (deactivateBuf + nonceBuf);
  }

  method GetAddRelationShipMessage(
      did: MemoDID, relationType: int, didUrl: MemoDIDUrl, expireTime: Int64, nonce: Uint64)
    returns (r: Result<string, BuildError>)
    ensures relationType == 0 ==> r == Success(Message(AddRelation(Authentication, did.identifier, didUrl, nonce)))
    ensures relationType == 1 ==> r == Success(Message(AddRelation(AssertionMethod, did.identifier, didUrl, nonce)))
    ensures relationType == 2 ==> r == Success(Message(AddDelegation(did.identifier, didUrl, expireTime, nonce)))
    ensures relationType == 3 ==> r == Success(Message(AddRelation(Recovery, did.identifier, didUrl, nonce)))
    ensures relationType < 0 || relationType > 3 ==> r == Failure(UnsupportedRelation)
  {
    var nonceBuf := WordBuffer(8, nonce);
    var expireBuf := WordBuffer(32, ToUint64(expireTime));
    var id, url := did.identifier, didUrl.ToString();
    match relationType {
      case 0 => return Success(Flat2("addAuthentication", id, url, nonceBuf));
      case 1 => return Success(Flat2("addAssertion", id, url, nonceBuf));
      case 2 =>
        Associate3("addDelegation", id, url, expireBuf + nonceBuf);
        var message := "addDelegation" + id + url + expireBuf + nonceBuf;
        assert message == "addDelegation" + id + url + (expireBuf + nonceBuf);
        return Success(message);
      case 3 => return Success(Flat2("addRecovery", id, url, nonceBuf));
      case _ => return Failure(UnsupportedRelation);
    }
  }

  method GetDeactivateRelationShipMessage(did: MemoDID, relationType: int, didUrl: MemoDIDUrl, nonce: Uint64)
    returns (r: Result<string, BuildError>)
    ensures relationType == 0 ==> r == Success(Message(RemoveRelation(Authentication, did.identifier, didUrl, nonce)))
    ensures relationType == 1 ==> r == Success(Message(RemoveRelation(AssertionMethod, did.identifier, didUrl, nonce)))
    ensures relationType == 2 ==>
      r == Success(Message(RemoveRelation(CapabilityDelegation, did.identifier, didUrl, nonce)))
    ensures relationType == 3 ==> r == Success(Message(RemoveRelation(Recovery, did.identifier, didUrl, nonce)))
    ensures relationType < 0 || relationType > 3 ==> r == Failure(UnsupportedRelation)
  {
    var nonceBuf := WordBuffer(8, nonce);
    var id, url := did.identifier, didUrl.ToString();
    match relationType {
      case 0 => return Success(Flat2("removeAuthentication", id, url, nonceBuf));
      case 1 => return Success(Flat2("removeAssertion", id, url, nonceBuf));
      case 2 => return Success(Flat2("removeDelegation", id, url, nonceBuf));
      case 3 => return Success(Flat2("removeRecovery", id, url, nonceBuf));
      case _ => return Failure(UnsupportedRelation);
    }
  }

  method GetDeactivateDIDMessage(did: MemoDID, nonce: Uint64) returns (message: string)
    ensures message == Message(DeactivateDid(did.identifier, nonce))
  {
    var nonceBuf := WordBuffer(8, nonce);
    var deactivateBuf := ByteBuffer(1);
    message := Flat2("deactivateDID", did.identifier, deactivateBuf, nonceBuf);
  }

  // ---------- mfile/controller.go ----------

  method GetRegisterDIDMessage(did: MfileDID, encode: string, ftype: Byte, price: int, keywords: seq<string>,
                               controller: MemoDID, nonce: Uint64) returns (message: string)
    requires Abs(price) < Span(32)
    ensures message ==
      Message(RegisterFile(did.identifier, encode, ftype, controller.identifier, price, nonce, keywords))
  {
    var nonceBuf := WordBuffer(8, nonce);
    var ftypeBuf := ByteBuffer(ftype);
    var priceBuf := PriceBuffer(price);
    var keywordsStr := JoinKeywords(keywords);
    var front := "registerMfileDid" + did.identifier + encode + ftypeBuf;
    message := front + controller.identifier + priceBuf + nonceBuf + keywordsStr;
    var tail := controller.identifier + (priceBuf + (nonceBuf + keywordsStr));
    Associate3(front + controller.identifier, priceBuf, nonceBuf, keywordsStr);
    Associate2(front, controller.identifier, priceBuf + (nonceBuf + keywordsStr));
    Associate3("registerMfileDid", did.identifier, encode, ftypeBuf + tail);
    Associate2("registerMfileDid" + did.identifier + encode, ftypeBuf, tail);
  }

  method GetChangeControllerMessage(did: MfileDID, controller: MemoDID, nonce: Uint64) returns (message: string)
    ensures message == Message(ChangeController(did.identifier, controller.identifier, nonce))
  {
    var nonceBuf := WordBuffer(8, nonce);
    message := Flat2("changeController", did.identifier, controller.identifier, nonceBuf);
  }

  method GetChangeFileTypeMessage(did: MfileDID, ftype: Byte, nonce: Uint64) returns (message: string)
    ensures message == Message(ChangeFileType(did.identifier, ftype, nonce))
  {
    var nonceBuf := WordBuffer(8, nonce);
    var ftypeBuf := WordBuffer(8, ftype);
    message := Flat2("changeFileType", did.identifier, ftypeBuf, nonceBuf);
  }

  method GetChangePriceMessage(did: MfileDID, price: int, nonce: Uint64) returns (message: string)
    requires Abs(price) < Span(32)
    ensures message == Message(ChangePrice(did.identifier, price, nonce))
  {
    var nonceBuf := WordBuffer(8, nonce);
    var priceBuf := PriceBuffer(price);
    message := Flat2("changePrice", did.identifier, priceBuf, nonceBuf);
  }

  method GetChangeKeywordsMessage(did: MfileDID, keywords: seq<string>, nonce: Uint64) returns (message: string)
    ensures message == Message(ChangeKeywords(did.identifier, keywords, nonce))
  {
    var nonceBuf := WordBuffer(8, nonce);
    var keywordsStr := JoinKeywords(keywords);
    message := Flat2("changeKeywords", did.identifier, keywordsStr, nonceBuf);
  }

  // Of the mfile relations only Read, 0, is supported.
  method GetFileAddRelationShipMessage(did: MfileDID, relationType: int, memoDID: MemoDID, nonce: Uint64)
    returns (r: Result<string, BuildError>)
    ensures r == if relationType == 0 then Success(Message(GrantRead(did.identifier, memoDID.identifier, nonce)))
                 else Failure(UnsupportedRelation)
  {
    var nonceBuf := WordBuffer(8, nonce);
    if relationType != 0 {
      return Failure(UnsupportedRelation);
    }
    return Success(Flat2("grantRead", did.identifier, memoDID.identifier, nonceBuf));
  }

  method GetFileDeactivateRelationShipMessage(did: MfileDID, relationType: int, memoDID: MemoDID, nonce: Uint64)
    returns (r: Result<string, BuildError>)
    ensures r == if relationType == 0 then Success(Message(DeactivateRead(did.identifier, memoDID.identifier, nonce)))
                 else Failure(UnsupportedRelation)
  {
    var nonceBuf := WordBuffer(8, nonce);
    if relationType != 0 {
      return Failure(UnsupportedRelation);
    }
    return Success(Flat2("deactivateRead", did.identifier, memoDID.identifier, nonceBuf));
  }

  method GetFileDeactivateDIDMessage(did: MfileDID, nonce: Uint64) returns (message: string)
    ensures message == Message(DeactivateFile(did.identifier, nonce))
  {
    var nonceBuf := WordBuffer(8, nonce);
    message := "deactivateMfileDID" + did.identifier + nonceBuf;
    Associate2("deactivateMfileDID", did.identifier, nonceBuf);
  }

  // ---------- concatenation is associative ----------

  lemma Associate2(a: string, b: string, c: string)
    ensures a + b + c == a + (b + c)
  {
  }

  lemma Associate3(a: string, b: string, c: string, d: string)
    ensures a + b + c + d == a + (b + (c + d))
  {
  }

  function Flat2(tag: string, id: string, part: string, nonceBuf: string): (s: string)
    ensures s == tag + (id + (part + nonceBuf))
  {
    Associate3(tag, id, part, nonceBuf);
    tag + id + part + nonceBuf
  }
}
