/**
 Verification methods as the account contract stores them and as a DID document shows them.
 */
module Document {
  import opened Bytes
  import opened DidSyntax
  import opened MemoDid
  import opened Text
  import opened Wrappers

  datatype PublicKey = PublicKey(keyType: string, publicKeyHex: string)

  datatype VerificationMethod = VerificationMethod(id: MemoDIDUrl, controller: MemoDID, key: PublicKey)

  // The contract's public-key record: the fields the conversions use.
  datatype SolidityKey = SolidityKey(controller: string, methodType: string, keyData: seq<Byte>, deactivated: bool)

  datatype ConversionError = BadController(reason: DidError) | BadIndex | BadHex

  // "did:memo:" and 64 zeros, shown for a record without a controller.
  function NoController(): string { "did:memo:" + seq(64, _ => '0') }

  function Qualified(controller: string): string {
    if controller == "" then NoController() else "did:memo:" + controller
  }

  // The document entry for the record at an index, with hexutil's 0x-prefixed key.
  function ToMethod(did: MemoDID, index: int, key: SolidityKey): Result<VerificationMethod, ConversionError> {
    match ParseMemoDID(Qualified(key.controller))
    case Failure(e) => Failure(BadController(e))
    case Success(controller) =>
      match did.DIDUrl(index)
      case None => Failure(BadIndex)
      case Some(url) => Success(VerificationMethod(url, controller, PublicKey(key.methodType, EncodeHex(key.keyData))))
  }

  // A record held by reference, as FromSolityData receives it.
  class KeyRecord {
    var controller: string
    const methodType: string
    const keyData: seq<Byte>
    const deactivated: bool

    constructor (key: SolidityKey)
      ensures Contents() == key
    {
      controller, methodType, keyData, deactivated :=
        key.controller, key.methodType, key.keyData, key.deactivated;
    }

    function Contents(): SolidityKey
      reads this
    {
      SolidityKey(controller, methodType, keyData, deactivated)
    }
  }

  // The record's controller is qualified in place, even when the conversion then fails.
  method FromSolityData(did: MemoDID, index: int, record: KeyRecord)
    returns (r: Result<VerificationMethod, ConversionError>)
    modifies record
    ensures r == ToMethod(did, index, old(record.Contents()))
    ensures record.Contents() == old(record.Contents()).(controller := Qualified(old(record.controller)))
  {
    if record.controller == "" {
      record.controller := NoController();
    } else {
      record.controller := "did:memo:" + record.controller;
    }
    var parsed := ParseMemoDID(record.controller);
    if parsed.Failure? {
      return Failure(BadController(parsed.error));
    }
    var didUrl := did.DIDUrl(index);
    if didUrl.None? {
      return Failure(BadIndex);
    }
    var publicKeyHex := EncodeHex(record.keyData);
    r := Success(VerificationMethod(didUrl.value, parsed.value, PublicKey(record.methodType, publicKeyHex)));
  }

  function ToSolidityData(m: VerificationMethod): Result<SolidityKey, ConversionError> {
    match DecodeHex(m.key.publicKeyHex)
    case None => Failure(BadHex)
    case Some(data) => Success(SolidityKey(m.controller.ToString(), m.key.keyType, data, false))
  }

  // Which records convert, and to which controller.
  lemma ControllerAccepted(did: MemoDID, index: nat, key: SolidityKey)
    ensures ToMethod(did, index, key).Success? <==>
      key.controller == "" ||
      (|key.controller| >= 64 && Is32ByteHex(key.controller[..64]) && EmptyDelimiters(key.controller[64..]))
    ensures ToMethod(did, index, key).Success? ==>
      ValidDID(ToMethod(did, index, key).value.controller)
  {
    var s := Qualified(key.controller);
    DidAcceptance(s);
    if key.controller == "" {
      ZeroController();
    } else {
      assert s[..9] == "did:memo:";
      assert |s| >= 73 ==> s[9..73] == key.controller[..64] && s[73..] == key.controller[64..];
    }
    if ToMethod(did, index, key).Success? {
      DidPrintParse(s);
    }
  }

  // The controller an entry is shown with: the record's 64 digits, or 64 zeros.
  lemma ShownController(did: MemoDID, index: int, key: SolidityKey)
    requires ToMethod(did, index, key).Success?
    ensures key.controller != "" ==> |key.controller| >= 64
    ensures ToMethod(did, index, key).value.controller == ControllerOf(key)
  {
    var s := Qualified(key.controller);
    DidAcceptance(s);
    hide ParseMemoDID;
    if key.controller == "" {
      ZeroController();
      assert s[9..73] == seq(64, _ => '0');
    } else {
      assert s[..9] == "did:memo:";
      assert s[9..73] == key.controller[..64];
    }
  }

  function ControllerOf(key: SolidityKey): MemoDID {
    var id := if |key.controller| >= 64 then key.controller[..64] else seq(64, _ => '0');
    MemoDID("memo", id, [id])
  }

  lemma ZeroController()
    ensures HasMemoForm(NoController()) && NoController()[73..] == ""
  {
  }

  // A qualified controller is never accepted a second time: its identifier starts with "did",
  // which is not hexadecimal.
  lemma NeverQualifiedTwice(controller: string)
    ensures ParseMemoDID(Qualified(Qualified(controller))).Failure?
  {
    var inner := Qualified(controller);
    assert inner[1] == 'i';
    NotHexadecimal(inner);
  }

  lemma NotHexadecimal(id: string)
    requires |id| > 1 && !IsHexDigit(id[1])
    ensures ParseMemoDID("did:memo:" + id).Failure?
  {
    var s := "did:memo:" + id;
    DidAcceptance(s);
    assert s[10] == id[1];
    assert |s| >= 73 ==> s[9..73][1] == s[10];
  }

  // Key type and key bytes survive the two conversions, in either order; the controller does
  // not: the record gets the qualified form, which no longer converts.
  lemma ConversionRoundTrip(did: MemoDID, index: nat, key: SolidityKey)
    requires ToMethod(did, index, key).Success?
    ensures var m := ToMethod(did, index, key).value;
      && ToSolidityData(m).Success?
      && ToSolidityData(m).value.methodType == key.methodType
      && ToSolidityData(m).value.keyData == key.keyData
      && ToSolidityData(m).value.controller != key.controller
      && ToMethod(did, index, ToSolidityData(m).value).Failure?
  {
    var m := ToMethod(did, index, key).value;
    HexutilRoundTrip(key.keyData, "");
    ControllerAccepted(did, index, key);
    PrintedIsQualified(m.controller, key.controller);
    NeverQualifiedTwice(m.controller.identifier);
  }

  // The record stored for an entry: the controller in full, the key bytes, and not deactivated.
  lemma StoredRecord(m: VerificationMethod)
    ensures ToSolidityData(m).Success? <==> DecodeHex(m.key.publicKeyHex).Some?
    ensures ToSolidityData(m).Success? ==>
      && (m.controller.methodName == "memo" ==>
            ToSolidityData(m).value.controller == "did:memo:" + m.controller.identifier)
      && EncodeHex(ToSolidityData(m).value.keyData) == "0x" + LowerHex(m.key.publicKeyHex[2..])
      && ToSolidityData(m).value.methodType == m.key.keyType && !ToSolidityData(m).value.deactivated
  {
    HexutilRoundTrip([], m.key.publicKeyHex);
    assert "did:" + "memo" + ":" == "did:memo:";
  }

  lemma PrintedIsQualified(d: MemoDID, controller: string)
    requires ValidDID(d)
    ensures d.ToString() == Qualified(d.identifier)
    ensures ParseMemoDID(Qualified(controller)).Success? ==> d.ToString() != controller
  {
    assert d.ToString() == "did:memo:" + d.identifier;
    NeverQualifiedTwice(d.identifier);
  }

  // Converting one record twice through the same pointer fails the second time.
  method ConvertTwice(did: MemoDID, index: int, record: KeyRecord)
    returns (first: Result<VerificationMethod, ConversionError>, second: Result<VerificationMethod, ConversionError>)
    modifies record
    ensures first == ToMethod(did, index, old(record.Contents()))
    ensures second.Failure?
  {
    NeverQualifiedTwice(record.controller);
    first := FromSolityData(did, index, record);
    second := FromSolityData(did, index, record);
  }
}
