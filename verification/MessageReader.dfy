/**
 Reading a signed message back: the operation by its tag, and the fields by their places in what
 follows. Only the lengths of a CID and of an encoding that other variable parts follow have to be
 known beforehand.
 */
module MessageReader {
  import opened Bytes
  import opened MemoDid
  import opened Messages
  import opened Text
  import opened Wrappers

  // ---------- pieces ----------

  function Take(s: string, k: nat): string { if k <= |s| then s[..k] else s }

  function Drop(s: string, k: nat): string { if k <= |s| then s[k..] else "" }

  // All but the last k characters, and the last k characters.
  function Front(s: string, k: nat): string { if k <= |s| then s[..|s| - k] else "" }

  function Last(s: string, k: nat): string { if k <= |s| then s[|s| - k..] else s }

  function Number(s: string): nat { Value(FromText(s)) }

  lemma Pieces(s: string, t: string)
    ensures Take(s + t, |s|) == s && Drop(s + t, |s|) == t
    ensures Front(s + t, |t|) == s && Last(s + t, |t|) == t
  {
  }

  // ---------- fields ----------

  // The last eight bytes of a message that ends in its nonce.
  function NonceOf(body: string): Uint64 { Number(Last(body, 8)) % 0x1_0000_0000_0000_0000 }

  function ReadKeyType(s: string): string {
    if "EcdsaSecp256k1VerificationKey2019" <= s then "EcdsaSecp256k1VerificationKey2019"
    else if "Ed25519VerificationKey2018" <= s then "Ed25519VerificationKey2018"
    else "EcdsaSecp256k1RecoveryMethod2020"
  }

  // "did:memo:", 64 characters, "#" and a fragment.
  function ReadUrlText(s: string): MemoDIDUrl {
    var id := Take(Drop(s, 9), 64);
    MemoDIDUrl("memo", id, [id], Drop(s, 74))
  }

  // ---------- what follows the tag ----------

  function ReadCreate(body: string): Operation {
    var typed := Drop(body, 64);
    var keyType := ReadKeyType(typed);
    CreateDid(Take(body, 64), keyType, FromText(Front(Drop(typed, |keyType|), 8)))
  }

  function ReadAddVerification(body: string): Operation {
    var keyType := ReadKeyType(body);
    var rest := Drop(body, |keyType|);
    AddVerification(keyType, Take(rest, 64), FromText(Front(Drop(rest, 64), 8)), NonceOf(body))
  }

  function ReadUpdateVerification(body: string): Operation {
    var typed := Drop(body, 72);
    var keyType := ReadKeyType(typed);
    UpdateVerification(Take(body, 64), LowInt64(Number(Take(Drop(body, 64), 8))), keyType,
                       FromText(Front(Drop(typed, |keyType|), 8)), NonceOf(body))
  }

  function ReadDeactivateVerification(body: string): Operation {
    DeactivateVerification(Take(body, 64), LowInt64(Number(Take(Drop(body, 64), 32))), NonceOf(body))
  }

  function ReadAddRelation(relation: Relation, body: string): Operation {
    AddRelation(relation, Take(body, 64), ReadUrlText(Front(Drop(body, 64), 8)), NonceOf(body))
  }

  function ReadAddDelegation(body: string): Operation {
    AddDelegation(Take(body, 64), ReadUrlText(Front(Drop(body, 64), 40)),
                  LowInt64(Number(Take(Last(body, 40), 32))), NonceOf(body))
  }

  function ReadRemoveRelation(relation: Relation, body: string): Operation {
    RemoveRelation(relation, Take(body, 64), ReadUrlText(Front(Drop(body, 64), 8)), NonceOf(body))
  }

  function ReadRegister(body: string, cidLength: nat, encodeLength: nat): Option<Operation> {
    if |body| < cidLength + encodeLength + 105 then None
    else Some(ReadRest(body[..cidLength], body[cidLength..][..encodeLength], body[cidLength..][encodeLength..]))
  }

  function ReadDeactivateDid(body: string): Operation { DeactivateDid(Take(body, 64), NonceOf(body)) }

  function ReadChangeController(body: string): Operation {
    ChangeController(Front(body, 72), Take(Last(body, 72), 64), NonceOf(body))
  }

  function ReadGrantRead(body: string): Operation {
    GrantRead(Front(body, 72), Take(Last(body, 72), 64), NonceOf(body))
  }

  function ReadDeactivateRead(body: string): Operation {
    DeactivateRead(Front(body, 72), Take(Last(body, 72), 64), NonceOf(body))
  }

  function ReadDeactivateFile(body: string): Operation { DeactivateFile(Front(body, 8), NonceOf(body)) }

  function ReadChangePrice(body: string): Operation {
    ChangePrice(Front(body, 40), Number(Take(Last(body, 40), 32)), NonceOf(body))
  }

  function ReadChangeFileType(body: string): Operation {
    ChangeFileType(Front(body, 16), Number(Take(Last(body, 16), 8)) % 256, NonceOf(body))
  }

  function ReadChangeKeywords(body: string, cidLength: nat): Operation {
    ChangeKeywords(Take(body, cidLength), [Front(Drop(body, cidLength), 8)], NonceOf(body))
  }

  // ---------- the whole message ----------

  function After(m: string, tag: string): string
    requires tag <= m
  {
    m[|tag|..]
  }

  function ReadMemoMessage(m: string): Option<Operation> {
    if "createDID" <= m then Some(ReadCreate(After(m, "createDID")))
    else if "addVerification" <= m then Some(ReadAddVerification(After(m, "addVerification")))
    else if "updateVerificationMethod" <= m then Some(ReadUpdateVerification(After(m, "updateVerificationMethod")))
    else if "deactivateVerification" <= m then Some(ReadDeactivateVerification(After(m, "deactivateVerification")))
    else if "deactivateDID" <= m then Some(ReadDeactivateDid(After(m, "deactivateDID")))
    else None
  }

  function ReadAddMessage(m: string): Option<Operation> {
    if "addAuthentication" <= m then Some(ReadAddRelation(Authentication, After(m, "addAuthentication")))
    else if "addAssertion" <= m then Some(ReadAddRelation(AssertionMethod, After(m, "addAssertion")))
    else if "addDelegation" <= m then Some(ReadAddDelegation(After(m, "addDelegation")))
    else if "addRecovery" <= m then Some(ReadAddRelation(Recovery, After(m, "addRecovery")))
    else None
  }

  function ReadRemoveMessage(m: string): Option<Operation> {
    if "removeAuthentication" <= m then Some(ReadRemoveRelation(Authentication, After(m, "removeAuthentication")))
    else if "removeAssertion" <= m then Some(ReadRemoveRelation(AssertionMethod, After(m, "removeAssertion")))
    else if "removeDelegation" <= m then Some(ReadRemoveRelation(CapabilityDelegation, After(m, "removeDelegation")))
    else if "removeRecovery" <= m then Some(ReadRemoveRelation(Recovery, After(m, "removeRecovery")))
    else None
  }

  function ReadChangeMessage(m: string, cidLength: nat): Option<Operation> {
    if "changeController" <= m then Some(ReadChangeController(After(m, "changeController")))
    else if "changeFileType" <= m then Some(ReadChangeFileType(After(m, "changeFileType")))
    else if "changePrice" <= m then Some(ReadChangePrice(After(m, "changePrice")))
    else if "changeKeywords" <= m then Some(ReadChangeKeywords(After(m, "changeKeywords"), cidLength))
    else None
  }

  function ReadFileMessage(m: string, cidLength: nat, encodeLength: nat): Option<Operation> {
    if "registerMfileDid" <= m then ReadRegister(After(m, "registerMfileDid"), cidLength, encodeLength)
    else if "grantRead" <= m then Some(ReadGrantRead(After(m, "grantRead")))
    else if "deactivateRead" <= m then Some(ReadDeactivateRead(After(m, "deactivateRead")))
    else if "deactivateMfileDID" <= m then Some(ReadDeactivateFile(After(m, "deactivateMfileDID")))
    else None
  }

  function OrElse(first: Option<Operation>, second: Option<Operation>): Option<Operation> {
    if first.Some? then first else second
  }

  function ReadMessage(m: string, cidLength: nat, encodeLength: nat): Option<Operation> {
    OrElse(ReadMemoMessage(m),
           OrElse(ReadAddMessage(m),
                  OrElse(ReadRemoveMessage(m),
                         OrElse(ReadChangeMessage(m, cidLength), ReadFileMessage(m, cidLength, encodeLength)))))
  }

  // ---------- reading fields back ----------

  lemma ReadWord(n: nat, w: nat)
    requires n < Span(w)
    ensures Number(Word(n, w)) == n
  {
    WordReadBack(n, w);
  }

  lemma ReadNonce(s: string, n: Uint64)
    ensures NonceOf(s + Word(n, 8)) == n && Front(s + Word(n, 8), 8) == s
  {
    hide Front, Last, Number, Span, Word;
    Spans();
    ReadWord(n, 8);
    Pieces(s, Word(n, 8));
  }

  lemma ReadSigned(x: Int64, w: nat)
    requires w >= 8
    ensures LowInt64(Number(Word(ToUint64(x), w))) == x
  {
    SignedBack(x);
    Spans();
    SpanMonotone(8, w);
    hide Span, ToUint64, LowInt64, Number, Word;
    ReadWord(ToUint64(x), w);
  }

  lemma SignedBack(x: Int64)
    ensures LowInt64(ToUint64(x)) == x
  {
  }

  lemma ReadSupportedKeyType(t: string, rest: string)
    requires SupportedKeyType(t)
    ensures ReadKeyType(t + rest) == t
    ensures Drop(t + rest, |t|) == rest
  {
    var s := t + rest;
    Pieces(t, rest);
    assert t <= s;
    assert s[1] == t[1];
    assert |t| >= 15 ==> s[14] == t[14];
  }

  lemma ReadKey(key: seq<Byte>, n: Uint64)
    ensures FromText(Front(AsText(key) + Word(n, 8), 8)) == key
  {
    ReadNonce(AsText(key), n);
    FromTextAsText("", key);
  }

  lemma ReadMemoUrl(u: MemoDIDUrl)
    requires MemoUrl(u)
    ensures ReadUrlText(u.ToString()) == u
  {
    UrlText(u);
    hide MemoDIDUrl.ToString, Take, Drop;
    UrlPieces(u.identifier, u.fragment);
    assert MemoText(u.identifier, "#" + u.fragment) == "did:memo:" + (u.identifier + ("#" + u.fragment));
  }

  lemma UrlPieces(id: string, fragment: string)
    requires |id| == 64
    ensures var s := "did:memo:" + (id + ("#" + fragment));
      Take(Drop(s, 9), 64) == id && Drop(s, 74) == fragment
  {
    hide Take, Drop;
    Pieces("did:memo:", id + ("#" + fragment));
    Pieces(id, "#" + fragment);
    Pieces("did:memo:" + (id + "#"), fragment);
    assert "did:memo:" + (id + ("#" + fragment)) == "did:memo:" + (id + "#") + fragment;
  }

  // ---------- reading bodies back ----------

  lemma CreateBack(op: Operation)
    requires Valid(op) && op.CreateDid?
    ensures ReadCreate(Body(op)) == op
  {
    hide Take, Drop, Front, Last, ReadKeyType, FromText, AsText;
    var keyed := AsText(op.key) + Word(0, 8);
    Pieces(op.id, op.keyType + keyed);
    ReadSupportedKeyType(op.keyType, keyed);
    ReadKey(op.key, 0);
  }

  lemma AddVerificationBack(op: Operation)
    requires Valid(op) && op.AddVerification?
    ensures ReadAddVerification(Body(op)) == op
  {
    hide Take, Drop, Front, Last, ReadKeyType, FromText, AsText, NonceOf;
    var keyed := AsText(op.key) + Word(op.nonce, 8);
    ReadSupportedKeyType(op.keyType, op.controller + keyed);
    Pieces(op.controller, keyed);
    ReadKey(op.key, op.nonce);
    assert Body(op) == op.keyType + op.controller + AsText(op.key) + Word(op.nonce, 8);
    ReadNonce(op.keyType + op.controller + AsText(op.key), op.nonce);
  }

  lemma UpdateVerificationBack(op: Operation)
    requires Valid(op) && op.UpdateVerification?
    ensures ReadUpdateVerification(Body(op)) == op
  {
    hide Take, Drop, Front, Last, ReadKeyType, FromText, AsText, NonceOf, Number, ToUint64, LowInt64;
    var keyed := AsText(op.key) + Word(op.nonce, 8);
    var index := Word(ToUint64(op.index), 8);
    assert Body(op) == op.id + (index + (op.keyType + keyed)) == op.id + index + (op.keyType + keyed);
    Pieces(op.id, index + (op.keyType + keyed));
    Pieces(index, op.keyType + keyed);
    Pieces(op.id + index, op.keyType + keyed);
    ReadSigned(op.index, 8);
    ReadSupportedKeyType(op.keyType, keyed);
    ReadKey(op.key, op.nonce);
    assert Body(op) == op.id + index + op.keyType + AsText(op.key) + Word(op.nonce, 8);
    ReadNonce(op.id + index + op.keyType + AsText(op.key), op.nonce);
  }

  lemma DeactivateVerificationBack(op: Operation)
    requires Valid(op) && op.DeactivateVerification?
    ensures ReadDeactivateVerification(Body(op)) == op
  {
    hide Take, Drop, Front, Last, NonceOf, Number, ToUint64, LowInt64;
    var index, tail := Word(ToUint64(op.index), 32), Word(1, 1) + Word(op.nonce, 8);
    Pieces(op.id, index + tail);
    Pieces(index, tail);
    ReadSigned(op.index, 32);
    assert Body(op) == op.id + index + Word(1, 1) + Word(op.nonce, 8);
    ReadNonce(op.id + index + Word(1, 1), op.nonce);
  }

  lemma UrlBack(id: string, url: MemoDIDUrl, nonce: Uint64)
    requires MemoId(id) && MemoUrl(url)
    ensures var body := id + (url.ToString() + Word(nonce, 8));
      Take(body, 64) == id && ReadUrlText(Front(Drop(body, 64), 8)) == url && NonceOf(body) == nonce
  {
    hide Take, Drop, Front, Last, NonceOf, ReadUrlText;
    var text := url.ToString();
    Pieces(id, text + Word(nonce, 8));
    ReadNonce(text, nonce);
    ReadMemoUrl(url);
    assert id + (text + Word(nonce, 8)) == id + text + Word(nonce, 8);
    ReadNonce(id + text, nonce);
  }

  lemma AddDelegationBack(op: Operation)
    requires Valid(op) && op.AddDelegation?
    ensures ReadAddDelegation(Body(op)) == op
  {
    hide Take, Drop, Front, Last, NonceOf, ReadUrlText, Number, ToUint64, LowInt64, MemoDIDUrl.ToString;
    var text, expiry := op.url.ToString(), Word(ToUint64(op.expiry), 32);
    var tail := expiry + Word(op.nonce, 8);
    Pieces(op.id, text + tail);
    Pieces(text, tail);
    ReadMemoUrl(op.url);
    assert Body(op) == op.id + text + tail == op.id + text + expiry + Word(op.nonce, 8);
    Pieces(op.id + text, tail);
    Pieces(expiry, Word(op.nonce, 8));
    ReadSigned(op.expiry, 32);
    ReadNonce(op.id + text + expiry, op.nonce);
  }

  lemma RegisterBack(op: Operation, cidLength: nat, encodeLength: nat)
    requires Valid(op) && op.RegisterFile? && cidLength == |op.cid| && encodeLength == |op.encode|
    ensures ReadRegister(Body(op), cidLength, encodeLength) == Some(Encoded(op))
  {
    RestReadBack(op);
    var rest := Rest(op);
    hide Rest, ReadRest, Encoded;
    RegisterBody(op);
    assert Body(op) == op.cid + (op.encode + rest);
    assert Body(op)[cidLength..] == op.encode + rest;
  }

  // A CID, a part of `width` bytes and the nonce.
  lemma FileBack(cid: string, part: string, width: nat, nonce: Uint64)
    requires |part| == width
    ensures var body := cid + (part + Word(nonce, 8));
      Front(body, width + 8) == cid && Take(Last(body, width + 8), width) == part && NonceOf(body) == nonce
  {
    hide Take, Drop, Front, Last, NonceOf;
    Pieces(cid, part + Word(nonce, 8));
    Pieces(part, Word(nonce, 8));
    assert cid + (part + Word(nonce, 8)) == cid + part + Word(nonce, 8);
    ReadNonce(cid + part, nonce);
  }

  lemma KeywordsBack(op: Operation, cidLength: nat)
    requires op.ChangeKeywords? && cidLength == |op.cid|
    ensures ReadChangeKeywords(Body(op), cidLength) == Encoded(op)
  {
    hide Take, Drop, Front, Last, NonceOf;
    var joined := Concat(op.keywords);
    Pieces(op.cid, joined + Word(op.nonce, 8));
    ReadNonce(joined, op.nonce);
    assert Body(op) == op.cid + joined + Word(op.nonce, 8);
    ReadNonce(op.cid + joined, op.nonce);
  }

  lemma PriceBack(op: Operation)
    requires op.ChangePrice? && Abs(op.price) < Span(32)
    ensures ReadChangePrice(Body(op)) == Encoded(op)
  {
    hide Take, Last, Front, NonceOf, Number, Word, Span;
    FileBack(op.cid, Word(Abs(op.price), 32), 32, op.nonce);
    ReadWord(Abs(op.price), 32);
  }

  lemma FileTypeBack(op: Operation)
    requires op.ChangeFileType?
    ensures ReadChangeFileType(Body(op)) == op
  {
    Spans();
    hide Take, Last, Front, NonceOf, Number, Word, Span;
    FileBack(op.cid, Word(op.ftype, 8), 8, op.nonce);
    ReadWord(op.ftype, 8);
  }

  lemma ReaderBack(op: Operation)
    requires Valid(op)
    ensures op.ChangeController? ==> ReadChangeController(Body(op)) == op
    ensures op.GrantRead? ==> ReadGrantRead(Body(op)) == op
    ensures op.DeactivateRead? ==> ReadDeactivateRead(Body(op)) == op
    ensures op.DeactivateFile? ==> ReadDeactivateFile(Body(op)) == op
  {
    hide Take, Last, Front, NonceOf;
    match op
    case ChangeController(cid, controller, nonce) => FileBack(cid, controller, 64, nonce);
    case GrantRead(cid, reader, nonce) => FileBack(cid, reader, 64, nonce);
    case DeactivateRead(cid, reader, nonce) => FileBack(cid, reader, 64, nonce);
    case DeactivateFile(cid, nonce) => ReadNonce(cid, nonce);
    case _ =>
  }

  lemma RelationBack(op: Operation)
    requires Valid(op)
    ensures op.AddRelation? ==> ReadAddRelation(op.relation, Body(op)) == op
    ensures op.RemoveRelation? ==> ReadRemoveRelation(op.relation, Body(op)) == op
  {
    hide Take, Drop, Front, NonceOf, ReadUrlText, MemoDIDUrl.ToString;
    match op
    case AddRelation(_, id, url, nonce) => UrlBack(id, url, nonce);
    case RemoveRelation(_, id, url, nonce) => UrlBack(id, url, nonce);
    case _ =>
  }

  lemma DeactivateDidBack(op: Operation)
    requires Valid(op) && op.DeactivateDid?
    ensures ReadDeactivateDid(Body(op)) == op
  {
    hide Take, NonceOf;
    Pieces(op.id, Word(1, 1) + Word(op.nonce, 8));
    assert Body(op) == op.id + Word(1, 1) + Word(op.nonce, 8);
    ReadNonce(op.id + Word(1, 1), op.nonce);
  }

  // ---------- telling tags apart ----------

  // A message that starts with a tag is of the tag's kind.
  lemma MemoTags(m: string)
    requires |m| >= 13
    ensures "createDID" <= m ==> ReadKind(m) == Kind(0, Authentication)
    ensures "addVerification" <= m ==> ReadKind(m) == Kind(1, Authentication)
    ensures "updateVerificationMethod" <= m ==> ReadKind(m) == Kind(2, Authentication)
    ensures "deactivateVerification" <= m ==> ReadKind(m) == Kind(3, Authentication)
    ensures "deactivateDID" <= m ==> ReadKind(m) == Kind(6, Authentication)
  {
  }

  lemma AddTags(m: string)
    requires |m| >= 13
    ensures "addAuthentication" <= m ==> ReadKind(m) == Kind(4, Authentication)
    ensures "addAssertion" <= m ==> ReadKind(m) == Kind(4, AssertionMethod)
    ensures "addDelegation" <= m ==> ReadKind(m) == Kind(4, CapabilityDelegation)
    ensures "addRecovery" <= m ==> ReadKind(m) == Kind(4, Recovery)
  {
  }

  lemma RemoveTags(m: string)
    requires |m| >= 13
    ensures "removeAuthentication" <= m ==> ReadKind(m) == Kind(5, Authentication)
    ensures "removeAssertion" <= m ==> ReadKind(m) == Kind(5, AssertionMethod)
    ensures "removeDelegation" <= m ==> ReadKind(m) == Kind(5, CapabilityDelegation)
    ensures "removeRecovery" <= m ==> ReadKind(m) == Kind(5, Recovery)
  {
  }

  lemma ChangeTags(m: string)
    requires |m| >= 13
    ensures "changeController" <= m ==> ReadKind(m) == Kind(8, Authentication)
    ensures "changeFileType" <= m ==> ReadKind(m) == Kind(9, Authentication)
    ensures "changePrice" <= m ==> ReadKind(m) == Kind(10, Authentication)
    ensures "changeKeywords" <= m ==> ReadKind(m) == Kind(11, Authentication)
  {
  }

  lemma FileTags(m: string)
    requires |m| >= 13
    ensures "registerMfileDid" <= m ==> ReadKind(m) == Kind(7, Authentication)
    ensures "grantRead" <= m ==> ReadKind(m) == Kind(12, Authentication)
    ensures "deactivateRead" <= m ==> ReadKind(m) == Kind(13, Authentication)
    ensures "deactivateMfileDID" <= m ==> ReadKind(m) == Kind(14, Authentication)
  {
  }

  lemma Tagged(op: Operation)
    ensures Tag(op) <= Message(op) && After(Message(op), Tag(op)) == Body(op)
  {
  }

  predicate OfMemo(op: Operation) {
    op.CreateDid? || op.AddVerification? || op.UpdateVerification? || op.DeactivateVerification? || op.DeactivateDid?
  }

  predicate OfAdd(op: Operation) { op.AddRelation? || op.AddDelegation? }

  predicate OfChange(op: Operation) {
    op.ChangeController? || op.ChangeFileType? || op.ChangePrice? || op.ChangeKeywords?
  }

  predicate OfFile(op: Operation) { op.RegisterFile? || op.GrantRead? || op.DeactivateRead? || op.DeactivateFile? }

  // Each family's reader reads its own messages.
  lemma MemoMessageBack(op: Operation)
    requires Valid(op) && OfMemo(op)
    ensures ReadMemoMessage(Message(op)) == Some(Encoded(op))
  {
    KindReadBack(op);
    Tagged(op);
    MemoTags(Message(op));
    hide Message, Body, ReadKind, ReadCreate, ReadAddVerification, ReadUpdateVerification;
    hide ReadDeactivateVerification, ReadDeactivateDid, After;
    match op
    case CreateDid(_, _, _) => CreateBack(op);
    case AddVerification(_, _, _, _) => AddVerificationBack(op);
    case UpdateVerification(_, _, _, _, _) => UpdateVerificationBack(op);
    case DeactivateVerification(_, _, _) => DeactivateVerificationBack(op);
    case DeactivateDid(_, _) => DeactivateDidBack(op);
  }

  // The tag of a message that adds a relation.
  lemma AddTagged(op: Operation)
    requires Valid(op) && OfAdd(op)
    ensures var m := Message(op);
      && |m| >= 13
      && (op.AddDelegation? ==>
            && ReadKind(m) == Kind(4, CapabilityDelegation)
            && "addDelegation" <= m && After(m, "addDelegation") == Body(op))
      && (op.AddRelation? ==> ReadKind(m) == Kind(4, op.relation) && op.relation != CapabilityDelegation)
      && (op.AddRelation? && op.relation == Authentication ==>
            "addAuthentication" <= m && After(m, "addAuthentication") == Body(op))
      && (op.AddRelation? && op.relation == AssertionMethod ==>
            "addAssertion" <= m && After(m, "addAssertion") == Body(op))
      && (op.AddRelation? && op.relation == Recovery ==>
            "addRecovery" <= m && After(m, "addRecovery") == Body(op))
  {
    KindReadBack(op);
    Tagged(op);
    hide Message, Body, ReadKind, After;
  }

  lemma AddMessageBack(op: Operation)
    requires Valid(op) && OfAdd(op)
    ensures ReadAddMessage(Message(op)) == Some(Encoded(op))
  {
    hide Message, Body, ReadKind, ReadAddRelation, ReadAddDelegation, After, Valid;
    AddTagged(op);
    AddTags(Message(op));
    if op.AddRelation? {
      RelationBack(op);
    } else {
      AddDelegationBack(op);
    }
  }

  lemma RemoveMessageBack(op: Operation)
    requires Valid(op) && op.RemoveRelation?
    ensures ReadRemoveMessage(Message(op)) == Some(Encoded(op))
  {
    KindReadBack(op);
    Tagged(op);
    RemoveTags(Message(op));
    hide Message, Body, ReadKind, ReadRemoveRelation, After;
    RelationBack(op);
  }

  lemma ChangeMessageBack(op: Operation, cidLength: nat)
    requires Valid(op) && OfChange(op)
    requires op.ChangeKeywords? ==> cidLength == |op.cid|
    ensures ReadChangeMessage(Message(op), cidLength) == Some(Encoded(op))
  {
    KindReadBack(op);
    Tagged(op);
    ChangeTags(Message(op));
    ChangeValid(op);
    hide Message, Body, ReadKind, ReadChangeController, ReadChangeFileType, ReadChangePrice, ReadChangeKeywords, After;
    hide Valid, Encoded;
    if op.ChangeController? {
      ReaderBack(op);
    } else if op.ChangeFileType? {
      FileTypeBack(op);
    } else if op.ChangePrice? {
      PriceBack(op);
    } else {
      KeywordsBack(op, cidLength);
    }
  }

  lemma ChangeValid(op: Operation)
    requires Valid(op)
    ensures op.ChangePrice? ==> Abs(op.price) < Span(32)
    ensures op.ChangeController? || op.ChangeFileType? ==> Encoded(op) == op
  {
    hide Span;
  }

  lemma FileMessageBack(op: Operation, cidLength: nat, encodeLength: nat)
    requires Valid(op) && OfFile(op)
    requires op.RegisterFile? ==> cidLength == |op.cid| && encodeLength == |op.encode|
    ensures ReadFileMessage(Message(op), cidLength, encodeLength) == Some(Encoded(op))
  {
    KindReadBack(op);
    Tagged(op);
    FileTags(Message(op));
    hide Message, Body, ReadKind, ReadRegister, ReadGrantRead, ReadDeactivateRead, ReadDeactivateFile, After;
    if op.RegisterFile? {
      RegisterBack(op, cidLength, encodeLength);
    } else {
      ReaderBack(op);
    }
  }

  // No family's reader reads a message of another family.
  lemma OtherKinds(m: string, cidLength: nat)
    requires |m| >= 13
    ensures ReadKind(m).rank !in {0, 1, 2, 3, 6} ==> ReadMemoMessage(m) == None
    ensures ReadKind(m).rank != 4 ==> ReadAddMessage(m) == None
    ensures ReadKind(m).rank != 5 ==> ReadRemoveMessage(m) == None
    ensures ReadKind(m).rank !in {8, 9, 10, 11} ==> ReadChangeMessage(m, cidLength) == None
  {
    MemoTags(m);
    AddTags(m);
    RemoveTags(m);
    ChangeTags(m);
    hide ReadKind, After;
  }

  lemma FamilyKinds(op: Operation)
    ensures OfMemo(op) <==> KindOf(op).rank in {0, 1, 2, 3, 6}
    ensures OfAdd(op) <==> KindOf(op).rank == 4
    ensures op.RemoveRelation? <==> KindOf(op).rank == 5
    ensures OfChange(op) <==> KindOf(op).rank in {8, 9, 10, 11}
  {
  }

  lemma OtherFamilies(op: Operation, cidLength: nat)
    ensures !OfMemo(op) ==> ReadMemoMessage(Message(op)) == None
    ensures !OfAdd(op) ==> ReadAddMessage(Message(op)) == None
    ensures !op.RemoveRelation? ==> ReadRemoveMessage(Message(op)) == None
    ensures !OfChange(op) ==> ReadChangeMessage(Message(op), cidLength) == None
  {
    hide Message, ReadKind, KindOf, OfMemo, OfAdd, OfChange;
    hide ReadMemoMessage, ReadAddMessage, ReadRemoveMessage, ReadChangeMessage;
    KindReadBack(op);
    OtherKinds(Message(op), cidLength);
    FamilyKinds(op);
  }

  // Reading a message gives the operation it encodes, for all operations.
  lemma MessageReadBack(op: Operation, cidLength: nat, encodeLength: nat)
    requires Valid(op)
    requires op.RegisterFile? ==> cidLength == |op.cid| && encodeLength == |op.encode|
    requires op.ChangeKeywords? ==> cidLength == |op.cid|
    ensures ReadMessage(Message(op), cidLength, encodeLength) == Some(Encoded(op))
  {
    hide Message, Valid, Encoded;
    hide ReadMemoMessage, ReadAddMessage, ReadRemoveMessage, ReadChangeMessage, ReadFileMessage;
    OtherFamilies(op, cidLength);
    if OfMemo(op) {
      MemoMessageBack(op);
    } else if OfAdd(op) {
      AddMessageBack(op);
    } else if op.RemoveRelation? {
      RemoveMessageBack(op);
    } else if OfChange(op) {
      ChangeMessageBack(op, cidLength);
    } else {
      FileMessageBack(op, cidLength, encodeLength);
    }
  }

  // What messages hold beside the fields: eight zero bytes at the end of createDID, and the byte 1
  // before the nonce of the two memo deactivations.
  lemma MessageConstants(op: Operation)
    ensures |Message(op)| >= 13
    ensures op.CreateDid? ==> forall i :: 0 <= i < 8 ==> Last(Message(op), 8)[i] as int == 0
    ensures op.DeactivateVerification? || op.DeactivateDid? ==> Last(Message(op), 9)[0] as int == 1
  {
    KindReadBack(op);
    hide Message, ReadKind, KindOf, Last;
    if op.CreateDid? {
      CreateConstant(op);
    } else if op.DeactivateVerification? || op.DeactivateDid? {
      DeactivationConstant(op);
    }
  }

  lemma CreateConstant(op: Operation)
    requires op.CreateDid?
    ensures Last(Message(op), 8) == Word(0, 8) && forall i :: 0 <= i < 8 ==> Word(0, 8)[i] as int == 0
  {
    ConstantWords();
    hide Word, Tag, AsText, Last;
    LastPart(op, Tag(op) + op.id + op.keyType + AsText(op.key), Word(0, 8));
  }

  lemma DeactivationConstant(op: Operation)
    requires op.DeactivateVerification? || op.DeactivateDid?
    ensures Last(Message(op), 9) == Word(1, 1) + Word(op.nonce, 8) && Word(1, 1)[0] as int == 1
  {
    ConstantWords();
    hide Word, Tag, ToUint64, Last;
    if op.DeactivateVerification? {
      LastPart(op, Tag(op) + op.id + Word(ToUint64(op.index), 32), Word(1, 1) + Word(op.nonce, 8));
    } else {
      LastPart(op, Tag(op) + op.id, Word(1, 1) + Word(op.nonce, 8));
    }
  }

  lemma LastPart(op: Operation, front: string, tail: string)
    requires Message(op) == front + tail
    ensures Last(Message(op), |tail|) == tail
  {
    Pieces(front, tail);
  }

  lemma ConstantWords()
    ensures forall i :: 0 <= i < 8 ==> Word(0, 8)[i] as int == 0
    ensures Word(1, 1)[0] as int == 1
  {
    LeadingZerosValue(0, 0, 8);
    OneByte(1);
    hide BigEndian;
  }

  // ---------- unique decodability ----------

  // Any two operations of the two controllers have the same message exactly when they encode
  // the same fields.
  lemma UniquelyDecodable(a: Operation, b: Operation)
    requires Valid(a) && Valid(b) && Comparable(a, b)
    ensures Message(a) == Message(b) <==> Encoded(a) == Encoded(b)
  {
    hide Message, Encoded, Valid, Comparable;
    if Message(a) == Message(b) {
      SameMessage(a, b);
    }
    EncodedMessage(a);
    EncodedMessage(b);
  }

  lemma SameMessage(a: Operation, b: Operation)
    requires Valid(a) && Valid(b) && Comparable(a, b) && Message(a) == Message(b)
    ensures Encoded(a) == Encoded(b)
  {
    TagsPrefixFree(a, b);
    SameVariable(a, b);
    hide Message, Encoded, ReadMessage, Comparable, Body, KindOf, Valid;
    if a.RegisterFile? {
      RegisterFields(a, b);
    } else if a.ChangeKeywords? {
      KeywordFields(a, b);
    } else {
      MessageReadBack(a, 0, 0);
      MessageReadBack(b, 0, 0);
    }
  }

  lemma SameVariable(a: Operation, b: Operation)
    requires KindOf(a) == KindOf(b)
    ensures a.RegisterFile? == b.RegisterFile? && a.ChangeKeywords? == b.ChangeKeywords?
  {
  }
}
