/**
 The messages a user signs: every operation of the memo and mfile controllers flattened into
 one untagged byte string. An operation holds exactly the values its message encodes.
 */
module Messages {
  import opened Bytes
  import opened MemoDid
  import opened Text

  datatype Operation =
    // memo/controller.go
    | CreateDid(id: string, keyType: string, key: seq<Byte>)
    | AddVerification(keyType: string, controller: string, key: seq<Byte>, nonce: Uint64)
    | UpdateVerification(id: string, index: Int64, keyType: string, key: seq<Byte>, nonce: Uint64)
    | DeactivateVerification(id: string, index: Int64, nonce: Uint64)
    | AddRelation(relation: Relation, id: string, url: MemoDIDUrl, nonce: Uint64)
    | AddDelegation(id: string, url: MemoDIDUrl, expiry: Int64, nonce: Uint64)
    | RemoveRelation(relation: Relation, id: string, url: MemoDIDUrl, nonce: Uint64)
    | DeactivateDid(id: string, nonce: Uint64)
    // mfile/controller.go
    | RegisterFile(cid: string, encode: string, ftype: Byte, controller: string, price: int, nonce: Uint64,
                   keywords: seq<string>)
    | ChangeController(cid: string, controller: string, nonce: Uint64)
    | ChangeFileType(cid: string, ftype: Byte, nonce: Uint64)
    | ChangePrice(cid: string, price: int, nonce: Uint64)
    | ChangeKeywords(cid: string, keywords: seq<string>, nonce: Uint64)
    | GrantRead(cid: string, reader: string, nonce: Uint64)
    | DeactivateRead(cid: string, reader: string, nonce: Uint64)
    | DeactivateFile(cid: string, nonce: Uint64)

  const ECDSA_KEY := "EcdsaSecp256k1VerificationKey2019"
  const ED25519_KEY := "Ed25519VerificationKey2018"
  const RECOVERY_KEY := "EcdsaSecp256k1RecoveryMethod2020"

  predicate SupportedKeyType(t: string) { t == ECDSA_KEY || t == ED25519_KEY || t == RECOVERY_KEY }

  function Word(n: nat, width: nat): (s: string)
    ensures |s| == width
  {
    AsText(BigEndian(n, width))
  }

  function Concat(words: seq<string>): string {
    if words == [] then "" else Concat(words[..|words| - 1]) + words[|words| - 1]
  }

  function Tag(op: Operation): string {
    match op
    case CreateDid(_, _, _) => "createDID"
    case AddVerification(_, _, _, _) => "addVerification"
    case UpdateVerification(_, _, _, _, _) => "updateVerificationMethod"
    case DeactivateVerification(_, _, _) => "deactivateVerification"
    case AddRelation(relation, _, _, _) => AddTag(relation)
    case AddDelegation(_, _, _, _) => AddTag(CapabilityDelegation)
    case RemoveRelation(relation, _, _, _) => RemoveTag(relation)
    case DeactivateDid(_, _) => "deactivateDID"
    case RegisterFile(_, _, _, _, _, _, _) => "registerMfileDid"
    case ChangeController(_, _, _) => "changeController"
    case ChangeFileType(_, _, _) => "changeFileType"
    case ChangePrice(_, _, _) => "changePrice"
    case ChangeKeywords(_, _, _) => "changeKeywords"
    case GrantRead(_, _, _) => "grantRead"
    case DeactivateRead(_, _, _) => "deactivateRead"
    case DeactivateFile(_, _) => "deactivateMfileDID"
  }

  function AddTag(relation: Relation): string {
    match relation
    case Authentication => "addAuthentication"
    case AssertionMethod => "addAssertion"
    case CapabilityDelegation => "addDelegation"
    case Recovery => "addRecovery"
  }

  function RemoveTag(relation: Relation): string {
    match relation
    case Authentication => "removeAuthentication"
    case AssertionMethod => "removeAssertion"
    case CapabilityDelegation => "removeDelegation"
    case Recovery => "removeRecovery"
  }

  function Body(op: Operation): string {
    match op
    case CreateDid(id, keyType, key) => id + (keyType + (AsText(key) + Word(0, 8)))
    case AddVerification(keyType, controller, key, nonce) =>
      keyType + (controller + (AsText(key) + Word(nonce, 8)))
    case UpdateVerification(id, index, keyType, key, nonce) =>
      id + (Word(ToUint64(index), 8) + (keyType + (AsText(key) + Word(nonce, 8))))
    case DeactivateVerification(id, index, nonce) =>
      id + (Word(ToUint64(index), 32) + (Word(1, 1) + Word(nonce, 8)))
    case AddRelation(_, id, url, nonce) => id + (url.ToString() + Word(nonce, 8))
    case AddDelegation(id, url, expiry, nonce) =>
      id + (url.ToString() + (Word(ToUint64(expiry), 32) + Word(nonce, 8)))
    case RemoveRelation(_, id, url, nonce) => id + (url.ToString() + Word(nonce, 8))
    case DeactivateDid(id, nonce) => id + (Word(1, 1) + Word(nonce, 8))
    case RegisterFile(cid, encode, ftype, controller, price, nonce, keywords) =>
      cid + (encode + (Word(ftype, 1) + (controller + (Word(Abs(price), 32) + (Word(nonce, 8) + Concat(keywords))))))
    case ChangeController(cid, controller, nonce) => cid + (controller + Word(nonce, 8))
    case ChangeFileType(cid, ftype, nonce) => cid + (Word(ftype, 8) + Word(nonce, 8))
    case ChangePrice(cid, price, nonce) => cid + (Word(Abs(price), 32) + Word(nonce, 8))
    case ChangeKeywords(cid, keywords, nonce) => cid + (Concat(keywords) + Word(nonce, 8))
    case GrantRead(cid, reader, nonce) => cid + (reader + Word(nonce, 8))
    case DeactivateRead(cid, reader, nonce) => cid + (reader + Word(nonce, 8))
    case DeactivateFile(cid, nonce) => cid + Word(nonce, 8)
  }

  function Message(op: Operation): string { Tag(op) + Body(op) }

  // ---------- what the builders are given ----------

  predicate MemoId(id: string) { |id| == 64 }

  predicate MemoUrl(u: MemoDIDUrl) {
    u.methodName == "memo" && MemoId(u.identifier) && u.identifiers == [u.identifier]
  }

  // Identifiers of 64 characters, supported key types and a price of at most 32 bytes; a
  // delegation has its own constructor because only its message carries an expiry.
  predicate Valid(op: Operation) {
    match op
    case CreateDid(id, keyType, _) => MemoId(id) && SupportedKeyType(keyType)
    case AddVerification(keyType, controller, _, _) => MemoId(controller) && SupportedKeyType(keyType)
    case UpdateVerification(id, _, keyType, _, _) => MemoId(id) && SupportedKeyType(keyType)
    case DeactivateVerification(id, _, _) => MemoId(id)
    case AddRelation(relation, id, url, _) => relation != CapabilityDelegation && MemoId(id) && MemoUrl(url)
    case AddDelegation(id, url, _, _) => MemoId(id) && MemoUrl(url)
    case RemoveRelation(_, id, url, _) => MemoId(id) && MemoUrl(url)
    case DeactivateDid(id, _) => MemoId(id)
    case RegisterFile(_, _, _, controller, price, _, _) => MemoId(controller) && Abs(price) < Span(32)
    case ChangeController(_, controller, _) => MemoId(controller)
    case ChangePrice(_, price, _) => Abs(price) < Span(32)
    case GrantRead(_, reader, _) => MemoId(reader)
    case DeactivateRead(_, reader, _) => MemoId(reader)
    case _ => true
  }

  // What a message keeps of an operation: a price loses its sign, and a keyword list its
  // boundaries.
  function Encoded(op: Operation): Operation {
    match op
    case RegisterFile(_, _, _, _, price, _, keywords) => op.(price := Abs(price), keywords := [Concat(keywords)])
    case ChangePrice(_, price, _) => op.(price := Abs(price))
    case ChangeKeywords(_, keywords, _) => op.(keywords := [Concat(keywords)])
    case _ => op
  }

  function Joined(op: Operation): string
    requires op.RegisterFile?
  {
    op.cid + op.encode
  }

  predicate PrefixRelated(s: string, t: string) { s <= t || t <= s }

  // Two messages have adjacent variable parts. They are compared for parts of the same length,
  // which covers a fixed DID and encoding, and for parts of which none is a prefix of the other.
  predicate Comparable(a: Operation, b: Operation) {
    && (a.RegisterFile? && b.RegisterFile? ==>
          (|a.cid| == |b.cid| && |a.encode| == |b.encode|) || !PrefixRelated(Joined(a), Joined(b)))
    && (a.ChangeKeywords? && b.ChangeKeywords? ==> |a.cid| == |b.cid| || !PrefixRelated(a.cid, b.cid))
  }

  // ---------- the first bytes of a message determine its operation ----------

  datatype Kind = Kind(rank: nat, relation: Relation)

  function KindOf(op: Operation): Kind {
    match op
    case CreateDid(_, _, _) => Kind(0, Authentication)
    case AddVerification(_, _, _, _) => Kind(1, Authentication)
    case UpdateVerification(_, _, _, _, _) => Kind(2, Authentication)
    case DeactivateVerification(_, _, _) => Kind(3, Authentication)
    case AddRelation(relation, _, _, _) => Kind(4, relation)
    case AddDelegation(_, _, _, _) => Kind(4, CapabilityDelegation)
    case RemoveRelation(relation, _, _, _) => Kind(5, relation)
    case DeactivateDid(_, _) => Kind(6, Authentication)
    case RegisterFile(_, _, _, _, _, _, _) => Kind(7, Authentication)
    case ChangeController(_, _, _) => Kind(8, Authentication)
    case ChangeFileType(_, _, _) => Kind(9, Authentication)
    case ChangePrice(_, _, _) => Kind(10, Authentication)
    case ChangeKeywords(_, _, _) => Kind(11, Authentication)
    case GrantRead(_, _, _) => Kind(12, Authentication)
    case DeactivateRead(_, _, _) => Kind(13, Authentication)
    case DeactivateFile(_, _) => Kind(14, Authentication)
  }

  // Reads the operation off a message, looking at one distinguishing byte at a time.
  function ReadKind(m: string): Kind
    requires |m| >= 13
  {
    if m[0] == 'a' then
      if m[3] == 'V' then Kind(1, Authentication) else Kind(4, ReadRelation(m[3], m[4]))
    else if m[0] == 'r' && m[2] == 'm' then Kind(5, ReadRelation(m[6], m[7]))
    else Kind(if m[0] == 'd' then ReadDeactivation(m[10]) else ReadRank(m[0], m[1], m[6]), Authentication)
  }

  function ReadRelation(first: char, second: char): Relation {
    if first == 'D' then CapabilityDelegation
    else if first == 'R' then Recovery
    else if second == 'u' then Authentication else AssertionMethod
  }

  function ReadDeactivation(c: char): nat {
    if c == 'V' then 3 else if c == 'D' then 6 else if c == 'R' then 13 else 14
  }

  function ReadRank(c0: char, c1: char, c6: char): nat {
    if c0 == 'u' then 2
    else if c0 == 'r' then 7
    else if c0 == 'g' then 12
    else if c1 == 'r' then 0
    else if c6 == 'C' then 8
    else if c6 == 'F' then 9
    else if c6 == 'P' then 10 else 11
  }

  lemma KindReadBack(op: Operation)
    ensures |Message(op)| >= 13
    ensures ReadKind(Message(op)) == KindOf(op)
  {
    BodyLength(op);
    TagLength(op);
    TagDecides(op, Body(op));
  }

  lemma TagDecides(op: Operation, rest: string)
    requires |Tag(op)| >= 9 && |rest| >= 8
    requires KindOf(op).rank in {3, 6, 13, 14} ==> |Tag(op)| >= 13
    ensures ReadKind(Tag(op) + rest) == KindOf(op)
  {
    var tag := Tag(op);
    if op.AddRelation? || op.RemoveRelation? || op.AddDelegation? {
      RelationTagDecides(op);
    } else if tag[0] == 'd' {
      DeactivationTagDecides(op);
    } else {
      PlainTagDecides(op);
    }
  }

  lemma RelationTagDecides(op: Operation)
    requires op.AddRelation? || op.RemoveRelation? || op.AddDelegation?
    ensures var t := Tag(op);
      && |t| >= 9
      && (op.RemoveRelation? ==> t[0] == 'r' && t[2] == 'm' && ReadRelation(t[6], t[7]) == op.relation)
      && (!op.RemoveRelation? ==> t[0] == 'a' && t[3] != 'V' && Kind(4, ReadRelation(t[3], t[4])) == KindOf(op))
  {
  }

  lemma DeactivationTagDecides(op: Operation)
    requires !op.AddRelation? && !op.RemoveRelation? && !op.AddDelegation?
    requires |Tag(op)| >= 13 && Tag(op)[0] == 'd'
    ensures KindOf(op) == Kind(ReadDeactivation(Tag(op)[10]), Authentication)
  {
  }

  lemma PlainTagDecides(op: Operation)
    requires !op.AddRelation? && !op.RemoveRelation? && !op.AddDelegation?
    requires |Tag(op)| >= 9 && Tag(op)[0] != 'd'
    ensures var t := Tag(op);
      && (op.AddVerification? <==> t[0] == 'a')
      && (op.AddVerification? ==> t[3] == 'V')
      && (t[0] == 'r' ==> t[2] != 'm')
      && (!op.AddVerification? ==> KindOf(op) == Kind(ReadRank(t[0], t[1], t[6]), Authentication))
  {
  }

  lemma BodyLength(op: Operation)
    ensures |Body(op)| >= 8
  {
  }

  lemma TagLength(op: Operation)
    ensures |Tag(op)| >= 9
    ensures op.DeactivateVerification? || op.DeactivateDid? || op.DeactivateRead? || op.DeactivateFile? ==>
      |Tag(op)| >= 13
  {
  }

  // Operations of the same kind have the same tag.
  lemma KindTag(a: Operation, b: Operation)
    requires Valid(a) && Valid(b)
    ensures KindOf(a) == KindOf(b) ==> Tag(a) == Tag(b)
  {
  }

  // Operations whose messages agree are of the same kind.
  lemma TagsPrefixFree(a: Operation, b: Operation)
    requires Valid(a) && Valid(b) && Message(a) == Message(b)
    ensures KindOf(a) == KindOf(b) && Body(a) == Body(b)
  {
    KindReadBack(a);
    KindReadBack(b);
    KindTag(a, b);
    SameSplit(Tag(a), Body(a), Tag(b), Body(b));
  }

  // ---------- fields ----------

  lemma WordsAgree(m: nat, n: nat, w: nat)
    requires m < Span(w) && n < Span(w)
    ensures Word(m, w) == Word(n, w) <==> m == n
  {
    AsTextInjective(BigEndian(m, w), BigEndian(n, w));
    BigEndianInjective(m, n, w);
  }

  lemma Spans()
    ensures Span(1) == 256 && Span(8) == 0x1_0000_0000_0000_0000 && Span(32) >= Span(8)
  {
  }

  lemma {:induction false} SpanMonotone(v: nat, w: nat)
    requires v <= w
    ensures Span(v) <= Span(w)
    decreases w
  {
    if v < w {
      SpanMonotone(v, w - 1);
    }
  }

  lemma NoncesAgree(m: Uint64, n: Uint64)
    ensures Word(m, 8) == Word(n, 8) <==> m == n
  {
    Spans();
    WordsAgree(m, n, 8);
  }

  lemma SignedAgree(x: Int64, y: Int64, w: nat)
    requires w >= 8
    ensures Word(ToUint64(x), w) == Word(ToUint64(y), w) <==> x == y
  {
    Spans();
    SpanMonotone(8, w);
    WordsAgree(ToUint64(x), ToUint64(y), w);
  }

  // No supported key type is a prefix of another.
  lemma KeyTypesPrefixFree(t: string, x: string, u: string, y: string)
    requires SupportedKeyType(t) && SupportedKeyType(u) && t + x == u + y
    ensures t == u && x == y
  {
    assert (t + x)[1] == t[1] && (u + y)[1] == u[1];
    assert |t| >= 15 ==> (t + x)[14] == t[14];
    assert |u| >= 15 ==> (u + y)[14] == u[14];
    SameSplit(t, x, u, y);
  }

  // A variable text followed by a nonce.
  lemma TextsAgree(s: string, m: Uint64, t: string, n: Uint64)
    requires s + Word(m, 8) == t + Word(n, 8)
    ensures s == t && m == n
  {
    SameSplit(s, Word(m, 8), t, Word(n, 8));
    NoncesAgree(m, n);
  }

  // ---------- adjacent variable parts ----------

  lemma KeywordFields(a: Operation, b: Operation)
    requires a.ChangeKeywords? && b.ChangeKeywords? && Comparable(a, b) && Body(a) == Body(b)
    ensures Encoded(a) == Encoded(b)
  {
    hide Concat, Word;
    assert Body(a) == (a.cid + Concat(a.keywords)) + Word(a.nonce, 8);
    assert Body(b) == (b.cid + Concat(b.keywords)) + Word(b.nonce, 8);
    TextsAgree(a.cid + Concat(a.keywords), a.nonce, b.cid + Concat(b.keywords), b.nonce);
    FrontsRelated(a.cid, Concat(a.keywords), b.cid, Concat(b.keywords));
    SameSplit(a.cid, Concat(a.keywords), b.cid, Concat(b.keywords));
  }

  // Strings that agree have fronts of which one is a prefix of the other.
  lemma FrontsRelated(s: string, x: string, t: string, y: string)
    requires s + x == t + y
    ensures PrefixRelated(s, t)
    ensures s <= t ==> x == t[|s|..] + y
  {
    assert s == (s + x)[..|s|] && t == (s + x)[..|t|];
    assert s <= t ==> x == (s + x)[|s|..] && t[|s|..] + y == (t + y)[|s|..];
  }

  // What follows DID and encoding in a register message.
  function Rest(op: Operation): string
    requires op.RegisterFile?
  {
    Word(op.ftype, 1) + (op.controller + (Word(Abs(op.price), 32) + (Word(op.nonce, 8) + Concat(op.keywords))))
  }

  // Reads the remaining fields of a register operation off what follows DID and encoding.
  function ReadRest(cid: string, encode: string, rest: string): (op: Operation)
    requires |rest| >= 105
    ensures op.RegisterFile? && op.cid == cid && op.encode == encode
  {
    var numbers := FromText(rest);
    RegisterFile(cid, encode, numbers[0], rest[1..65], Value(numbers[65..97]), NonceOf(numbers[97..105]), [rest[105..]])
  }

  function NonceOf(bs: seq<Byte>): Uint64
    requires |bs| == 8
  {
    Spans();
    ValueBound(bs);
    Value(bs)
  }

  lemma WordReadBack(n: nat, w: nat)
    requires n < Span(w)
    ensures FromText(Word(n, w)) == BigEndian(n, w) && Value(BigEndian(n, w)) == n && IsBytes(Word(n, w))
  {
    FromTextAsText("", BigEndian(n, w));
    ValueOfBigEndian(n, w);
    ModUnique(n, Span(w), 0, n);
  }

  lemma RestPieces(ftype: string, controller: string, price: string, nonce: string, keywords: string)
    requires |ftype| == 1 && |controller| == 64 && |price| == 32 && |nonce| == 8
    ensures var rest := ftype + (controller + (price + (nonce + keywords)));
      && |rest| >= 105 && rest[..1] == ftype && rest[1..65] == controller && rest[65..97] == price
      && rest[97..105] == nonce && rest[105..] == keywords
      && FromText(rest)[0] == FromText(ftype)[0]
      && FromText(rest)[65..97] == FromText(price) && FromText(rest)[97..105] == FromText(nonce)
  {
  }

  // Reading is the inverse of writing, on all that a message keeps.
  lemma RestReadBack(op: Operation)
    requires Valid(op) && op.RegisterFile?
    ensures |Rest(op)| >= 105 && ReadRest(op.cid, op.encode, Rest(op)) == Encoded(op)
  {
    OneByte(op.ftype);
    Spans();
    hide BigEndian, Value, Span, Word, Concat, FromText;
    WordReadBack(op.ftype, 1);
    WordReadBack(Abs(op.price), 32);
    WordReadBack(op.nonce, 8);
    RestPieces(Word(op.ftype, 1), op.controller, Word(Abs(op.price), 32), Word(op.nonce, 8), Concat(op.keywords));
  }

  lemma WordOfText(s: string)
    requires IsBytes(s)
    ensures Value(FromText(s)) < Span(|s|) && Word(Value(FromText(s)), |s|) == s
  {
    ValueBound(FromText(s));
    BigEndianOfValue(FromText(s));
    FromTextAsText(s, []);
  }

  // Any 105 bytes or more are the remainder of a valid register message.
  lemma ReadRestWrites(cid: string, encode: string, rest: string)
    requires |rest| >= 105 && IsBytes(rest)
    ensures Valid(ReadRest(cid, encode, rest)) && Rest(ReadRest(cid, encode, rest)) == rest
  {
    var numbers := FromText(rest);
    WordOfText(rest[..1]);
    WordOfText(rest[65..97]);
    WordOfText(rest[97..105]);
    OneWord(rest[105..]);
    assert numbers[65..97] == FromText(rest[65..97]) && numbers[97..105] == FromText(rest[97..105]);
    assert FromText(rest[..1])[..0] == [] && Value(FromText(rest[..1])) == numbers[0];
    hide FromText, Value, Word, Concat, Span;
    Cut105(rest);
  }

  lemma Cut105(s: string)
    requires |s| >= 105
    ensures s == s[..1] + (s[1..65] + (s[65..97] + (s[97..105] + s[105..])))
  {
    assert s[97..] == s[97..105] + s[105..];
    assert s[65..] == s[65..97] + s[97..];
    assert s[1..] == s[1..65] + s[65..];
  }

  lemma RegisterBody(op: Operation)
    requires op.RegisterFile?
    ensures Body(op) == Joined(op) + Rest(op)
  {
  }

  lemma RegistersAgree(a: Operation, b: Operation)
    requires a.RegisterFile? && b.RegisterFile?
    ensures Message(a) == Message(b) <==> Joined(a) + Rest(a) == Joined(b) + Rest(b)
  {
    RegisterBody(a);
    RegisterBody(b);
    if Message(a) == Message(b) {
      SameSplit(Tag(a), Body(a), Tag(b), Body(b));
    }
  }

  // Two register messages agree only if DID and encoding of one join to a prefix of the other's.
  // When these are equally long, the messages agree exactly when they are equal and so are the
  // other fields as encoded. When they are not, a given longer operation shares its message with
  // exactly one shorter operation, as encoded: the one read off what is left of the longer joined
  // text and its remainder.
  lemma RegisterMessages(a: Operation, b: Operation)
    requires Valid(a) && Valid(b) && a.RegisterFile? && b.RegisterFile?
    ensures Message(a) == Message(b) ==> PrefixRelated(Joined(a), Joined(b))
    ensures |Joined(a)| == |Joined(b)| ==>
      (Message(a) == Message(b) <==>
        Joined(a) == Joined(b) && Encoded(a) == Encoded(b.(cid := a.cid, encode := a.encode)))
    ensures Joined(a) <= Joined(b) ==>
      var rest := Joined(b)[|Joined(a)|..] + Rest(b);
      |rest| >= 105 && (IsBytes(rest) ==>
        (Message(a) == Message(b) <==> Encoded(a) == ReadRest(a.cid, a.encode, rest)))
  {
    hide Message, Encoded, Rest, Joined, Valid, ReadRest;
    RegistersAgree(a, b);
    RestReadBack(b);
    if Message(a) == Message(b) {
      FrontsRelated(Joined(a), Rest(a), Joined(b), Rest(b));
    }
    RestDecides(a, Rest(b));
    SameRest(a, b);
    if |Joined(a)| == |Joined(b)| && Message(a) == Message(b) {
      SameSplit(Joined(a), Rest(a), Joined(b), Rest(b));
    }
    if Joined(a) <= Joined(b) {
      var rest := Joined(b)[|Joined(a)|..] + Rest(b);
      RestDecides(a, rest);
      assert Joined(a) + rest == Joined(b) + Rest(b);
      SameSplitLeft(Joined(a), Rest(a), rest);
    }
  }

  lemma SameSplitLeft(s: string, x: string, y: string)
    ensures s + x == s + y <==> x == y
  {
    if s + x == s + y {
      SameSplit(s, x, s, y);
    }
  }

  // A remainder of bytes is the remainder of exactly one operation, as encoded.
  lemma RestDecides(op: Operation, rest: string)
    requires Valid(op) && op.RegisterFile? && |rest| >= 105
    ensures IsBytes(rest) ==> (Rest(op) == rest <==> Encoded(op) == ReadRest(op.cid, op.encode, rest))
  {
    hide ReadRest, Rest, Valid;
    RestReadBack(op);
    EncodedRest(op);
    if IsBytes(rest) {
      ReadRestWrites(op.cid, op.encode, rest);
    }
  }

  lemma SameRest(a: Operation, b: Operation)
    requires Valid(a) && Valid(b) && a.RegisterFile? && b.RegisterFile?
    ensures Rest(a) == Rest(b) <==> Encoded(a) == Encoded(b.(cid := a.cid, encode := a.encode))
  {
    RestReadBack(a);
    RestReadBack(b);
    EncodedRest(a);
    EncodedRest(b);
    hide Valid, Word, Concat;
  }

  lemma EncodedRest(op: Operation)
    requires op.RegisterFile?
    ensures Rest(Encoded(op)) == Rest(op)
  {
    OneWord(Concat(op.keywords));
  }

  // Register operations for given DIDs and encodings, or change-keywords operations for given
  // DIDs, that share a message.
  ghost predicate RegistersCollide(cid: string, encode: string, cid': string, encode': string) {
    exists a, b :: IsRegister(a, cid, encode) && IsRegister(b, cid', encode') && Message(a) == Message(b)
  }

  predicate IsRegister(op: Operation, cid: string, encode: string) {
    Valid(op) && op.RegisterFile? && op.cid == cid && op.encode == encode
  }

  ghost predicate KeywordsCollide(cid: string, cid': string) {
    exists a, b :: IsChangeKeywords(a, cid) && IsChangeKeywords(b, cid') && Message(a) == Message(b)
  }

  predicate IsChangeKeywords(op: Operation, cid: string) { op.ChangeKeywords? && op.cid == cid }

  // Some remaining fields make two register messages coincide exactly when DID and encoding of
  // one join to a prefix of the other's.
  lemma RegisterCollisions(cid: string, encode: string, cid': string, encode': string)
    requires IsBytes(cid + encode) && IsBytes(cid' + encode')
    ensures RegistersCollide(cid, encode, cid', encode') <==> PrefixRelated(cid + encode, cid' + encode')
  {
    if RegistersCollide(cid, encode, cid', encode') {
      var a, b :| IsRegister(a, cid, encode) && IsRegister(b, cid', encode') && Message(a) == Message(b);
      RegistersAgree(a, b);
      FrontsRelated(Joined(a), Rest(a), Joined(b), Rest(b));
    }
    if cid + encode <= cid' + encode' {
      var a, b := SharedRegister(cid, encode, cid', encode');
      assert IsRegister(a, cid, encode) && IsRegister(b, cid', encode') && Message(a) == Message(b);
    }
    if cid' + encode' <= cid + encode {
      var b, a := SharedRegister(cid', encode', cid, encode);
      assert IsRegister(a, cid, encode) && IsRegister(b, cid', encode') && Message(a) == Message(b);
    }
  }

  lemma SharedRegister(cid: string, encode: string, cid': string, encode': string) returns (a: Operation, b: Operation)
    requires cid + encode <= cid' + encode' && IsBytes((cid' + encode')[|cid + encode|..])
    ensures IsRegister(a, cid, encode) && IsRegister(b, cid', encode') && Message(a) == Message(b)
  {
    hide Valid, Rest, Message, ReadRest;
    var rest := seq(105, _ => '0');
    var more := (cid' + encode')[|cid + encode|..] + rest;
    a, b := ReadRest(cid, encode, more), ReadRest(cid', encode', rest);
    ReadRestWrites(cid, encode, more);
    ReadRestWrites(cid', encode', rest);
    assert cid + encode + more == cid' + encode' + rest;
    RegistersAgree(a, b);
  }

  lemma KeywordCollisions(cid: string, cid': string)
    ensures KeywordsCollide(cid, cid') <==> PrefixRelated(cid, cid')
  {
    hide Message, Concat;
    if KeywordsCollide(cid, cid') {
      var a, b :| IsChangeKeywords(a, cid) && IsChangeKeywords(b, cid') && Message(a) == Message(b);
      KeywordMessages(a, b);
      FrontsRelated(cid, Concat(a.keywords), cid', Concat(b.keywords));
    }
    if PrefixRelated(cid, cid') {
      var x, y := if cid <= cid' then cid'[|cid|..] else "", if cid <= cid' then "" else cid[|cid'|..];
      var a, b := ChangeKeywords(cid, [x], 0), ChangeKeywords(cid', [y], 0);
      OneWord(x);
      OneWord(y);
      assert cid + x == cid' + y;
      KeywordMessages(a, b);
      assert IsChangeKeywords(a, cid) && IsChangeKeywords(b, cid') && Message(a) == Message(b);
    }
  }

  lemma RegisterFields(a: Operation, b: Operation)
    requires Valid(a) && Valid(b) && a.RegisterFile? && b.RegisterFile? && Comparable(a, b)
    requires Message(a) == Message(b)
    ensures Encoded(a) == Encoded(b)
  {
    RegistersAgree(a, b);
    FrontsRelated(Joined(a), Rest(a), Joined(b), Rest(b));
    SameSplit(Joined(a), Rest(a), Joined(b), Rest(b));
    SameSplit(a.cid, a.encode, b.cid, b.encode);
    RestReadBack(a);
    RestReadBack(b);
  }

  // A message depends on nothing but the encoded operation.
  lemma EncodedMessage(op: Operation)
    ensures Message(Encoded(op)) == Message(op)
  {
    if op.RegisterFile? || op.ChangeKeywords? {
      OneWord(Concat(op.keywords));
    }
  }

  lemma OneWord(s: string)
    ensures Concat([s]) == s
  {
  }

  // Without the proviso on lengths: two operations of different kinds never share a message.
  lemma DifferentKindsDiffer(a: Operation, b: Operation)
    requires Valid(a) && Valid(b) && KindOf(a) != KindOf(b)
    ensures Message(a) != Message(b)
  {
    if Message(a) == Message(b) {
      TagsPrefixFree(a, b);
    }
  }

  // Change-keywords messages for any two DIDs: the boundary between DID and keywords is lost.
  lemma KeywordMessages(a: Operation, b: Operation)
    requires a.ChangeKeywords? && b.ChangeKeywords?
    ensures Message(a) == Message(b) <==>
      a.nonce == b.nonce && a.cid + Concat(a.keywords) == b.cid + Concat(b.keywords)
  {
    var s, t := a.cid + Concat(a.keywords), b.cid + Concat(b.keywords);
    assert Body(a) == s + Word(a.nonce, 8) && Body(b) == t + Word(b.nonce, 8);
    if Message(a) == Message(b) {
      SameSplit(Tag(a), Body(a), Tag(b), Body(b));
      TextsAgree(s, a.nonce, t, b.nonce);
    }
  }

  // For every DID two register operations with different encodings have the same message.
  lemma RegisterCollision(cid: string) returns (a: Operation, b: Operation)
    ensures Valid(a) && Valid(b) && a.RegisterFile? && b.RegisterFile?
    ensures a.cid == b.cid == cid && a.encode != b.encode && Message(a) == Message(b)
  {
    a, b := SharedRegister(cid, "", cid, "0");
  }
}
