/**
 The byte strings that the file-proof credentials and setting changes hash. The hash function is
 the `keccak` argument; nothing is assumed about it.
 */
module HashPreimages {
  import opened Bytes
  import opened PaddedPairs
  import opened PointCodec
  import opened Text

  type Hasher = seq<Byte> -> seq<Byte>

  type Address = bs: seq<Byte> | |bs| == 20 witness Zeros(20)

  datatype SettingInfo = SettingInfo(
    interval: Uint32, period: Uint32, chalSum: Uint32, respondTime: Uint32, price: Uint64,
    penaltyPercentage: Byte, subPledge: int, chalPledge: int)

  datatype Credential = Credential(proof: Address, user: Address, commit: G1, size: Uint64, start: int, end: int)

  datatype Alteration = Alteration(control: Address, auth: Address, setting: SettingInfo, vk: G2, nonce: int)

  // common.LeftPadBytes(x.Bytes(), 32): big.Int's Bytes drops the sign.
  function Padded(x: int): seq<Byte> { Pad(Abs(x)) }

  function CredentialPreimage(c: Credential): seq<Byte> {
    c.proof + (c.user + (AppendedG1(c.commit) + (BigEndian(c.size, 8) + (Padded(c.start) + Padded(c.end)))))
  }

  function SettingPreimage(control: Address, s: SettingInfo, vk: G2): seq<Byte> {
    control + (FromText("alterFileProofSetting") +
    (BigEndian(s.interval, 4) + (BigEndian(s.period, 4) + (BigEndian(s.chalSum, 4) + (BigEndian(s.respondTime, 4) +
    (BigEndian(s.price, 8) + (BigEndian(s.penaltyPercentage, 1) +
    (Padded(s.subPledge) + (Padded(s.chalPledge) + AppendedG2(vk))))))))))
  }

  function AuthPreimage(auth: Address, nonce: int, hash: seq<Byte>): seq<Byte> {
    auth + (Padded(nonce) + (FromText("perm") + hash))
  }

  function AlterationHash(keccak: Hasher, a: Alteration): seq<Byte> {
    keccak(AuthPreimage(a.auth, a.nonce, keccak(SettingPreimage(a.control, a.setting, a.vk))))
  }

  // ---------- the builders ----------

  method Buffer32(v: Uint32) returns (bs: seq<Byte>)
    ensures bs == BigEndian(v, 4)
  {
    var buf := new Byte[4](_ => 0);
    PutUint32(buf, 0, v);
    assert buf[..0] == [] && buf[4..] == [];
    bs := buf[..];
  }

  method Buffer64(v: Uint64) returns (bs: seq<Byte>)
    ensures bs == BigEndian(v, 8)
  {
    var buf := new Byte[8](_ => 0);
    PutUint64(buf, 0, v);
    assert buf[..0] == [] && buf[8..] == [];
    bs := buf[..];
  }

  // Keccak256 of several slices hashes their concatenation.
  method GetCredentialHash(keccak: Hasher, c: Credential) returns (hash: seq<Byte>)
    ensures hash == keccak(CredentialPreimage(c))
  {
    var sizeByte := Buffer64(c.size);
    var startByte, endByte := Padded(c.start), Padded(c.end);
    var commitBytes := ToAppendedBytesG1(c.commit);
    var proof: seq<Byte>, user: seq<Byte> := c.proof, c.user;
    hash := keccak(proof + (user + (commitBytes + (sizeByte + (startByte + endByte)))));
  }

  method GetAlterSettingInfoHash(keccak: Hasher, a: Alteration) returns (hash: seq<Byte>)
    ensures hash == AlterationHash(keccak, a)
  {
    var s := a.setting;
    var interval := Buffer32(s.interval);
    var period := Buffer32(s.period);
    var challengeSum := Buffer32(s.chalSum);
    var respondTime := Buffer32(s.respondTime);
    var price := Buffer64(s.price);
    var penalty := [s.penaltyPercentage];
    OneByte(s.penaltyPercentage);
    var subPledge, chalPledge := Padded(s.subPledge), Padded(s.chalPledge);
    var vkBytes := ToAppendedBytesG2(a.vk);
    var control: seq<Byte> := a.control;
    hash := keccak(control + (FromText("alterFileProofSetting") + (interval + (period + (challengeSum + (respondTime +
                   (price + (penalty + (subPledge + (chalPledge + vkBytes))))))))));
    var m := Padded(a.nonce);
    var auth: seq<Byte> := a.auth;
    hash := keccak(auth + (m + (FromText("perm") + hash)));
  }

  // ---------- what a preimage determines ----------

  lemma Uint32Same(m: Uint32, n: Uint32)
    requires BigEndian(m, 4) == BigEndian(n, 4)
    ensures m == n
  {
    assert Span(4) == 0x1_0000_0000;
    BigEndianInjective(m, n, 4);
  }

  lemma Uint64Same(m: Uint64, n: Uint64)
    requires BigEndian(m, 8) == BigEndian(n, 8)
    ensures m == n
  {
    assert Span(4) == 0x1_0000_0000;
    SpanAdd(4, 4);
    BigEndianInjective(m, n, 8);
  }

  predicate SameCredential(a: Credential, b: Credential) {
    a.(start := 0, end := 0) == b.(start := 0, end := 0) && Abs(a.start) == Abs(b.start) && Abs(a.end) == Abs(b.end)
  }

  // The byte strings of two credentials agree exactly when the fixed-width arguments and the
  // bytes of the two times do.
  lemma CredentialParts(a: Credential, b: Credential)
    ensures CredentialPreimage(a) == CredentialPreimage(b) <==>
      && a.(start := 0, end := 0) == b.(start := 0, end := 0)
      && PadPair(Abs(a.start), Abs(a.end)) == PadPair(Abs(b.start), Abs(b.end))
  {
    if CredentialPreimage(a) == CredentialPreimage(b) {
      var times, times' := Padded(a.start) + Padded(a.end), Padded(b.start) + Padded(b.end);
      var sized, sized' := BigEndian(a.size, 8) + times, BigEndian(b.size, 8) + times';
      var point, point' := AppendedG1(a.commit) + sized, AppendedG1(b.commit) + sized';
      SameSplit(a.proof, a.user + point, b.proof, b.user + point');
      SameSplit(a.user, point, b.user, point');
      AppendedInjective(a.commit, b.commit, G2(0, 0, 0, 0), G2(0, 0, 0, 0));
      AppendedInjective(b.commit, a.commit, G2(0, 0, 0, 0), G2(0, 0, 0, 0));
      SameSplit(AppendedG1(a.commit), sized, AppendedG1(b.commit), sized');
      SameSplit(BigEndian(a.size, 8), times, BigEndian(b.size, 8), times');
      Uint64Same(a.size, b.size);
    }
  }

  // A credential's byte string determines every argument, up to the signs of the two times,
  // among all credentials, exactly when the times are separable.
  lemma CredentialDetermined(a: Credential)
    ensures Separable(Abs(a.start), Abs(a.end)) <==>
      forall b :: CredentialPreimage(b) == CredentialPreimage(a) ==> SameCredential(a, b)
  {
    hide CredentialPreimage, PadPair, Separable;
    if Separable(Abs(a.start), Abs(a.end)) {
      forall b | CredentialPreimage(b) == CredentialPreimage(a)
        ensures SameCredential(a, b)
      {
        CredentialInjective(a, b);
      }
    } else {
      var m, n := OtherPair(Abs(a.start), Abs(a.end));
      var b := a.(start := m, end := n);
      CredentialParts(b, a);
      assert CredentialPreimage(b) == CredentialPreimage(a) && !SameCredential(a, b);
    }
  }

  // Two given credentials: it is enough that one is separable, or that the start times take
  // equally many bytes, as when both fit a 256-bit word.
  lemma CredentialInjective(a: Credential, b: Credential)
    requires TellApart(Abs(a.start), Abs(a.end), Abs(b.start), Abs(b.end))
    ensures CredentialPreimage(a) == CredentialPreimage(b) <==> SameCredential(a, b)
  {
    hide CredentialPreimage;
    CredentialParts(a, b);
    PairInjective(Abs(a.start), Abs(a.end), Abs(b.start), Abs(b.end));
  }

  // Beyond 256 bits the boundary between the two times is lost.
  lemma CredentialCollision(a: Credential)
    requires a.start == Span(32) + 1 && a.end == 0
    ensures var b := a.(start := Span(31), end := Span(32));
      CredentialPreimage(a) == CredentialPreimage(b) && !SameCredential(a, b)
  {
    hide Span, CredentialPreimage, PadPair;
    ShiftedTimes();
    CredentialParts(a, a.(start := Span(31), end := Span(32)));
  }

  lemma ShiftedTimes()
    ensures PadPair(Span(32) + 1, 0) == PadPair(Span(31), Span(32))
    ensures Span(31) != Span(32) + 1
  {
    hide Span, Minimal, LeftPad;
    SpanBytes(31);
    SpanBytes(32);
    SpanStep(31);
    ShiftedBytes(Span(31), Span(32));
  }

  lemma ShiftedBytes(p: nat, q: nat)
    requires p > 0 && q == 256 * p && Minimal(p) == [1] + Zeros(31) && Minimal(q) == [1] + Zeros(32)
    ensures PadPair(q + 1, 0) == PadPair(p, q)
  {
  }

  // 256^w takes w + 1 bytes.
  lemma {:induction false} SpanBytes(w: nat)
    ensures Minimal(Span(w)) == [1] + Zeros(w)
  {
    if w == 0 {
      assert Minimal(1) == Minimal(0) + [1];
    } else {
      SpanBytes(w - 1);
      assert Zeros(w) == Zeros(w - 1) + [0];
      assert Span(w) / 256 == Span(w - 1) && Span(w) % 256 == 0;
    }
  }

  predicate SameSetting(s: SettingInfo, t: SettingInfo) {
    s.(subPledge := 0, chalPledge := 0) == t.(subPledge := 0, chalPledge := 0) &&
    Abs(s.subPledge) == Abs(t.subPledge) && Abs(s.chalPledge) == Abs(t.chalPledge)
  }

  function PledgeBytes(s: SettingInfo, vk: G2): seq<Byte> {
    Padded(s.subPledge) + (Padded(s.chalPledge) + AppendedG2(vk))
  }

  function PriceBytes(s: SettingInfo, vk: G2): seq<Byte> {
    BigEndian(s.price, 8) + (BigEndian(s.penaltyPercentage, 1) + PledgeBytes(s, vk))
  }

  lemma PledgeParts(s: SettingInfo, vk: G2, t: SettingInfo, vk': G2)
    requires PledgeBytes(s, vk) == PledgeBytes(t, vk')
    ensures vk == vk'
    ensures PadPair(Abs(s.subPledge), Abs(s.chalPledge)) == PadPair(Abs(t.subPledge), Abs(t.chalPledge))
  {
    AppendedInjective(G1(0, 0), G1(0, 0), vk, vk');
    var pair, pair' := Padded(s.subPledge) + Padded(s.chalPledge), Padded(t.subPledge) + Padded(t.chalPledge);
    assert PledgeBytes(s, vk) == pair + AppendedG2(vk) && PledgeBytes(t, vk') == pair' + AppendedG2(vk');
    AppendedInjective(G1(0, 0), G1(0, 0), vk', vk);
    SameSplit(pair, AppendedG2(vk), pair', AppendedG2(vk'));
  }

  lemma PricesInjective(s: SettingInfo, vk: G2, t: SettingInfo, vk': G2)
    requires PriceBytes(s, vk) == PriceBytes(t, vk')
    ensures s.price == t.price && s.penaltyPercentage == t.penaltyPercentage
    ensures PledgeBytes(s, vk) == PledgeBytes(t, vk')
  {
    var p := BigEndian(s.penaltyPercentage, 1) + PledgeBytes(s, vk);
    var p' := BigEndian(t.penaltyPercentage, 1) + PledgeBytes(t, vk');
    SameSplit(BigEndian(s.price, 8), p, BigEndian(t.price, 8), p');
    Uint64Same(s.price, t.price);
    SameSplit(BigEndian(s.penaltyPercentage, 1), PledgeBytes(s, vk),
              BigEndian(t.penaltyPercentage, 1), PledgeBytes(t, vk'));
    assert Span(1) == 256;
    BigEndianInjective(s.penaltyPercentage, t.penaltyPercentage, 1);
  }

  // The byte strings of two settings agree exactly when the contracts, the keys, the fixed-width
  // fields and the bytes of the two pledges do.
  lemma SettingParts(c: Address, s: SettingInfo, vk: G2, d: Address, t: SettingInfo, vk': G2)
    ensures SettingPreimage(c, s, vk) == SettingPreimage(d, t, vk') <==>
      && c == d && vk == vk' && s.(subPledge := 0, chalPledge := 0) == t.(subPledge := 0, chalPledge := 0)
      && PadPair(Abs(s.subPledge), Abs(s.chalPledge)) == PadPair(Abs(t.subPledge), Abs(t.chalPledge))
  {
    if SettingPreimage(c, s, vk) == SettingPreimage(d, t, vk') {
      SettingFields(c, s, vk, d, t, vk');
      PledgeParts(s, vk, t, vk');
    } else {
      SamePledges(s, t, vk);
    }
  }

  lemma SamePledges(s: SettingInfo, t: SettingInfo, vk: G2)
    ensures PadPair(Abs(s.subPledge), Abs(s.chalPledge)) == PadPair(Abs(t.subPledge), Abs(t.chalPledge)) ==>
      PledgeBytes(s, vk) == PledgeBytes(t, vk)
  {
    var pair, pair' := Padded(s.subPledge) + Padded(s.chalPledge), Padded(t.subPledge) + Padded(t.chalPledge);
    assert PledgeBytes(s, vk) == pair + AppendedG2(vk) && PledgeBytes(t, vk) == pair' + AppendedG2(vk);
  }

  lemma SettingFields(c: Address, s: SettingInfo, vk: G2, d: Address, t: SettingInfo, vk': G2)
    requires SettingPreimage(c, s, vk) == SettingPreimage(d, t, vk')
    ensures c == d && PledgeBytes(s, vk) == PledgeBytes(t, vk')
    ensures s.(subPledge := 0, chalPledge := 0) == t.(subPledge := 0, chalPledge := 0)
  {
    var w4, w4' := BigEndian(s.respondTime, 4) + PriceBytes(s, vk), BigEndian(t.respondTime, 4) + PriceBytes(t, vk');
    var w3, w3' := BigEndian(s.chalSum, 4) + w4, BigEndian(t.chalSum, 4) + w4';
    var w2, w2' := BigEndian(s.period, 4) + w3, BigEndian(t.period, 4) + w3';
    var w1, w1' := BigEndian(s.interval, 4) + w2, BigEndian(t.interval, 4) + w2';
    var tag := FromText("alterFileProofSetting");
    SameSplit(c, tag + w1, d, tag + w1');
    SameSplit(tag, w1, tag, w1');
    SameSplit(BigEndian(s.interval, 4), w2, BigEndian(t.interval, 4), w2');
    SameSplit(BigEndian(s.period, 4), w3, BigEndian(t.period, 4), w3');
    SameSplit(BigEndian(s.chalSum, 4), w4, BigEndian(t.chalSum, 4), w4');
    SameSplit(BigEndian(s.respondTime, 4), PriceBytes(s, vk), BigEndian(t.respondTime, 4), PriceBytes(t, vk'));
    Uint32Same(s.interval, t.interval);
    Uint32Same(s.period, t.period);
    Uint32Same(s.chalSum, t.chalSum);
    Uint32Same(s.respondTime, t.respondTime);
    PricesInjective(s, vk, t, vk');
  }

  // The bytes of a setting determine it, its key and its contract, up to the signs of the two
  // pledges, among all settings, exactly when the pledges are separable.
  lemma SettingDetermined(c: Address, s: SettingInfo, vk: G2)
    ensures Separable(Abs(s.subPledge), Abs(s.chalPledge)) <==>
      forall d, t, vk' :: SettingPreimage(d, t, vk') == SettingPreimage(c, s, vk) ==>
        c == d && SameSetting(s, t) && vk == vk'
  {
    hide SettingPreimage, PadPair, Separable;
    if Separable(Abs(s.subPledge), Abs(s.chalPledge)) {
      forall d, t, vk' | SettingPreimage(d, t, vk') == SettingPreimage(c, s, vk)
        ensures c == d && SameSetting(s, t) && vk == vk'
      {
        SettingInjective(c, s, vk, d, t, vk');
      }
    } else {
      var m, n := OtherPair(Abs(s.subPledge), Abs(s.chalPledge));
      var t := s.(subPledge := m, chalPledge := n);
      SettingParts(c, t, vk, c, s, vk);
      assert SettingPreimage(c, t, vk) == SettingPreimage(c, s, vk) && !SameSetting(s, t);
    }
  }

  lemma SettingInjective(c: Address, s: SettingInfo, vk: G2, d: Address, t: SettingInfo, vk': G2)
    requires TellApart(Abs(s.subPledge), Abs(s.chalPledge), Abs(t.subPledge), Abs(t.chalPledge))
    ensures SettingPreimage(c, s, vk) == SettingPreimage(d, t, vk') <==> c == d && SameSetting(s, t) && vk == vk'
  {
    hide SettingPreimage;
    SettingParts(c, s, vk, d, t, vk');
    PairInjective(Abs(s.subPledge), Abs(s.chalPledge), Abs(t.subPledge), Abs(t.chalPledge));
  }

  // Two settings whose pledges run into each other.
  lemma SettingCollision(c: Address, s: SettingInfo, vk: G2)
    requires s.subPledge == Span(32) + 1 && s.chalPledge == 0
    ensures var t := s.(subPledge := Span(31), chalPledge := Span(32));
      SettingPreimage(c, s, vk) == SettingPreimage(c, t, vk) && !SameSetting(s, t)
  {
    hide Span, SettingPreimage, PadPair;
    ShiftedTimes();
    SettingParts(c, s, vk, c, s.(subPledge := Span(31), chalPledge := Span(32)), vk);
  }

  // Around a hash of known length the outer byte string determines its three parts, whatever
  // the size of the nonce.
  lemma AuthInjective(a: Address, m: int, h: seq<Byte>, b: Address, n: int, k: seq<Byte>)
    requires |h| == |k|
    ensures AuthPreimage(a, m, h) == AuthPreimage(b, n, k) <==> a == b && Abs(m) == Abs(n) && h == k
  {
    if AuthPreimage(a, m, h) == AuthPreimage(b, n, k) {
      var perm := FromText("perm");
      SameSplit(a, Padded(m) + (perm + h), b, Padded(n) + (perm + k));
      SameSplit(Padded(m), perm + h, Padded(n), perm + k);
      SameSplit(perm, h, perm, k);
      PaddedInjective(Abs(m), Abs(n), 32);
    }
  }

  predicate SameAlteration(a: Alteration, b: Alteration) {
    && a.control == b.control && a.auth == b.auth && SameSetting(a.setting, b.setting)
    && a.vk == b.vk && Abs(a.nonce) == Abs(b.nonce)
  }

  predicate Collides(keccak: Hasher, x: seq<Byte>, y: seq<Byte>) { x != y && keccak(x) == keccak(y) }

  function InnerPreimage(a: Alteration): seq<Byte> { SettingPreimage(a.control, a.setting, a.vk) }

  function OuterPreimage(keccak: Hasher, a: Alteration): seq<Byte> {
    AuthPreimage(a.auth, a.nonce, keccak(InnerPreimage(a)))
  }

  // Two alterations with the same hash have the same arguments, unless the hash function
  // collides on their own inner or outer byte strings.
  lemma AlterationBinding(keccak: Hasher, a: Alteration, b: Alteration)
    requires forall x :: |keccak(x)| == 32
    requires TellApart(Abs(a.setting.subPledge), Abs(a.setting.chalPledge),
                       Abs(b.setting.subPledge), Abs(b.setting.chalPledge))
    requires AlterationHash(keccak, a) == AlterationHash(keccak, b)
    ensures SameAlteration(a, b) || Collides(keccak, InnerPreimage(a), InnerPreimage(b)) ||
      Collides(keccak, OuterPreimage(keccak, a), OuterPreimage(keccak, b))
  {
    AuthInjective(a.auth, a.nonce, keccak(InnerPreimage(a)), b.auth, b.nonce, keccak(InnerPreimage(b)));
    SettingInjective(a.control, a.setting, a.vk, b.control, b.setting, b.vk);
  }

  // ---------- where the arguments are ----------

  lemma PartAt(bs: seq<Byte>, at: nat, part: seq<Byte>, rest: seq<Byte>)
    requires at <= |bs| && bs[at..] == part + rest
    ensures at + |part| <= |bs| && bs[at..at + |part|] == part && bs[at + |part|..] == rest
  {
    assert bs[at..][..|part|] == bs[at..at + |part|] && bs[at..][|part|..] == bs[at + |part|..];
  }

  lemma NumberAt(bs: seq<Byte>, at: nat, n: nat, w: nat, rest: seq<Byte>)
    requires at <= |bs| && bs[at..] == BigEndian(n, w) + rest && n < Span(w)
    ensures at + w <= |bs| && Value(bs[at..at + w]) == n && bs[at + w..] == rest
  {
    PartAt(bs, at, BigEndian(n, w), rest);
    ValueOfBigEndian(n, w);
    ModUnique(n, Span(w), 0, n);
  }

  lemma Widths()
    ensures Span(1) == 256 && Span(4) == 0x1_0000_0000 && Span(8) == 0x1_0000_0000_0000_0000
  {
    assert Span(4) == 0x1_0000_0000;
    SpanAdd(4, 4);
  }

  lemma PledgesAt(bs: seq<Byte>, at: nat, m: nat, n: nat, rest: seq<Byte>)
    requires at <= |bs| && bs[at..] == PadPair(m, n) + rest
    ensures m < Span(32) ==> at + 32 <= |bs| && Value(bs[at..at + 32]) == m && bs[at + 32..] == Pad(n) + rest
    ensures m < Span(32) && n < Span(32) ==>
      at + 64 <= |bs| && Value(bs[at + 32..at + 64]) == n && bs[at + 64..] == rest
  {
    hide Pad, Value, Span;
    PadShape(m);
    PadShape(n);
    var p, q := Pad(m), Pad(n);
    assert p + q + rest == p + (q + rest);
    PartAt(bs, at, p, q + rest);
    PartAt(bs, at + |p|, q, rest);
  }

  lemma TimesAt(bs: seq<Byte>, m: nat, n: nat)
    requires 176 <= |bs| && bs[176..] == PadPair(m, n)
    ensures m < Span(32) ==> 208 <= |bs| && Value(bs[176..208]) == m && Value(bs[208..]) == n
  {
    hide Pad, Value, Span, PadPair;
    PadShape(n);
    assert PadPair(m, n) + [] == PadPair(m, n) && Pad(n) + [] == Pad(n);
    PledgesAt(bs, 176, m, n, []);
  }

  // The credential's byte string: the two addresses, the commitment's words and the size at fixed
  // places, then the two times, of which the start takes 32 bytes if it fits them.
  lemma CredentialLayout(c: Credential)
    ensures var p := CredentialPreimage(c);
      && |p| >= 176
      && p[..20] == c.proof && p[20..40] == c.user && p[40..168] == Flatten(SolidityG1(c.commit))
      && Value(p[168..176]) == c.size
      && p[176..] == PadPair(Abs(c.start), Abs(c.end))
      && (Abs(c.start) < Span(32) ==>
            |p| >= 208 && Value(p[176..208]) == Abs(c.start) && Value(p[208..]) == Abs(c.end))
  {
    hide Flatten, SolidityG1, Pad, Value, BigEndian, Span, AppendedG1;
    LayoutsCoincide(c.commit, G2(0, 0, 0, 0));
    Widths();
    PadShape(Abs(c.end));
    var p := CredentialPreimage(c);
    assert p[0..] == p;
    var times := Padded(c.start) + Padded(c.end);
    PartAt(p, 0, c.proof, c.user + (AppendedG1(c.commit) + (BigEndian(c.size, 8) + times)));
    PartAt(p, 20, c.user, AppendedG1(c.commit) + (BigEndian(c.size, 8) + times));
    PartAt(p, 40, AppendedG1(c.commit), BigEndian(c.size, 8) + times);
    NumberAt(p, 168, c.size, 8, times);
    TimesAt(p, Abs(c.start), Abs(c.end));
  }

  // The setting's byte string: every field at its place, and the key's words after the pledges.
  lemma SettingLayout(control: Address, s: SettingInfo, vk: G2)
    ensures var p := SettingPreimage(control, s, vk);
      && |p| >= 66
      && p[..20] == control && AsText(p[20..41]) == "alterFileProofSetting"
      && Value(p[41..45]) == s.interval && Value(p[45..49]) == s.period
      && Value(p[49..53]) == s.chalSum && Value(p[53..57]) == s.respondTime
      && Value(p[57..65]) == s.price && Value(p[65..66]) == s.penaltyPercentage
      && p[66..] == PadPair(Abs(s.subPledge), Abs(s.chalPledge)) + Flatten(SolidityG2(vk))
  {
    LayoutsCoincide(G1(0, 0), vk);
    Widths();
    TagText();
    var p, tag := SettingPreimage(control, s, vk), FromText("alterFileProofSetting");
    hide Flatten, SolidityG2, Pad, Value, BigEndian, Span, FromText;
    var pledges := Padded(s.subPledge) + (Padded(s.chalPledge) + AppendedG2(vk));
    assert pledges == PadPair(Abs(s.subPledge), Abs(s.chalPledge)) + AppendedG2(vk);
    var w6 := BigEndian(s.penaltyPercentage, 1) + pledges;
    var w5 := BigEndian(s.price, 8) + w6;
    var w4 := BigEndian(s.respondTime, 4) + w5;
    var w3 := BigEndian(s.chalSum, 4) + w4;
    var w2 := BigEndian(s.period, 4) + w3;
    var w1 := BigEndian(s.interval, 4) + w2;
    assert p[0..] == p;
    PartAt(p, 0, control, tag + w1);
    PartAt(p, 20, tag, w1);
    NumberAt(p, 41, s.interval, 4, w2);
    NumberAt(p, 45, s.period, 4, w3);
    NumberAt(p, 49, s.chalSum, 4, w4);
    NumberAt(p, 53, s.respondTime, 4, w5);
    NumberAt(p, 57, s.price, 8, w6);
    NumberAt(p, 65, s.penaltyPercentage, 1, pledges);
  }

  lemma TagText()
    ensures AsText(FromText("alterFileProofSetting")) == "alterFileProofSetting"
    ensures AsText(FromText("perm")) == "perm"
  {
    FromTextAsText("alterFileProofSetting", []);
    FromTextAsText("perm", []);
  }

  // With pledges that fit 256-bit words the byte string is 386 bytes long.
  lemma PledgeLayout(control: Address, s: SettingInfo, vk: G2)
    requires Abs(s.subPledge) < Span(32) && Abs(s.chalPledge) < Span(32)
    ensures var p := SettingPreimage(control, s, vk);
      && |p| == 386
      && Value(p[66..98]) == Abs(s.subPledge) && Value(p[98..130]) == Abs(s.chalPledge)
      && p[130..386] == Flatten(SolidityG2(vk))
  {
    SettingLayout(control, s, vk);
    hide Flatten, SolidityG2, Pad, Value, Span, SettingPreimage;
    var p := SettingPreimage(control, s, vk);
    PledgesAt(p, 66, Abs(s.subPledge), Abs(s.chalPledge), Flatten(SolidityG2(vk)));
    assert p[130..386] == p[130..];
  }

  // The outer byte string: the address, the padded nonce, the tag and the inner hash.
  lemma AuthLayout(auth: Address, nonce: int, hash: seq<Byte>)
    ensures var p := AuthPreimage(auth, nonce, hash); var k := |p| - |hash|;
      && k >= 56
      && p[..20] == auth && Value(p[20..k - 4]) == Abs(nonce)
      && AsText(p[k - 4..k]) == "perm" && p[k..] == hash
      && (Abs(nonce) < Span(32) <==> k == 56)
  {
    hide Pad, Value, FromText, Span, AsText;
    TagText();
    PadShape(Abs(nonce));
    var p, perm, m := AuthPreimage(auth, nonce, hash), FromText("perm"), Padded(nonce);
    assert p[0..] == p;
    PartAt(p, 0, auth, m + (perm + hash));
    PartAt(p, 20, m, perm + hash);
    PartAt(p, 20 + |m|, perm, hash);
  }

  // What is hashed for an alteration: the outer byte string for its own address and nonce, around
  // the hash of the inner one for its contract, setting and key.
  lemma AlterationLayout(keccak: Hasher, a: Alteration)
    ensures AlterationHash(keccak, a) == keccak(OuterPreimage(keccak, a))
    ensures var outer, inner := OuterPreimage(keccak, a), InnerPreimage(a); var k := |outer| - |keccak(inner)|;
      && k >= 56 && outer[..20] == a.auth && Value(outer[20..k - 4]) == Abs(a.nonce) && outer[k..] == keccak(inner)
      && |inner| >= 66 && inner[..20] == a.control
      && Value(inner[41..45]) == a.setting.interval
      && inner[66..] == PadPair(Abs(a.setting.subPledge), Abs(a.setting.chalPledge)) + Flatten(SolidityG2(a.vk))
  {
    hide SettingPreimage, AuthPreimage, Value, Flatten, SolidityG2, PadPair, Span, AsText;
    AuthLayout(a.auth, a.nonce, keccak(InnerPreimage(a)));
    SettingLayout(a.control, a.setting, a.vk);
  }

  // The key under which GetFileInfo looks a commitment up is the part of the credential's byte
  // string that stands for the commitment.
  lemma LookupKeyIsHashed(c: Credential)
    ensures |CredentialPreimage(c)| >= 168
    ensures CredentialPreimage(c)[40..168] == Flatten(SolidityG1(c.commit))
  {
    LayoutsCoincide(c.commit, G2(0, 0, 0, 0));
    var rest := BigEndian(c.size, 8) + (Padded(c.start) + Padded(c.end));
    var front: seq<Byte>, user: seq<Byte> := c.proof, c.user;
    assert CredentialPreimage(c) == front + user + (AppendedG1(c.commit) + rest);
  }
}
