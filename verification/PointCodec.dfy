/**
 Points and opening proofs of BLS12-381 as contract words. A 381-bit coordinate takes two 32-byte
 words, the 64-byte field encoding of EIP-2537; reading one back reduces it modulo the field.
 */
module PointCodec {
  import opened Bytes

  // The moduli of the base field and of the scalar field.
  const FP_MODULUS: nat :=
    0x1a0111ea397fe69a4b1ba7b6434bacd764774b84f38512bf6730d2a0f6b0f6241eabfffeb153ffffb9feffffffffaaab
  const FR_MODULUS: nat := 0x73eda753299d7d483339d80809a1d80553bda402fffe5bfeffffffff00000001

  type Fp = n: nat | n < FP_MODULUS
  type Fr = n: nat | n < FR_MODULUS

  datatype G1 = G1(x: Fp, y: Fp)
  datatype G2 = G2(x0: Fp, x1: Fp, y0: Fp, y1: Fp)
  datatype OpeningProof = OpeningProof(h: G1, claimedValue: Fr)

  type Word = bs: seq<Byte> | |bs| == 32 witness Zeros(32)

  // The 64 bytes of a coordinate's two words.
  function Both(hi: Word, lo: Word): (bs: seq<Byte>)
    ensures |bs| == 64
  {
    var front: seq<Byte>, back: seq<Byte> := hi, lo;
    front + back
  }

  datatype ProofInfo = ProofInfo(npsi: seq<Word>, y: Word)

  // SetBytes of the two fields.
  function ToFp(bs: seq<Byte>): Fp { Value(bs) % FP_MODULUS }

  function ToFr(bs: seq<Byte>): Fr { Value(bs) % FR_MODULUS }

  function FpBytes(x: Fp): (bs: seq<Byte>)
    ensures |bs| == 48
  {
    BigEndian(x, 48)
  }

  // ---------- specification ----------

  function CoordinateWords(x: Fp): (ws: seq<Word>)
    ensures |ws| == 2
  {
    [Zeros(16) + FpBytes(x)[..16], FpBytes(x)[16..]]
  }

  function SolidityG1(g: G1): (ws: seq<Word>)
    ensures |ws| == 4
  {
    CoordinateWords(g.x) + CoordinateWords(g.y)
  }

  function SolidityG2(g: G2): (ws: seq<Word>)
    ensures |ws| == 8
  {
    CoordinateWords(g.x0) + CoordinateWords(g.x1) + CoordinateWords(g.y0) + CoordinateWords(g.y1)
  }

  function FromSolidityG1(ws: seq<Word>): G1
    requires |ws| == 4
  {
    G1(ToFp(Both(ws[0], ws[1])), ToFp(Both(ws[2], ws[3])))
  }

  function FromSolidityG2(ws: seq<Word>): G2
    requires |ws| == 8
  {
    G2(ToFp(Both(ws[0], ws[1])), ToFp(Both(ws[2], ws[3])), ToFp(Both(ws[4], ws[5])), ToFp(Both(ws[6], ws[7])))
  }

  function SolidityProof(p: OpeningProof): ProofInfo {
    ScalarFits();
    ProofInfo(SolidityG1(p.h), BigEndian(p.claimedValue, 32))
  }

  function FromSolidityProof(p: ProofInfo): OpeningProof
    requires |p.npsi| == 4
  {
    OpeningProof(FromSolidityG1(p.npsi), ToFr(p.y))
  }

  function AppendedCoordinate(x: Fp): seq<Byte> { LeftPad(FpBytes(x), 64) }

  function AppendedG1(g: G1): seq<Byte> { AppendedCoordinate(g.x) + AppendedCoordinate(g.y) }

  function AppendedG2(g: G2): seq<Byte> {
    AppendedCoordinate(g.x0) + AppendedCoordinate(g.x1) + AppendedCoordinate(g.y0) + AppendedCoordinate(g.y1)
  }

  function Flatten(ws: seq<Word>): (bs: seq<Byte>)
    ensures |bs| == 32 * |ws|
  {
    if ws == [] then [] else Flatten(ws[..|ws| - 1]) + ws[|ws| - 1]
  }

  // ---------- the buffers ----------

  // copy(hi[16:], element[:16]); copy(lo[:], element[16:])
  method CoordinateToWords(x: Fp) returns (hi: Word, lo: Word)
    ensures [hi, lo] == CoordinateWords(x)
  {
    var element := FpBytes(x);
    var high, low := new Byte[32](_ => 0), new Byte[32](_ => 0);
    Copy(high, 16, element[..16]);
    Copy(low, 0, element[16..]);
    hi, lo := high[..], low[..];
    assert hi == Zeros(16) + element[..16];
    assert lo == element[16..];
  }

  method ToSolidityG1(g1: G1) returns (res: seq<Word>)
    ensures res == SolidityG1(g1)
  {
    var x0, x1 := CoordinateToWords(g1.x);
    var y0, y1 := CoordinateToWords(g1.y);
    res := [x0, x1, y0, y1];
    assert res == [x0, x1] + [y0, y1];
  }

  method ToSolidityG2(g2: G2) returns (res: seq<Word>)
    ensures res == SolidityG2(g2)
  {
    var a0, a1 := CoordinateToWords(g2.x0);
    var b0, b1 := CoordinateToWords(g2.x1);
    var c0, c1 := CoordinateToWords(g2.y0);
    var d0, d1 := CoordinateToWords(g2.y1);
    res := [a0, a1, b0, b1, c0, c1, d0, d1];
    assert res == [a0, a1] + [b0, b1] + [c0, c1] + [d0, d1];
  }

  method ToSolidityProof(proof: OpeningProof) returns (res: ProofInfo)
    ensures res == SolidityProof(proof)
  {
    var pi := ToSolidityG1(proof.h);
    ScalarFits();
    res := ProofInfo(pi, BigEndian(proof.claimedValue, 32));
  }

  method ToAppendedBytesG1(g1: G1) returns (bytes: seq<Byte>)
    ensures bytes == AppendedG1(g1)
  {
    var res := new Byte[128](_ => 0);
    Copy(res, 0, AppendedCoordinate(g1.x));
    Copy(res, 64, AppendedCoordinate(g1.y));
    bytes := res[..];
  }

  method ToAppendedBytesG2(g2: G2) returns (bytes: seq<Byte>)
    ensures bytes == AppendedG2(g2)
  {
    var res := new Byte[256](_ => 0);
    Copy(res, 0, AppendedCoordinate(g2.x0));
    Copy(res, 64, AppendedCoordinate(g2.x1));
    Copy(res, 128, AppendedCoordinate(g2.y0));
    Copy(res, 192, AppendedCoordinate(g2.y1));
    bytes := res[..];
  }

  // The lookup key that GetFileInfo appends from the four words of a commitment.
  method FileInfoKey(commit: G1) returns (key: seq<Byte>)
    ensures key == Flatten(SolidityG1(commit))
  {
    var commitment := ToSolidityG1(commit);
    key := Both(commitment[0], commitment[1]);
    key := key + commitment[2];
    key := key + commitment[3];
    FlattenFour(commitment);
  }

  // ---------- sizes ----------

  lemma {:induction false} SpanAdd(v: nat, w: nat)
    ensures Span(v + w) == Span(v) * Span(w)
    decreases w
  {
    if w == 0 {
    } else {
      SpanAdd(v, w - 1);
      assert Span(v) * (256 * Span(w - 1)) == 256 * (Span(v) * Span(w - 1));
    }
  }

  lemma LargeSpans()
    ensures Span(16) == 0x1_0000_0000_0000_0000_0000_0000_0000_0000
    ensures Span(32) == 0x1_0000_0000_0000_0000_0000_0000_0000_0000_0000_0000_0000_0000_0000_0000_0000_0000
  {
    assert Span(4) == 0x1_0000_0000;
    SpanAdd(4, 4);
    SpanAdd(8, 8);
    SpanAdd(16, 16);
  }

  lemma CoordinateFits()
    ensures FP_MODULUS < Span(48)
  {
    LargeSpans();
    SpanAdd(32, 16);
  }

  lemma ScalarFits()
    ensures FR_MODULUS < Span(32)
  {
    LargeSpans();
  }

  // Both moduli come from the parameter x of the curve: r = x^4 - x^2 + 1 and
  // 3p = (x - 1)^2 r + 3x.
  lemma ModuliOfCurve()
    ensures var x := -0xd201_0000_0001_0000;
      FR_MODULUS == x * x * x * x - x * x + 1 && 3 * FP_MODULUS == (x - 1) * (x - 1) * FR_MODULUS + 3 * x
  {
  }

  // ---------- one coordinate ----------

  // Both layouts of a coordinate are its 64-byte big-endian encoding.
  lemma CoordinateEncoding(x: Fp)
    ensures Both(CoordinateWords(x)[0], CoordinateWords(x)[1]) == BigEndian(x, 64)
    ensures AppendedCoordinate(x) == BigEndian(x, 64)
  {
    CoordinateFits();
    LeadingZerosValue(48, x, 64);
    var bs := FpBytes(x);
    assert bs == bs[..16] + bs[16..];
    assert Zeros(16) + bs[..16] + bs[16..] == Zeros(16) + bs;
  }

  lemma CoordinateRoundTrip(x: Fp)
    ensures ToFp(Both(CoordinateWords(x)[0], CoordinateWords(x)[1])) == x
  {
    CoordinateEncoding(x);
    CoordinateFits();
    LeadingZerosValue(48, x, 64);
    ValueOfBigEndian(x, 48);
    ValueSkipsZeros(16, BigEndian(x, 48));
    ModUnique(x, Span(48), 0, x);
    ModUnique(x, FP_MODULUS, 0, x);
  }

  // Decoding and encoding two words gives them back exactly when they hold a reduced coordinate.
  lemma CoordinateCanonical(hi: Word, lo: Word)
    ensures CoordinateWords(ToFp(Both(hi, lo))) == [hi, lo] <==> Value(Both(hi, lo)) < FP_MODULUS
  {
    var x := ToFp(Both(hi, lo));
    CoordinateEncoding(x);
    CoordinateRoundTrip(x);
    if Value(Both(hi, lo)) < FP_MODULUS {
      ModUnique(Value(Both(hi, lo)), FP_MODULUS, 0, Value(Both(hi, lo)));
      BigEndianOfValue(Both(hi, lo));
      SameSplit(CoordinateWords(x)[0], CoordinateWords(x)[1], hi, lo);
    }
    CoordinateValue(x);
  }

  lemma CoordinateValue(x: Fp)
    ensures Value(Both(CoordinateWords(x)[0], CoordinateWords(x)[1])) == x
  {
    CoordinateEncoding(x);
    CoordinateFits();
    LeadingZerosValue(48, x, 64);
    ValueOfBigEndian(x, 48);
    ValueSkipsZeros(16, BigEndian(x, 48));
    ModUnique(x, Span(48), 0, x);
  }

  // ---------- points and proofs ----------

  // Which coordinate which words hold.
  lemma G1Words(g: G1)
    ensures var ws := SolidityG1(g); Value(Both(ws[0], ws[1])) == g.x && Value(Both(ws[2], ws[3])) == g.y
  {
    CoordinateValue(g.x);
    CoordinateValue(g.y);
  }

  lemma G2Words(g: G2)
    ensures var ws := SolidityG2(g);
      && Value(Both(ws[0], ws[1])) == g.x0 && Value(Both(ws[2], ws[3])) == g.x1
      && Value(Both(ws[4], ws[5])) == g.y0 && Value(Both(ws[6], ws[7])) == g.y1
  {
    hide CoordinateWords;
    CoordinateValue(g.x0);
    CoordinateValue(g.x1);
    CoordinateValue(g.y0);
    CoordinateValue(g.y1);
  }

  lemma ProofWords(p: OpeningProof)
    ensures var info := SolidityProof(p); info.npsi == SolidityG1(p.h) && Value(info.y) == p.claimedValue
  {
    ScalarFits();
    ValueOfBigEndian(p.claimedValue, 32);
    ModUnique(p.claimedValue, Span(32), 0, p.claimedValue);
  }

  lemma G1RoundTrip(g: G1)
    ensures FromSolidityG1(SolidityG1(g)) == g
  {
    CoordinateRoundTrip(g.x);
    CoordinateRoundTrip(g.y);
  }

  lemma G2RoundTrip(g: G2)
    ensures FromSolidityG2(SolidityG2(g)) == g
  {
    CoordinateRoundTrip(g.x0);
    CoordinateRoundTrip(g.x1);
    CoordinateRoundTrip(g.y0);
    CoordinateRoundTrip(g.y1);
  }

  predicate ReducedAt(ws: seq<Word>, i: nat)
    requires 2 * i + 1 < |ws|
  {
    Value(Both(ws[2 * i], ws[2 * i + 1])) < FP_MODULUS
  }

  // Encoding what was decoded gives the words back exactly when every coordinate is reduced.
  lemma G1Canonical(ws: seq<Word>)
    requires |ws| == 4
    ensures SolidityG1(FromSolidityG1(ws)) == ws <==> ReducedAt(ws, 0) && ReducedAt(ws, 1)
  {
    CoordinateCanonical(ws[0], ws[1]);
    CoordinateCanonical(ws[2], ws[3]);
    var out := SolidityG1(FromSolidityG1(ws));
    assert out[..2] == CoordinateWords(ToFp(Both(ws[0], ws[1]))) && ws[..2] == [ws[0], ws[1]];
    assert out[2..] == CoordinateWords(ToFp(Both(ws[2], ws[3]))) && ws[2..] == [ws[2], ws[3]];
    assert out == out[..2] + out[2..] && ws == ws[..2] + ws[2..];
  }

  lemma G2Canonical(ws: seq<Word>)
    requires |ws| == 8
    ensures SolidityG2(FromSolidityG2(ws)) == ws <==>
      ReducedAt(ws, 0) && ReducedAt(ws, 1) && ReducedAt(ws, 2) && ReducedAt(ws, 3)
  {
    CoordinateCanonical(ws[0], ws[1]);
    CoordinateCanonical(ws[2], ws[3]);
    CoordinateCanonical(ws[4], ws[5]);
    CoordinateCanonical(ws[6], ws[7]);
    var out := SolidityG2(FromSolidityG2(ws));
    assert out[..2] == CoordinateWords(ToFp(Both(ws[0], ws[1]))) && ws[..2] == [ws[0], ws[1]];
    assert out[2..4] == CoordinateWords(ToFp(Both(ws[2], ws[3]))) && ws[2..4] == [ws[2], ws[3]];
    assert out[4..6] == CoordinateWords(ToFp(Both(ws[4], ws[5]))) && ws[4..6] == [ws[4], ws[5]];
    assert out[6..] == CoordinateWords(ToFp(Both(ws[6], ws[7]))) && ws[6..] == [ws[6], ws[7]];
    assert out == out[..2] + out[2..4] + out[4..6] + out[6..] && ws == ws[..2] + ws[2..4] + ws[4..6] + ws[6..];
  }

  lemma ScalarRoundTrip(v: Fr)
    ensures ToFr(BigEndian(v, 32)) == v
  {
    ScalarFits();
    ValueOfBigEndian(v, 32);
    ModUnique(v, Span(32), 0, v);
    ModUnique(v, FR_MODULUS, 0, v);
  }

  lemma ScalarCanonical(y: Word)
    ensures BigEndian(ToFr(y), 32) == y <==> Value(y) < FR_MODULUS
  {
    ScalarFits();
    var v := ToFr(y);
    ValueOfBigEndian(v, 32);
    ModUnique(v, Span(32), 0, v);
    if Value(y) < FR_MODULUS {
      ModUnique(Value(y), FR_MODULUS, 0, Value(y));
      BigEndianOfValue(y);
    }
  }

  // A proof decodes to itself; contract data encodes back to itself exactly when both
  // coordinates and the claimed value are reduced.
  lemma ProofRoundTrip(p: OpeningProof, info: ProofInfo)
    requires |info.npsi| == 4
    ensures FromSolidityProof(SolidityProof(p)) == p
    ensures SolidityProof(FromSolidityProof(info)) == info <==>
      ReducedAt(info.npsi, 0) && ReducedAt(info.npsi, 1) && Value(info.y) < FR_MODULUS
  {
    G1RoundTrip(p.h);
    ScalarRoundTrip(p.claimedValue);
    G1Canonical(info.npsi);
    ScalarCanonical(info.y);
  }

  // Otherwise decoding and encoding normalises: doing it again changes nothing.
  lemma NormalisationIdempotent(info: ProofInfo, ws: seq<Word>)
    requires |info.npsi| == 4 && |ws| == 8
    ensures var once := SolidityProof(FromSolidityProof(info));
      SolidityProof(FromSolidityProof(once)) == once && FromSolidityProof(once) == FromSolidityProof(info)
    ensures var once := SolidityG2(FromSolidityG2(ws));
      SolidityG2(FromSolidityG2(once)) == once && FromSolidityG2(once) == FromSolidityG2(ws)
  {
    ProofRoundTrip(FromSolidityProof(info), info);
    G2RoundTrip(FromSolidityG2(ws));
  }

  // ---------- the two layouts ----------

  lemma FlattenTwo(ws: seq<Word>)
    requires |ws| == 2
    ensures Flatten(ws) == Both(ws[0], ws[1])
  {
  }

  lemma FlattenFour(ws: seq<Word>)
    requires |ws| == 4
    ensures Flatten(ws) == Both(ws[0], ws[1]) + ws[2] + ws[3]
  {
    FlattenTwo(ws[..3][..2]);
    assert Flatten(ws[..3]) == Flatten(ws[..3][..2]) + ws[2];
  }

  lemma {:induction false} FlattenAppend(us: seq<Word>, ws: seq<Word>)
    ensures Flatten(us + ws) == Flatten(us) + Flatten(ws)
  {
    if ws == [] {
      assert us + ws == us;
    } else {
      FlattenAppend(us, ws[..|ws| - 1]);
      assert (us + ws)[..|us + ws| - 1] == us + ws[..|ws| - 1];
    }
  }

  lemma FlattenCoordinate(x: Fp)
    ensures Flatten(CoordinateWords(x)) == AppendedCoordinate(x)
  {
  }

  // The words of a point, one after the other, are its appended bytes.
  lemma LayoutsCoincide(g: G1, h: G2)
    ensures Flatten(SolidityG1(g)) == AppendedG1(g)
    ensures Flatten(SolidityG2(h)) == AppendedG2(h)
  {
    FlattenCoordinate(g.x);
    FlattenCoordinate(g.y);
    FlattenAppend(CoordinateWords(g.x), CoordinateWords(g.y));
    var a, b, c, d := CoordinateWords(h.x0), CoordinateWords(h.x1), CoordinateWords(h.y0), CoordinateWords(h.y1);
    FlattenCoordinate(h.x0);
    FlattenCoordinate(h.x1);
    FlattenCoordinate(h.y0);
    FlattenCoordinate(h.y1);
    FlattenAppend(a, b);
    FlattenAppend(a + b, c);
    FlattenAppend(a + b + c, d);
  }

  // A point's appended bytes determine it.
  lemma AppendedInjective(g: G1, g': G1, h: G2, h': G2)
    ensures AppendedG1(g) == AppendedG1(g') ==> g == g'
    ensures AppendedG2(h) == AppendedG2(h') ==> h == h'
    ensures |AppendedG1(g)| == 128 && |AppendedG2(h)| == 256
  {
    if AppendedG1(g) == AppendedG1(g') {
      SameSplit(AppendedCoordinate(g.x), AppendedCoordinate(g.y), AppendedCoordinate(g'.x), AppendedCoordinate(g'.y));
      SameCoordinate(g.x, g'.x);
      SameCoordinate(g.y, g'.y);
    }
    if AppendedG2(h) == AppendedG2(h') {
      var ab := AppendedCoordinate(h.x0) + AppendedCoordinate(h.x1);
      var ab' := AppendedCoordinate(h'.x0) + AppendedCoordinate(h'.x1);
      var abc, abc' := ab + AppendedCoordinate(h.y0), ab' + AppendedCoordinate(h'.y0);
      SameSplit(abc, AppendedCoordinate(h.y1), abc', AppendedCoordinate(h'.y1));
      SameSplit(ab, AppendedCoordinate(h.y0), ab', AppendedCoordinate(h'.y0));
      SameSplit(AppendedCoordinate(h.x0), AppendedCoordinate(h.x1),
                AppendedCoordinate(h'.x0), AppendedCoordinate(h'.x1));
      SameCoordinate(h.x0, h'.x0);
      SameCoordinate(h.x1, h'.x1);
      SameCoordinate(h.y0, h'.y0);
      SameCoordinate(h.y1, h'.y1);
    }
  }

  lemma SameCoordinate(x: Fp, y: Fp)
    requires AppendedCoordinate(x) == AppendedCoordinate(y)
    ensures x == y
  {
    CoordinateEncoding(x);
    CoordinateEncoding(y);
    CoordinateValue(x);
    CoordinateValue(y);
  }
}
