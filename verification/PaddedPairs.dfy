/**
 Two padded big integers, one after the other, with nothing to mark where the first one ends.
 */
module PaddedPairs {
  import opened Bytes

  // common.LeftPadBytes(x.Bytes(), 32)
  function Pad(n: nat): seq<Byte> { LeftPad(Minimal(n), 32) }

  function PadPair(m: nat, n: nat): seq<Byte> { Pad(m) + Pad(n) }

  // Is everything below the first 32 bytes of a number zero? True of all numbers that fit them.
  predicate RoundBelow32(n: nat) {
    n < Span(32) || (|Minimal(n)| > 32 && n % Span(|Minimal(n)| - 32) == 0)
  }

  // Either the first number takes at most 31 bytes, or the second takes at most 32 and the
  // first is round.
  predicate Separable(m: nat, n: nat) {
    m < Span(31) || (n < Span(32) && RoundBelow32(m))
  }

  // ---------- the byte strings that padding makes ----------

  predicate IsPadded(bs: seq<Byte>) { |bs| == 32 || (|bs| > 32 && bs[0] != 0) }

  lemma PadShape(n: nat)
    ensures IsPadded(Pad(n)) && Value(Pad(n)) == n
    ensures Pad(n)[0] == 0 <==> n < Span(31)
    ensures |Pad(n)| == 32 <==> n < Span(32)
    ensures |Minimal(n)| >= 32 ==> Pad(n) == Minimal(n)
  {
    MinimalFits(n, 31);
    MinimalFits(n, 32);
    MinimalValue(n);
    ValueSkipsZeros(if |Minimal(n)| >= 32 then 0 else 32 - |Minimal(n)|, Minimal(n));
  }

  lemma {:induction false} MinimalOfValue(bs: seq<Byte>)
    requires bs != [] && bs[0] != 0
    ensures Value(bs) > 0 && Minimal(Value(bs)) == bs
  {
    var init := bs[..|bs| - 1];
    assert bs == init + [bs[|bs| - 1]];
    if init == [] {
      assert Value(bs) == bs[0] && Minimal(Value(bs)) == Minimal(0) + [bs[0]];
    } else {
      MinimalOfValue(init);
      assert Value(bs) / 256 == Value(init) && Value(bs) % 256 == bs[|bs| - 1];
    }
  }

  lemma PadOfShape(bs: seq<Byte>)
    requires IsPadded(bs)
    ensures Pad(Value(bs)) == bs
  {
    if |bs| == 32 {
      ValueBound(bs);
      PaddedIsFixedWidth(Value(bs), 32);
      BigEndianOfValue(bs);
    } else {
      MinimalOfValue(bs);
    }
  }

  // ---------- roundness, byte by byte ----------

  predicate AllZero(bs: seq<Byte>) { forall i :: 0 <= i < |bs| ==> bs[i] == 0 }

  lemma {:induction false} ValueConcat(a: seq<Byte>, b: seq<Byte>)
    ensures Value(a + b) == Value(a) * Span(|b|) + Value(b)
  {
    if b == [] {
      assert a + b == a;
    } else {
      var init := b[..|b| - 1];
      ValueConcat(a, init);
      assert (a + b)[..|a + b| - 1] == a + init;
      assert Value(a) * Span(|init|) * 256 == Value(a) * Span(|b|);
    }
  }

  lemma {:induction false} ValueZero(bs: seq<Byte>)
    ensures Value(bs) == 0 <==> AllZero(bs)
  {
    if bs != [] {
      var init := bs[..|bs| - 1];
      ValueZero(init);
      assert forall i :: 0 <= i < |init| ==> bs[i] == init[i];
    }
  }

  lemma RoundBytes(n: nat)
    ensures RoundBelow32(n) <==> AllZero(Pad(n)[32..])
  {
    PadShape(n);
    MinimalFits(n, 32);
    var bs := Pad(n);
    hide Pad, Minimal, LeftPad, Value, Span;
    if n >= Span(32) {
      RoundTail(n, bs);
    } else {
      assert bs[32..] == [];
    }
  }

  lemma RoundTail(n: nat, bs: seq<Byte>)
    requires |bs| > 32 && Value(bs) == n
    ensures n % Span(|bs| - 32) == 0 <==> AllZero(bs[32..])
  {
    hide Value, Span;
    var front, back := bs[..32], bs[32..];
    assert bs == front + back;
    ValueConcat(front, back);
    ValueBound(back);
    ValueZero(back);
    Remainder(n, Span(|back|), Value(front), Value(back));
  }

  lemma Remainder(n: nat, m: nat, q: nat, r: nat)
    requires r < m && n == q * m + r
    ensures n % m == r
  {
    ModUnique(n, m, q, r);
  }

  // ---------- exactly which pairs are determined ----------

  // Another way to cut the bytes of a pair keeps to the shape of padded numbers.
  lemma SeparablePair(m: nat, n: nat, m': nat, n': nat)
    requires Separable(m, n) && PadPair(m, n) == PadPair(m', n')
    ensures m == m' && n == n'
  {
    PadShape(m);
    PadShape(n);
    PadShape(m');
    PadShape(n');
    RoundBytes(m);
    hide Pad, Minimal, Span;
    SameCut(Pad(m), Pad(n), Pad(m'), Pad(n'));
    SameSplit(Pad(m), Pad(n), Pad(m'), Pad(n'));
  }

  lemma SameCut(p: seq<Byte>, q: seq<Byte>, p': seq<Byte>, q': seq<Byte>)
    requires IsPadded(p) && IsPadded(q) && IsPadded(p') && IsPadded(q') && p + q == p' + q'
    requires p[0] == 0 || (|q| == 32 && AllZero(p[32..]))
    ensures |p| == |p'|
  {
    var bytes := p + q;
    assert bytes[0] == p[0] && bytes[0] == p'[0];
    assert bytes[|p'|] == q'[0];
    assert forall i :: 32 <= i < |p| ==> bytes[i] == p[32..][i - 32];
  }

  // A pair that is not separable shares its bytes with another pair.
  lemma OtherPair(m: nat, n: nat) returns (m': nat, n': nat)
    requires !Separable(m, n)
    ensures PadPair(m', n') == PadPair(m, n) && m' != m
  {
    PadShape(m);
    PadShape(n);
    RoundBytes(m);
    hide Pad, Minimal, Span, Value;
    var bytes := Pad(m) + Pad(n);
    var cut := OtherCut(Pad(m), Pad(n));
    m', n' := Value(bytes[..cut]), Value(bytes[cut..]);
    PadOfShape(bytes[..cut]);
    PadOfShape(bytes[cut..]);
    assert bytes == bytes[..cut] + bytes[cut..];
  }

  lemma OtherCut(p: seq<Byte>, q: seq<Byte>) returns (cut: nat)
    requires IsPadded(p) && IsPadded(q) && p[0] != 0
    requires |q| > 32 || !AllZero(p[32..])
    ensures cut != |p| && cut <= |p + q| && IsPadded((p + q)[..cut]) && IsPadded((p + q)[cut..])
  {
    var bytes := p + q;
    if |q| > 32 {
      cut := |bytes| - 32;
    } else {
      var i :| 0 <= i < |p[32..]| && p[32..][i] != 0;
      cut := 32 + i;
      assert bytes[cut] == p[32..][i];
    }
  }

  // A pair is determined by its bytes, among all pairs, exactly when it is separable.
  lemma PairDetermined(m: nat, n: nat)
    ensures Separable(m, n) <==> forall m', n' :: PadPair(m', n') == PadPair(m, n) ==> m' == m && n' == n
  {
    hide PadPair, Separable;
    if Separable(m, n) {
      forall m', n' | PadPair(m', n') == PadPair(m, n)
        ensures m' == m && n' == n
      {
        SeparablePair(m, n, m', n');
      }
    } else {
      var m', n' := OtherPair(m, n);
    }
  }

  // Either pair is separable, or both first numbers take equally many bytes, as all that fit 32
  // bytes do once they are padded.
  predicate TellApart(m: nat, n: nat, m': nat, n': nat) {
    Separable(m, n) || Separable(m', n') || |Pad(m)| == |Pad(m')|
  }

  lemma PairInjective(m: nat, n: nat, m': nat, n': nat)
    requires TellApart(m, n, m', n')
    ensures PadPair(m, n) == PadPair(m', n') <==> m == m' && n == n'
  {
    if PadPair(m, n) == PadPair(m', n') {
      if Separable(m, n) {
        SeparablePair(m, n, m', n');
      } else if Separable(m', n') {
        SeparablePair(m', n', m, n);
      } else {
        SameSplit(Pad(m), Pad(n), Pad(m'), Pad(n'));
        PaddedInjective(m, m', 32);
        PaddedInjective(n, n', 32);
      }
    }
  }
}
