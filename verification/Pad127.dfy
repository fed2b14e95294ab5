/**
 The repacking of 127 bytes into four 254-bit blocks, each in a 32-byte little-endian buffer,
 from which four field elements are then read.
 */
module Pad127 {
  import opened Bytes
  import opened PointCodec

  function Nats(bs: seq<bv8>): (ns: seq<Byte>)
    ensures |ns| == |bs|
  {
    seq(|bs|, i requires 0 <= i < |bs| => bs[i] as nat)
  }

  // Little-endian value of a byte string, and the byte string of a value.
  function Low(bs: seq<Byte>): nat {
    if bs == [] then 0 else bs[0] + 256 * Low(bs[1..])
  }

  function LittleEndian(n: nat, w: nat): (bs: seq<Byte>)
    ensures |bs| == w
  {
    if w == 0 then [] else [n % 256] + LittleEndian(n / 256, w - 1)
  }

  // 2^254
  const BLOCK: nat := 0x4000_0000_0000_0000_0000_0000_0000_0000_0000_0000_0000_0000_0000_0000_0000_0000

  // The j-th 254-bit digit of n: (n / 2^(254 j)) mod 2^254.
  function Digit(n: nat, j: nat): nat {
    if j == 0 then n % BLOCK else Digit(n / BLOCK, j - 1)
  }

  // The input cut to 127 bytes, or filled up with zeros.
  function Fit(input: seq<bv8>): (bs: seq<bv8>)
    ensures |bs| == 127
  {
    if |input| >= 127 then input[..127] else input + seq(127 - |input|, _ => 0)
  }

  // ---------- one byte ----------

  lemma Carry2(v: bv8, t: bv8)
    requires t < 4
    ensures ((v << 2) | t) as nat + 256 * ((v >> 6) as nat) == v as nat * 4 + t as nat && (v >> 6) < 4
  {
  }

  lemma Carry4(v: bv8, t: bv8)
    requires t < 16
    ensures ((v << 4) | t) as nat + 256 * ((v >> 4) as nat) == v as nat * 16 + t as nat && (v >> 4) < 16
  {
  }

  lemma Carry6(v: bv8, t: bv8)
    requires t < 64
    ensures ((v << 6) | t) as nat + 256 * ((v >> 2) as nat) == v as nat * 64 + t as nat && (v >> 2) < 64
  {
  }

  // What masking the top byte of a block cuts off goes into the next carry.
  lemma Top0(v: bv8)
    ensures (v & 0x3f) as nat + 64 * ((v >> 6) as nat) == v as nat && (v & 0x3f) < 64 && (v >> 6) < 4
  {
  }

  lemma Top2(v: bv8, t: bv8)
    requires t < 4
    ensures var x := (v << 2) | t;
      && (x & 0x3f) as nat + 64 * ((v >> 4) as nat) == x as nat + 256 * ((v >> 6) as nat)
      && (x & 0x3f) < 64 && (v >> 4) < 16
  {
  }

  lemma Top4(v: bv8, t: bv8)
    requires t < 16
    ensures var x := (v << 4) | t;
      && (x & 0x3f) as nat + 64 * ((v >> 2) as nat) == x as nat + 256 * ((v >> 4) as nat)
      && (x & 0x3f) < 64 && (v >> 2) < 64
  {
  }

  // ---------- values ----------

  lemma {:induction false} LowBound(bs: seq<Byte>)
    ensures Low(bs) < Span(|bs|)
  {
    if bs != [] {
      LowBound(bs[1..]);
    }
  }

  lemma Scale(s: nat, l: nat)
    ensures 256 * (s * l) == 256 * s * l
  {
  }

  lemma {:induction false} LowConcat(a: seq<Byte>, b: seq<Byte>)
    ensures Low(a + b) == Low(a) + Span(|a|) * Low(b)
  {
    if a == [] {
      assert a + b == b;
    } else {
      LowConcat(a[1..], b);
      assert (a + b)[1..] == a[1..] + b;
      Scale(Span(|a| - 1), Low(b));
    }
  }

  lemma LowAppend(bs: seq<Byte>, b: Byte)
    ensures Low(bs + [b]) == Low(bs) + b * Span(|bs|)
  {
    LowConcat(bs, [b]);
    LowSingle(b);
    hide Low, Span;
  }

  lemma LowSingle(b: Byte)
    ensures Low([b]) == b
  {
  }

  lemma {:induction false} LowOfLittleEndian(n: nat, w: nat)
    ensures Low(LittleEndian(n, w)) == n % Span(w)
    decreases w
  {
    if w != 0 {
      LowOfLittleEndian(n / 256, w - 1);
      assert LittleEndian(n, w)[1..] == LittleEndian(n / 256, w - 1);
      LowDigits(n, Span(w - 1));
    }
  }

  lemma {:induction false} LittleEndianOfLow(bs: seq<Byte>)
    ensures LittleEndian(Low(bs), |bs|) == bs
  {
    if bs != [] {
      assert bs == [bs[0]] + bs[1..];
      LittleEndianOfLow(bs[1..]);
      assert Low(bs) / 256 == Low(bs[1..]) && Low(bs) % 256 == bs[0];
    }
  }

  // Appending the byte x, with carry t', to a block in progress.
  lemma CarryStep(block: seq<bv8>, x: bv8, t: nat, part: seq<bv8>, v: bv8, t': nat, m: nat, t0: nat)
    requires |block| == |part|
    requires Low(Nats(block)) + t * Span(|block|) == Low(Nats(part)) * m + t0
    requires x as nat + 256 * t' == v as nat * m + t
    ensures Low(Nats(block + [x])) + t' * Span(|block| + 1) == Low(Nats(part + [v])) * m + t0
  {
    LowPush(block, x);
    LowPush(part, v);
    SpanStep(|block|);
    hide Low, Span, Nats;
    CarryAlgebra(Low(Nats(block)), Low(Nats(block + [x])), Low(Nats(part)), Low(Nats(part + [v])),
                 x as nat, v as nat, t, t', m, t0, Span(|block|), Span(|block| + 1));
  }

  lemma LowPush(bs: seq<bv8>, b: bv8)
    ensures Low(Nats(bs + [b])) == Low(Nats(bs)) + b as nat * Span(|bs|)
  {
    assert Nats(bs + [b]) == Nats(bs) + [b as nat];
    hide Low, Span, Nats;
    LowAppend(Nats(bs), b as nat);
  }

  lemma CarryAlgebra(b: nat, b': nat, a: nat, a': nat, x: nat, v: nat, t: nat, t': nat, m: nat, t0: nat, p: nat, q: nat)
    requires b + t * p == a * m + t0 && x + 256 * t' == v * m + t
    requires b' == b + x * p && a' == a + v * p && q == 256 * p
    ensures b' + t' * q == a' * m + t0
  {
  }

  // Masking the top byte of a full block moves whole multiples of 2^254 into the carry.
  lemma MaskTop(init: seq<bv8>, x: bv8, masked: bv8, t: nat, c: nat)
    requires |init| == 31 && masked as nat + 64 * c == x as nat + 256 * t
    ensures Low(Nats(init + [masked])) + c * BLOCK == Low(Nats(init + [x])) + t * Span(32)
  {
    LowPush(init, x);
    LowPush(init, masked);
    BlockSpan();
    hide Low, Span, Nats;
    MaskAlgebra(Low(Nats(init)), x as nat, masked as nat, t, c, Span(31));
  }

  lemma MaskAlgebra(l: nat, x: nat, masked: nat, t: nat, c: nat, p: nat)
    requires masked + 64 * c == x + 256 * t
    ensures l + masked * p + c * (64 * p) == l + x * p + t * (256 * p)
  {
  }

  lemma BlockSpan()
    ensures BLOCK == 64 * Span(31) && Span(32) == 256 * Span(31) == 4 * BLOCK
  {
    LargeSpans();
  }

  // A buffer whose top byte is below 64 holds a block.
  lemma BlockBound(init: seq<bv8>, top: bv8)
    requires |init| == 31 && top < 64
    ensures Low(Nats(init + [top])) < BLOCK
  {
    LowPush(init, top);
    LowBound(Nats(init));
    BlockSpan();
    hide Low, Span, Nats;
    AtMost(top as nat, 63, Span(31));
  }

  lemma AtMost(a: nat, b: nat, p: nat)
    requires a <= b
    ensures a * p <= b * p
  {
  }

  // ---------- the repacking ----------

  // The block that a buffer holds.
  ghost predicate Holds(block: seq<bv8>, n: nat) {
    |block| == 32 && Low(Nats(block)) == n < BLOCK
  }

  // The number that 127 bytes stand for, as which the input is repacked.
  function InputValue(input: seq<bv8>): nat { Low(Nats(Fit(input))) }

  // A short input counts as it is, and of a long one the first 127 bytes do.
  lemma InputValueOf(input: seq<bv8>)
    ensures InputValue(input) == Low(Nats(if |input| <= 127 then input else input[..127]))
  {
    if |input| <= 127 {
      var zeros: seq<bv8> := seq(127 - |input|, _ => 0);
      assert Fit(input) == input + zeros;
      assert Nats(input + zeros) == Nats(input) + Zeros(|zeros|);
      LowConcat(Nats(input), Zeros(|zeros|));
      LowOfZeros(|zeros|);
    }
  }

  lemma {:induction false} LowOfZeros(w: nat)
    ensures Low(Zeros(w)) == 0
  {
    if w > 0 {
      assert Zeros(w)[1..] == Zeros(w - 1);
      LowOfZeros(w - 1);
    }
  }

  // What a block's buffer reads as: its bytes from the most significant on.
  function Reading(n: nat, j: nat): nat { Value(LittleEndian(Digit(n, j), 32)) }

  // The four field elements read from the blocks of an input.
  function Elements(input: seq<bv8>): (es: seq<Fr>)
    ensures |es| == 4
  {
    seq(4, j requires 0 <= j < 4 => Reading(InputValue(input), j) % FR_MODULUS)
  }

  lemma ElementOfBlock(block: seq<bv8>, n: nat)
    requires Holds(block, n)
    ensures ToFr(Nats(block)) == Value(LittleEndian(n, 32)) % FR_MODULUS
  {
    LittleEndianOfLow(Nats(block));
  }

  function Part(data: seq<bv8>, i: nat, j: nat): nat
    requires i <= j <= |data|
  {
    Low(Nats(data[i..j]))
  }

  // What a buffer holds and what is carried on, against the part of the input read: the part is
  // `m` times its value to the left of what was carried in.
  ghost predicate Repacked(block: seq<bv8>, carry: nat, part: nat, m: nat, carried: nat) {
    |block| == 32 && Low(Nats(block)) < BLOCK && Low(Nats(block)) + carry * BLOCK == part * m + carried
  }

  method FirstBlock(data: seq<bv8>, tmp: array<bv8>) returns (t: bv8)
    requires |data| == 127 && tmp.Length == 32
    modifies tmp
    ensures t < 4 && Repacked(tmp[..], t as nat, Part(data, 0, 32), 1, 0)
  {
    hide Low, Nats, Span;
    for i := 0 to 31
      invariant tmp[..i] == data[..i]
    {
      tmp[i] := data[i];
    }
    t := data[31] >> 6;
    tmp[31] := data[31] & 0x3f;
    Top0(data[31]);
    assert tmp[..] == data[..31] + [data[31] & 0x3f];
    FirstEquation(data, data[31] & 0x3f, t as nat);
  }

  lemma FirstEquation(data: seq<bv8>, masked: bv8, c: nat)
    requires |data| == 127 && masked < 64 && masked as nat + 64 * c == data[31] as nat
    ensures Repacked(data[..31] + [masked], c, Part(data, 0, 32), 1, 0)
  {
    assert data[0..32] == data[..31] + [data[31]];
    MaskTop(data[..31], data[31], masked, 0, c);
    BlockBound(data[..31], masked);
    hide Low, Nats, Span;
  }

  method SecondBlock(data: seq<bv8>, tmp: array<bv8>, t0: bv8) returns (t: bv8)
    requires |data| == 127 && tmp.Length == 32 && t0 < 4
    modifies tmp
    ensures t < 16 && Repacked(tmp[..], t as nat, Part(data, 32, 64), 4, t0 as nat)
  {
    hide Low, Nats, Span, Part, Packed;
    t := t0;
    ghost var u := t0;
    var v := 0 as bv8;
    PackStart(tmp[..], data, 32, t0 as nat, 4);
    for i := 32 to 64
      invariant t < 4 && u < 4
      invariant i > 32 ==> tmp[i - 33] == (v << 2) | u && t == v >> 6
      invariant Packed(tmp[..], data, 32, i, t as nat, 4, t0 as nat)
    {
      v := data[i];
      Carry2(v, t);
      PackStep(tmp[..], data, 32, i, (v << 2) | t, t as nat, (v >> 6) as nat, 4, t0 as nat);
      ghost var before := tmp[..];
      tmp[i - 32] := (v << 2) | t;
      assert tmp[..] == before[i - 32 := (v << 2) | t];
      u, t := t, v >> 6;
    }
    ghost var full := tmp[..];
    PackEnd(full, data, 32, 64, t as nat, 4, t0 as nat);
    Close2(full, v, u, Part(data, 32, 64) * 4 + t0 as nat);
    t := v >> 4;
    tmp[31] := tmp[31] & 0x3f;
    assert tmp[..] == full[31 := full[31] & 0x3f];
  }

  lemma Close2(full: seq<bv8>, v: bv8, u: bv8, sum: nat)
    requires |full| == 32 && u < 4 && full[31] == (v << 2) | u
    requires Low(Nats(full)) + (v >> 6) as nat * Span(32) == sum
    ensures var masked := full[31 := full[31] & 0x3f];
      (v >> 4) < 16 && Low(Nats(masked)) < BLOCK && Low(Nats(masked)) + (v >> 4) as nat * BLOCK == sum
  {
    hide Low, Nats, Span;
    Top2(v, u);
    var init, x := full[..31], full[31];
    assert full == init + [x] && full[31 := x & 0x3f] == init + [x & 0x3f];
    CloseBlock(init, x, x & 0x3f, (v >> 6) as nat, (v >> 4) as nat, sum);
  }

  method ThirdBlock(data: seq<bv8>, tmp: array<bv8>, t0: bv8) returns (t: bv8)
    requires |data| == 127 && tmp.Length == 32 && t0 < 16
    modifies tmp
    ensures t < 64 && Repacked(tmp[..], t as nat, Part(data, 64, 96), 16, t0 as nat)
  {
    hide Low, Nats, Span, Part, Packed;
    t := t0;
    ghost var u := t0;
    var v := 0 as bv8;
    PackStart(tmp[..], data, 64, t0 as nat, 16);
    for i := 64 to 96
      invariant t < 16 && u < 16
      invariant i > 64 ==> tmp[i - 65] == (v << 4) | u && t == v >> 4
      invariant Packed(tmp[..], data, 64, i, t as nat, 16, t0 as nat)
    {
      v := data[i];
      Carry4(v, t);
      PackStep(tmp[..], data, 64, i, (v << 4) | t, t as nat, (v >> 4) as nat, 16, t0 as nat);
      ghost var before := tmp[..];
      tmp[i - 64] := (v << 4) | t;
      assert tmp[..] == before[i - 64 := (v << 4) | t];
      u, t := t, v >> 4;
    }
    ghost var full := tmp[..];
    PackEnd(full, data, 64, 96, t as nat, 16, t0 as nat);
    Close4(full, v, u, Part(data, 64, 96) * 16 + t0 as nat);
    t := v >> 2;
    tmp[31] := tmp[31] & 0x3f;
    assert tmp[..] == full[31 := full[31] & 0x3f];
  }

  lemma Close4(full: seq<bv8>, v: bv8, u: bv8, sum: nat)
    requires |full| == 32 && u < 16 && full[31] == (v << 4) | u
    requires Low(Nats(full)) + (v >> 4) as nat * Span(32) == sum
    ensures var masked := full[31 := full[31] & 0x3f];
      (v >> 2) < 64 && Low(Nats(masked)) < BLOCK && Low(Nats(masked)) + (v >> 2) as nat * BLOCK == sum
  {
    hide Low, Nats, Span;
    Top4(v, u);
    var init, x := full[..31], full[31];
    assert full == init + [x] && full[31 := x & 0x3f] == init + [x & 0x3f];
    CloseBlock(init, x, x & 0x3f, (v >> 4) as nat, (v >> 2) as nat, sum);
  }

  method FourthBlock(data: seq<bv8>, tmp: array<bv8>, t0: bv8)
    requires |data| == 127 && tmp.Length == 32 && t0 < 64
    modifies tmp
    ensures Repacked(tmp[..], 0, Part(data, 96, 127), 64, t0 as nat)
  {
    hide Low, Nats, Span;
    var t := t0;
    PackStart(tmp[..], data, 96, t0 as nat, 64);
    for i := 96 to 127
      invariant t < 64
      invariant Packed(tmp[..], data, 96, i, t as nat, 64, t0 as nat)
    {
      var v := data[i];
      Carry6(v, t);
      PackStep(tmp[..], data, 96, i, (v << 6) | t, t as nat, (v >> 2) as nat, 64, t0 as nat);
      ghost var before := tmp[..];
      tmp[i - 96] := (v << 6) | t;
      assert tmp[..] == before[i - 96 := (v << 6) | t];
      t := v >> 2;
    }
    ghost var init := tmp[..31];
    SmallMask(t);
    tmp[31] := t & 0x3f;
    assert tmp[..] == init + [t];
    LowPush(init, t);
    BlockBound(init, t);
  }

  // Progress of a loop that has read data[from..i]: the block so far and the carry make up `m`
  // times the part read, on top of the carry the loop started with.
  ghost predicate Packed(tmp: seq<bv8>, data: seq<bv8>, from: nat, i: nat, t: nat, m: nat, t0: nat) {
    from <= i <= |data| && i - from <= |tmp| &&
    Low(Nats(tmp[..i - from])) + t * Span(i - from) == Low(Nats(data[from..i])) * m + t0
  }

  lemma PackStart(tmp: seq<bv8>, data: seq<bv8>, from: nat, t0: nat, m: nat)
    requires from <= |data|
    ensures Packed(tmp, data, from, from, t0, m, t0)
  {
  }

  lemma PackStep(tmp: seq<bv8>, data: seq<bv8>, from: nat, i: nat, x: bv8, t: nat, t': nat, m: nat, t0: nat)
    requires Packed(tmp, data, from, i, t, m, t0) && i < |data| && i - from < |tmp|
    requires x as nat + 256 * t' == data[i] as nat * m + t
    ensures Packed(tmp[i - from := x], data, from, i + 1, t', m, t0)
  {
    hide Low, Nats, Span;
    CarryStep(tmp[..i - from], x, t, data[from..i], data[i], t', m, t0);
    assert data[from..i + 1] == data[from..i] + [data[i]];
    assert tmp[i - from := x][..i + 1 - from] == tmp[..i - from] + [x];
  }

  lemma PackEnd(tmp: seq<bv8>, data: seq<bv8>, from: nat, i: nat, t: nat, m: nat, t0: nat)
    requires Packed(tmp, data, from, i, t, m, t0) && |tmp| == i - from
    ensures Low(Nats(tmp)) + t * Span(|tmp|) == Part(data, from, i) * m + t0
  {
    hide Low, Nats, Span;
    assert tmp[..|tmp|] == tmp;
  }

  // Masks the top byte of a full buffer.
  lemma CloseBlock(init: seq<bv8>, x: bv8, masked: bv8, t: nat, c: nat, sum: nat)
    requires |init| == 31 && masked < 64 && masked as nat + 64 * c == x as nat + 256 * t
    requires Low(Nats(init + [x])) + t * Span(32) == sum
    ensures Low(Nats(init + [masked])) < BLOCK && Low(Nats(init + [masked])) + c * BLOCK == sum
  {
    MaskTop(init, x, masked, t, c);
    BlockBound(init, masked);
  }

  lemma ReadElements(input: seq<bv8>, blocks: seq<seq<bv8>>, es: seq<Fr>)
    requires |blocks| == |es| == 4
    requires forall j :: 0 <= j < 4 ==> Holds(blocks[j], Digit(InputValue(input), j))
    requires forall j :: 0 <= j < 4 ==> es[j] == ToFr(Nats(blocks[j]))
    ensures es == Elements(input)
  {
    hide Holds, InputValue, Digit, ToFr;
    forall j | 0 <= j < 4
      ensures es[j] == Elements(input)[j]
    {
      ElementOfBlock(blocks[j], Digit(InputValue(input), j));
    }
  }

  method Pad127(input: seq<bv8>, res: array<Fr>) returns (ghost blocks: seq<seq<bv8>>)
    requires res.Length >= 4
    modifies res
    ensures |blocks| == 4
    ensures forall j :: 0 <= j < 4 ==> Holds(blocks[j], Digit(InputValue(input), j))
    ensures forall j :: 0 <= j < 4 ==> res[j] == ToFr(Nats(blocks[j]))
    ensures res[..4] == Elements(input)
    ensures res[4..] == old(res[4..])
  {
    hide Low, Nats, Span, Digit, ToFr, Part;
    var data := Fit(input);
    var tmp := new bv8[32](_ => 0);

    var t0 := FirstBlock(data, tmp);
    ghost var b0 := tmp[..];
    res[0] := ToFr(Nats(tmp[..]));

    var t1 := SecondBlock(data, tmp, t0);
    ghost var b1 := tmp[..];
    res[1] := ToFr(Nats(tmp[..]));

    var t2 := ThirdBlock(data, tmp, t1);
    ghost var b2 := tmp[..];
    res[2] := ToFr(Nats(tmp[..]));

    FourthBlock(data, tmp, t2);
    ghost var b3 := tmp[..];
    res[3] := ToFr(Nats(tmp[..]));

    blocks := [b0, b1, b2, b3];
    Assemble(data, b0, b1, b2, b3, t0 as nat, t1 as nat, t2 as nat);
    ReadElements(input, blocks, res[..4]);
  }

  lemma SmallMask(t: bv8)
    requires t < 64
    ensures t & 0x3f == t
  {
  }

  // The four equations between blocks, carries and the parts read give the digits.
  lemma Assemble(data: seq<bv8>, b0: seq<bv8>, b1: seq<bv8>, b2: seq<bv8>, b3: seq<bv8>, c0: nat, c1: nat, c2: nat)
    requires |data| == 127
    requires Repacked(b0, c0, Part(data, 0, 32), 1, 0)
    requires Repacked(b1, c1, Part(data, 32, 64), 4, c0)
    requires Repacked(b2, c2, Part(data, 64, 96), 16, c1)
    requires Repacked(b3, 0, Part(data, 96, 127), 64, c2)
    ensures var n := Low(Nats(data));
      Holds(b0, Digit(n, 0)) && Holds(b1, Digit(n, 1)) && Holds(b2, Digit(n, 2)) && Holds(b3, Digit(n, 3))
  {
    PartsOfInput(data);
    hide Low, Nats, Span, Part, Digit;
    var k3 := Part(data, 96, 127);
    var k2 := Part(data, 64, 96) + 4 * BLOCK * k3;
    var k1 := Part(data, 32, 64) + 4 * BLOCK * k2;
    SumOfBlocks(Low(Nats(b0)), Low(Nats(b1)), Low(Nats(b2)), Low(Nats(b3)),
                Part(data, 0, 32), Part(data, 32, 64), Part(data, 64, 96), k3, k2, k1, c0, c1, c2, BLOCK);
    HornerDigits(Low(Nats(b0)), Low(Nats(b1)), Low(Nats(b2)), Low(Nats(b3)));
    assert Low(Nats(data)) == HornerSum(Low(Nats(b0)), Low(Nats(b1)), Low(Nats(b2)), Low(Nats(b3)));
  }

  lemma SumOfBlocks(b0: nat, b1: nat, b2: nat, b3: nat, l0: nat, l1: nat, l2: nat, k3: nat, k2: nat, k1: nat,
                    c0: nat, c1: nat, c2: nat, m: nat)
    requires b0 + c0 * m == l0 * 1 + 0 && b1 + c1 * m == l1 * 4 + c0 && b2 + c2 * m == l2 * 16 + c1
    requires b3 + 0 * m == k3 * 64 + c2 && k2 == l2 + 4 * m * k3 && k1 == l1 + 4 * m * k2
    ensures l0 + 4 * m * k1 == b0 + m * (b1 + m * (b2 + m * b3))
  {
  }

  function HornerSum(b0: nat, b1: nat, b2: nat, b3: nat): nat {
    b0 + BLOCK * (b1 + BLOCK * (b2 + BLOCK * b3))
  }

  lemma PartsOfInput(data: seq<bv8>)
    requires |data| == 127
    ensures Low(Nats(data)) == Part(data, 0, 32) +
      4 * BLOCK * (Part(data, 32, 64) + 4 * BLOCK * (Part(data, 64, 96) + 4 * BLOCK * Part(data, 96, 127)))
  {
    BlockSpan();
    hide Span, Low, Nats;
    SplitPart(data, 0, 32);
    SplitPart(data, 32, 32);
    SplitPart(data, 64, 32);
    assert data[0..127] == data;
  }

  lemma SplitPart(data: seq<bv8>, i: nat, w: nat)
    requires i + w <= |data|
    ensures Part(data, i, |data|) == Part(data, i, i + w) + Span(w) * Part(data, i + w, |data|)
  {
    var a, b := Nats(data[i..i + w]), Nats(data[i + w..]);
    assert Nats(data[i..]) == a + b;
    assert data[i..|data|] == data[i..] && data[i + w..|data|] == data[i + w..];
    LowConcat(a, b);
    hide Low, Span, Nats;
  }

  lemma HornerDigits(b0: nat, b1: nat, b2: nat, b3: nat)
    requires b0 < BLOCK && b1 < BLOCK && b2 < BLOCK && b3 < BLOCK
    ensures var n := HornerSum(b0, b1, b2, b3);
      Digit(n, 0) == b0 && Digit(n, 1) == b1 && Digit(n, 2) == b2 && Digit(n, 3) == b3
  {
    var h2 := b2 + BLOCK * b3;
    var h1 := b1 + BLOCK * h2;
    var n := b0 + BLOCK * h1;
    ModUnique(n, BLOCK, h1, b0);
    ModUnique(h1, BLOCK, h2, b1);
    ModUnique(h2, BLOCK, b3, b2);
    ModUnique(b3, BLOCK, 0, b3);
    assert Digit(n, 3) == Digit(h1, 2) == Digit(h2, 1) == Digit(b3, 0);
    assert Digit(n, 2) == Digit(h1, 1) == Digit(h2, 0);
  }

  // ---------- nothing is lost ----------

  // Digit j is the quotient by 2^(254 j), modulo 2^254.
  function BlockPower(j: nat): (r: nat)
    ensures r > 0
  {
    if j == 0 then 1 else BLOCK * BlockPower(j - 1)
  }

  lemma {:induction false} DigitIsQuotient(n: nat, j: nat)
    ensures Digit(n, j) == n / BlockPower(j) % BLOCK
    decreases j
  {
    if j > 0 {
      DigitIsQuotient(n / BLOCK, j - 1);
      DivideTwice(n, BLOCK, BlockPower(j - 1));
    }
  }

  // The 127 bytes, as a byte string, that four block values stand for.
  function Unpad(b0: nat, b1: nat, b2: nat, b3: nat): (bs: seq<Byte>)
    ensures |bs| == 127
  {
    LittleEndian(HornerSum(b0, b1, b2, b3), 127)
  }

  lemma InputSpan()
    ensures Span(127) == BLOCK * (BLOCK * (BLOCK * BLOCK))
  {
    LargeSpans();
    SpanAdd(32, 32);
    SpanAdd(32, 64);
    SpanAdd(96, 31);
    BlockSpan();
  }

  lemma QuotientBound(n: nat, m: nat, k: nat)
    requires m > 0 && n < m * k
    ensures n / m < k && n == n % m + m * (n / m)
  {
  }

  lemma SumOfDigits(n: nat)
    requires n < Span(127)
    ensures HornerSum(Digit(n, 0), Digit(n, 1), Digit(n, 2), Digit(n, 3)) == n
  {
    InputSpan();
    hide Span;
    var n1 := n / BLOCK;
    QuotientBound(n, BLOCK, BLOCK * (BLOCK * BLOCK));
    var n2 := n1 / BLOCK;
    QuotientBound(n1, BLOCK, BLOCK * BLOCK);
    var n3 := n2 / BLOCK;
    QuotientBound(n2, BLOCK, BLOCK);
    ModUnique(n3, BLOCK, 0, n3);
    assert Digit(n, 1) == Digit(n1, 0) && Digit(n, 2) == Digit(n1, 1) == Digit(n2, 0);
    assert Digit(n, 3) == Digit(n1, 2) == Digit(n2, 1) == Digit(n3, 0);
  }

  // Unpadding the four blocks of an input gives back its 127 bytes, and the blocks of any four
  // values below 2^254 are those values: padding is a bijection.
  lemma PadUnpad(input: seq<bv8>, b0: nat, b1: nat, b2: nat, b3: nat)
    requires b0 < BLOCK && b1 < BLOCK && b2 < BLOCK && b3 < BLOCK
    ensures var n := InputValue(input);
      Unpad(Digit(n, 0), Digit(n, 1), Digit(n, 2), Digit(n, 3)) == Nats(Fit(input))
    ensures var n := Low(Unpad(b0, b1, b2, b3));
      Digit(n, 0) == b0 && Digit(n, 1) == b1 && Digit(n, 2) == b2 && Digit(n, 3) == b3
  {
    var bytes := Nats(Fit(input));
    LowBound(bytes);
    SumOfDigits(Low(bytes));
    LittleEndianOfLow(bytes);
    HornerBound(b0, b1, b2, b3);
    LowOfLittleEndian(HornerSum(b0, b1, b2, b3), 127);
    ModUnique(HornerSum(b0, b1, b2, b3), Span(127), 0, HornerSum(b0, b1, b2, b3));
    HornerDigits(b0, b1, b2, b3);
  }

  lemma HornerBound(b0: nat, b1: nat, b2: nat, b3: nat)
    requires b0 < BLOCK && b1 < BLOCK && b2 < BLOCK && b3 < BLOCK
    ensures HornerSum(b0, b1, b2, b3) < Span(127)
  {
    InputSpan();
  }

  predicate SameDigits(m: nat, n: nat) {
    Digit(m, 0) == Digit(n, 0) && Digit(m, 1) == Digit(n, 1) && Digit(m, 2) == Digit(n, 2) && Digit(m, 3) == Digit(n, 3)
  }

  // Two inputs fill the four buffers alike exactly when their first 127 bytes, or what zeros
  // make of them, agree.
  lemma BuffersDetermineInput(a: seq<bv8>, b: seq<bv8>)
    ensures SameDigits(InputValue(a), InputValue(b)) <==> Fit(a) == Fit(b)
  {
    hide Low, Nats, Digit, Unpad;
    if SameDigits(InputValue(a), InputValue(b)) {
      PadUnpad(a, 0, 0, 0, 0);
      PadUnpad(b, 0, 0, 0, 0);
      NatsInjective(Fit(a), Fit(b));
    }
  }

  lemma NatsInjective(a: seq<bv8>, b: seq<bv8>)
    requires Nats(a) == Nats(b)
    ensures a == b
  {
    assert |a| == |Nats(a)| == |Nats(b)| == |b|;
    forall i | 0 <= i < |a|
      ensures a[i] == b[i]
    {
      assert Nats(a)[i] == Nats(b)[i];
    }
  }
}
