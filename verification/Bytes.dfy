/**
 Byte strings and the integer encodings the SDK builds from them: fixed-width big-endian
 words, the minimal big-endian form of a big integer, and left padding.
 */
module Bytes {
  type Byte = n: nat | n < 256

  const MAX_INT64: int := 0x7fff_ffff_ffff_ffff

  type Uint32 = n: nat | n < 0x1_0000_0000
  type Uint64 = n: nat | n < 0x1_0000_0000_0000_0000
  type Int64 = x: int | -MAX_INT64 - 1 <= x <= MAX_INT64

  // uint64(x) for a signed x, in two's complement.
  function ToUint64(x: Int64): Uint64 {
    if x < 0 then x + 0x1_0000_0000_0000_0000 else x
  }

  // math/big's Int.Int64 of a non-negative number: its low 64 bits, read as signed.
  function LowInt64(n: nat): Int64 {
    var low := n % 0x1_0000_0000_0000_0000;
    if low <= MAX_INT64 then low else low - 0x1_0000_0000_0000_0000
  }

  // 256 ^ w, the number of byte strings of width w.
  function Span(w: nat): (r: nat)
    ensures r > 0
  {
    if w == 0 then 1 else 256 * Span(w - 1)
  }

  lemma SpanStep(w: nat)
    ensures Span(w + 1) == 256 * Span(w)
  {
  }

  // Big-endian value of a byte string.
  function Value(bs: seq<Byte>): nat {
    if bs == [] then 0 else Value(bs[..|bs| - 1]) * 256 + bs[|bs| - 1]
  }

  // The w low-order bytes of n, most significant first.
  function BigEndian(n: nat, w: nat): (bs: seq<Byte>)
    ensures |bs| == w
  {
    if w == 0 then [] else BigEndian(n / 256, w - 1) + [n % 256]
  }

  lemma OneByte(v: Byte)
    ensures BigEndian(v, 1) == [v]
  {
    assert BigEndian(v, 1) == BigEndian(v / 256, 0) + [v];
  }

  // Big-endian bytes of n with no leading zero byte: math/big's Int.Bytes.
  function Minimal(n: nat): seq<Byte> {
    if n == 0 then [] else Minimal(n / 256) + [n % 256]
  }

  function Zeros(k: nat): (bs: seq<Byte>)
    ensures |bs| == k
  {
    seq(k, _ => 0)
  }

  // go-ethereum's common.LeftPadBytes: a longer argument is returned unchanged.
  function LeftPad(bs: seq<Byte>, w: nat): seq<Byte> {
    if |bs| >= w then bs else Zeros(w - |bs|) + bs
  }

  function Abs(x: int): nat { if x < 0 then -x else x }

  lemma {:induction false} ValueBound(bs: seq<Byte>)
    ensures Value(bs) < Span(|bs|)
  {
    if bs != [] {
      ValueBound(bs[..|bs| - 1]);
    }
  }

  lemma {:induction false} ValueOfBigEndian(n: nat, w: nat)
    ensures Value(BigEndian(n, w)) == n % Span(w)
    decreases w
  {
    if w != 0 {
      var bs := BigEndian(n, w);
      assert bs[..w - 1] == BigEndian(n / 256, w - 1);
      ValueOfBigEndian(n / 256, w - 1);
      LowDigits(n, Span(w - 1));
    }
  }

  // The low digits of n are its last digit together with the low digits of n / 256.
  lemma LowDigits(n: nat, m: nat)
    requires m > 0
    ensures n % (256 * m) == n / 256 % m * 256 + n % 256
  {
    var q, r := n / 256 / m, n / 256 % m;
    assert n / 256 == m * q + r;
    assert n == 256 * (m * q + r) + n % 256;
    var low := r * 256 + n % 256;
    assert 256 * (m * q) == 256 * m * q;
    assert n == 256 * m * q + low;
    assert 0 <= low < 256 * m;
    ModUnique(n, 256 * m, q, low);
  }

  lemma ModUnique(n: nat, m: nat, q: nat, r: nat)
    requires m > 0 && r < m && n == m * q + r
    ensures n / m == q && n % m == r
  {
    DivisionUnique(m, n / m, n % m, q, r);
  }

  lemma DivisionUnique(m: nat, q: int, r: nat, q': int, r': nat)
    requires r < m && r' < m && m * q + r == m * q' + r'
    ensures q == q' && r == r'
  {
    if q < q' {
      QuotientOrder(m, q, r, q', r');
    } else if q' < q {
      QuotientOrder(m, q', r', q, r);
    }
  }

  lemma QuotientOrder(m: nat, q: int, r: nat, q': int, r': nat)
    requires r < m && q < q'
    ensures m * q + r < m * q' + r'
  {
    var d := q' - q - 1;
    assert m * q' == m * q + m + m * d;
  }

  lemma {:induction false} BigEndianOfValue(bs: seq<Byte>)
    ensures BigEndian(Value(bs), |bs|) == bs
  {
    if bs != [] {
      var init := bs[..|bs| - 1];
      BigEndianOfValue(init);
      assert Value(bs) / 256 == Value(init);
      assert bs == init + [bs[|bs| - 1]];
    }
  }

  // The most significant byte comes first.
  lemma {:induction false} BigEndianAt(n: nat, w: nat, i: nat)
    requires i < w
    ensures BigEndian(n, w)[i] == n / Span(w - 1 - i) % 256
    decreases w
  {
    if i < w - 1 {
      BigEndianAt(n / 256, w - 1, i);
      DivideTwice(n, 256, Span(w - 2 - i));
    }
  }

  lemma DivideTwice(n: nat, a: nat, b: nat)
    requires a > 0 && b > 0
    ensures n / a / b == n / (a * b)
  {
    var q, r := n / a, n % a;
    TwoDivisions(a, b, q, r, q / b, q % b);
    ModUnique(n, a * b, q / b, a * (q % b) + r);
  }

  lemma TwoDivisions(a: nat, b: nat, q: nat, r: nat, q': nat, r': nat)
    requires q == b * q' + r' && r < a && r' < b
    ensures a * q + r == a * b * q' + (a * r' + r) && a * r' + r < a * b
  {
    assert a * q == a * (b * q') + a * r';
    assert a * (b * q') == a * b * q';
    var d := b - r' - 1;
    assert a * b == a * r' + a + a * d;
  }

  // A fixed-width word determines the number it was made from.
  lemma BigEndianInjective(m: nat, n: nat, w: nat)
    requires m < Span(w) && n < Span(w)
    ensures BigEndian(m, w) == BigEndian(n, w) <==> m == n
  {
    ValueOfBigEndian(m, w);
    ValueOfBigEndian(n, w);
    ModUnique(m, Span(w), 0, m);
    ModUnique(n, Span(w), 0, n);
  }

  lemma {:induction false} MinimalFits(n: nat, w: nat)
    ensures |Minimal(n)| <= w <==> n < Span(w)
    decreases n
  {
    if n != 0 {
      if w == 0 {
        assert n >= Span(0);
      } else {
        MinimalFits(n / 256, w - 1);
        assert n / 256 < Span(w - 1) <==> n < 256 * Span(w - 1);
      }
    }
  }

  lemma {:induction false} MinimalValue(n: nat)
    ensures Value(Minimal(n)) == n
    ensures Minimal(n) != [] ==> Minimal(n)[0] != 0
  {
    if n != 0 {
      MinimalValue(n / 256);
      var bs := Minimal(n);
      assert bs[..|bs| - 1] == Minimal(n / 256);
      if n / 256 == 0 {
        assert bs == [] + [n % 256];
      }
    }
  }

  lemma {:induction false} ValueSkipsZeros(k: nat, bs: seq<Byte>)
    ensures Value(Zeros(k) + bs) == Value(bs)
    decreases k + |bs|
  {
    var all := Zeros(k) + bs;
    if bs != [] {
      assert all[..|all| - 1] == Zeros(k) + bs[..|bs| - 1];
      ValueSkipsZeros(k, bs[..|bs| - 1]);
    } else if k != 0 {
      assert all[..|all| - 1] == Zeros(k - 1) + [];
      ValueSkipsZeros(k - 1, []);
    }
  }

  // Left-padding the minimal bytes of a number that fits is the fixed-width encoding.
  lemma PaddedIsFixedWidth(n: nat, w: nat)
    requires n < Span(w)
    ensures LeftPad(Minimal(n), w) == BigEndian(n, w)
  {
  }

  // Padding loses nothing, whether or not the number fits the width.
  lemma PaddedInjective(m: nat, n: nat, w: nat)
    ensures LeftPad(Minimal(m), w) == LeftPad(Minimal(n), w) <==> m == n
  {
    MinimalValue(m);
    MinimalValue(n);
    ValueSkipsZeros(if |Minimal(m)| >= w then 0 else w - |Minimal(m)|, Minimal(m));
    ValueSkipsZeros(if |Minimal(n)| >= w then 0 else w - |Minimal(n)|, Minimal(n));
  }

  lemma {:induction false} LeadingZerosValue(w: nat, n: nat, v: nat)
    requires n < Span(w) && v >= w
    ensures BigEndian(n, v) == Zeros(v - w) + BigEndian(n, w)
  {
    ValueOfBigEndian(n, w);
    ModUnique(n, Span(w), 0, n);
    var padded := Zeros(v - w) + BigEndian(n, w);
    ValueSkipsZeros(v - w, BigEndian(n, w));
    BigEndianOfValue(padded);
  }

  // Concatenations that agree split the same way once either part has a known length.
  lemma SameSplit<T>(a: seq<T>, b: seq<T>, c: seq<T>, d: seq<T>)
    requires a + b == c + d
    requires |a| == |c| || |b| == |d|
    ensures a == c && b == d
  {
    assert |a| == |c| by { assert |a + b| == |c + d|; }
    assert a == (a + b)[..|a|] == (c + d)[..|c|] == c;
    assert b == (a + b)[|a|..] == (c + d)[|c|..] == d;
  }

  // encoding/binary's BigEndian.PutUint32 on buf[at..at+4].
  method PutUint32(buf: array<Byte>, at: nat, v: Uint32)
    requires at + 4 <= buf.Length
    modifies buf
    ensures buf[..] == old(buf[..at]) + BigEndian(v, 4) + old(buf[at + 4..])
  {
    ghost var before := buf[..];
    buf[at] := v / 0x100_0000 % 256;
    buf[at + 1] := v / 0x1_0000 % 256;
    buf[at + 2] := v / 0x100 % 256;
    buf[at + 3] := v % 256;
    Quarter(v);
    assert buf[at..at + 4] == BigEndian(v, 4);
    Spliced(before, buf[..], at, BigEndian(v, 4));
  }

  // encoding/binary's BigEndian.PutUint64 on buf[at..at+8].
  method PutUint64(buf: array<Byte>, at: nat, v: Uint64)
    requires at + 8 <= buf.Length
    modifies buf
    ensures buf[..] == old(buf[..at]) + BigEndian(v, 8) + old(buf[at + 8..])
  {
    ghost var before := buf[..];
    ghost var high, low := BigEndian(v / 0x1_0000_0000, 4), BigEndian(v % 0x1_0000_0000, 4);
    PutUint32(buf, at, v / 0x1_0000_0000);
    ghost var middle := buf[..];
    PutUint32(buf, at + 4, v % 0x1_0000_0000);
    Halves(v);
    SplicedTwice(before, middle, buf[..], at, high, low);
  }

  lemma Spliced(before: seq<Byte>, after: seq<Byte>, at: nat, part: seq<Byte>)
    requires at + |part| <= |before| == |after|
    requires forall i :: 0 <= i < at ==> after[i] == before[i]
    requires forall i :: at + |part| <= i < |before| ==> after[i] == before[i]
    requires after[at..at + |part|] == part
    ensures after == before[..at] + part + before[at + |part|..]
  {
  }

  lemma SplicedTwice(before: seq<Byte>, middle: seq<Byte>, after: seq<Byte>, at: nat, a: seq<Byte>, b: seq<Byte>)
    requires at + |a| + |b| <= |before|
    requires middle == before[..at] + a + before[at + |a|..]
    requires after == middle[..at + |a|] + b + middle[at + |a| + |b|..]
    ensures after == before[..at] + (a + b) + before[at + |a| + |b|..]
  {
  }

  // copy(dst[at..], src) when it all fits.
  method Copy(dst: array<Byte>, at: nat, src: seq<Byte>)
    requires at + |src| <= dst.Length
    modifies dst
    ensures dst[..] == old(dst[..at]) + src + old(dst[at + |src|..])
  {
    for i := 0 to |src|
      invariant dst[..at] == old(dst[..at])
      invariant dst[at..at + i] == src[..i]
      invariant dst[at + i..] == old(dst[at + i..])
    {
      dst[at + i] := src[i];
    }
    assert src[..|src|] == src;
    assert dst[..] == dst[..at] + dst[at..at + |src|] + dst[at + |src|..];
  }

  // math/big's Int.FillBytes: the absolute value, which must fit the buffer.
  method FillBytes(x: int, buf: array<Byte>)
    requires Abs(x) < Span(buf.Length)
    modifies buf
    ensures buf[..] == BigEndian(Abs(x), buf.Length)
  {
    var v, i := Abs(x), buf.Length;
    assert BigEndian(v, i) + buf[i..] == BigEndian(Abs(x), buf.Length);
    while i > 0
      invariant 0 <= i <= buf.Length
      invariant BigEndian(v, i) + buf[i..] == BigEndian(Abs(x), buf.Length)
    {
      ghost var tail := buf[i..];
      i := i - 1;
      buf[i] := v % 256;
      assert buf[i..] == [v % 256] + tail;
      assert BigEndian(v, i + 1) == BigEndian(v / 256, i) + [v % 256];
      v := v / 256;
    }
  }

  lemma Quarter(v: nat)
    requires v < 0x1_0000_0000
    ensures BigEndian(v, 4) == [v / 0x100_0000 % 256, v / 0x1_0000 % 256, v / 0x100 % 256, v % 256]
  {
    Shifted(v / 0x1_0000, v % 0x1_0000, 2, 2);
    assert Span(2) == 0x1_0000;
    Pair(v / 0x1_0000);
    Pair(v % 0x1_0000);
    LowPair(v);
  }

  lemma LowPair(v: nat)
    ensures v / 0x1_0000 / 256 == v / 0x100_0000
    ensures v % 0x1_0000 % 256 == v % 256 && v % 0x1_0000 / 256 == v / 256 % 256
  {
    var q, r := v / 0x1_0000, v % 0x1_0000;
    assert v == 256 * (256 * q) + r;
    assert v / 256 == 256 * q + r / 256;
  }

  lemma Pair(v: nat)
    ensures BigEndian(v, 2) == [v / 256 % 256, v % 256]
  {
  }

  lemma Halves(v: nat)
    ensures BigEndian(v, 8) == BigEndian(v / 0x1_0000_0000, 4) + BigEndian(v % 0x1_0000_0000, 4)
  {
    var hi, lo := v / 0x1_0000_0000, v % 0x1_0000_0000;
    assert Span(4) == 0x1_0000_0000;
    Shifted(hi, lo, 4, 4);
  }

  // Bytes of hi * 256^w + lo.
  lemma {:induction false} Shifted(hi: nat, lo: nat, w: nat, v: nat)
    requires lo < Span(w)
    ensures BigEndian(hi * Span(w) + lo, v + w) == BigEndian(hi, v) + BigEndian(lo, w)
    decreases w
  {
    if w == 0 {
      assert BigEndian(lo, 0) == [];
    } else {
      var n := hi * Span(w) + lo;
      assert n == (hi * Span(w - 1) + lo / 256) * 256 + lo % 256;
      Shifted(hi, lo / 256, w - 1, v);
      assert n / 256 == hi * Span(w - 1) + lo / 256 && n % 256 == lo % 256;
    }
  }
}
