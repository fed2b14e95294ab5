/**
 What the field elements read from the four blocks tell of the input. Reading takes a block's
 buffer as a big-endian number and reduces it modulo the scalar field.
 */
module PadElements {
  import opened Bytes
  import opened Pad127
  import opened PointCodec

  // No other reading of a block is congruent to v: there is none below it or v has no low byte
  // to lose, and none above it or its low byte, which holds six bits, is full.
  predicate Sole(v: nat) {
    && (v < FR_MODULUS || v % 256 == 0)
    && (v + FR_MODULUS >= Span(32) || v % 256 == 63)
  }

  // ---------- which numbers blocks read as ----------

  predicate IsReading(v: nat) { v < Span(32) && v % 256 < 64 }

  lemma LowLast(bs: seq<Byte>)
    requires |bs| == 32
    ensures Value(bs) % 256 == bs[31]
    ensures Low(bs) < BLOCK <==> bs[31] < 64
  {
    var init := bs[..31];
    assert bs == init + [bs[31]];
    LowAppend(init, bs[31]);
    LowBound(init);
    BlockSpan();
    hide Low, Span;
    if bs[31] < 64 {
      AtMost(bs[31], 63, Span(31));
    } else {
      AtMost(64, bs[31], Span(31));
    }
  }

  lemma ReadingOfBlock(d: nat)
    requires d < BLOCK
    ensures var v := Value(LittleEndian(d, 32)); IsReading(v) && Low(BigEndian(v, 32)) == d
  {
    var bs := LittleEndian(d, 32);
    BlockSpan();
    LowOfLittleEndian(d, 32);
    ModUnique(d, Span(32), 0, d);
    LowLast(bs);
    ValueBound(bs);
    BigEndianOfValue(bs);
  }

  lemma BlockOfReading(v: nat)
    requires IsReading(v)
    ensures var d := Low(BigEndian(v, 32)); d < BLOCK && Value(LittleEndian(d, 32)) == v
  {
    var bs := BigEndian(v, 32);
    ValueOfBigEndian(v, 32);
    ModUnique(v, Span(32), 0, v);
    LowLast(bs);
    LittleEndianOfLow(bs);
  }

  // ---------- congruent readings ----------

  lemma CongruentReadings(v: nat, v': nat)
    requires IsReading(v) && IsReading(v') && Sole(v) && v % FR_MODULUS == v' % FR_MODULUS
    ensures v == v'
  {
    var q, q', r := v / FR_MODULUS, v' / FR_MODULUS, v % FR_MODULUS;
    LargeSpans();
    hide Span;
    CongruentSteps(v, v', q, q', r);
  }

  // Fewer than three moduli fit below 2^256.
  lemma CongruentSteps(v: nat, v': nat, q: nat, q': nat, r: nat)
    requires v == FR_MODULUS * q + r && v' == FR_MODULUS * q' + r
    requires v < 3 * FR_MODULUS && v' < 3 * FR_MODULUS && v % 256 < 64 && v' % 256 < 64
    requires v < FR_MODULUS || v % 256 == 0
    requires q' > q ==> v % 256 == 63
    ensures v == v'
  {
    assert q < 3 && q' < 3;
    LowBytes(v, v', q' - q);
  }

  lemma LowBytes(v: nat, v': nat, k: int)
    requires v' == v + FR_MODULUS * k && -2 <= k <= 2
    ensures k == 1 && v % 256 == 63 ==> v' % 256 == 64
    ensures k == 2 && v % 256 == 63 ==> v' % 256 == 65
    ensures k == -1 && v % 256 == 0 ==> v' % 256 == 255
    ensures k == -2 && v % 256 == 0 ==> v' % 256 == 254
  {
    assert FR_MODULUS % 256 == 1;
  }

  // Moving by one modulus, whose low byte is 1, moves the low byte by one.
  lemma NextReading(v: nat, up: bool)
    requires up || v >= FR_MODULUS
    ensures var v' := if up then v + FR_MODULUS else v - FR_MODULUS;
      && v' % FR_MODULUS == v % FR_MODULUS
      && (up && v % 256 < 255 ==> v' % 256 == v % 256 + 1)
      && (!up && v % 256 > 0 ==> v' % 256 == v % 256 - 1)
  {
    var v' := if up then v + FR_MODULUS else v - FR_MODULUS;
    ModUnique(v', FR_MODULUS, v / FR_MODULUS + (if up then 1 else -1), v % FR_MODULUS);
    assert FR_MODULUS % 256 == 1;
  }

  lemma OtherReading(v: nat) returns (v': nat)
    requires IsReading(v) && !Sole(v)
    ensures IsReading(v') && v' != v && v' % FR_MODULUS == v % FR_MODULUS
  {
    hide Span;
    var up := v < FR_MODULUS || v % 256 == 0;
    NextReading(v, up);
    v' := if up then v + FR_MODULUS else v - FR_MODULUS;
  }

  // ---------- exactly which inputs are determined ----------

  predicate Determined(input: seq<bv8>) {
    forall j :: 0 <= j < 4 ==> Sole(Reading(InputValue(input), j))
  }

  lemma {:induction false} DigitBound(n: nat, j: nat)
    ensures Digit(n, j) < BLOCK
  {
    if j > 0 {
      DigitBound(n / BLOCK, j - 1);
    }
  }

  // Equal readings are equal blocks, and so equal inputs.
  lemma ReadingsDetermine(a: seq<bv8>, b: seq<bv8>)
    requires forall j :: 0 <= j < 4 ==> Reading(InputValue(a), j) == Reading(InputValue(b), j)
    ensures Fit(a) == Fit(b)
  {
    forall j | 0 <= j < 4
      ensures Digit(InputValue(a), j) == Digit(InputValue(b), j)
    {
      DigitBound(InputValue(a), j);
      DigitBound(InputValue(b), j);
      ReadingOfBlock(Digit(InputValue(a), j));
      ReadingOfBlock(Digit(InputValue(b), j));
      assert Reading(InputValue(a), j) == Reading(InputValue(b), j);
    }
    BuffersDetermineInput(a, b);
  }

  lemma SoleElements(a: seq<bv8>, b: seq<bv8>)
    requires Determined(a) && Elements(a) == Elements(b)
    ensures Fit(a) == Fit(b)
  {
    forall j | 0 <= j < 4
      ensures Reading(InputValue(a), j) == Reading(InputValue(b), j)
    {
      DigitBound(InputValue(a), j);
      DigitBound(InputValue(b), j);
      ReadingOfBlock(Digit(InputValue(a), j));
      ReadingOfBlock(Digit(InputValue(b), j));
      assert Elements(a)[j] == Elements(b)[j];
      CongruentReadings(Reading(InputValue(a), j), Reading(InputValue(b), j));
    }
    ReadingsDetermine(a, b);
  }

  function Octet(b: Byte): (o: bv8)
    ensures o as nat == b
  {
    if b == 0 then 0 else Octet(b - 1) + 1
  }

  function Octets(bs: seq<Byte>): (os: seq<bv8>)
    ensures |os| == |bs|
    ensures forall i :: 0 <= i < |bs| ==> os[i] as nat == bs[i]
  {
    seq(|bs|, i requires 0 <= i < |bs| => Octet(bs[i]))
  }

  lemma OctetsNats(bs: seq<Byte>)
    ensures Nats(Octets(bs)) == bs
  {
    hide Octets;
  }

  // The input with given blocks.
  lemma InputOfBlocks(ds: seq<nat>) returns (input: seq<bv8>)
    requires |ds| == 4 && forall j :: 0 <= j < 4 ==> ds[j] < BLOCK
    ensures |input| == 127 && forall j :: 0 <= j < 4 ==> Digit(InputValue(input), j) == ds[j]
  {
    input := Octets(Unpad(ds[0], ds[1], ds[2], ds[3]));
    OctetsNats(Unpad(ds[0], ds[1], ds[2], ds[3]));
    assert Fit(input) == input;
    PadUnpad(input, ds[0], ds[1], ds[2], ds[3]);
  }

  // The block with another reading, if a reading is not the only one.
  lemma OtherBlock(d: nat) returns (d': nat)
    requires d < BLOCK && !Sole(Value(LittleEndian(d, 32)))
    ensures d' < BLOCK && d' != d
    ensures Value(LittleEndian(d', 32)) % FR_MODULUS == Value(LittleEndian(d, 32)) % FR_MODULUS
  {
    hide Sole, Low, Value, LittleEndian, BigEndian;
    ReadingOfBlock(d);
    var v := OtherReading(Value(LittleEndian(d, 32)));
    BlockOfReading(v);
    d' := Low(BigEndian(v, 32));
  }

  lemma OtherInput(input: seq<bv8>) returns (other: seq<bv8>)
    requires !Determined(input)
    ensures Elements(other) == Elements(input) && Fit(other) != Fit(input)
  {
    var n := InputValue(input);
    var k :| 0 <= k < 4 && !Sole(Reading(n, k));
    hide Sole, Digit, Value, LittleEndian, InputValue;
    forall j | 0 <= j < 4
      ensures Digit(n, j) < BLOCK
    {
      DigitBound(n, j);
    }
    var d := OtherBlock(Digit(n, k));
    var ds := seq(4, j requires 0 <= j < 4 => Digit(n, j))[k := d];
    other := InputOfBlocks(ds);
    assert Digit(InputValue(other), k) != Digit(n, k);
    SameInput(input, other);
    forall j | 0 <= j < 4
      ensures Elements(other)[j] == Elements(input)[j]
    {
      assert j != k ==> Digit(InputValue(other), j) == Digit(n, j);
    }
  }

  lemma SameInput(a: seq<bv8>, b: seq<bv8>)
    ensures Fit(a) == Fit(b) ==> InputValue(a) == InputValue(b)
  {
  }

  // An input is determined by the four elements, among all inputs and up to what is cut off or
  // filled up, exactly when each block is the only one with its element.
  lemma ElementsDetermine(input: seq<bv8>)
    ensures Determined(input) <==> forall other :: Elements(other) == Elements(input) ==> Fit(other) == Fit(input)
  {
    hide Determined, Elements;
    if Determined(input) {
      forall other | Elements(other) == Elements(input)
        ensures Fit(other) == Fit(input)
      {
        SoleElements(input, other);
      }
    } else {
      var other := OtherInput(input);
    }
  }

  predicate Reduced(input: seq<bv8>) {
    forall j :: 0 <= j < 4 ==> Reading(InputValue(input), j) < FR_MODULUS
  }

  // Two inputs whose blocks all read below the modulus have the same elements only if they agree.
  lemma ReducedElements(a: seq<bv8>, b: seq<bv8>)
    requires Reduced(a) && Reduced(b)
    ensures Elements(a) == Elements(b) <==> Fit(a) == Fit(b)
  {
    if Elements(a) == Elements(b) {
      forall j | 0 <= j < 4
        ensures Reading(InputValue(a), j) == Reading(InputValue(b), j)
      {
        assert Elements(a)[j] == Elements(b)[j];
        ModUnique(Reading(InputValue(a), j), FR_MODULUS, 0, Reading(InputValue(a), j));
        ModUnique(Reading(InputValue(b), j), FR_MODULUS, 0, Reading(InputValue(b), j));
      }
      ReadingsDetermine(a, b);
    }
  }

  // ---------- an input that its elements do not determine ----------

  // The bytes of the scalar modulus, then zeros.
  function ModulusInput(): (input: seq<bv8>)
    ensures |input| == 127
  {
    Octets(BigEndian(FR_MODULUS, 32) + Zeros(95))
  }

  function ZeroInput(): (input: seq<bv8>)
    ensures |input| == 127
  {
    seq(127, _ => 0)
  }

  lemma {:induction false} ReadingOfZero(n: nat, j: nat)
    requires n < BLOCK
    ensures j > 0 ==> Reading(n, j) == 0
    ensures n == 0 ==> Reading(n, j) == 0
    decreases j
  {
    if j > 0 {
      ModUnique(n, BLOCK, 0, n);
      ReadingOfZero(0, j - 1);
    } else if n == 0 {
      ZeroBytes(32);
    }
  }

  lemma {:induction false} ZeroBytes(w: nat)
    ensures LittleEndian(0, w) == Zeros(w) && Value(Zeros(w)) == 0
  {
    ValueSkipsZeros(w, []);
    assert Zeros(w) + [] == Zeros(w);
    if w > 0 {
      ZeroBytes(w - 1);
      assert Zeros(w) == [0] + Zeros(w - 1);
    }
  }

  // The bytes of the modulus are a block, because its low byte is 1, and read as the modulus.
  lemma ModulusReading()
    ensures InputValue(ModulusInput()) == Low(BigEndian(FR_MODULUS, 32)) < BLOCK
    ensures Reading(InputValue(ModulusInput()), 0) == FR_MODULUS
  {
    ScalarFits();
    BlockOfReading(FR_MODULUS);
    var bytes := BigEndian(FR_MODULUS, 32);
    hide Low, Span, Value, BigEndian, LittleEndian, Nats;
    PaddedValue(bytes);
    ModUnique(Low(bytes), BLOCK, 0, Low(bytes));
  }

  // Zeros behind a block add nothing to its value.
  lemma PaddedValue(bytes: seq<Byte>)
    requires |bytes| == 32
    ensures InputValue(Octets(bytes + Zeros(95))) == Low(bytes)
  {
    hide Low, Span, Nats;
    var input := Octets(bytes + Zeros(95));
    OctetsNats(bytes + Zeros(95));
    LowConcat(bytes, Zeros(95));
    LowOfZeros(95);
    assert Fit(input) == input;
  }

  lemma ZeroValue()
    ensures InputValue(ZeroInput()) == 0
  {
    hide Low;
    assert Nats(Fit(ZeroInput())) == Zeros(127);
    LowOfZeros(127);
  }

  lemma NoElements(input: seq<bv8>)
    requires InputValue(input) < BLOCK && Reading(InputValue(input), 0) % FR_MODULUS == 0
    ensures Elements(input) == [0, 0, 0, 0]
  {
    hide Reading, InputValue;
    ReadingOfZero(InputValue(input), 1);
    ReadingOfZero(InputValue(input), 2);
    ReadingOfZero(InputValue(input), 3);
  }

  lemma ElementsCollide()
    ensures Elements(ModulusInput()) == Elements(ZeroInput()) == [0, 0, 0, 0]
    ensures Fit(ModulusInput()) != Fit(ZeroInput())
  {
    ModulusReading();
    ZeroValue();
    ReadingOfZero(0, 0);
    hide Elements, Reading, ModulusInput, ZeroInput, Low, BigEndian;
    NoElements(ModulusInput());
    NoElements(ZeroInput());
  }
}
