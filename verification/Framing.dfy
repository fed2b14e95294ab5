/** The EIP-191 version 0x45 framing under which a user signs a message. */
module Framing {
  import opened MessageReader
  import opened Messages
  import opened Text

  function Frame(message: string): string {
    [0x19 as char] + "Ethereum Signed Message:\n" + Decimal(|message|) + message
  }

  // The total length determines the length of the message, because the number of digits never
  // falls as the length grows; so the framing is injective over all strings.
  lemma FrameInjective(m: string, n: string)
    ensures Frame(m) == Frame(n) <==> m == n
  {
    if Frame(m) == Frame(n) {
      if |m| <= |n| {
        SameFramedLength(m, n);
      } else {
        SameFramedLength(n, m);
      }
    }
  }

  lemma SameFramedLength(m: string, n: string)
    requires |m| <= |n| && Frame(m) == Frame(n)
    ensures m == n
  {
    DecimalLengthMonotone(|m|, |n|);
    var head := [0x19 as char] + "Ethereum Signed Message:\n";
    assert |Frame(m)| == |head| + |Decimal(|m|)| + |m|;
    assert |Frame(n)| == |head| + |Decimal(|n|)| + |n|;
    assert m == Frame(m)[|Frame(m)| - |m|..];
    assert n == Frame(n)[|Frame(n)| - |n|..];
  }

  // The prefix, the length in decimal and the message, in this order.
  lemma FrameParts(m: string)
    ensures var f := Frame(m); var k := |f| - |m|;
      && k > 26 && f[0] as int == 0x19 && f[1..26] == "Ethereum Signed Message:\n" && f[k..] == m
      && AllDigits(f[26..k]) && DigitsValue(f[26..k]) == |m| && (|m| > 0 ==> f[26] != '0')
  {
    var digits, head := Decimal(|m|), [0x19 as char] + "Ethereum Signed Message:\n";
    DecimalRoundTrip(|m|);
    assert Frame(m) == head + digits + m;
    hide Decimal, Frame;
    assert |head| == 26;
    assert (head + digits + m)[26..|head + digits|] == digits;
  }

  // One framed text per encoded operation.
  lemma FramedUniquelyDecodable(a: Operation, b: Operation)
    requires Valid(a) && Valid(b) && Comparable(a, b)
    ensures Frame(Message(a)) == Frame(Message(b)) <==> Encoded(a) == Encoded(b)
  {
    FrameInjective(Message(a), Message(b));
    UniquelyDecodable(a, b);
  }
}
