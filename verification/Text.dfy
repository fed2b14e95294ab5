/**
 Text forms used in identifiers, key material and signed messages. A Go string is a string of
 bytes; here it is a Dafny string with one character per byte.
 */
module Text {
  import opened Bytes
  import opened Wrappers

  predicate IsDigit(c: char) { '0' <= c <= '9' }

  predicate IsHexDigit(c: char) { IsDigit(c) || 'a' <= c <= 'f' || 'A' <= c <= 'F' }

  predicate AllDigits(s: string) { forall i :: 0 <= i < |s| ==> IsDigit(s[i]) }

  predicate AllHex(s: string) { forall i :: 0 <= i < |s| ==> IsHexDigit(s[i]) }

  // string(buf) for a byte buffer.
  function AsText(bs: seq<Byte>): (s: string)
    ensures |s| == |bs|
  {
    seq(|bs|, i requires 0 <= i < |bs| => bs[i] as char)
  }

  lemma AsTextInjective(a: seq<Byte>, b: seq<Byte>)
    ensures AsText(a) == AsText(b) <==> a == b
  {
    if AsText(a) == AsText(b) {
      assert |a| == |AsText(a)| == |AsText(b)| == |b|;
      forall i | 0 <= i < |a|
        ensures a[i] == b[i]
      {
        assert AsText(a)[i] == AsText(b)[i];
      }
    }
  }

  // []byte(s); every character of a byte string is below 256.
  function FromText(s: string): (bs: seq<Byte>)
    ensures |bs| == |s|
  {
    seq(|s|, i requires 0 <= i < |s| => s[i] as int % 256)
  }

  predicate IsBytes(s: string) { forall i :: 0 <= i < |s| ==> s[i] as int < 256 }

  lemma FromTextAsText(s: string, bs: seq<Byte>)
    ensures IsBytes(AsText(bs)) && FromText(AsText(bs)) == bs
    ensures IsBytes(s) ==> AsText(FromText(s)) == s
  {
  }

  // ---------- decimal ----------

  // fmt's %d on a non-negative number.
  function Decimal(n: nat): (s: string)
    ensures s != ""
  {
    (if n < 10 then "" else Decimal(n / 10)) + [('0' as int + n % 10) as char]
  }

  function DigitsValue(s: string): nat
    requires AllDigits(s)
  {
    if s == "" then 0 else DigitsValue(s[..|s| - 1]) * 10 + (s[|s| - 1] as int - '0' as int)
  }

  // strconv.Atoi with a 64-bit int: an optional sign, then decimal digits.
  function Atoi(s: string): Option<Int64> {
    var signed := s != "" && (s[0] == '-' || s[0] == '+');
    var digits := if signed then s[1..] else s;
    if digits == "" || !AllDigits(digits) then None
    else
      var v: int := if s[0] == '-' then 0 - DigitsValue(digits) else DigitsValue(digits);
      if -MAX_INT64 - 1 <= v <= MAX_INT64 then Some(v) else None
  }

  lemma {:induction false} DecimalRoundTrip(n: nat)
    ensures AllDigits(Decimal(n)) && DigitsValue(Decimal(n)) == n
    ensures n > 0 ==> Decimal(n)[0] != '0'
  {
    var head := if n < 10 then "" else Decimal(n / 10);
    if n >= 10 {
      DecimalRoundTrip(n / 10);
    }
    AppendDigit(head, n % 10);
  }

  lemma AppendDigit(head: string, d: nat)
    requires AllDigits(head) && d < 10
    ensures var s := head + [('0' as int + d) as char];
      AllDigits(s) && DigitsValue(s) == DigitsValue(head) * 10 + d
  {
  }

  // Only a numeral without leading zeros is printed back from its value.
  lemma {:induction false} DigitsPrintBack(s: string)
    requires s != "" && AllDigits(s)
    ensures Decimal(DigitsValue(s)) == s <==> s[0] != '0' || |s| == 1
  {
    var init := s[..|s| - 1];
    assert s == init + [s[|s| - 1]];
    if init == "" {
      assert DigitsValue(init) == 0;
    } else {
      DigitsPrintBack(init);
      assert DigitsValue(s) / 10 == DigitsValue(init);
      if s[0] == '0' {
        DecimalRoundTrip(DigitsValue(s));
        if DigitsValue(s) == 0 {
          assert |Decimal(0)| == 1;
        }
      } else {
        PositiveValue(init);
      }
    }
  }

  lemma {:induction false} PositiveValue(s: string)
    requires s != "" && AllDigits(s) && s[0] != '0'
    ensures DigitsValue(s) > 0
  {
    if |s| > 1 {
      PositiveValue(s[..|s| - 1]);
    }
  }

  lemma {:induction false} DecimalLengthMonotone(m: nat, n: nat)
    requires m <= n
    ensures |Decimal(m)| <= |Decimal(n)|
    decreases n
  {
    if n >= 10 && m >= 10 {
      DecimalLengthMonotone(m / 10, n / 10);
    }
  }

  // ---------- hexadecimal ----------

  function HexChar(d: nat): char
    requires d < 16
  {
    if d < 10 then ('0' as int + d) as char else ('a' as int + d - 10) as char
  }

  function HexDigitValue(c: char): (d: nat)
    requires IsHexDigit(c)
    ensures d < 16
  {
    if IsDigit(c) then c as int - '0' as int
    else if c >= 'a' then c as int - 'a' as int + 10
    else c as int - 'A' as int + 10
  }

  // encoding/hex's EncodeToString.
  function Hex(bs: seq<Byte>): (s: string)
    ensures |s| == 2 * |bs|
    ensures AllHex(s)
  {
    if bs == [] then "" else [HexChar(bs[0] / 16), HexChar(bs[0] % 16)] + Hex(bs[1..])
  }

  // encoding/hex's DecodeString.
  function Unhex(s: string): Option<seq<Byte>> {
    if |s| % 2 != 0 || !AllHex(s) then None else Some(HexPairs(s))
  }

  function HexPairs(s: string): (bs: seq<Byte>)
    requires |s| % 2 == 0 && AllHex(s)
    ensures |bs| == |s| / 2
  {
    if s == "" then [] else [HexDigitValue(s[0]) * 16 + HexDigitValue(s[1])] + HexPairs(s[2..])
  }

  function LowerHex(s: string): (t: string)
    requires AllHex(s)
    ensures |t| == |s|
  {
    seq(|s|, i requires 0 <= i < |s| => HexChar(HexDigitValue(s[i])))
  }

  // go-ethereum's hexutil.Encode and hexutil.Decode.
  function EncodeHex(bs: seq<Byte>): string { "0x" + Hex(bs) }

  function DecodeHex(s: string): Option<seq<Byte>> {
    if |s| < 2 || s[0] != '0' || (s[1] != 'x' && s[1] != 'X') then None else Unhex(s[2..])
  }

  // Two lower-case digits a byte, the high one first.
  lemma {:induction false} HexAt(bs: seq<Byte>, i: nat)
    requires i < |bs|
    ensures Hex(bs)[2 * i] == "0123456789abcdef"[bs[i] / 16]
    ensures Hex(bs)[2 * i + 1] == "0123456789abcdef"[bs[i] % 16]
  {
    if i > 0 {
      HexAt(bs[1..], i - 1);
    } else {
      HexChars(bs[0] / 16);
      HexChars(bs[0] % 16);
    }
  }

  lemma HexChars(d: nat)
    requires d < 16
    ensures HexChar(d) == "0123456789abcdef"[d]
  {
  }

  lemma {:induction false} UnhexHex(bs: seq<Byte>)
    ensures Unhex(Hex(bs)) == Some(bs)
  {
    if bs != [] {
      UnhexHex(bs[1..]);
      var s := Hex(bs);
      assert s[2..] == Hex(bs[1..]);
      assert HexDigitValue(s[0]) * 16 + HexDigitValue(s[1]) == bs[0];
      assert bs == [bs[0]] + bs[1..];
    }
  }

  lemma {:induction false} HexUnhex(s: string)
    requires |s| % 2 == 0 && AllHex(s)
    ensures Hex(HexPairs(s)) == LowerHex(s)
  {
    if s != "" {
      HexUnhex(s[2..]);
      var hi, lo := HexDigitValue(s[0]), HexDigitValue(s[1]);
      var bs := HexPairs(s);
      assert bs[0] / 16 == hi && bs[0] % 16 == lo;
      assert bs[1..] == HexPairs(s[2..]);
      LowerHexStep(s);
    }
  }

  lemma LowerHexStep(s: string)
    requires |s| >= 2 && AllHex(s)
    ensures LowerHex(s) == [HexChar(HexDigitValue(s[0])), HexChar(HexDigitValue(s[1]))] + LowerHex(s[2..])
  {
  }

  // hexutil.Decode undoes hexutil.Encode, and encoding what was decoded lower-cases it.
  lemma HexutilRoundTrip(bs: seq<Byte>, s: string)
    ensures DecodeHex(EncodeHex(bs)) == Some(bs)
    ensures DecodeHex(s).Some? ==>
      AllHex(s[2..]) && EncodeHex(DecodeHex(s).value) == "0x" + LowerHex(s[2..])
  {
    UnhexHex(bs);
    assert EncodeHex(bs)[2..] == Hex(bs);
    if DecodeHex(s).Some? {
      HexUnhex(s[2..]);
    }
  }

  // ---------- cutting and joining ----------

  // The longest prefix of s free of the given characters, and what follows it.
  function CutAt(s: string, stops: set<char>): (string, string) {
    if s == "" || s[0] in stops then ("", s)
    else
      var (head, tail) := CutAt(s[1..], stops);
      ([s[0]] + head, tail)
  }

  lemma {:induction false} CutAtParts(s: string, stops: set<char>)
    ensures var (head, tail) := CutAt(s, stops);
      && s == head + tail
      && (forall i :: 0 <= i < |head| ==> head[i] !in stops)
      && (tail != "" ==> tail[0] in stops)
  {
    if s != "" && s[0] !in stops {
      CutAtParts(s[1..], stops);
    }
  }

  lemma {:induction false} CutUnique(s: string, stops: set<char>, head: string, tail: string)
    requires s == head + tail
    requires forall i :: 0 <= i < |head| ==> head[i] !in stops
    requires tail != "" ==> tail[0] in stops
    ensures CutAt(s, stops) == (head, tail)
  {
    if head == "" {
      assert s == tail;
    } else {
      assert s[0] == head[0];
      assert s[1..] == head[1..] + tail;
      CutUnique(s[1..], stops, head[1..], tail);
      assert head == [s[0]] + head[1..];
    }
  }

  // strings.Split(s, sep) for a one-character separator.
  function Split(s: string, sep: char): seq<string>
    decreases |s|
  {
    var (head, tail) := CutAt(s, {sep});
    CutAtParts(s, {sep});
    if tail == "" then [head] else [head] + Split(tail[1..], sep)
  }

  // strings.Join(parts, sep).
  function Join(parts: seq<string>, sep: char): string {
    if parts == [] then ""
    else if |parts| == 1 then parts[0]
    else parts[0] + [sep] + Join(parts[1..], sep)
  }

  lemma JoinStep(head: string, rest: seq<string>, sep: char)
    ensures Join([head], sep) == head
    ensures rest != [] ==> Join([head] + rest, sep) == head + [sep] + Join(rest, sep)
  {
    assert ([head] + rest)[1..] == rest;
  }

  // Splitting loses nothing and leaves no separator in a part.
  lemma {:induction false} JoinSplit(s: string, sep: char)
    ensures Split(s, sep) != [] && Join(Split(s, sep), sep) == s
    ensures forall p :: p in Split(s, sep) ==> sep !in p
    decreases |s|
  {
    hide Join, CutAt;
    var (head, tail) := CutAt(s, {sep});
    CutAtParts(s, {sep});
    JoinStep(head, [], sep);
    if tail != "" {
      var rest := Split(tail[1..], sep);
      JoinSplit(tail[1..], sep);
      JoinStep(head, rest, sep);
      assert s == head + ([sep] + tail[1..]) == head + [sep] + tail[1..];
    }
  }

  lemma SplitStep(head: string, rest: string, sep: char)
    requires sep !in head
    ensures Split(head + [sep] + rest, sep) == [head] + Split(rest, sep)
  {
    var tail := [sep] + rest;
    assert head + [sep] + rest == head + tail;
    CutUnique(head + [sep] + rest, {sep}, head, tail);
    assert tail[1..] == rest;
  }

  lemma {:induction false} SplitJoin(parts: seq<string>, sep: char)
    requires parts != [] && forall p :: p in parts ==> sep !in p
    ensures Split(Join(parts, sep), sep) == parts
  {
    var s := Join(parts, sep);
    assert parts[0] in parts;
    if |parts| == 1 {
      CutUnique(s, {sep}, s, "");
    } else {
      var rest := parts[1..];
      forall p | p in rest
        ensures sep !in p
      {
        assert p in parts;
      }
      SplitJoin(rest, sep);
      SplitStep(parts[0], Join(rest, sep), sep);
      assert s == parts[0] + [sep] + Join(rest, sep);
    }
  }
}
