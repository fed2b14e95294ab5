/**
 Memo DIDs and DID URLs: parsing, printing, and the verification-method index that a URL's
 fragment denotes.
 */
module MemoDid {
  import opened Bytes
  import opened DidSyntax
  import opened Text
  import opened Wrappers

  datatype DidError =
    | Malformed
    | IsDidUrl
    | NotDidUrl
    | UnsupportedMethod
    | ChainIdUnsupported
    | Not32ByteHex
    | PathOrQuery
    | UnsupportedFragment

  // The relations between a DID and the verification methods it names.
  datatype Relation = Authentication | AssertionMethod | CapabilityDelegation | Recovery

  datatype MemoDID = MemoDID(methodName: string, identifier: string, identifiers: seq<string>) {
    function ToString(): string { "did:" + methodName + ":" + identifier }

    // The URL of the verification method at an index, unless the index is negative.
    function DIDUrl(index: int): Option<MemoDIDUrl> {
      if index < 0 then None
      else if index == 0 then Some(MemoDIDUrl(methodName, identifier, identifiers, "masterKey"))
      else Some(MemoDIDUrl(methodName, identifier, identifiers, "key-" + Decimal(index)))
    }
  }

  datatype MemoDIDUrl = MemoDIDUrl(
      methodName: string, identifier: string, identifiers: seq<string>, fragment: string)
  {
    function ToString(): string { "did:" + methodName + ":" + identifier + "#" + fragment }

    // The slice of the fragment is out of range in Go when it has fewer than four bytes.
    function GetMethodIndex(): Int64
      requires |fragment| >= 4
    {
      if fragment == "masterKey" then 0
      else if fragment[..4] != "key-" then -1
      else match Atoi(fragment[4..]) case Some(i) => i case None => -1
    }

    function DID(): MemoDID { MemoDID(methodName, identifier, identifiers) }
  }

  const SUPPORTED_FRAGMENTS: seq<string> :=
    ["authentication", "assertion", "delegation", "recovery", "masterKey"]

  predicate Is32ByteHex(s: string) { |s| == 64 && AllHex(s) }

  predicate IsPositiveNumber(s: string) { s != "" && s != "0" && AllDigits(s) }

  predicate IsKeyFragment(f: string) { |f| > 4 && f[..4] == "key-" && IsPositiveNumber(f[4..]) }

  predicate IsFragment(f: string) { f in SUPPORTED_FRAGMENTS || IsKeyFragment(f) }

  function ParseMemoDID(s: string): Result<MemoDID, DidError> {
    match ParseDid(s)
    case None => Failure(Malformed)
    case Some(d) =>
      if d.IsUrl() then Failure(IsDidUrl)
      else if d.methodName != "memo" then Failure(UnsupportedMethod)
      else if |d.idStrings| > 1 then Failure(ChainIdUnsupported)
      else if !Is32ByteHex(d.idStrings[|d.idStrings| - 1]) then Failure(Not32ByteHex)
      else Success(MemoDID("memo", d.id, d.idStrings))
  }

  function ParseMemoDIDUrl(s: string): Result<MemoDIDUrl, DidError> {
    match ParseDid(s)
    case None => Failure(Malformed)
    case Some(d) =>
      if !d.IsUrl() then Failure(NotDidUrl)
      else if d.methodName != "memo" then Failure(UnsupportedMethod)
      else if |d.idStrings| > 1 then Failure(ChainIdUnsupported)
      else if !Is32ByteHex(d.idStrings[|d.idStrings| - 1]) then Failure(Not32ByteHex)
      else if d.path != "" || d.query != "" then Failure(PathOrQuery)
      else if !IsFragment(d.fragment) then Failure(UnsupportedFragment)
      else Success(MemoDIDUrl(d.methodName, d.id, d.idStrings, d.fragment))
  }

  // ---------- the scan loops ----------

  method IsSupport(fragment: string) returns (r: bool)
    ensures r <==> fragment in SUPPORTED_FRAGMENTS
  {
    for i := 0 to |SUPPORTED_FRAGMENTS|
      invariant fragment !in SUPPORTED_FRAGMENTS[..i]
    {
      if SUPPORTED_FRAGMENTS[i] == fragment {
        return true;
      }
    }
    return false;
  }

  method IsNot32ByteHex(s: string) returns (r: bool)
    ensures r <==> !Is32ByteHex(s)
  {
    if |s| != 64 {
      return true;
    }
    for i := 0 to |s|
      invariant AllHex(s[..i])
    {
      var b := s[i];
      if !(('0' <= b <= '9') || ('a' <= b <= 'f') || ('A' <= b <= 'F')) {
        return true;
      }
    }
    assert s[..|s|] == s;
    return false;
  }

  method IsNotPositiveNumber(s: string) returns (r: bool)
    ensures r <==> !IsPositiveNumber(s)
  {
    if s == "" || s == "0" {
      return true;
    }
    for i := 0 to |s|
      invariant AllDigits(s[..i])
    {
      if s[i] < '0' || s[i] > '9' {
        return true;
      }
    }
    assert s[..|s|] == s;
    return false;
  }

  // ---------- exactly which strings are accepted ----------

  function MemoText(id: string, rest: string): string { "did:memo:" + id + rest }

  // The strings that consist of "did:memo:", 64 hex digits and a remainder.
  predicate HasMemoForm(s: string) {
    |s| >= 73 && s[..9] == "did:memo:" && Is32ByteHex(s[9..73])
  }

  lemma SplitOne(id: string)
    requires Is32ByteHex(id)
    ensures Split(id, ':') == [id] && Conforms(id, IsIdChar)
  {
    CutUnique(id, {':'}, id, "");
    AllowedConforms(id, IsIdChar);
  }

  lemma SplitSingleton(id: string)
    requires |Split(id, ':')| == 1
    ensures Split(id, ':') == [id]
  {
    JoinSplit(id, ':');
  }

  // Letters, digits and hyphens: all that a supported fragment contains.
  predicate Plain(s: string) {
    forall i :: 0 <= i < |s| ==> IsAlpha(s[i]) || IsDigit(s[i]) || s[i] == '-'
  }

  lemma NamesPlain()
    ensures forall k :: 0 <= k < |SUPPORTED_FRAGMENTS| ==>
      |SUPPORTED_FRAGMENTS[k]| >= 4 && Plain(SUPPORTED_FRAGMENTS[k])
  {
    assert Plain("authentication");
    assert Plain("assertion");
    assert Plain("delegation");
    assert Plain("recovery");
    assert Plain("masterKey");
  }

  lemma KeyPlain(f: string)
    requires |f| > 4 && f[..4] == "key-" && AllDigits(f[4..])
    ensures Plain(f)
  {
  }

  lemma FragmentPlain(f: string)
    requires IsFragment(f)
    ensures |f| >= 4 && Plain(f)
  {
    if IsKeyFragment(f) {
      KeyPlain(f);
    } else {
      NamesPlain();
    }
  }

  lemma FragmentConforms(f: string)
    requires IsFragment(f)
    ensures |f| >= 4 && Conforms(f, IsQueryChar)
    ensures '?' !in f && '#' !in f
  {
    FragmentPlain(f);
    PlainConforms(f);
  }

  lemma PlainConforms(f: string)
    requires Plain(f)
    ensures Conforms(f, IsQueryChar)
    ensures '?' !in f && '#' !in f
  {
  }

  // Parsing a string of memo form whose remainder has no path.
  lemma ParseMemoText(id: string, query: string, fragment: string)
    requires Is32ByteHex(id)
    requires query == "" || query == "?"
    requires fragment == "" || (fragment[0] == '#' && Conforms(fragment[1..], IsQueryChar))
    ensures ParseDid(MemoText(id, query + fragment)) ==
            Some(DidParts("memo", id, [id], "", "", if fragment == "" then "" else fragment[1..]))
  {
    var p := Pieces("memo", id, "", query, fragment);
    MemoParts(id, query, fragment);
    MemoPieces(p);
    CutText(p);
  }

  lemma MemoParts(id: string, query: string, fragment: string)
    requires Is32ByteHex(id)
    requires query == "" || query == "?"
    requires fragment == "" || (fragment[0] == '#' && Conforms(fragment[1..], IsQueryChar))
    ensures var p := Pieces("memo", id, "", query, fragment);
      && p.Delimited() && WellFormed(p.Parts())
      && p.Parts() == DidParts("memo", id, [id], "", "", if fragment == "" then "" else fragment[1..])
  {
    SplitOne(id);
    var p := Pieces("memo", id, "", query, fragment);
    assert p.Parts().query == "";
    assert forall i :: 0 <= i < |id| ==> IsHexDigit(id[i]);
  }

  lemma MemoPieces(p: Pieces)
    requires p.methodName == "memo" && p.path == ""
    ensures p.Text() == MemoText(p.id, p.query + p.fragment)
  {
  }

  lemma MemoSlices(id: string, rest: string)
    requires Is32ByteHex(id)
    ensures var s := MemoText(id, rest);
      HasMemoForm(s) && s[9..73] == id && s[73..] == rest
  {
  }

  // A parsed DID without path or query is the print of its parts, up to empty delimiters.
  lemma ParsedText(s: string)
    requires ParseDid(s).Some?
    requires var d := ParseDid(s).value;
      d.methodName == "memo" && |d.idStrings| == 1 && Is32ByteHex(d.idStrings[0]) && d.path == "" && d.query == ""
    ensures HasMemoForm(s)
    ensures var d := ParseDid(s).value;
      d.id == s[9..73] && d.idStrings == [d.id] && IsTail(s[73..], d.fragment)
  {
    var p := Cut(s).value;
    CutPieces(s);
    SplitSingleton(p.id);
    var tail := p.query + p.fragment;
    MemoPieces(p);
    MemoSlices(p.id, tail);
    TailOfPieces(p.query, p.fragment);
  }

  // What an empty query and a fragment leave after the identifier.
  predicate IsTail(rest: string, f: string) {
    rest == "#" + f || rest == "?#" + f || (f == "" && (rest == "" || rest == "?"))
  }

  lemma TailOfPieces(query: string, fragment: string)
    requires query == "" || query == "?"
    requires fragment == "" || fragment[0] == '#'
    ensures IsTail(query + fragment, if fragment == "" then "" else fragment[1..])
  {
  }

  predicate EmptyDelimiters(rest: string) { rest == "" || rest == "?" || rest == "#" || rest == "?#" }

  // ParseMemoDID accepts 64 hex digits after "did:memo:", followed at most by an empty query and
  // an empty fragment.
  lemma DidAcceptance(s: string)
    ensures ParseMemoDID(s).Success? <==> HasMemoForm(s) && EmptyDelimiters(s[73..])
    ensures ParseMemoDID(s).Success? ==> ParseMemoDID(s).value == MemoDID("memo", s[9..73], [s[9..73]])
  {
    if ParseMemoDID(s).Success? {
      ParsedText(s);
    }
    if HasMemoForm(s) && EmptyDelimiters(s[73..]) {
      var rest := s[73..];
      var query := if rest == "?" || rest == "?#" then "?" else "";
      var fragment := if rest == "#" || rest == "?#" then "#" else "";
      assert query + fragment == rest;
      assert s == MemoText(s[9..73], rest);
      ParseMemoText(s[9..73], query, fragment);
    }
  }

  // The fragment of a string of memo form, once an empty query is skipped.
  function UrlTail(rest: string): Option<string> {
    if rest != "" && rest[0] == '#' then Some(rest[1..])
    else if |rest| >= 2 && rest[..2] == "?#" then Some(rest[2..])
    else None
  }

  lemma UrlAccepted(id: string, f: string, query: string)
    requires Is32ByteHex(id) && IsFragment(f) && (query == "" || query == "?")
    ensures ParseMemoDIDUrl(MemoText(id, query + ("#" + f))) == Success(MemoDIDUrl("memo", id, [id], f))
  {
    FragmentConforms(f);
    assert ("#" + f)[1..] == f;
    ParseMemoText(id, query, "#" + f);
  }

  lemma UrlForm(s: string)
    requires ParseMemoDIDUrl(s).Success?
    ensures HasMemoForm(s)
    ensures var u := ParseMemoDIDUrl(s).value;
      && u == MemoDIDUrl("memo", s[9..73], [s[9..73]], u.fragment)
      && IsFragment(u.fragment)
      && UrlTail(s[73..]) == Some(u.fragment)
  {
    ParsedText(s);
    FragmentConforms(ParseDid(s).value.fragment);
    FragmentOfTail(s[73..], ParseDid(s).value.fragment);
  }

  lemma FragmentOfTail(rest: string, f: string)
    requires IsTail(rest, f) && f != ""
    ensures UrlTail(rest) == Some(f)
  {
  }

  // The empty query, if any, in front of a fragment.
  function TailQuery(rest: string): (query: string)
    requires UrlTail(rest).Some?
    ensures query == "" || query == "?"
    ensures rest == query + ("#" + UrlTail(rest).value)
  {
    if rest[0] == '#' then
      assert rest == "#" + rest[1..];
      ""
    else
      assert rest == rest[..2] + rest[2..];
      "?"
  }

  lemma UrlFormAccepted(s: string)
    requires HasMemoForm(s) && UrlTail(s[73..]).Some? && IsFragment(UrlTail(s[73..]).value)
    ensures ParseMemoDIDUrl(s) == Success(MemoDIDUrl("memo", s[9..73], [s[9..73]], UrlTail(s[73..]).value))
  {
    var rest := s[73..];
    assert s == MemoText(s[9..73], rest);
    UrlAccepted(s[9..73], UrlTail(rest).value, TailQuery(rest));
  }

  // ParseMemoDIDUrl accepts 64 hex digits after "did:memo:", possibly an empty query, and a
  // supported fragment.
  lemma UrlAcceptance(s: string)
    ensures ParseMemoDIDUrl(s).Success? <==>
      HasMemoForm(s) && UrlTail(s[73..]).Some? && IsFragment(UrlTail(s[73..]).value)
    ensures ParseMemoDIDUrl(s).Success? ==>
      ParseMemoDIDUrl(s).value == MemoDIDUrl("memo", s[9..73], [s[9..73]], UrlTail(s[73..]).value)
  {
    if ParseMemoDIDUrl(s).Success? {
      UrlForm(s);
    } else if HasMemoForm(s) && UrlTail(s[73..]).Some? && IsFragment(UrlTail(s[73..]).value) {
      UrlFormAccepted(s);
    }
  }

  // ---------- parse and print ----------

  predicate ValidDID(d: MemoDID) {
    d.methodName == "memo" && Is32ByteHex(d.identifier) && d.identifiers == [d.identifier]
  }

  predicate ValidUrl(u: MemoDIDUrl) {
    u.methodName == "memo" && Is32ByteHex(u.identifier) && u.identifiers == [u.identifier] && IsFragment(u.fragment)
  }

  // The valid DIDs are exactly what the parser returns, and each reparses to itself.
  lemma DidParsePrint(d: MemoDID)
    ensures ValidDID(d) <==> ParseMemoDID(d.ToString()) == Success(d)
  {
    var s := d.ToString();
    if ValidDID(d) {
      assert s[..9] == "did:memo:" && s[9..73] == d.identifier && s[73..] == "";
      DidAcceptance(s);
    }
    if ParseMemoDID(s) == Success(d) {
      DidAcceptance(s);
    }
  }

  // Delimiters can only occur in the remainder of a string of memo form.
  lemma DelimitersInRemainder(s: string)
    requires HasMemoForm(s)
    ensures '?' in s <==> '?' in s[73..]
    ensures '#' in s <==> '#' in s[73..]
  {
  }

  // An accepted string prints back exactly when it has no empty query or fragment on it.
  lemma DidPrintParse(s: string)
    requires ParseMemoDID(s).Success?
    ensures ValidDID(ParseMemoDID(s).value)
    ensures ParseMemoDID(s).value.ToString() == s <==> '?' !in s && '#' !in s
  {
    DidAcceptance(s);
    DelimitersInRemainder(s);
    NoDelimiters(s[73..]);
    PrintedDid(s, ParseMemoDID(s).value);
  }

  lemma NoDelimiters(rest: string)
    requires EmptyDelimiters(rest)
    ensures rest == "" <==> '?' !in rest && '#' !in rest
  {
  }

  lemma PrintedDid(s: string, d: MemoDID)
    requires HasMemoForm(s) && d.methodName == "memo" && d.identifier == s[9..73]
    ensures d.ToString() == s <==> s[73..] == ""
  {
  }

  lemma UrlText(u: MemoDIDUrl)
    requires u.methodName == "memo"
    ensures u.ToString() == MemoText(u.identifier, "#" + u.fragment) == MemoText(u.identifier, "" + ("#" + u.fragment))
  {
  }

  lemma UrlParsePrint(u: MemoDIDUrl)
    ensures ValidUrl(u) <==> ParseMemoDIDUrl(u.ToString()) == Success(u)
  {
    var s := u.ToString();
    if ValidUrl(u) {
      UrlAccepted(u.identifier, u.fragment, "");
      UrlText(u);
    }
    if ParseMemoDIDUrl(s) == Success(u) {
      UrlForm(s);
    }
  }

  lemma UrlPrintParse(s: string)
    requires ParseMemoDIDUrl(s).Success?
    ensures ValidUrl(ParseMemoDIDUrl(s).value)
    ensures ParseMemoDIDUrl(s).value.ToString() == s <==> '?' !in s
  {
    UrlForm(s);
    DelimitersInRemainder(s);
    var u := ParseMemoDIDUrl(s).value;
    FragmentConforms(u.fragment);
    TailDelimiters(s[73..], u.fragment);
    PrintedUrl(s, u);
  }

  lemma PrintedUrl(s: string, u: MemoDIDUrl)
    requires HasMemoForm(s) && u.methodName == "memo" && u.identifier == s[9..73]
    ensures u.ToString() == s <==> s[73..] == "#" + u.fragment
  {
  }

  lemma TailDelimiters(rest: string, f: string)
    requires UrlTail(rest) == Some(f) && '?' !in f
    ensures rest == "#" + f || (rest == "?#" + f && |rest| == |f| + 2)
    ensures rest == "#" + f <==> '?' !in rest
  {
  }

  // Strings the parsers accept although they are not what the parsed value prints.
  lemma EmptyFragmentAccepted(id: string)
    requires Is32ByteHex(id)
    ensures ParseMemoDID(MemoText(id, "#")) == Success(MemoDID("memo", id, [id]))
  {
    MemoSlices(id, "#");
    DidAcceptance(MemoText(id, "#"));
  }

  lemma EmptyQueryAccepted(id: string, f: string)
    requires Is32ByteHex(id) && IsFragment(f)
    ensures ParseMemoDIDUrl(MemoText(id, "?" + ("#" + f))) == Success(MemoDIDUrl("memo", id, [id], f))
    ensures MemoDIDUrl("memo", id, [id], f).ToString() == MemoText(id, "#" + f)
  {
    UrlAccepted(id, f, "?");
    UrlText(MemoDIDUrl("memo", id, [id], f));
  }

  // A DID made by hex-encoding a 32-byte hash is accepted: CreateUnregisteredDID.
  lemma HashIdentifierAccepted(hash: seq<Byte>)
    requires |hash| == 32
    ensures var d := MemoDID("memo", Hex(hash), [Hex(hash)]);
      ParseMemoDID(d.ToString()) == Success(d)
  {
    DidParsePrint(MemoDID("memo", Hex(hash), [Hex(hash)]));
  }

  // The fragment of a parsed URL is long enough for GetMethodIndex.
  lemma IndexDefined(s: string)
    requires ParseMemoDIDUrl(s).Success?
    ensures |ParseMemoDIDUrl(s).value.fragment| >= 4
  {
    FragmentPlain(ParseMemoDIDUrl(s).value.fragment);
  }

  // Two valid URLs with the same text are the same URL.
  lemma UrlTextInjective(u: MemoDIDUrl, v: MemoDIDUrl)
    requires ValidUrl(u) && ValidUrl(v)
    ensures u.ToString() == v.ToString() <==> u == v
  {
    UrlParsePrint(u);
    UrlParsePrint(v);
  }

  // ---------- method indices ----------

  lemma KeyFragmentDigits(f: string)
    requires IsKeyFragment(f)
    ensures f != "masterKey" && f !in SUPPORTED_FRAGMENTS
    ensures |f| >= 4 && f[..4] == "key-" && f[4..] != "" && AllDigits(f[4..])
    ensures Atoi(f[4..]) == if DigitsValue(f[4..]) <= MAX_INT64 then Some(DigitsValue(f[4..])) else None
  {
    assert f[0] == f[..4][0] == 'k';
    assert IsDigit(f[4..][0]);
  }

  // Every URL the parser returns has an index, and it is the value of the key number when that
  // fits an int64.
  lemma ParsedIndex(u: MemoDIDUrl)
    requires ValidUrl(u)
    ensures |u.fragment| >= 4
    ensures u.fragment == "masterKey" ==> u.GetMethodIndex() == 0
    ensures u.fragment in SUPPORTED_FRAGMENTS && u.fragment != "masterKey" ==> u.GetMethodIndex() == -1
    ensures u.fragment !in SUPPORTED_FRAGMENTS ==>
      && IsKeyFragment(u.fragment)
      && var v := DigitsValue(u.fragment[4..]);
         u.GetMethodIndex() == if v <= MAX_INT64 then v else -1
  {
    if u.fragment !in SUPPORTED_FRAGMENTS {
      KeyFragmentDigits(u.fragment);
    } else if u.fragment != "masterKey" {
      assert u.fragment[..4] != "key-" by {
        assert u.fragment[..4][0] == u.fragment[0];
      }
    }
  }

  // The URL printed for an index denotes that index and is accepted by the parser.
  lemma IndexOfDIDUrl(d: MemoDID, n: nat)
    requires ValidDID(d)
    ensures d.DIDUrl(n).Some? && ValidUrl(d.DIDUrl(n).value) && |d.DIDUrl(n).value.fragment| >= 4
    ensures d.DIDUrl(n).value.DID() == d
    ensures d.DIDUrl(n).value.GetMethodIndex() == if n <= MAX_INT64 then n else -1
  {
    var u := d.DIDUrl(n).value;
    if n > 0 {
      DecimalRoundTrip(n);
      assert u.fragment[..4] == "key-" && u.fragment[4..] == Decimal(n);
      assert IsPositiveNumber(Decimal(n));
      assert IsKeyFragment(u.fragment);
      KeyFragmentDigits(u.fragment);
    }
    ParsedIndex(u);
  }

  predicate CanonicalKey(f: string) {
    f == "masterKey" || (IsKeyFragment(f) && f[4] != '0' && DigitsValue(f[4..]) <= MAX_INT64)
  }

  // Printing the index of a URL gives the URL back exactly for masterKey and for key numbers
  // below 2^63 without a leading zero.
  lemma UrlOfIndex(u: MemoDIDUrl)
    requires ValidUrl(u)
    ensures |u.fragment| >= 4
    ensures u.DID().DIDUrl(u.GetMethodIndex()) == Some(u) <==> CanonicalKey(u.fragment)
  {
    ParsedIndex(u);
    var f := u.fragment;
    if f !in SUPPORTED_FRAGMENTS {
      var digits := f[4..];
      assert digits[0] == f[4];
      assert f == "key-" + digits;
      DigitsPrintBack(digits);
      var v := DigitsValue(digits);
      if v > 0 {
        var g := "key-" + Decimal(v);
        assert g[4..] == Decimal(v);
        assert g == f <==> Decimal(v) == digits;
        assert digits != "0";
      } else if f[4] != '0' {
        PositiveValue(digits);
      }
    }
  }

  lemma DoubleZero()
    ensures IsKeyFragment("key-00") && "key-00" !in SUPPORTED_FRAGMENTS
    ensures DigitsValue("key-00"[4..]) == 0
  {
  }

  // key-00 is accepted and denotes the master key's index under another name.
  lemma LeadingZerosAlias(id: string)
    requires Is32ByteHex(id)
    ensures var u := MemoDIDUrl("memo", id, [id], "key-00");
      && ParseMemoDIDUrl(u.ToString()) == Success(u)
      && u.GetMethodIndex() == 0 && u.fragment != "masterKey"
  {
    DoubleZero();
    var u := MemoDIDUrl("memo", id, [id], "key-00");
    UrlParsePrint(u);
    ParsedIndex(u);
  }
}
