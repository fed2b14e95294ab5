/** Mfile DIDs. Whether a string is a CID is decided by the `isCid` argument. */
module MfileDid {
  import opened Text
  import opened Wrappers

  datatype MfileError = BadSyntax | NotDid | UnsupportedMethod | UnsupportedFormat | NotCid

  datatype MfileDID = MfileDID(methodName: string, identifier: string) {
    function ToString(): string { "did:" + methodName + ":" + identifier }
  }

  function ParseMfileDID(s: string, isCid: string -> bool): Result<MfileDID, MfileError> {
    var parts := Split(s, ':');
    if |parts| != 3 && |parts| != 4 then Failure(BadSyntax)
    else if parts[0] != "did" then Failure(NotDid)
    else if parts[1] != "mfile" then Failure(UnsupportedMethod)
    else if |parts| >= 4 then Failure(UnsupportedFormat)
    else if !isCid(parts[|parts| - 1]) then Failure(NotCid)
    else Success(MfileDID(parts[1], parts[2]))
  }

  lemma JoinThree(a: string, b: string, c: string)
    requires ':' !in a && ':' !in b
    ensures Join([a, b, c], ':') == a + ":" + b + ":" + c
    ensures ':' !in c ==> Split(a + ":" + b + ":" + c, ':') == [a, b, c]
  {
    assert [a, b, c][1..] == [b, c] && [b, c][1..] == [c];
    assert Join([b, c], ':') == b + [':'] + c;
    assert a + [':'] + (b + [':'] + c) == a + ":" + b + ":" + c;
    if ':' !in c {
      SplitJoin([a, b, c], ':');
    }
  }

  predicate IsMfileText(s: string, isCid: string -> bool) {
    |s| >= 10 && s[..10] == "did:mfile:" && ':' !in s[10..] && isCid(s[10..])
  }

  lemma AcceptedText(s: string, isCid: string -> bool)
    requires ParseMfileDID(s, isCid).Success?
    ensures IsMfileText(s, isCid) && ParseMfileDID(s, isCid).value == MfileDID("mfile", s[10..])
  {
    var parts := Split(s, ':');
    JoinSplit(s, ':');
    assert parts == ["did", "mfile", parts[2]];
    assert parts[2] in parts;
    JoinThree("did", "mfile", parts[2]);
    MfileSlices(parts[2]);
  }

  lemma MfileSlices(id: string)
    ensures var s := "did" + ":" + "mfile" + ":" + id;
      s == "did:mfile:" + id && s[..10] == "did:mfile:" && s[10..] == id
  {
  }

  lemma TextAccepted(id: string, isCid: string -> bool)
    requires ':' !in id && isCid(id)
    ensures ParseMfileDID("did:mfile:" + id, isCid) == Success(MfileDID("mfile", id))
    ensures MfileDID("mfile", id).ToString() == "did:mfile:" + id
  {
    JoinThree("did", "mfile", id);
    MfileSlices(id);
  }

  // Accepted are "did:mfile:" followed by a colon-free CID, and the result prints back unchanged.
  lemma MfileAcceptance(s: string, isCid: string -> bool)
    ensures ParseMfileDID(s, isCid).Success? <==> IsMfileText(s, isCid)
    ensures IsMfileText(s, isCid) ==>
      ParseMfileDID(s, isCid).value == MfileDID("mfile", s[10..]) && ParseMfileDID(s, isCid).value.ToString() == s
  {
    if ParseMfileDID(s, isCid).Success? {
      AcceptedText(s, isCid);
    }
    if IsMfileText(s, isCid) {
      assert s == "did:mfile:" + s[10..];
      TextAccepted(s[10..], isCid);
    }
  }

  // A DID reparses to itself exactly when its method is mfile and its identifier a colon-free CID.
  lemma MfilePrintParse(d: MfileDID, isCid: string -> bool)
    ensures ParseMfileDID(d.ToString(), isCid) == Success(d) <==>
      d.methodName == "mfile" && ':' !in d.identifier && isCid(d.identifier)
  {
    if d.methodName == "mfile" && ':' !in d.identifier && isCid(d.identifier) {
      TextAccepted(d.identifier, isCid);
    }
    if ParseMfileDID(d.ToString(), isCid) == Success(d) {
      AcceptedText(d.ToString(), isCid);
    }
  }
}
