/**
 The generic DID and DID URL syntax of W3C DID Core 1.0, sections 3.1 and 3.2, as a parser
 with the result fields the SDK reads. A path keeps its leading slash; the `?` and `#`
 delimiters are not part of the query and the fragment, both of which may be empty.
 */
module DidSyntax {
  import opened Text
  import opened Wrappers

  datatype DidParts = DidParts(
    methodName: string, id: string, idStrings: seq<string>, path: string, query: string, fragment: string)
  {
    predicate IsUrl() { path != "" || query != "" || fragment != "" }
  }

  predicate IsAlpha(c: char) { 'a' <= c <= 'z' || 'A' <= c <= 'Z' }

  predicate IsMethodChar(c: char) { 'a' <= c <= 'z' || IsDigit(c) }

  predicate IsIdChar(c: char) { IsAlpha(c) || IsDigit(c) || c in {'.', '-', '_'} }

  predicate IsPathChar(c: char) {
    IsIdChar(c) || c in {'~', '!', '$', '&', '\'', '(', ')', '*', '+', ',', ';', '=', ':', '@', '/'}
  }

  predicate IsQueryChar(c: char) { IsPathChar(c) || c == '?' }

  // Every character is allowed or belongs to a percent-encoded triple.
  predicate Conforms(s: string, allowed: char -> bool) {
    s == "" ||
    (allowed(s[0]) && Conforms(s[1..], allowed)) ||
    (|s| >= 3 && s[0] == '%' && IsHexDigit(s[1]) && IsHexDigit(s[2]) && Conforms(s[3..], allowed))
  }

  predicate WellFormed(d: DidParts) {
    && d.methodName != ""
    && (forall i :: 0 <= i < |d.methodName| ==> IsMethodChar(d.methodName[i]))
    && d.idStrings != []
    && d.idStrings[|d.idStrings| - 1] != ""
    && (forall i :: 0 <= i < |d.idStrings| ==> Conforms(d.idStrings[i], IsIdChar))
    && Conforms(d.path, IsPathChar)
    && Conforms(d.query, IsQueryChar)
    && Conforms(d.fragment, IsQueryChar)
  }

  // What precedes each delimiter, and the delimited pieces with their delimiter still on.
  datatype Pieces = Pieces(methodName: string, id: string, path: string, query: string, fragment: string) {
    function Text(): string { "did:" + (methodName + (":" + (id + (path + (query + fragment))))) }

    predicate Delimited() {
      && (forall i :: 0 <= i < |methodName| ==> methodName[i] !in {':'})
      && (forall i :: 0 <= i < |id| ==> id[i] !in {'/', '?', '#'})
      && (path == "" || path[0] == '/')
      && (forall i :: 0 <= i < |path| ==> path[i] !in {'?', '#'})
      && (query == "" || query[0] == '?')
      && (forall i :: 0 <= i < |query| ==> query[i] !in {'#'})
      && (fragment == "" || fragment[0] == '#')
    }

    function Parts(): DidParts {
      DidParts(methodName, id, Split(id, ':'), path,
               if query == "" then "" else query[1..],
               if fragment == "" then "" else fragment[1..])
    }
  }

  // Cuts what follows "did:" and the method name's colon.
  function CutReference(methodName: string, s: string): Pieces {
    var (id, afterId) := CutAt(s, {'/', '?', '#'});
    var (path, afterPath) := CutAt(afterId, {'?', '#'});
    var (query, fragment) := CutAt(afterPath, {'#'});
    Pieces(methodName, id, path, query, fragment)
  }

  function Cut(s: string): Option<Pieces> {
    if |s| < 4 || s[..4] != "did:" then None
    else
      var (methodName, afterName) := CutAt(s[4..], {':'});
      if afterName == "" then None else Some(CutReference(methodName, afterName[1..]))
  }

  lemma ReferencePieces(methodName: string, s: string)
    requires forall i :: 0 <= i < |methodName| ==> methodName[i] !in {':'}
    ensures var p := CutReference(methodName, s);
      p.Delimited() && p.methodName == methodName && s == p.id + (p.path + (p.query + p.fragment))
  {
    var (id, afterId) := CutAt(s, {'/', '?', '#'});
    CutAtParts(s, {'/', '?', '#'});
    var (path, afterPath) := CutAt(afterId, {'?', '#'});
    CutAtParts(afterId, {'?', '#'});
    CutAtParts(afterPath, {'#'});
  }

  // The pieces are delimited and make up the string.
  lemma CutPieces(s: string)
    requires Cut(s).Some?
    ensures Cut(s).value.Delimited() && s == Cut(s).value.Text()
  {
    var (methodName, afterName) := CutAt(s[4..], {':'});
    CutAtParts(s[4..], {':'});
    assert afterName == ":" + afterName[1..];
    assert s == "did:" + (methodName + afterName);
    ReferencePieces(methodName, afterName[1..]);
  }

  // did.Parse
  function ParseDid(s: string): Option<DidParts> {
    match Cut(s)
    case None => None
    case Some(p) => if WellFormed(p.Parts()) then Some(p.Parts()) else None
  }

  // Cutting is the inverse of putting delimited pieces together.
  lemma CutText(p: Pieces)
    requires p.Delimited()
    ensures Cut(p.Text()) == Some(p)
  {
    var tail := p.path + (p.query + p.fragment);
    var afterName := ":" + (p.id + tail);
    assert p.Text()[4..] == p.methodName + afterName;
    assert p.Text()[..4] == "did:";
    assert afterName[1..] == p.id + tail;
    CutUnique(p.methodName + afterName, {':'}, p.methodName, afterName);
    CutUnique(p.id + tail, {'/', '?', '#'}, p.id, tail);
    CutUnique(tail, {'?', '#'}, p.path, p.query + p.fragment);
    CutUnique(p.query + p.fragment, {'#'}, p.query, p.fragment);
  }

  lemma {:induction false} AllowedConforms(s: string, allowed: char -> bool)
    requires forall i :: 0 <= i < |s| ==> allowed(s[i])
    ensures Conforms(s, allowed)
  {
    if s != "" {
      AllowedConforms(s[1..], allowed);
    }
  }
}
