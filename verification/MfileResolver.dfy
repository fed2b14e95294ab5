/**
 Read permissions of an mfile DID: the file contract as a machine with one permission table and
 two logs, and the query that merges the logs and filters them by the table.
 */
module MfileResolver {
  import opened Bytes
  import opened MemoDid
  import opened MemoResolver
  import opened Replays
  import opened Text
  import opened Wrappers

  // A level above zero permits reading. Buying and granting set a positive level and log the memo
  // identifier given; revoking clears the level and logs nothing the resolver reads.
  type Level = n: nat | 0 < n < 256 witness 1

  datatype Permission = Permission(file: string, reader: string)

  datatype Files = Files(levels: map<Permission, nat>, bought: seq<Permission>, granted: seq<Permission>)

  datatype FileStep =
    | Buy(who: Permission, level: Level)
    | Grant(who: Permission, level: Level)
    | Revoke(who: Permission)

  const NO_FILES := Files(map[], [], [])

  function NextFiles(f: Files, step: FileStep): Files {
    match step
    case Buy(who, level) => f.(levels := f.levels[who := level], bought := f.bought + [who])
    case Grant(who, level) => f.(levels := f.levels[who := level], granted := f.granted + [who])
    case Revoke(who) => f.(levels := f.levels[who := 0])
  }

  function RunFiles(f: Files, steps: seq<FileStep>): Files {
    if steps == [] then f else NextFiles(RunFiles(f, steps[..|steps| - 1]), steps[|steps| - 1])
  }

  // Read
  function ReadLevel(f: Files, file: string, reader: string): nat {
    var p := Permission(file, reader);
    if p in f.levels then f.levels[p] else 0
  }

  // The readers that one log records for a file, oldest first.
  function Readers(log: seq<Permission>, file: string): seq<string> {
    if log == [] then []
    else
      var p := log[|log| - 1];
      Readers(log[..|log| - 1], file) + if p.file == file then [p.reader] else []
  }

  // Buying and granting set the level, revoking clears it, and other levels stay.
  lemma LevelAfter(f: Files, step: FileStep, file: string, reader: string)
    ensures ReadLevel(NextFiles(f, step), file, reader) ==
      if step.who != Permission(file, reader) then ReadLevel(f, file, reader)
      else if step.Revoke? then 0 else step.level
  {
  }

  // ---------- the query ----------

  // A bought permission is looked up under the identifier that the event parses to.
  function JudgeBought(f: Files, file: string, reader: string): Verdict<MemoDID, DidError> {
    match ParseMemoDID("did:memo:" + reader)
    case Failure(e) => Broken(e)
    case Success(d) => if ReadLevel(f, file, d.identifier) > 0 then Keep(d) else Skip
  }

  // A granted permission is looked up under the text of the event itself.
  function JudgeGranted(f: Files, file: string, reader: string): Verdict<MemoDID, DidError> {
    match ParseMemoDID("did:memo:" + reader)
    case Failure(e) => Broken(e)
    case Success(d) => if ReadLevel(f, file, reader) > 0 then Keep(d) else Skip
  }

  function BoughtVerdicts(f: Files, file: string, ids: seq<string>): (vs: seq<Verdict<MemoDID, DidError>>)
    ensures |vs| == |ids| && forall i :: 0 <= i < |ids| ==> vs[i] == JudgeBought(f, file, ids[i])
  {
    seq(|ids|, i requires 0 <= i < |ids| => JudgeBought(f, file, ids[i]))
  }

  function GrantedVerdicts(f: Files, file: string, ids: seq<string>): (vs: seq<Verdict<MemoDID, DidError>>)
    ensures |vs| == |ids| && forall i :: 0 <= i < |ids| ==> vs[i] == JudgeGranted(f, file, ids[i])
  {
    seq(|ids|, i requires 0 <= i < |ids| => JudgeGranted(f, file, ids[i]))
  }

  function Reads(f: Files, file: string): Result<seq<MemoDID>, DidError> {
    var bought :- Replay(BoughtVerdicts(f, file, Readers(f.bought, file)));
    var granted :- Replay(GrantedVerdicts(f, file, Readers(f.granted, file)));
    Success(bought + granted)
  }

  // Progress of a loop that has appended the entries of n events to `first`.
  ghost predicate Gathered(vs: seq<Verdict<MemoDID, DidError>>, n: nat, first: seq<MemoDID>, readDids: seq<MemoDID>) {
    n <= |vs| && Replay(vs[..n]).Success? && readDids == first + Replay(vs[..n]).value
  }

  lemma GatherSkip(vs: seq<Verdict<MemoDID, DidError>>, n: nat, first: seq<MemoDID>, readDids: seq<MemoDID>)
    requires n < |vs| && Gathered(vs, n, first, readDids) && vs[n].Skip?
    ensures Gathered(vs, n + 1, first, readDids)
  {
    assert vs[..n + 1][..n] == vs[..n];
  }

  lemma GatherKeep(vs: seq<Verdict<MemoDID, DidError>>, n: nat, first: seq<MemoDID>, readDids: seq<MemoDID>, d: MemoDID)
    requires n < |vs| && Gathered(vs, n, first, readDids) && vs[n] == Keep(d)
    ensures Gathered(vs, n + 1, first, readDids + [d])
  {
    assert vs[..n + 1][..n] == vs[..n];
  }

  lemma GatheredAll(vs: seq<Verdict<MemoDID, DidError>>, first: seq<MemoDID>, readDids: seq<MemoDID>)
    requires Gathered(vs, |vs|, first, readDids)
    ensures Replay(vs).Success? && readDids == first + Replay(vs).value
  {
    assert vs[..|vs|] == vs;
  }

  method QueryAllRead(f: Files, file: string) returns (r: Result<seq<MemoDID>, DidError>)
    ensures r == Reads(f, file)
  {
    hide ParseMemoDID, ReadLevel, Readers;
    var readDids: seq<MemoDID> := [];

    var readIter := new EventIterator(Readers(f.bought, file));
    ghost var vs := BoughtVerdicts(f, file, readIter.events);
    ghost var n: nat := 0;
    var more := readIter.Next();
    while more
      invariant |vs| == |readIter.events| && n <= |vs|
      invariant readIter.position == (if more then n + 1 else n) <= |vs|
      invariant !more ==> n == |vs|
      invariant Gathered(vs, n, [], readDids)
      decreases |vs| - n, more
    {
      var read := ParseMemoDID("did:memo:" + readIter.Event());
      if read.Failure? {
        ReplayBreaks(vs, n);
        return Failure(read.error);
      }
      var activated := ReadLevel(f, file, read.value.identifier);
      if activated > 0 {
        GatherKeep(vs, n, [], readDids, read.value);
        readDids := readDids + [read.value];
      } else {
        GatherSkip(vs, n, [], readDids);
      }
      n := n + 1;
      more := readIter.Next();
    }
    GatheredAll(vs, [], readDids);
    ghost var bought := readDids;
    assert bought == Replay(vs).value;

    var freeReadIter := new EventIterator(Readers(f.granted, file));
    vs := GrantedVerdicts(f, file, freeReadIter.events);
    n := 0;
    more := freeReadIter.Next();
    while more
      invariant |vs| == |freeReadIter.events| && n <= |vs|
      invariant freeReadIter.position == (if more then n + 1 else n) <= |vs|
      invariant !more ==> n == |vs|
      invariant Gathered(vs, n, bought, readDids)
      decreases |vs| - n, more
    {
      var read := ParseMemoDID("did:memo:" + freeReadIter.Event());
      if read.Failure? {
        ReplayBreaks(vs, n);
        return Failure(read.error);
      }
      var activated := ReadLevel(f, file, freeReadIter.Event());
      if activated > 0 {
        GatherKeep(vs, n, bought, readDids, read.value);
        readDids := readDids + [read.value];
      } else {
        GatherSkip(vs, n, bought, readDids);
      }
      n := n + 1;
      more := freeReadIter.Next();
    }
    GatheredAll(vs, bought, readDids);
    r := Success(readDids);
  }

  // ---------- over every run ----------

  predicate FilesSound(f: Files) {
    forall p :: p in f.levels && f.levels[p] > 0 ==>
      p.reader in Readers(f.bought, p.file) || p.reader in Readers(f.granted, p.file)
  }

  lemma ReadersGrow(log: seq<Permission>, p: Permission, file: string)
    ensures Readers(log + [p], file) == Readers(log, file) + if p.file == file then [p.reader] else []
  {
  }

  lemma NextFilesSound(f: Files, step: FileStep)
    requires FilesSound(f)
    ensures FilesSound(NextFiles(f, step))
  {
  }

  lemma {:induction false} RunFilesSound(steps: seq<FileStep>)
    ensures FilesSound(RunFiles(NO_FILES, steps))
  {
    if steps != [] {
      RunFilesSound(steps[..|steps| - 1]);
      NextFilesSound(RunFiles(NO_FILES, steps[..|steps| - 1]), steps[|steps| - 1]);
    }
  }

  // How many bought events name a DID.
  function BoughtFor(ids: seq<string>, d: MemoDID): nat {
    if ids == [] then 0
    else
      BoughtFor(ids[..|ids| - 1], d) + if ParseMemoDID("did:memo:" + ids[|ids| - 1]) == Success(d) then 1 else 0
  }

  // How many granted events name a DID under a text that still has a permission.
  function GrantedFor(f: Files, file: string, ids: seq<string>, d: MemoDID): nat {
    if ids == [] then 0
    else
      var id := ids[|ids| - 1];
      GrantedFor(f, file, ids[..|ids| - 1], d) +
      if ParseMemoDID("did:memo:" + id) == Success(d) && ReadLevel(f, file, id) > 0 then 1 else 0
  }

  lemma BoughtStep(f: Files, file: string, ids: seq<string>)
    requires ids != [] && Replay(BoughtVerdicts(f, file, ids)).Success?
    ensures var before, v := Replay(BoughtVerdicts(f, file, ids[..|ids| - 1])), JudgeBought(f, file, ids[|ids| - 1]);
      && before.Success? && !v.Broken?
      && Replay(BoughtVerdicts(f, file, ids)).value == before.value + if v.Keep? then [v.entry] else []
  {
    hide JudgeBought;
    var vs := BoughtVerdicts(f, file, ids);
    assert vs[..|vs| - 1] == BoughtVerdicts(f, file, ids[..|ids| - 1]);
  }

  lemma GrantedStep(f: Files, file: string, ids: seq<string>)
    requires ids != [] && Replay(GrantedVerdicts(f, file, ids)).Success?
    ensures var before, v := Replay(GrantedVerdicts(f, file, ids[..|ids| - 1])), JudgeGranted(f, file, ids[|ids| - 1]);
      && before.Success? && !v.Broken?
      && Replay(GrantedVerdicts(f, file, ids)).value == before.value + if v.Keep? then [v.entry] else []
  {
    hide JudgeGranted;
    var vs := GrantedVerdicts(f, file, ids);
    assert vs[..|vs| - 1] == GrantedVerdicts(f, file, ids[..|ids| - 1]);
  }

  lemma CountStep<E, X>(before: seq<E>, v: Verdict<E, X>, e: E)
    ensures Occurrences(before + (if v.Keep? then [v.entry] else []), e) ==
      Occurrences(before, e) + if v == Keep(e) then 1 else 0
  {
    if v.Keep? {
      OccursOnceMore(before, v.entry, e);
    } else {
      assert before + [] == before;
    }
  }

  lemma {:induction false} BoughtCount(f: Files, file: string, ids: seq<string>, d: MemoDID)
    requires Replay(BoughtVerdicts(f, file, ids)).Success?
    ensures Occurrences(Replay(BoughtVerdicts(f, file, ids)).value, d) ==
      if ReadLevel(f, file, d.identifier) > 0 then BoughtFor(ids, d) else 0
  {
    hide ParseMemoDID, BoughtVerdicts;
    if ids != [] {
      var init := ids[..|ids| - 1];
      BoughtStep(f, file, ids);
      BoughtCount(f, file, init, d);
      CountStep(Replay(BoughtVerdicts(f, file, init)).value, JudgeBought(f, file, ids[|ids| - 1]), d);
    }
  }

  lemma {:induction false} GrantedCount(f: Files, file: string, ids: seq<string>, d: MemoDID)
    requires Replay(GrantedVerdicts(f, file, ids)).Success?
    ensures Occurrences(Replay(GrantedVerdicts(f, file, ids)).value, d) == GrantedFor(f, file, ids, d)
  {
    hide ParseMemoDID, GrantedVerdicts;
    if ids != [] {
      var init := ids[..|ids| - 1];
      GrantedStep(f, file, ids);
      GrantedCount(f, file, init, d);
      CountStep(Replay(GrantedVerdicts(f, file, init)).value, JudgeGranted(f, file, ids[|ids| - 1]), d);
    }
  }

  lemma {:induction false} ConcatCount<E>(xs: seq<E>, ys: seq<E>, e: E)
    ensures Occurrences(xs + ys, e) == Occurrences(xs, e) + Occurrences(ys, e)
  {
    if ys == [] {
      assert xs + ys == xs;
    } else {
      ConcatCount(xs, ys[..|ys| - 1], e);
      OccursOnceMore(xs + ys[..|ys| - 1], ys[|ys| - 1], e);
      assert xs + ys == xs + ys[..|ys| - 1] + [ys[|ys| - 1]];
    }
  }

  // Bought entries come first; each permitted DID is listed once per bought event and once per
  // granted event whose own text is permitted.
  lemma ReadMultiplicity(f: Files, file: string, d: MemoDID)
    requires Reads(f, file).Success?
    ensures Occurrences(Reads(f, file).value, d) ==
      (if ReadLevel(f, file, d.identifier) > 0 then BoughtFor(Readers(f.bought, file), d) else 0) +
      GrantedFor(f, file, Readers(f.granted, file), d)
  {
    hide ParseMemoDID, JudgeBought, JudgeGranted;
    BoughtCount(f, file, Readers(f.bought, file), d);
    GrantedCount(f, file, Readers(f.granted, file), d);
    ConcatCount(Replay(BoughtVerdicts(f, file, Readers(f.bought, file))).value,
                Replay(GrantedVerdicts(f, file, Readers(f.granted, file))).value, d);
  }

  // The DIDs that a list of readers names, in order.
  function NamedDids(ids: seq<string>): seq<MemoDID> {
    if ids == [] then []
    else
      var parsed := ParseMemoDID("did:memo:" + ids[|ids| - 1]);
      NamedDids(ids[..|ids| - 1]) + if parsed.Success? then [parsed.value] else []
  }

  // One more reader, who is listed, passed over, or does not parse.
  lemma NamedMore(before: seq<MemoDID>, ids: seq<string>, v: Verdict<MemoDID, DidError>)
    requires ids != [] && IsSubsequence(before, NamedDids(ids[..|ids| - 1]))
    requires v.Keep? ==> ParseMemoDID("did:memo:" + ids[|ids| - 1]) == Success(v.entry)
    ensures IsSubsequence(before + if v.Keep? then [v.entry] else [], NamedDids(ids))
  {
    hide ParseMemoDID;
    var parsed, named := ParseMemoDID("did:memo:" + ids[|ids| - 1]), NamedDids(ids[..|ids| - 1]);
    assert before + [] == before && named + [] == named;
    if parsed.Success? {
      SubsequenceMore(before, named, parsed.value);
      SubsequenceBoth(before, named, parsed.value);
    }
  }

  lemma {:induction false} BoughtInOrder(f: Files, file: string, ids: seq<string>)
    requires Replay(BoughtVerdicts(f, file, ids)).Success?
    ensures IsSubsequence(Replay(BoughtVerdicts(f, file, ids)).value, NamedDids(ids))
  {
    hide ParseMemoDID, BoughtVerdicts, NamedDids, IsSubsequence;
    if ids != [] {
      var init := ids[..|ids| - 1];
      BoughtStep(f, file, ids);
      BoughtInOrder(f, file, init);
      NamedMore(Replay(BoughtVerdicts(f, file, init)).value, ids, JudgeBought(f, file, ids[|ids| - 1]));
    } else {
      NothingListed(BoughtVerdicts(f, file, ids), ids);
    }
  }

  lemma {:induction false} GrantedInOrder(f: Files, file: string, ids: seq<string>)
    requires Replay(GrantedVerdicts(f, file, ids)).Success?
    ensures IsSubsequence(Replay(GrantedVerdicts(f, file, ids)).value, NamedDids(ids))
  {
    hide ParseMemoDID, GrantedVerdicts, NamedDids, IsSubsequence;
    if ids != [] {
      var init := ids[..|ids| - 1];
      GrantedStep(f, file, ids);
      GrantedInOrder(f, file, init);
      NamedMore(Replay(GrantedVerdicts(f, file, init)).value, ids, JudgeGranted(f, file, ids[|ids| - 1]));
    } else {
      NothingListed(GrantedVerdicts(f, file, ids), ids);
    }
  }

  lemma NothingListed(vs: seq<Verdict<MemoDID, DidError>>, ids: seq<string>)
    requires |vs| == |ids| == 0
    ensures Replay(vs) == Success([]) && IsSubsequence([], NamedDids(ids))
  {
  }

  // The list falls in two: up to k the bought readers, from k on the granted ones, each in the
  // order of its log and each DID as often as its log has it listed.
  lemma ReadOrder(f: Files, file: string) returns (k: nat)
    requires Reads(f, file).Success?
    ensures var v := Reads(f, file).value;
      && k <= |v|
      && IsSubsequence(v[..k], NamedDids(Readers(f.bought, file)))
      && IsSubsequence(v[k..], NamedDids(Readers(f.granted, file)))
      && (forall d :: Occurrences(v[..k], d) ==
            if ReadLevel(f, file, d.identifier) > 0 then BoughtFor(Readers(f.bought, file), d) else 0)
      && (forall d :: Occurrences(v[k..], d) == GrantedFor(f, file, Readers(f.granted, file), d))
  {
    hide ParseMemoDID, JudgeBought, JudgeGranted, IsSubsequence, BoughtFor, GrantedFor, ReadLevel;
    var bought := Replay(BoughtVerdicts(f, file, Readers(f.bought, file))).value;
    var granted := Replay(GrantedVerdicts(f, file, Readers(f.granted, file))).value;
    k := |bought|;
    assert (bought + granted)[..k] == bought && (bought + granted)[k..] == granted;
    BoughtInOrder(f, file, Readers(f.bought, file));
    GrantedInOrder(f, file, Readers(f.granted, file));
    forall d
      ensures Occurrences(bought, d) ==
        if ReadLevel(f, file, d.identifier) > 0 then BoughtFor(Readers(f.bought, file), d) else 0
      ensures Occurrences(granted, d) == GrantedFor(f, file, Readers(f.granted, file), d)
    {
      BoughtCount(f, file, Readers(f.bought, file), d);
      GrantedCount(f, file, Readers(f.granted, file), d);
    }
  }

  predicate AllParse(ids: seq<string>) {
    forall i :: 0 <= i < |ids| ==> ParseMemoDID("did:memo:" + ids[i]).Success?
  }

  // The query succeeds exactly when every logged reader parses.
  lemma ReadSucceeds(f: Files, file: string)
    ensures Reads(f, file).Success? <==> AllParse(Readers(f.bought, file)) && AllParse(Readers(f.granted, file))
  {
    hide ParseMemoDID, ReadLevel;
    ReplaySucceeds(BoughtVerdicts(f, file, Readers(f.bought, file)));
    ReplaySucceeds(GrantedVerdicts(f, file, Readers(f.granted, file)));
  }

  // ---------- the list as a set ----------

  predicate Permitted(f: Files, file: string, d: MemoDID) {
    ValidDID(d) && ReadLevel(f, file, d.identifier) > 0
  }

  // A grant recorded under a text other than the identifier it names, and still in force.
  predicate StrayGrant(f: Files, file: string, d: MemoDID, id: string) {
    id in Readers(f.granted, file) && ReadLevel(f, file, id) > 0 &&
    ParseMemoDID("did:memo:" + id) == Success(d) && id != d.identifier
  }

  lemma {:induction false} GrantedWhenLogged(f: Files, file: string, ids: seq<string>, d: MemoDID)
    ensures GrantedFor(f, file, ids, d) > 0 <==>
      exists id :: id in ids && ReadLevel(f, file, id) > 0 && ParseMemoDID("did:memo:" + id) == Success(d)
  {
    hide ParseMemoDID;
    if ids != [] {
      GrantedWhenLogged(f, file, ids[..|ids| - 1], d);
      assert ids == ids[..|ids| - 1] + [ids[|ids| - 1]];
    }
  }

  lemma {:induction false} BoughtWhenLogged(ids: seq<string>, d: MemoDID)
    ensures BoughtFor(ids, d) > 0 <==> exists id :: id in ids && ParseMemoDID("did:memo:" + id) == Success(d)
  {
    hide ParseMemoDID;
    if ids != [] {
      BoughtWhenLogged(ids[..|ids| - 1], d);
      assert ids == ids[..|ids| - 1] + [ids[|ids| - 1]];
    }
  }

  // Only a valid DID is listed, and its identifier is what its text parses from.
  lemma ListedIsValid(id: string, d: MemoDID)
    requires ParseMemoDID("did:memo:" + id) == Success(d)
    ensures ValidDID(d)
  {
    DidPrintParse("did:memo:" + id);
  }

  lemma IdentifierParses(d: MemoDID)
    requires ValidDID(d)
    ensures ParseMemoDID("did:memo:" + d.identifier) == Success(d)
  {
    DidParsePrint(d);
    assert d.ToString() == "did:memo:" + d.identifier;
  }

  // A permission of a valid DID has been logged under its identifier.
  lemma PermittedLogged(steps: seq<FileStep>, file: string, d: MemoDID)
    requires Permitted(RunFiles(NO_FILES, steps), file, d)
    ensures var f := RunFiles(NO_FILES, steps);
      BoughtFor(Readers(f.bought, file), d) > 0 || GrantedFor(f, file, Readers(f.granted, file), d) > 0
  {
    var f := RunFiles(NO_FILES, steps);
    RunFilesSound(steps);
    IdentifierParses(d);
    hide ParseMemoDID, ValidDID;
    assert Permission(file, d.identifier) in f.levels;
    BoughtWhenLogged(Readers(f.bought, file), d);
    GrantedWhenLogged(f, file, Readers(f.granted, file), d);
  }

  // What is listed is permitted, or named by a stray grant.
  lemma ListedPermitted(f: Files, file: string, d: MemoDID)
    requires Reads(f, file).Success? && d in Reads(f, file).value && !Permitted(f, file, d)
    ensures exists id :: StrayGrant(f, file, d, id)
  {
    hide ParseMemoDID, ValidDID, Reads;
    ReadMultiplicity(f, file, d);
    OccursOrNot(Reads(f, file).value, d);
    GrantedWhenLogged(f, file, Readers(f.granted, file), d);
    BoughtWhenLogged(Readers(f.bought, file), d);
    if ReadLevel(f, file, d.identifier) > 0 {
      var id :| ParseMemoDID("did:memo:" + id) == Success(d);
      ListedIsValid(id, d);
      assert false;
    }
    var id :| id in Readers(f.granted, file) && ReadLevel(f, file, id) > 0 &&
              ParseMemoDID("did:memo:" + id) == Success(d);
    assert StrayGrant(f, file, d, id);
  }

  // Over every run, the DIDs listed are exactly those with a permission, and those that a stray
  // grant names.
  lemma ReadsExactly(steps: seq<FileStep>, file: string, d: MemoDID)
    requires Reads(RunFiles(NO_FILES, steps), file).Success?
    ensures var f := RunFiles(NO_FILES, steps);
      d in Reads(f, file).value <==> Permitted(f, file, d) || exists id :: StrayGrant(f, file, d, id)
  {
    hide ParseMemoDID, Reads, Permitted;
    var f := RunFiles(NO_FILES, steps);
    ReadMultiplicity(f, file, d);
    OccursOrNot(Reads(f, file).value, d);
    if Permitted(f, file, d) {
      PermittedLogged(steps, file, d);
      PermittedLevel(f, file, d);
    } else if d in Reads(f, file).value {
      ListedPermitted(f, file, d);
    } else {
      GrantedWhenLogged(f, file, Readers(f.granted, file), d);
    }
  }

  lemma PermittedLevel(f: Files, file: string, d: MemoDID)
    requires Permitted(f, file, d)
    ensures ReadLevel(f, file, d.identifier) > 0
  {
  }

  // The listed DIDs are exactly the permitted ones if and only if every stray grant names a DID
  // that is permitted anyway; in particular when granted texts carry no delimiter.
  lemma ReadsExactlyThePermitted(steps: seq<FileStep>, file: string)
    requires Reads(RunFiles(NO_FILES, steps), file).Success?
    ensures var f := RunFiles(NO_FILES, steps);
      && ((forall d :: d in Reads(f, file).value <==> Permitted(f, file, d)) <==>
            forall d, id :: StrayGrant(f, file, d, id) ==> Permitted(f, file, d))
      && ((forall id :: id in Readers(f.granted, file) ==> '?' !in id && '#' !in id) ==>
            forall d :: d in Reads(f, file).value <==> Permitted(f, file, d))
  {
    var f := RunFiles(NO_FILES, steps);
    forall d
      ensures d in Reads(f, file).value <==> Permitted(f, file, d) || exists id :: StrayGrant(f, file, d, id)
    {
      ReadsExactly(steps, file, d);
    }
    forall d, id | StrayGrant(f, file, d, id)
      ensures '?' in id || '#' in id
    {
      if '?' !in id && '#' !in id {
        UndelimitedIsIdentifier(id, d);
      }
    }
  }

  lemma UndelimitedIsIdentifier(id: string, d: MemoDID)
    requires ParseMemoDID("did:memo:" + id) == Success(d) && '?' !in id && '#' !in id
    ensures id == d.identifier
  {
    var s := "did:memo:" + id;
    DidPrintParse(s);
    hide ParseMemoDID;
    assert '?' !in "did:memo:" && '#' !in "did:memo:";
    assert d.ToString() == "did:memo:" + d.identifier;
    SameSplit("did:memo:", id, "did:memo:", d.identifier);
  }

  lemma OneGrant(p: Permission)
    ensures var f := RunFiles(NO_FILES, [Grant(p, 1)]);
      f.levels == map[p := 1] && f.bought == [] && Readers(f.granted, p.file) == [p.reader]
  {
    var steps := [Grant(p, 1)];
    assert steps[..|steps| - 1] == [];
    var f := RunFiles(NO_FILES, steps);
    assert RunFiles(NO_FILES, []) == NO_FILES;
    assert f == NextFiles(NO_FILES, steps[0]);
    assert f.granted == [] + [p];
    ReadersGrow([], p, p.file);
  }

  lemma SingleReader(f: Files, file: string, id: string, d: MemoDID)
    requires f.bought == [] && Readers(f.granted, file) == [id]
    requires ParseMemoDID("did:memo:" + id) == Success(d) && ReadLevel(f, file, id) > 0
    ensures Reads(f, file) == Success([d])
  {
    hide ParseMemoDID, ReadLevel;
    var bought, granted := BoughtVerdicts(f, file, []), GrantedVerdicts(f, file, [id]);
    assert Readers(f.bought, file) == [];
    assert bought == [] && granted == [JudgeGranted(f, file, id)];
    assert granted[..|granted| - 1] == [] && Replay(granted) == Success([] + [d]);
    assert Replay(bought) == Success([]) && [] + [d] == [d];
  }

  // A run after which the list shows a DID without a permission.
  lemma StrayGrantListed(file: string, id: string)
    requires Is32ByteHex(id)
    ensures var f := RunFiles(NO_FILES, [Grant(Permission(file, id + "#"), 1)]); var d := MemoDID("memo", id, [id]);
      StrayGrant(f, file, d, id + "#") && !Permitted(f, file, d) && Reads(f, file) == Success([d])
  {
    var p := Permission(file, id + "#");
    OneGrant(p);
    EmptyFragmentAccepted(id);
    hide ParseMemoDID, RunFiles, Readers, Reads;
    assert MemoText(id, "#") == "did:memo:" + (id + "#");
    assert |id + "#"| != |id|;
    SingleReader(RunFiles(NO_FILES, [Grant(p, 1)]), file, id + "#", MemoDID("memo", id, [id]));
  }
}
