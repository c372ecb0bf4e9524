/** One upload session worked on by any number of store instances at once. Every HTTP request
    builds its own instance, so nothing serialises them: each file-system operation is a step of
    its own, and the steps of different instances interleave freely. */
module UploadProtocol {
  import opened Uploads

  /** Where an instance is. Manifests and part bodies it holds are its own copies: a part file is
      only ever put in place whole, by renaming a finished temporary file, so reading one gives
      the body it had when it was opened. */
  datatype Instance =
    | Idle
    | Loaded(number: nat, m: Manifest)                      // WritePart: manifest read
    | Copied(number: nat, m: Manifest, body: Bytes)         // body in a temporary file
    | Renamed(m: Manifest)                                  // part file in place; m is to be saved
    | Verified(m: Manifest)                                 // CompleteUpload: manifest read and verified
    | Assembling(m: Manifest, bodies: seq<Bytes>)           // the first parts copied
    | Linked                                                // published by link; temporary name left to remove

  /** What was published, with the part bodies it was made of and whether something was there. */
  datatype Publication = Publication(m: Manifest, bodies: seq<Bytes>, replaced: bool)

  datatype State = State(
    manifest: Option<Manifest>,
    partFiles: map<nat, Bytes>,
    files: map<string, Bytes>,
    instances: map<nat, Instance>,
    accepted: set<(nat, Bytes)>,                            // every body ever put in place, by part number
    published: seq<Publication>)

  datatype Event =
    | LoadForPart(i: nat, number: int)
    | CopyBody(i: nat, reader: Reader)
    | RenamePart(i: nat)
    | SaveManifest(i: nat)
    | LoadForCompletion(i: nat)
    | StartAssembly(i: nat)
    | ReadPart(i: nat)
    | PublishFinal(i: nat)
    | RemoveName(i: nat)
    | Abort(i: nat)
    | RemoveManifest
    | RemovePartFile(part: nat)
    | Outside(files: map<string, Bytes>)

  function At(s: State, i: nat): Instance
  {
    if i in s.instances then s.instances[i] else Idle
  }

  function Move(s: State, i: nat, to: Instance): State
  {
    s.(instances := s.instances[i := to])
  }

  function Flatten(bodies: seq<Bytes>): Bytes
  {
    if bodies == [] then [] else Flatten(bodies[..|bodies| - 1]) + bodies[|bodies| - 1]
  }

  /** The part of `verifyComplete` that depends on the manifest alone. Its look at the part files
      is a look at files that can change right after, so it restricts nothing here. */
  predicate ManifestComplete(m: Manifest)
  {
    if m.expected == 0 then m.parts == map[]
    else
      && m.parts != map[]
      && (forall k :: 1 <= k <= |m.parts| ==> k in m.parts)
      && SumTo(m.parts, |m.parts|) == m.expected
  }

  ghost function Available(m: Manifest, number: nat): int
  {
    m.expected - Sum(m.parts) + SizeOf(m.parts, number)
  }

  ghost predicate Enabled(s: State, e: Event)
  {
    match e
    case LoadForPart(i, number) => At(s, i) == Idle && number > 0 && s.manifest.Some?
    case CopyBody(i, reader) =>
      && At(s, i).Loaded?
      && var available := Available(At(s, i).m, At(s, i).number);
      && 0 <= available <= MAX_INT64 && CopyWithLimit(reader, available).Ok?
    case RenamePart(i) => At(s, i).Copied?
    case SaveManifest(i) => At(s, i).Renamed?
    case LoadForCompletion(i) => At(s, i) == Idle && s.manifest.Some? && ManifestComplete(s.manifest.value)
    case StartAssembly(i) => At(s, i).Verified? && (At(s, i).m.target !in s.files || At(s, i).m.overwrite)
    case ReadPart(i) =>
      && At(s, i).Assembling?
      && var n := |At(s, i).bodies| + 1;
      && n <= |At(s, i).m.parts| && n in s.partFiles
    case PublishFinal(i) =>
      && At(s, i).Assembling?
      && var m, bodies := At(s, i).m, At(s, i).bodies;
      && |bodies| == |m.parts| && |Flatten(bodies)| == m.expected
      && (m.overwrite || m.target !in s.files)
    case RemoveName(i) => At(s, i) == Linked
    case Abort(_) => true
    case RemoveManifest => true
    case RemovePartFile(_) => true
    case Outside(_) => true
  }

  /** `Abort` is any error return or crash; `RemoveManifest` and `RemovePartFile` are the pieces of
      a session directory's removal; `Outside` is whatever else happens to the mount's files. */
  ghost function Next(s: State, e: Event): State
    requires Enabled(s, e)
  {
    match e
    case LoadForPart(i, number) => Move(s, i, Loaded(number, s.manifest.value))
    case CopyBody(i, reader) =>
      var Loaded(number, m) := At(s, i);
      Move(s, i, Copied(number, m, CopyWithLimit(reader, Available(m, number)).value))
    case RenamePart(i) =>
      var Copied(number, m, body) := At(s, i);
      Move(s, i, Renamed(m.(parts := m.parts[number := |body|])))
        .(partFiles := s.partFiles[number := body], accepted := s.accepted + {(number, body)})
    case SaveManifest(i) => Move(s, i, Idle).(manifest := Some(At(s, i).m))
    case LoadForCompletion(i) => Move(s, i, Verified(s.manifest.value))
    case StartAssembly(i) => Move(s, i, Assembling(At(s, i).m, []))
    case ReadPart(i) =>
      var Assembling(m, bodies) := At(s, i);
      Move(s, i, Assembling(m, bodies + [s.partFiles[|bodies| + 1]]))
    case PublishFinal(i) =>
      var Assembling(m, bodies) := At(s, i);
      Move(s, i, if m.overwrite then Idle else Linked)
        .(files := s.files[m.target := Flatten(bodies)],
          published := s.published + [Publication(m, bodies, m.target in s.files)])
    case RemoveName(i) => Move(s, i, Idle)
    case Abort(i) => Move(s, i, Idle)
    case RemoveManifest => s.(manifest := None)
    case RemovePartFile(part) => s.(partFiles := s.partFiles - {part})
    case Outside(files) => s.(files := files)
  }

  /** A fresh session on a mount with the given files. */
  predicate Initial(s: State, session: Manifest)
  {
    && s.manifest == Some(session) && session.expected >= 0 && session.parts == map[]
    && s.partFiles == map[] && s.instances == map[] && s.accepted == {} && s.published == []
  }

  ghost predicate IsRun(s: State, events: seq<Event>)
    decreases events
  {
    events != [] ==> Enabled(s, events[0]) && IsRun(Next(s, events[0]), events[1..])
  }

  ghost function End(s: State, events: seq<Event>): State
    requires IsRun(s, events)
    decreases events
  {
    if events == [] then s else End(Next(s, events[0]), events[1..])
  }

  // ---- The invariant ----

  /** A manifest of this session: same target, size and mode, and never more in its parts than
      the announced size, however many updates other instances have overwritten. */
  ghost predicate Fits(m: Manifest, session: Manifest)
  {
    && m.target == session.target && m.expected == session.expected && m.overwrite == session.overwrite
    && (forall k :: k in m.parts ==> k >= 1)
    && Sum(m.parts) <= session.expected
  }

  /** The first bodies of an assembly: number k is one that was put in place as part k. */
  ghost predicate WholeParts(bodies: seq<Bytes>, accepted: set<(nat, Bytes)>)
  {
    forall k :: 0 <= k < |bodies| ==> (k + 1, bodies[k]) in accepted
  }

  ghost predicate InstanceGood(pc: Instance, session: Manifest, accepted: set<(nat, Bytes)>)
  {
    match pc
    case Idle => true
    case Loaded(number, m) => number >= 1 && Fits(m, session)
    case Copied(number, m, body) => number >= 1 && Fits(m, session) && |body| <= Available(m, number)
    case Renamed(m) => Fits(m, session)
    case Verified(m) => Fits(m, session) && m.parts.Keys == Numbers(|m.parts|)
    case Assembling(m, bodies) => Fits(m, session) && m.parts.Keys == Numbers(|m.parts|) && WholeParts(bodies, accepted)
    case Linked => true
  }

  /** What every publication must be. */
  ghost predicate PublicationGood(p: Publication, session: Manifest, accepted: set<(nat, Bytes)>)
  {
    && Fits(p.m, session)
    && p.m.parts.Keys == Numbers(|p.bodies|)
    && WholeParts(p.bodies, accepted)
    && |Flatten(p.bodies)| == session.expected
    && (!session.overwrite ==> !p.replaced)
  }

  ghost predicate Good(s: State, session: Manifest)
  {
    && (s.manifest.Some? ==> Fits(s.manifest.value, session))
    && (forall n :: n in s.partFiles ==> (n, s.partFiles[n]) in s.accepted)
    && (forall i :: i in s.instances ==> InstanceGood(s.instances[i], session, s.accepted))
    && (forall k :: 0 <= k < |s.published| ==> PublicationGood(s.published[k], session, s.accepted))
  }

  lemma MoveKeepsGood(s: State, session: Manifest, i: nat, to: Instance)
    requires Good(s, session) && InstanceGood(to, session, s.accepted)
    ensures Good(Move(s, i, to), session)
  {
  }

  lemma InstanceAt(s: State, session: Manifest, i: nat)
    requires Good(s, session)
    ensures InstanceGood(At(s, i), session, s.accepted)
  {
  }

  lemma AcceptKeepsGood(s: State, session: Manifest, number: nat, body: Bytes)
    requires Good(s, session)
    ensures Good(s.(partFiles := s.partFiles[number := body], accepted := s.accepted + {(number, body)}), session)
  {
    var accepted := s.accepted + {(number, body)};
    forall i | i in s.instances ensures InstanceGood(s.instances[i], session, accepted) {
      assert InstanceGood(s.instances[i], session, s.accepted);
    }
    forall k | 0 <= k < |s.published| ensures PublicationGood(s.published[k], session, accepted) {
      assert PublicationGood(s.published[k], session, s.accepted);
    }
  }

  lemma RenameKeepsGood(s: State, session: Manifest, i: nat)
    requires Good(s, session) && Enabled(s, RenamePart(i))
    ensures Good(Next(s, RenamePart(i)), session)
  {
    var Copied(number, m, body) := At(s, i);
    InstanceAt(s, session, i);
    SumUpdate(m.parts, number, |body|);
    MoveKeepsGood(s, session, i, Renamed(m.(parts := m.parts[number := |body|])));
    AcceptKeepsGood(Move(s, i, Renamed(m.(parts := m.parts[number := |body|]))), session, number, body);
  }

  lemma PublishKeepsGood(s: State, session: Manifest, i: nat)
    requires Good(s, session) && Enabled(s, PublishFinal(i))
    ensures Good(Next(s, PublishFinal(i)), session)
  {
    var Assembling(m, bodies) := At(s, i);
    InstanceAt(s, session, i);
    MoveKeepsGood(s, session, i, if m.overwrite then Idle else Linked);
    assert PublicationGood(Publication(m, bodies, m.target in s.files), session, s.accepted);
  }

  /** Steps of `WritePart` that change nothing but the instance. */
  lemma LocalWriteKeepsGood(s: State, session: Manifest, e: Event)
    requires Good(s, session) && Enabled(s, e) && (e.LoadForPart? || e.CopyBody?)
    ensures Good(Next(s, e), session)
  {
    InstanceAt(s, session, e.i);
    MoveKeepsGood(s, session, e.i, At(Next(s, e), e.i));
  }

  /** Steps of `CompleteUpload` that change nothing but the instance. */
  lemma LocalCompleteKeepsGood(s: State, session: Manifest, e: Event)
    requires Good(s, session) && Enabled(s, e) && (e.LoadForCompletion? || e.StartAssembly? || e.ReadPart?)
    ensures Good(Next(s, e), session)
  {
    InstanceAt(s, session, e.i);
    if e.LoadForCompletion? && s.manifest.value.parts != map[] {
      ExactlyNumbers(s.manifest.value.parts);
    }
    MoveKeepsGood(s, session, e.i, At(Next(s, e), e.i));
  }

  lemma SaveKeepsGood(s: State, session: Manifest, i: nat)
    requires Good(s, session) && Enabled(s, SaveManifest(i))
    ensures Good(Next(s, SaveManifest(i)), session)
  {
    InstanceAt(s, session, i);
    MoveKeepsGood(s, session, i, Idle);
  }

  lemma StepKeepsGood(s: State, session: Manifest, e: Event)
    requires Good(s, session) && Enabled(s, e)
    ensures Good(Next(s, e), session)
  {
    if e.RenamePart? {
      RenameKeepsGood(s, session, e.i);
    } else if e.PublishFinal? {
      PublishKeepsGood(s, session, e.i);
    } else if e.SaveManifest? {
      SaveKeepsGood(s, session, e.i);
    } else if e.LoadForPart? || e.CopyBody? {
      LocalWriteKeepsGood(s, session, e);
    } else if e.LoadForCompletion? || e.StartAssembly? || e.ReadPart? {
      LocalCompleteKeepsGood(s, session, e);
    } else if e.RemoveName? || e.Abort? {
      MoveKeepsGood(s, session, e.i, Idle);
    }
  }

  lemma {:induction false} RunKeepsGood(s: State, session: Manifest, events: seq<Event>)
    requires Good(s, session) && IsRun(s, events)
    ensures Good(End(s, events), session)
    decreases events
  {
    if events != [] {
      StepKeepsGood(s, session, events[0]);
      RunKeepsGood(Next(s, events[0]), session, events[1..]);
    }
  }

  /** In every interleaving of any number of instances, every file ever published for the session
      has exactly the announced size, is made of whole part bodies, one for each of the numbers 1
      to n in that order, and, without overwrite, stood where nothing was. */
  lemma EveryPublicationGood(s: State, session: Manifest, events: seq<Event>, k: nat)
    requires Initial(s, session) && IsRun(s, events) && k < |End(s, events).published|
    ensures var after := End(s, events);
            var p := after.published[k];
            && |Flatten(p.bodies)| == session.expected
            && p.m.target == session.target
            && p.m.parts.Keys == Numbers(|p.bodies|)
            && (forall j :: 0 <= j < |p.bodies| ==> (j + 1, p.bodies[j]) in after.accepted)
            && (!session.overwrite ==> !p.replaced)
  {
    assert Sum(session.parts) == 0;
    RunKeepsGood(s, session, events);
  }

  /** Whoever holds a manifest of the session, and however stale it is, there is room for the part
      it already has: a part write is never refused for lack of any room at all. */
  lemma RoomIsNeverNegative(s: State, session: Manifest, events: seq<Event>, i: nat)
    requires Initial(s, session) && IsRun(s, events) && At(End(s, events), i).Loaded?
    ensures var pc := At(End(s, events), i);
            0 <= SizeOf(pc.m.parts, pc.number) <= Available(pc.m, pc.number) <= MAX_INT64
  {
    assert Sum(session.parts) == 0;
    RunKeepsGood(s, session, events);
    var pc := At(End(s, events), i);
    SumUpdate(pc.m.parts, pc.number, 0);
  }

  // ---- What else may happen ----

  /** An instance may stop at any time; nothing but its own progress is lost. */
  lemma AbortFrees(s: State, i: nat)
    ensures Enabled(s, Abort(i))
    ensures var after := Next(s, Abort(i));
            && At(after, i) == Idle && after == s.(instances := after.instances)
            && forall j :: j != i ==> At(after, j) == At(s, j)
  {
  }

  /** Once the manifest is gone no instance starts on the session; one that has begun goes on. */
  lemma RemovalEnds(s: State, i: nat, number: int, part: nat)
    ensures Enabled(s, RemoveManifest) && Enabled(s, RemovePartFile(part))
    ensures var after := Next(s, RemoveManifest);
            && after == s.(manifest := None)
            && !Enabled(after, LoadForPart(i, number)) && !Enabled(after, LoadForCompletion(i))
    ensures var after := Next(s, RemovePartFile(part));
            && part !in after.partFiles && after == s.(partFiles := after.partFiles)
            && (forall n :: n != part ==> (n in after.partFiles <==> n in s.partFiles))
            && (forall n :: n in after.partFiles ==> after.partFiles[n] == s.partFiles[n])
  {
  }

  /** A publication by link leaves the temporary name to be removed, one by rename leaves nothing. */
  lemma LinkLeavesName(s: State, i: nat)
    requires Enabled(s, PublishFinal(i))
    ensures var m, after := At(s, i).m, Next(s, PublishFinal(i));
            && m.target in after.files && after.files[m.target] == Flatten(At(s, i).bodies)
            && (forall other :: other != m.target ==>
                  (other in after.files <==> other in s.files) && (other in s.files ==> after.files[other] == s.files[other]))
            && (m.overwrite ==> At(after, i) == Idle)
            && (!m.overwrite ==> Enabled(after, RemoveName(i)) && At(Next(after, RemoveName(i)), i) == Idle)
  {
  }

  /** With part files of the sizes noted, the manifest alone decides whether a completion goes on. */
  lemma VerifiedIff(m: Manifest, files: map<nat, Bytes>)
    requires forall k :: k in m.parts ==> k in files && |files[k]| == m.parts[k]
    ensures CompletionError(m, files) == None <==> ManifestComplete(m)
  {
  }

  // ---- The uninterrupted operation is one of the runs ----

  lemma OneStep(s: State, e: Event, rest: seq<Event>)
    requires Enabled(s, e) && IsRun(Next(s, e), rest)
    ensures IsRun(s, [e] + rest) && End(s, [e] + rest) == End(Next(s, e), rest)
  {
    assert ([e] + rest)[1..] == rest;
  }

  /** A part write that nothing interrupts is a run, and leaves manifest and part file as the
      store operation does. */
  lemma UninterruptedWriteIsARun(s: State, i: nat, number: nat, reader: Reader) returns (events: seq<Event>)
    requires At(s, i) == Idle && s.manifest.Some? && number > 0
    requires 0 <= Available(s.manifest.value, number) <= MAX_INT64
    requires CopyWithLimit(reader, Available(s.manifest.value, number)).Ok?
    ensures IsRun(s, events) && events == [LoadForPart(i, number), CopyBody(i, reader), RenamePart(i), SaveManifest(i)]
    ensures var m := s.manifest.value;
            var body := CopyWithLimit(reader, Available(m, number)).value;
            var after := End(s, events);
            && after.partFiles == s.partFiles[number := body]
            && after.manifest == Some(m.(parts := m.parts[number := |body|]))
            && after.files == s.files && At(after, i) == Idle
  {
    var load, copy, rename, save := LoadForPart(i, number), CopyBody(i, reader), RenamePart(i), SaveManifest(i);
    var s1 := Next(s, load);
    var s2 := Next(s1, copy);
    var s3 := Next(s2, rename);
    OneStep(s3, save, []);
    OneStep(s2, rename, [save] + []);
    OneStep(s1, copy, [rename] + ([save] + []));
    OneStep(s, load, [copy] + ([rename] + ([save] + [])));
    events := [load] + ([copy] + ([rename] + ([save] + [])));
  }

  lemma {:induction false} RunAppend(s: State, a: seq<Event>, b: seq<Event>)
    requires IsRun(s, a) && IsRun(End(s, a), b)
    ensures IsRun(s, a + b) && End(s, a + b) == End(End(s, a), b)
    decreases a
  {
    if a == [] {
      assert a + b == b;
    } else {
      assert (a + b)[1..] == a[1..] + b;
      RunAppend(Next(s, a[0]), a[1..], b);
    }
  }

  /** The bodies of the first `n` part files. */
  function Bodies(files: map<nat, Bytes>, n: nat): (bodies: seq<Bytes>)
    requires forall k :: 1 <= k <= n ==> k in files
    ensures |bodies| == n
  {
    if n == 0 then [] else Bodies(files, n - 1) + [files[n]]
  }

  lemma {:induction false} BodiesAssemble(files: map<nat, Bytes>, n: nat)
    requires forall k :: 1 <= k <= n ==> k in files
    ensures Flatten(Bodies(files, n)) == Assembled(files, n)
  {
    if n > 0 {
      BodiesAssemble(files, n - 1);
      assert Bodies(files, n)[..n - 1] == Bodies(files, n - 1);
    }
  }

  lemma {:induction false} ReadRest(s: State, i: nat, m: Manifest, n: nat) returns (events: seq<Event>)
    requires n <= |m.parts| && forall k :: 1 <= k <= |m.parts| ==> k in s.partFiles
    requires At(s, i) == Assembling(m, Bodies(s.partFiles, n))
    ensures IsRun(s, events) && forall e :: e in events ==> e.ReadPart?
    ensures End(s, events) == Move(s, i, Assembling(m, Bodies(s.partFiles, |m.parts|)))
    decreases |m.parts| - n
  {
    if n == |m.parts| {
      events := [];
      assert Move(s, i, At(s, i)).instances == s.instances;
    } else {
      var next := Next(s, ReadPart(i));
      assert At(next, i) == Assembling(m, Bodies(s.partFiles, n + 1));
      var rest := ReadRest(next, i, m, n + 1);
      OneStep(s, ReadPart(i), rest);
      events := [ReadPart(i)] + rest;
      var whole := Assembling(m, Bodies(s.partFiles, |m.parts|));
      assert Move(next, i, whole).instances == Move(s, i, whole).instances;
    }
  }

  lemma AssemblyIsARun(s: State, i: nat, m: Manifest) returns (events: seq<Event>)
    requires At(s, i) == Assembling(m, [])
    requires forall k :: 1 <= k <= |m.parts| ==> k in s.partFiles
    requires |Assembled(s.partFiles, |m.parts|)| == m.expected && (m.overwrite || m.target !in s.files)
    ensures IsRun(s, events) && forall e :: e in events ==> e.ReadPart? || e.PublishFinal?
    ensures End(s, events).files == s.files[m.target := Assembled(s.partFiles, |m.parts|)]
  {
    assert Bodies(s.partFiles, 0) == [];
    var copied := ReadRest(s, i, m, 0);
    var read := End(s, copied);
    BodiesAssemble(s.partFiles, |m.parts|);
    OneStep(read, PublishFinal(i), []);
    var publish := [PublishFinal(i)] + [];
    RunAppend(s, copied, publish);
    events := copied + publish;
  }

  /** A completion that nothing interrupts is a run, and publishes what the store operation does. */
  lemma UninterruptedCompletionIsARun(s: State, i: nat) returns (events: seq<Event>)
    requires At(s, i) == Idle && s.manifest.Some?
    requires CompletionError(s.manifest.value, s.partFiles) == None
    requires s.manifest.value.overwrite || s.manifest.value.target !in s.files
    ensures IsRun(s, events) && forall e :: e in events ==> !e.CopyBody?
    ensures var m := s.manifest.value;
            && (forall k :: 1 <= k <= |m.parts| ==> k in s.partFiles)
            && End(s, events).files == s.files[m.target := Assembled(s.partFiles, |m.parts|)]
  {
    var m := s.manifest.value;
    VerifiedIff(m, s.partFiles);
    VerifiedAssembles(m, s.partFiles);
    var verified := Next(s, LoadForCompletion(i));
    var started := Next(verified, StartAssembly(i));
    var rest := AssemblyIsARun(started, i, m);
    OneStep(verified, StartAssembly(i), rest);
    OneStep(s, LoadForCompletion(i), [StartAssembly(i)] + rest);
    events := [LoadForCompletion(i)] + ([StartAssembly(i)] + rest);
  }
}
