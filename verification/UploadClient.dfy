/** The browser's upload loop over the store: cut the file into slices, send those that are not
    there yet, complete. */
module UploadClient {
  import opened Uploads
  import Protocol = UploadProtocol

  /** Where slice `n` ends, which is where slice `n + 1` starts. */
  function Offset(size: nat, partSize: nat, n: nat): (offset: nat)
    ensures offset <= size
  {
    if n == 0 then 0
    else
      var start := Offset(size, partSize, n - 1);
      if start + partSize < size then start + partSize else size
  }

  lemma OffsetStep(size: nat, partSize: nat, n: nat)
    requires n >= 1
    ensures Offset(size, partSize, n - 1) <= Offset(size, partSize, n)
  {
  }

  lemma {:induction false} OffsetIsMultiple(size: nat, partSize: nat, n: nat)
    ensures Offset(size, partSize, n) == if n * partSize < size then n * partSize else size
  {
    if n > 0 {
      OffsetIsMultiple(size, partSize, n - 1);
      assert n * partSize == (n - 1) * partSize + partSize;
    }
  }

  function Slice(file: Bytes, partSize: nat, n: nat): Bytes
    requires n >= 1
  {
    OffsetStep(|file|, partSize, n);
    file[Offset(|file|, partSize, n - 1)..Offset(|file|, partSize, n)]
  }

  /** `Math.ceil(size / partSize)`. */
  function TotalParts(size: nat, partSize: nat): nat
    requires partSize >= 1
  {
    if size == 0 then 0 else (size + partSize - 1) / partSize
  }

  /** That many slices cover the file, and one fewer does not. */
  lemma TotalCovers(size: nat, partSize: nat)
    requires partSize >= 1
    ensures var total := TotalParts(size, partSize);
            Offset(size, partSize, total) == size && (total > 0 ==> Offset(size, partSize, total - 1) < size)
  {
    var total := TotalParts(size, partSize);
    OffsetIsMultiple(size, partSize, total);
    if size > 0 {
      RoundedUp(size, partSize);
      OffsetIsMultiple(size, partSize, total - 1);
      assert (total - 1) * partSize == total * partSize - partSize;
    }
  }

  lemma RoundedUp(size: nat, partSize: nat)
    requires partSize >= 1
    ensures var total := (size + partSize - 1) / partSize;
            size <= total * partSize <= size + partSize - 1
  {
    var all := size + partSize - 1;
    assert all == partSize * (all / partSize) + all % partSize;
  }

  /** What a session of this file, cut into `total` slices, looks like after any number of
      earlier attempts: some of the slices are in, each as the manifest says. */
  ghost predicate Resumable(file: Bytes, partSize: nat, total: nat, m: Manifest, files: map<nat, Bytes>)
  {
    && m.expected == |file|
    && (forall k :: k in m.parts ==> 1 <= k <= total)
    && (forall k :: k in files && k >= 1 ==> files[k] == Slice(file, partSize, k))
    && (forall k :: k in m.parts ==> k in files && m.parts[k] == |Slice(file, partSize, k)|)
  }

  /** Slices in the manifest never add up past the end of the last of them. */
  lemma {:induction false} SlicesFit(file: Bytes, partSize: nat, parts: map<nat, nat>, n: nat)
    requires forall k :: k in parts && k >= 1 ==> parts[k] == |Slice(file, partSize, k)|
    ensures SumTo(parts, n) <= Offset(|file|, partSize, n)
    ensures (forall k :: 1 <= k <= n ==> k in parts) ==> SumTo(parts, n) == Offset(|file|, partSize, n)
  {
    if n > 0 {
      SlicesFit(file, partSize, parts, n - 1);
      OffsetStep(|file|, partSize, n);
    }
  }

  /** A slice that is not in the manifest yet still fits into what is left. */
  lemma MissingSliceFits(file: Bytes, partSize: nat, total: nat, m: Manifest, files: map<nat, Bytes>, number: nat)
    requires Resumable(file, partSize, total, m, files)
    requires 1 <= number <= total && number !in m.parts
    ensures Sum(m.parts) + |Slice(file, partSize, number)| <= |file|
  {
    var size := |Slice(file, partSize, number)|;
    var more := m.parts[number := size];
    SumUpdate(m.parts, number, size);
    SumIsSumTo(more, total);
    SlicesFit(file, partSize, more, total);
  }

  /** The slices put end to end are the file. */
  lemma {:induction false} SlicesAssemble(file: Bytes, partSize: nat, files: map<nat, Bytes>, n: nat)
    requires forall k :: 1 <= k <= n ==> k in files && files[k] == Slice(file, partSize, k)
    ensures Assembled(files, n) == file[..Offset(|file|, partSize, n)]
  {
    if n > 0 {
      SlicesAssemble(file, partSize, files, n - 1);
      OffsetStep(|file|, partSize, n);
      var start, end := Offset(|file|, partSize, n - 1), Offset(|file|, partSize, n);
      assert file[..start] + file[start..end] == file[..end];
    }
  }

  lemma AllNumbers(parts: map<nat, nat>, total: nat)
    requires forall k :: k in parts <==> 1 <= k <= total
    ensures |parts| == total && (parts == map[] <==> total == 0)
  {
    assert parts.Keys == Numbers(total);
    assert |parts| == |parts.Keys|;
    if total == 0 { assert parts.Keys == {}; }
  }

  /** With all slices in, the store finds nothing wrong. */
  lemma AllSlicesComplete(file: Bytes, partSize: nat, total: nat, m: Manifest, files: map<nat, Bytes>)
    requires Resumable(file, partSize, total, m, files)
    requires Offset(|file|, partSize, total) == |file| && (file == [] <==> total == 0)
    requires forall k :: 1 <= k <= total ==> k in m.parts
    ensures |m.parts| == total
    ensures CompletionError(m, files) == None
    ensures Assembled(files, total) == file
  {
    AllNumbers(m.parts, total);
    SlicesFit(file, partSize, m.parts, total);
    SlicesAssemble(file, partSize, files, total);
  }

  /** The loop's own arithmetic cuts the same slices. */
  lemma SliceBounds(size: nat, partSize: nat, n: nat)
    requires partSize >= 1 && 1 <= n <= TotalParts(size, partSize)
    ensures var start := (n - 1) * partSize;
            && 0 <= start <= size && Offset(size, partSize, n - 1) == start
            && Offset(size, partSize, n) == if start + partSize < size then start + partSize else size
  {
    var total := TotalParts(size, partSize);
    OffsetIsMultiple(size, partSize, n - 1);
    OffsetIsMultiple(size, partSize, n);
    Scale(n, partSize);
    Scale(total, partSize);
    RoundedUp(size, partSize);
    AtMost(n - 1, total - 1, partSize);
  }

  method CutSlice(file: Bytes, partSize: nat, number: nat) returns (body: Bytes)
    requires partSize >= 1 && 1 <= number <= TotalParts(|file|, partSize)
    ensures body == Slice(file, partSize, number)
  {
    SliceBounds(|file|, partSize, number);
    var start := (number - 1) * partSize;
    body := file[start..if start + partSize < |file| then start + partSize else |file|];
  }

  lemma Scale(n: nat, partSize: nat)
    requires n >= 1
    ensures n * partSize == (n - 1) * partSize + partSize
  {
  }

  lemma AtMost(a: nat, b: nat, partSize: nat)
    requires a <= b
    ensures a * partSize <= b * partSize
  {
  }

  /** One turn of the loop: the slice goes out, and the session stays resumable even if sending
      it fails half-way. */
  method UploadSlice(store: Store, file: Bytes, partSize: nat, ghost total: nat, number: nat) returns (r: Result<nat>)
    requires partSize >= 1 && |file| <= MAX_INT64
    requires store.Valid() && store.manifest.Some?
    requires Resumable(file, partSize, total, store.manifest.value, store.partFiles)
    requires total == TotalParts(|file|, partSize) && 1 <= number <= total && number !in store.manifest.value.parts
    modifies store`manifest, store`partFiles
    ensures store.Valid() && store.manifest.Some?
    ensures Resumable(file, partSize, total, store.manifest.value, store.partFiles)
    ensures r != Err(TooLarge)
    ensures var before, after := old(store.manifest).value, store.manifest.value;
            && after.target == before.target && after.overwrite == before.overwrite
            && after.parts.Keys == before.parts.Keys + if r.Ok? then {number} else {}
    ensures store.steady ==> r.Ok?
  {
    MissingSliceFits(file, partSize, total, store.manifest.value, store.partFiles, number);
    var body := CutSlice(file, partSize, number);
    r := store.WritePart(number, Reader(body, false));
    assert body[..|body|] == body;
  }

  /** The loop over part numbers. */
  method SendMissing(store: Store, file: Bytes, partSize: nat, total: nat) returns (r: Result<nat>)
    requires partSize >= 1 && |file| <= MAX_INT64 && total == TotalParts(|file|, partSize)
    requires store.Valid() && store.manifest.Some?
    requires Resumable(file, partSize, total, store.manifest.value, store.partFiles)
    modifies store`manifest, store`partFiles
    ensures store.Valid() && store.manifest.Some?
    ensures Resumable(file, partSize, total, store.manifest.value, store.partFiles)
    ensures store.manifest.value.target == old(store.manifest).value.target
    ensures store.manifest.value.overwrite == old(store.manifest).value.overwrite
    ensures r != Err(TooLarge)
    ensures r.Ok? ==> forall k :: 1 <= k <= total ==> k in store.manifest.value.parts
    ensures store.steady ==> r.Ok?
  {
    var uploaded := store.manifest.value.parts.Keys;
    var number := 1;
    while number <= total
      invariant 1 <= number <= total + 1
      invariant store.Valid() && store.manifest.Some?
      invariant Resumable(file, partSize, total, store.manifest.value, store.partFiles)
      invariant store.manifest.value.target == old(store.manifest).value.target
      invariant store.manifest.value.overwrite == old(store.manifest).value.overwrite
      invariant forall k :: k in store.manifest.value.parts <==> k in uploaded || 1 <= k < number
      decreases total + 1 - number
    {
      if number !in uploaded {
        r := UploadSlice(store, file, partSize, total, number);
        if r.Err? { return; }
      }
      number := number + 1;
    }
    return Ok(total);
  }

  /** `uploadFile` from the point where it has a session, new or resumed. `uploaded` is read
      once at the start; the first failing request ends the attempt. Whatever happens, what is
      left behind can be resumed; no request is ever refused as too large; and a completed
      upload has put exactly the file at the target. */
  method UploadFile(store: Store, file: Bytes, partSize: nat) returns (r: Result<nat>)
    requires partSize >= 1 && |file| <= MAX_INT64
    requires store.Valid() && store.manifest.Some?
    requires Resumable(file, partSize, TotalParts(|file|, partSize), store.manifest.value, store.partFiles)
    modifies store
    ensures r != Err(TooLarge)
    ensures r.Ok? ==>
              var m := old(store.manifest).value;
              store.files == old(store.files)[m.target := file] && (!m.overwrite ==> m.target !in old(store.files))
    ensures r.Err? ==>
              && store.Valid() && store.manifest.Some?
              && store.manifest.value.target == old(store.manifest).value.target
              && store.manifest.value.overwrite == old(store.manifest).value.overwrite
              && Resumable(file, partSize, TotalParts(|file|, partSize), store.manifest.value, store.partFiles)
    ensures store.steady ==>
              (r.Ok? <==> old(store.manifest).value.overwrite || old(store.manifest).value.target !in old(store.files))
  {
    var totalParts := TotalParts(|file|, partSize);
    r := SendMissing(store, file, partSize, totalParts);
    if r.Err? { return; }
    EverySliceIn(file, partSize, store.manifest.value, store.partFiles);
    r := store.CompleteUpload();
  }

  lemma EverySliceIn(file: Bytes, partSize: nat, m: Manifest, files: map<nat, Bytes>)
    requires partSize >= 1
    requires Resumable(file, partSize, TotalParts(|file|, partSize), m, files)
    requires forall k :: 1 <= k <= TotalParts(|file|, partSize) ==> k in m.parts
    ensures CompletionError(m, files) == None
    ensures forall k :: 1 <= k <= |m.parts| ==> k in files
    ensures Assembled(files, |m.parts|) == file
  {
    TotalCovers(|file|, partSize);
    AllSlicesComplete(file, partSize, TotalParts(|file|, partSize), m, files);
  }

  // ---- Any number of tabs ----

  predicate IsSlice(file: Bytes, partSize: nat, number: nat, body: Bytes)
  {
    number >= 1 && body == Slice(file, partSize, number)
  }

  /** Whatever is sent as part n is the n-th slice of the file, if it is sent whole. */
  ghost predicate SendsSlices(file: Bytes, partSize: nat, s: Protocol.State, events: seq<Protocol.Event>)
    requires Protocol.IsRun(s, events)
    decreases events
  {
    events != [] ==>
      && (events[0].CopyBody? ==> IsSlice(file, partSize, Protocol.At(s, events[0].i).number, events[0].reader.bytes))
      && SendsSlices(file, partSize, Protocol.Next(s, events[0]), events[1..])
  }

  /** All part bodies that are in place, or on their way, are slices. */
  ghost predicate OnlySlices(file: Bytes, partSize: nat, s: Protocol.State)
  {
    && (forall part :: part in s.accepted ==> IsSlice(file, partSize, part.0, part.1))
    && (forall i :: i in s.instances && s.instances[i].Copied? ==>
          IsSlice(file, partSize, s.instances[i].number, s.instances[i].body))
  }

  lemma StepKeepsSlices(file: Bytes, partSize: nat, s: Protocol.State, e: Protocol.Event)
    requires |file| <= MAX_INT64 && Protocol.Enabled(s, e) && OnlySlices(file, partSize, s)
    requires e.CopyBody? ==> IsSlice(file, partSize, Protocol.At(s, e.i).number, e.reader.bytes)
    ensures OnlySlices(file, partSize, Protocol.Next(s, e))
  {
  }

  lemma {:induction false} RunKeepsSlices(file: Bytes, partSize: nat, s: Protocol.State, events: seq<Protocol.Event>)
    requires |file| <= MAX_INT64 && OnlySlices(file, partSize, s)
    requires Protocol.IsRun(s, events) && SendsSlices(file, partSize, s, events)
    ensures OnlySlices(file, partSize, Protocol.End(s, events))
    decreases events
  {
    if events != [] {
      StepKeepsSlices(file, partSize, s, events[0]);
      RunKeepsSlices(file, partSize, Protocol.Next(s, events[0]), events[1..]);
    }
  }

  lemma {:induction false} SlicesFlatten(file: Bytes, partSize: nat, bodies: seq<Bytes>)
    requires forall k :: 0 <= k < |bodies| ==> IsSlice(file, partSize, k + 1, bodies[k])
    ensures Protocol.Flatten(bodies) == file[..Offset(|file|, partSize, |bodies|)]
    decreases |bodies|
  {
    if bodies != [] {
      var n := |bodies|;
      SlicesFlatten(file, partSize, bodies[..n - 1]);
      OffsetStep(|file|, partSize, n);
      var start, end := Offset(|file|, partSize, n - 1), Offset(|file|, partSize, n);
      assert file[..start] + file[start..end] == file[..end];
    }
  }

  /** Any number of tabs send one file through one session, in whatever order and however often,
      with requests that break off, repeat and overlap: every publication is exactly the file. */
  lemma EveryTabPublishesTheFile(file: Bytes, partSize: nat, s: Protocol.State, session: Manifest,
                                 events: seq<Protocol.Event>, k: nat)
    requires |file| <= MAX_INT64 && session.expected == |file|
    requires Protocol.Initial(s, session) && Protocol.IsRun(s, events) && SendsSlices(file, partSize, s, events)
    requires k < |Protocol.End(s, events).published|
    ensures Protocol.Flatten(Protocol.End(s, events).published[k].bodies) == file
    ensures Protocol.End(s, events).published[k].m.target == session.target
  {
    var bodies := Protocol.End(s, events).published[k].bodies;
    Protocol.EveryPublicationGood(s, session, events, k);
    RunKeepsSlices(file, partSize, s, events);
    forall j | 0 <= j < |bodies| ensures IsSlice(file, partSize, j + 1, bodies[j])
    {
      assert (j + 1, bodies[j]) in Protocol.End(s, events).accepted;
    }
    SlicesFlatten(file, partSize, bodies);
    assert file[..|file|] == file;
  }

  // ---- It can be done ----

  lemma {:induction false} SendsAppend(file: Bytes, partSize: nat, s: Protocol.State,
                                       a: seq<Protocol.Event>, b: seq<Protocol.Event>)
    requires Protocol.IsRun(s, a) && SendsSlices(file, partSize, s, a)
    requires Protocol.IsRun(Protocol.End(s, a), b) && SendsSlices(file, partSize, Protocol.End(s, a), b)
    ensures Protocol.IsRun(s, a + b) && SendsSlices(file, partSize, s, a + b)
    ensures Protocol.End(s, a + b) == Protocol.End(Protocol.End(s, a), b)
    decreases a
  {
    Protocol.RunAppend(s, a, b);
    if a == [] {
      assert a + b == b;
    } else {
      assert (a + b)[1..] == a[1..] + b;
      SendsAppend(file, partSize, Protocol.Next(s, a[0]), a[1..], b);
    }
  }

  lemma {:induction false} NothingSent(file: Bytes, partSize: nat, s: Protocol.State, events: seq<Protocol.Event>)
    requires Protocol.IsRun(s, events) && forall e :: e in events ==> !e.CopyBody?
    ensures SendsSlices(file, partSize, s, events)
    decreases events
  {
    if events != [] {
      assert events[0] in events;
      NothingSent(file, partSize, Protocol.Next(s, events[0]), events[1..]);
    }
  }

  /** One slice sent without interruption. */
  lemma SliceCanBeSent(file: Bytes, partSize: nat, s: Protocol.State, i: nat, number: nat)
    returns (events: seq<Protocol.Event>)
    requires |file| <= MAX_INT64 && partSize >= 1 && Protocol.At(s, i) == Protocol.Idle && s.manifest.Some?
    requires Resumable(file, partSize, TotalParts(|file|, partSize), s.manifest.value, s.partFiles)
    requires 1 <= number <= TotalParts(|file|, partSize) && number !in s.manifest.value.parts
    ensures Protocol.IsRun(s, events) && SendsSlices(file, partSize, s, events)
    ensures var slice, m, after := Slice(file, partSize, number), s.manifest.value, Protocol.End(s, events);
            && after.partFiles == s.partFiles[number := slice]
            && after.manifest == Some(m.(parts := m.parts[number := |slice|]))
            && after.files == s.files && Protocol.At(after, i) == Protocol.Idle
  {
    var slice, m := Slice(file, partSize, number), s.manifest.value;
    MissingSliceFits(file, partSize, TotalParts(|file|, partSize), m, s.partFiles, number);
    var reader := Reader(slice, false);
    assert CopyWithLimit(reader, Protocol.Available(m, number)) == Ok(slice);
    events := Protocol.UninterruptedWriteIsARun(s, i, number, reader);
    var loaded := Protocol.Next(s, events[0]);
    assert events[1..] == [Protocol.CopyBody(i, reader), Protocol.RenamePart(i), Protocol.SaveManifest(i)];
    assert Protocol.At(loaded, i).number == number && events[1..][0] == Protocol.CopyBody(i, reader);
    NothingSent(file, partSize, Protocol.Next(loaded, events[1..][0]), events[1..][1..]);
  }

  /** Exactly the first `n` slices are in. */
  ghost predicate FirstSlicesIn(file: Bytes, partSize: nat, s: Protocol.State, n: nat)
    requires partSize >= 1
  {
    && s.manifest.Some?
    && Resumable(file, partSize, TotalParts(|file|, partSize), s.manifest.value, s.partFiles)
    && forall k :: k in s.manifest.value.parts <==> 1 <= k <= n
  }

  lemma AllSlicesPublish(file: Bytes, partSize: nat, s: Protocol.State, i: nat) returns (events: seq<Protocol.Event>)
    requires |file| <= MAX_INT64 && partSize >= 1 && Protocol.At(s, i) == Protocol.Idle
    requires FirstSlicesIn(file, partSize, s, TotalParts(|file|, partSize))
    requires s.manifest.value.overwrite || s.manifest.value.target !in s.files
    ensures Protocol.IsRun(s, events) && SendsSlices(file, partSize, s, events)
    ensures Protocol.End(s, events).files == s.files[s.manifest.value.target := file]
  {
    EverySliceIn(file, partSize, s.manifest.value, s.partFiles);
    events := Protocol.UninterruptedCompletionIsARun(s, i);
    NothingSent(file, partSize, s, events);
  }

  lemma {:induction false} RestCanBeSent(file: Bytes, partSize: nat, s: Protocol.State, i: nat, n: nat)
    returns (events: seq<Protocol.Event>)
    requires |file| <= MAX_INT64 && partSize >= 1 && Protocol.At(s, i) == Protocol.Idle
    requires n <= TotalParts(|file|, partSize) && FirstSlicesIn(file, partSize, s, n)
    requires s.manifest.value.overwrite || s.manifest.value.target !in s.files
    ensures Protocol.IsRun(s, events) && SendsSlices(file, partSize, s, events)
    ensures Protocol.End(s, events).files == s.files[s.manifest.value.target := file]
    decreases TotalParts(|file|, partSize) - n
  {
    if n == TotalParts(|file|, partSize) {
      events := AllSlicesPublish(file, partSize, s, i);
    } else {
      var sent := SliceCanBeSent(file, partSize, s, i, n + 1);
      var after := Protocol.End(s, sent);
      assert FirstSlicesIn(file, partSize, after, n + 1);
      var rest := RestCanBeSent(file, partSize, after, i, n + 1);
      SendsAppend(file, partSize, s, sent, rest);
      events := sent + rest;
    }
  }

  /** Whatever the file and the size of its parts, a session that has just been created can be
      brought to publish it by sending its slices. */
  lemma EveryFileCanBePublished(file: Bytes, partSize: nat, s: Protocol.State, session: Manifest)
    returns (events: seq<Protocol.Event>)
    requires |file| <= MAX_INT64 && partSize >= 1 && session.expected == |file|
    requires Protocol.Initial(s, session) && (session.overwrite || session.target !in s.files)
    ensures Protocol.IsRun(s, events) && SendsSlices(file, partSize, s, events)
    ensures Protocol.End(s, events).files == s.files[session.target := file]
  {
    events := RestCanBeSent(file, partSize, s, 0, 0);
  }
}
