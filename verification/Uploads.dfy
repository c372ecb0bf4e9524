/** Resumable uploads: the manifest of a session, the size arithmetic around it, and the store
    operations as one instance performs them. */
module Uploads {

  type byte = b: int | 0 <= b < 256
  type Bytes = seq<byte>

  const MAX_INT64: int := 0x7FFF_FFFF_FFFF_FFFF
  type int64 = x: int | -MAX_INT64 - 1 <= x <= MAX_INT64

  datatype UploadError =
    | InvalidPartNumber | SessionNotFound | TooLarge | Incomplete | TargetExists | InvalidTarget | IOError
  datatype Result<+T> = Ok(value: T) | Err(error: UploadError)
  datatype Option<+T> = None | Some(value: T)

  /** Part numbers stand for their decimal keys; the code only ever writes positive ones. */
  datatype Manifest = Manifest(target: string, expected: int64, overwrite: bool, parts: map<nat, nat>)

  // ---- Sums over the manifest ----

  ghost function Sum(parts: map<nat, nat>): nat
    decreases |parts|
  {
    if parts == map[] then 0
    else
      var k :| k in parts;
      parts[k] + Sum(parts - {k})
  }

  lemma {:induction false} SumRemove(parts: map<nat, nat>, k: nat)
    requires k in parts
    ensures Sum(parts) == parts[k] + Sum(parts - {k})
    decreases |parts|
  {
    var j :| j in parts && Sum(parts) == parts[j] + Sum(parts - {j});
    if j != k {
      SumRemove(parts - {j}, k);
      SumRemove(parts - {k}, j);
      assert parts - {j} - {k} == parts - {k} - {j};
    }
  }

  function SizeOf(parts: map<nat, nat>, k: nat): nat
  {
    if k in parts then parts[k] else 0
  }

  lemma SumUpdate(parts: map<nat, nat>, k: nat, size: nat)
    ensures Sum(parts[k := size]) == Sum(parts) - SizeOf(parts, k) + size
    ensures SizeOf(parts, k) <= Sum(parts)
  {
    SumRemove(parts[k := size], k);
    if k in parts {
      SumRemove(parts, k);
      assert parts[k := size] - {k} == parts - {k};
    } else {
      assert parts[k := size] - {k} == parts;
    }
  }

  /** The sum over part numbers 1 to n. */
  function SumTo(parts: map<nat, nat>, n: nat): nat
  {
    if n == 0 then 0 else SumTo(parts, n - 1) + SizeOf(parts, n)
  }

  lemma {:induction false} SumToEmpty(n: nat)
    ensures SumTo(map[], n) == 0
  {
    if n > 0 { SumToEmpty(n - 1); }
  }

  lemma {:induction false} SumToRemove(parts: map<nat, nat>, k: nat, n: nat)
    requires k in parts
    ensures SumTo(parts, n) == SumTo(parts - {k}, n) + if 1 <= k <= n then parts[k] else 0
  {
    if n > 0 { SumToRemove(parts, k, n - 1); }
  }

  lemma {:induction false} SumIsSumTo(parts: map<nat, nat>, n: nat)
    requires forall k :: k in parts ==> 1 <= k <= n
    ensures Sum(parts) == SumTo(parts, n)
    decreases |parts|
  {
    if parts == map[] {
      SumToEmpty(n);
    } else {
      var k :| k in parts;
      SumRemove(parts, k);
      SumToRemove(parts, k, n);
      SumIsSumTo(parts - {k}, n);
    }
  }

  // ---- Part numbers ----

  function Numbers(n: nat): (s: set<nat>)
    ensures |s| == n && forall k :: k in s <==> 1 <= k <= n
  {
    if n == 0 then {} else Numbers(n - 1) + {n}
  }

  /** As many parts as numbers, and every number from 1 up present: nothing else is. */
  lemma ExactlyNumbers(parts: map<nat, nat>)
    requires forall k :: 1 <= k <= |parts| ==> k in parts
    ensures parts.Keys == Numbers(|parts|)
  {
    var numbers := Numbers(|parts|);
    assert numbers <= parts.Keys;
    if numbers != parts.Keys {
      SubsetSize(numbers, parts.Keys);
      assert false;
    }
  }

  lemma SubsetSize(a: set<nat>, b: set<nat>)
    requires a < b
    ensures |a| < |b|
  {
    assert b == a + (b - a);
    assert b - a != {};
  }

  /** The bodies of parts 1 to n, one after the other. */
  function Assembled(files: map<nat, Bytes>, n: nat): Bytes
    requires forall k :: 1 <= k <= n ==> k in files
  {
    if n == 0 then [] else Assembled(files, n - 1) + files[n]
  }

  // ---- Bounded copy ----

  /** A request body: the bytes it delivers, and whether it then ends in an error. */
  datatype Reader = Reader(bytes: Bytes, fails: bool)

  /** `copyWithLimit`: reads at most one byte more than allowed, without overflowing the limit. */
  function CopyWithLimit(reader: Reader, maxBytes: int64): (r: Result<Bytes>)
    ensures r.Ok? ==> |r.value| <= maxBytes && r.value <= reader.bytes
    ensures r.Ok? && |reader.bytes| <= MAX_INT64 ==> r.value == reader.bytes
    ensures !reader.fails && |reader.bytes| <= maxBytes ==> r == Ok(reader.bytes)
    ensures r == Err(TooLarge) <==> maxBytes < 0 || (maxBytes < MAX_INT64 && maxBytes < |reader.bytes|)
    ensures r == Err(IOError) <==> reader.fails && |reader.bytes| <= maxBytes && |reader.bytes| < MAX_INT64
    ensures r.Err? ==> r.error == TooLarge || r.error == IOError
  {
    if maxBytes < 0 then Err(TooLarge)
    else
      var limit: int64 := if maxBytes == MAX_INT64 then maxBytes else maxBytes + 1;
      if |reader.bytes| < limit then
        if reader.fails then Err(IOError)
        else if |reader.bytes| > maxBytes then Err(TooLarge)
        else Ok(reader.bytes)
      else if limit > maxBytes then Err(TooLarge)
      else Ok(reader.bytes[..limit])
  }

  // ---- The store, one instance at a time ----

  /** Part `number` now holds what was read of the body: all of it, if its size is a 64-bit one. */
  ghost predicate PartReplaced(before: map<nat, Bytes>, after: map<nat, Bytes>, number: nat, body: Bytes)
  {
    && number in after && after[number] <= body
    && (|body| <= MAX_INT64 ==> after[number] == body)
    && after == before[number := after[number]]
  }

  /** What `verifyComplete` finds wrong, if anything. */
  function CompletionError(m: Manifest, files: map<nat, Bytes>): Option<UploadError>
  {
    if exists k :: k in m.parts && !(k in files && |files[k]| == m.parts[k]) then Some(Incomplete)
    else if m.expected == 0 then (if m.parts == map[] then None else Some(TooLarge))
    else if m.parts == map[] then Some(Incomplete)
    else if exists k :: 1 <= k <= |m.parts| && k !in m.parts then Some(Incomplete)
    else if SumTo(m.parts, |m.parts|) != m.expected then Some(Incomplete)
    else None
  }

  /** Nothing is wrong exactly when the parts are numbered 1 to n, each file has the size noted for
      it, and the sizes add up to what was announced. */
  lemma CompleteIff(m: Manifest, files: map<nat, Bytes>)
    requires forall k :: k in m.parts ==> k >= 1
    ensures CompletionError(m, files) == None <==>
              && m.parts.Keys == Numbers(|m.parts|)
              && (forall k :: k in m.parts ==> k in files && |files[k]| == m.parts[k])
              && Sum(m.parts) == m.expected
              && (m.expected == 0 <==> m.parts == map[])
  {
    var n := |m.parts|;
    if forall k :: 1 <= k <= n ==> k in m.parts {
      ExactlyNumbers(m.parts);
      SumIsSumTo(m.parts, n);
    }
    if m.parts == map[] { SumToEmpty(0); }
  }

  /** Which of the two complaints it is. */
  lemma CompletionErrorMeans(m: Manifest, files: map<nat, Bytes>)
    ensures CompletionError(m, files) in {None, Some(TooLarge), Some(Incomplete)}
    ensures CompletionError(m, files) == Some(TooLarge) <==>
              m.expected == 0 && m.parts != map[] && forall k :: k in m.parts ==> k in files && |files[k]| == m.parts[k]
  {
  }

  lemma {:induction false} AssembledLength(parts: map<nat, nat>, files: map<nat, Bytes>, n: nat)
    requires forall k :: 1 <= k <= n ==> k in parts && k in files && |files[k]| == parts[k]
    ensures |Assembled(files, n)| == SumTo(parts, n)
  {
    if n > 0 { AssembledLength(parts, files, n - 1); }
  }

  /** Once nothing is found wrong, the parts put together have the announced size. */
  lemma VerifiedAssembles(m: Manifest, files: map<nat, Bytes>)
    requires CompletionError(m, files) == None
    ensures forall k :: 1 <= k <= |m.parts| ==> k in files
    ensures |Assembled(files, |m.parts|)| == m.expected
  {
    if m.expected != 0 { AssembledLength(m.parts, files, |m.parts|); }
  }

  class Store {
    /** The session directory: its manifest, if it has one, and its part files. */
    var manifest: Option<Manifest>
    var partFiles: map<nat, Bytes>
    /** The regular files of the mount. */
    var files: map<string, Bytes>
    /** Nothing outside the model gets in the way: no call fails, and the directories that a target
        needs are in order. */
    const steady: bool

    constructor (files: map<string, Bytes>, steady: bool)
      ensures this.files == files && manifest == None && partFiles == map[] && this.steady == steady
    {
      this.steady := steady;
      this.files := files;
      manifest := None;
      partFiles := map[];
    }

    /** Sizes never add up to more than was announced. */
    ghost predicate Valid()
      reads this
    {
      manifest.Some? ==>
        && manifest.value.expected >= 0
        && (forall k :: k in manifest.value.parts ==> k >= 1)
        && Sum(manifest.value.parts) <= manifest.value.expected
    }

    method CreateUploadSession(target: string, expected: int64, overwrite: bool) returns (r: Result<Manifest>)
      modifies this`manifest, this`partFiles
      ensures r.Ok? ==> Valid() && manifest == Some(r.value) && partFiles == map[]
      ensures r.Ok? ==> r.value == Manifest(target, expected, overwrite, map[])
      ensures r.Err? ==> manifest == old(manifest) && partFiles == old(partFiles)
      ensures expected < 0 ==> r == Err(InvalidTarget)
      ensures r.Ok? && !overwrite ==> target !in files
      ensures steady ==> (r.Ok? <==> expected >= 0 && (overwrite || target !in files))
    {
      if expected < 0 { return Err(InvalidTarget); }
      var valid := ValidateTarget(target, overwrite);
      if valid.Err? { return Err(valid.error); }
      if !steady { if * { return Err(IOError); } }
      manifest := Some(Manifest(target, expected, overwrite, map[]));
      partFiles := map[];
      assert Sum(map[]) == 0;
      return Ok(manifest.value);
    }

    /** `validateTarget`; the parent checks can fail for reasons outside the model. */
    method ValidateTarget(target: string, overwrite: bool) returns (r: Result<()>)
      ensures r.Ok? && !overwrite ==> target !in files
      ensures r == Err(TargetExists) ==> !overwrite && target in files
      ensures r.Err? ==> r.error == TargetExists || r.error == InvalidTarget
      ensures steady ==> (r.Ok? <==> overwrite || target !in files)
    {
      if !steady { if * { return Err(InvalidTarget); } }
      if target in files && !overwrite { return Err(TargetExists); }
      return Ok(());
    }

    method ReceivedSize(parts: map<nat, nat>) returns (total: nat)
      ensures total == Sum(parts)
    {
      total := 0;
      var left := parts;
      while left != map[]
        invariant total + Sum(left) == Sum(parts)
        decreases |left|
      {
        var k :| k in left;
        SumRemove(left, k);
        total := total + left[k];
        left := left - {k};
      }
    }

    /** Replaces part `number`. The part file is in place before the manifest says so, and stays
        in place when saving the manifest fails. */
    method WritePart(number: int, reader: Reader) returns (r: Result<nat>)
      requires Valid()
      modifies this`manifest, this`partFiles
      ensures Valid()
      ensures number <= 0 ==> r == Err(InvalidPartNumber)
      ensures number > 0 && old(manifest).None? ==> r == Err(SessionNotFound)
      ensures r.Ok? ==>
                && number > 0 && old(manifest).Some? && r.value <= |reader.bytes|
                && (|reader.bytes| <= MAX_INT64 ==> r.value == |reader.bytes|)
                && partFiles == old(partFiles)[number := reader.bytes[..r.value]]
                && manifest == Some(old(manifest).value.(parts := old(manifest).value.parts[number := r.value]))
      ensures r.Err? ==>
                && manifest == old(manifest)
                && (partFiles == old(partFiles) ||
                    (number > 0 && PartReplaced(old(partFiles), partFiles, number, reader.bytes)))
      ensures r == Err(TooLarge) ==>
                var m := old(manifest).value;
                m.expected < Sum(m.parts) - SizeOf(m.parts, number) + |reader.bytes|
      ensures r.Ok? && |reader.bytes| < MAX_INT64 ==> !reader.fails
      ensures steady && number > 0 && old(manifest).Some? && !reader.fails ==>
                var m := old(manifest).value;
                Sum(m.parts) - SizeOf(m.parts, number) + |reader.bytes| <= m.expected ==> r.Ok?
    {
      if number <= 0 { return Err(InvalidPartNumber); }
      if manifest.None? { return Err(SessionNotFound); }
      var m := manifest.value;
      var received := ReceivedSize(m.parts);
      SumUpdate(m.parts, number, 0);
      var available: int64 := m.expected - received + SizeOf(m.parts, number);
      if !steady { if * { return Err(IOError); } }
      var copied := CopyWithLimit(reader, available);
      if copied.Err? { return Err(copied.error); }
      var size := |copied.value|;
      if !steady { if * { return Err(IOError); } }
      partFiles := partFiles[number := copied.value];
      assert copied.value == reader.bytes[..size];
      if !steady { if * { return Err(IOError); } }
      SumUpdate(m.parts, number, size);
      manifest := Some(m.(parts := m.parts[number := size]));
      return Ok(size);
    }

    method VerifyComplete(m: Manifest) returns (problem: Option<UploadError>)
      requires forall k :: k in m.parts ==> k >= 1
      ensures problem == CompletionError(m, partFiles)
    {
      var left := m.parts.Keys;
      while left != {}
        invariant left <= m.parts.Keys
        invariant forall k :: k in m.parts && k !in left ==> k in partFiles && |partFiles[k]| == m.parts[k]
        decreases |left|
      {
        var k :| k in left;
        if k !in partFiles || |partFiles[k]| != m.parts[k] { return Some(Incomplete); }
        left := left - {k};
      }
      if m.expected == 0 {
        return if |m.parts| == 0 then None else Some(TooLarge);
      }
      if |m.parts| == 0 { return Some(Incomplete); }
      var number := 1;
      while number <= |m.parts|
        invariant 1 <= number <= |m.parts| + 1
        invariant forall k :: 1 <= k < number ==> k in m.parts
      {
        if number !in m.parts { return Some(Incomplete); }
        number := number + 1;
      }
      var received := ReceivedSize(m.parts);
      ExactlyNumbers(m.parts);
      SumIsSumTo(m.parts, |m.parts|);
      return if received != m.expected then Some(Incomplete) else None;
    }

    method AssembleParts(n: nat) returns (r: Result<Bytes>)
      ensures r.Ok? ==> (forall k :: 1 <= k <= n ==> k in partFiles) && r.value == Assembled(partFiles, n)
      ensures r.Err? ==> r.error == IOError
      ensures steady && (forall k :: 1 <= k <= n ==> k in partFiles) ==> r.Ok?
    {
      var written: Bytes := [];
      var number := 1;
      while number <= n
        invariant 1 <= number <= n + 1
        invariant forall k :: 1 <= k < number ==> k in partFiles
        invariant written == Assembled(partFiles, number - 1)
      {
        if number !in partFiles { return Err(IOError); }
        if !steady { if * { return Err(IOError); } }
        written := written + partFiles[number];
        number := number + 1;
      }
      return Ok(written);
    }

    /** Rename when overwriting, otherwise an atomic link that fails on an existing target. */
    method Publish(body: Bytes, target: string, overwrite: bool) returns (r: Result<()>)
      modifies this`files
      ensures r.Ok? ==> files == old(files)[target := body] && (!overwrite ==> target !in old(files))
      ensures r == Err(TargetExists) ==> files == old(files) && !overwrite && target in files
      ensures r.Err? ==> r.error == TargetExists || r.error == IOError
      ensures r.Err? ==> files == old(files) || (!overwrite && target !in old(files) && files == old(files)[target := body])
      ensures steady ==> (r.Ok? <==> overwrite || target !in old(files))
    {
      if overwrite {
        if !steady { if * { return Err(IOError); } }
        files := files[target := body];
        return Ok(());
      }
      if target in files { return Err(TargetExists); }
      if !steady { if * { return Err(IOError); } }
      files := files[target := body];
      if !steady { if * { return Err(IOError); } }
      return Ok(());
    }

    /** The second half of `CompleteUpload`, for a manifest that has been verified. */
    method AssembleAndPublish(m: Manifest) returns (r: Result<nat>)
      requires CompletionError(m, partFiles) == None
      modifies this`files
      ensures r.Err? ==> r.error in {InvalidTarget, TargetExists, IOError, Incomplete}
      ensures files != old(files) ==>
                && (forall k :: 1 <= k <= |m.parts| ==> k in partFiles)
                && files == old(files)[m.target := Assembled(partFiles, |m.parts|)]
                && |Assembled(partFiles, |m.parts|)| == m.expected
                && (!m.overwrite ==> m.target !in old(files))
      ensures r.Ok? ==>
                && (forall k :: 1 <= k <= |m.parts| ==> k in partFiles)
                && r.value == m.expected == |Assembled(partFiles, |m.parts|)|
                && files == old(files)[m.target := Assembled(partFiles, |m.parts|)]
                && (!m.overwrite ==> m.target !in old(files))
      ensures r.Err? && files != old(files) ==> !m.overwrite
      ensures steady ==> (r.Ok? <==> m.overwrite || m.target !in old(files))
    {
      var valid := ValidateTarget(m.target, m.overwrite);
      if valid.Err? { return Err(valid.error); }
      if !steady { if * { return Err(IOError); } }
      VerifiedAssembles(m, partFiles);
      var assembled := AssembleParts(|m.parts|);
      if assembled.Err? { return Err(assembled.error); }
      if |assembled.value| != m.expected { return Err(Incomplete); }
      var published := Publish(assembled.value, m.target, m.overwrite);
      if published.Err? { return Err(published.error); }
      return Ok(m.expected);
    }

    /** On success exactly the announced number of bytes, the part bodies in number order, stand
        at the target; nothing else in the mount changes, and without overwrite nothing was there.
        On failure the mount is unchanged, but for the one case that the link took effect and
        only removing its temporary name failed. */
    method CompleteUpload() returns (r: Result<nat>)
      requires Valid()
      modifies this
      ensures Valid()
      ensures old(manifest).None? ==> r == Err(SessionNotFound) && files == old(files)
      ensures old(manifest).Some? && CompletionError(old(manifest).value, old(partFiles)).Some? ==>
                r == Err(CompletionError(old(manifest).value, old(partFiles)).value) && files == old(files)
      ensures r == Err(TooLarge) ==>
                old(manifest).Some? && CompletionError(old(manifest).value, old(partFiles)) == Some(TooLarge)
      ensures r.Ok? ==> old(manifest).Some? && r.value == old(manifest).value.expected
      ensures r.Ok? ==> old(manifest).value.parts.Keys == Numbers(|old(manifest).value.parts|)
      ensures r.Ok? || files != old(files) ==>
                var m, n := old(manifest).value, |old(manifest).value.parts|;
                && old(manifest).Some?
                && (forall k :: 1 <= k <= n ==> k in old(partFiles))
                && files == old(files)[m.target := Assembled(old(partFiles), n)]
                && |Assembled(old(partFiles), n)| == m.expected
                && (!m.overwrite ==> m.target !in old(files))
      ensures r.Err? ==> manifest == old(manifest) && partFiles == old(partFiles)
      ensures r.Err? && files != old(files) ==> !old(manifest).value.overwrite
      ensures steady && old(manifest).Some? && CompletionError(old(manifest).value, old(partFiles)) == None ==>
                (r.Ok? <==> old(manifest).value.overwrite || old(manifest).value.target !in old(files))
      ensures steady && r.Ok? ==> manifest == None && partFiles == map[]
    {
      if manifest.None? { return Err(SessionNotFound); }
      var m := manifest.value;
      var problem := VerifyComplete(m);
      if problem.Some? { return Err(problem.value); }
      assert m.parts.Keys == Numbers(|m.parts|) by {
        if |m.parts| > 0 { ExactlyNumbers(m.parts); }
      }
      r := AssembleAndPublish(m);
      var removed := *;
      if r.Ok? && (steady || removed) {
        manifest := None;
        partFiles := map[];
      }
    }
  }
}
