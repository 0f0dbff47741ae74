/**
 The upload of a disk image in chunks, kept in a sparse staging file whose
 length is the only record of how far it got. The class is WriteChunk and
 FinishUpload on the files of one valid name; the functions are what each comes
 to, and the lemmas are about all the calls for one name together, none of
 which overlap.
 */
module DiskUpload {
  import opened Wrappers
  import opened Bytes
  import opened Sparse

  const MAX_SIZE := 0x4_0000_0000_0000

  /** Bytes start to end of total, end inclusive, as they were sent. */
  datatype Chunk = Chunk(start: int, end: int, total: int) {
    predicate Valid() {
      0 <= start <= end < total <= MAX_SIZE
    }

    predicate Last() {
      end + 1 == total
    }

    function Size(): int {
      end - start + 1
    }
  }

  datatype Error = SizeError | Uploading | OutOfSync(have: nat) | ShortChunk | Failed | Incomplete | Busy | Exists

  datatype Image = Missing | Regular(content: bytes) | Irregular

  datatype Uploads = Uploads(staging: Option<bytes>, image: Image)

  /** Whether a chunk was refused before anything was stored, or was there already. */
  function Settled(staging: Option<bytes>, c: Chunk, locked: bool): Option<Result<bool, Error>> {
    if !c.Valid() then Some(Err(SizeError))
    else if locked then Some(Err(Uploading))
    else if c.start == 0 then None
    else if staging.None? then Some(Err(OutOfSync(0)))
    else if |staging.value| == c.start then None
    else if |staging.value| == c.end + 1 then Some(Ok(c.Last()))
    else Some(Err(OutOfSync(|staging.value|)))
  }

  /** What is staged where a chunk is stored. */
  function Before(staging: Option<bytes>, c: Chunk): bytes {
    if c.start == 0 || staging.None? then [] else staging.value
  }

  /** What is staged after a chunk that was taken, or that was not. */
  function Written(staging: Option<bytes>, c: Chunk, locked: bool, body: bytes, taken: bool): Option<bytes>
    requires (c.Valid() && taken) ==> |body| >= c.Size()
  {
    if Settled(staging, c, locked).Some? then staging
    else Some(Before(staging, c) + if taken then body[..c.Size()] else [])
  }

  /** What putting the complete upload in place comes to; free is whether the exclusive lease is granted. */
  function Finished(s: Uploads, total: int, replace: bool, free: bool): (Result<(), Error>, Uploads) {
    if s.staging.None? then (Err(Failed), s)
    else if |s.staging.value| != total then (Err(Incomplete), s)
    else if !free then (Err(Busy), s)
    else if s.image != Missing && (!replace || s.image.Irregular?) then (Err(Exists), s)
    else (Ok(()), Uploads(None, Regular(s.staging.value)))
  }

  class Upload {
    var staged: bool
    const file: File
    var image: Image

    ghost function Now(): Uploads
      reads this, file
    {
      Uploads(if staged then Some(file.content) else None, image)
    }

    constructor (image: Image, space: nat)
      ensures Now() == Uploads(None, image) && fresh(file)
    {
      staged, this.image := false, image;
      file := new File(space);
    }

    /**
     WriteChunk, of a body that ends or breaks off. It never fails where the
     disk has space for the chunk and the body is long enough.
     */
    method WriteChunk(c: Chunk, locked: bool, body: bytes, broken: bool) returns (r: Result<bool, Error>)
      modifies this`staged, file
      ensures Settled(old(Now()).staging, c, locked).Some? ==> r == Settled(old(Now()).staging, c, locked).value
      ensures Settled(old(Now()).staging, c, locked).None? && r.Ok? ==> |body| >= c.Size() && r.value == c.Last()
      ensures |body| >= c.Size() && c.Size() <= old(file.space) && !r.Ok? ==>
                Settled(old(Now()).staging, c, locked).Some?
      ensures Settled(old(Now()).staging, c, locked).None? && |body| < c.Size() && c.Size() <= old(file.space) ==>
                r == Err(if broken then Failed else ShortChunk)
      ensures Now() == Uploads(Written(old(Now()).staging, c, locked, body, r.Ok? && |body| >= c.Size()), old(image))
    {
      if c.start < 0 || c.start > c.end || c.end >= c.total || c.total > MAX_SIZE {
        return Err(SizeError);
      }
      if locked {
        return Err(Uploading);
      }
      if c.start != 0 {
        if staged && |file.content| == c.start {
        } else if staged && |file.content| == c.end + 1 {
          return Ok(c.Last());
        } else if staged {
          return Err(OutOfSync(|file.content|));
        } else {
          return Err(OutOfSync(0));
        }
      }
      staged := true;
      if c.start == 0 {
        file.Truncate(0);
      }
      ghost var before := file.content;
      var failed := Receive(c, body, broken);
      if failed.Some? {
        file.Truncate(c.start);
        assert file.content == before + [];
        return Err(failed.value);
      }
      file.Truncate(c.end + 1);
      assert file.content == before + body[..c.Size()];
      return Ok(c.Last());
    }

    /** The loop of WriteChunk that stores the body behind what is staged. */
    method Receive(c: Chunk, body: bytes, broken: bool) returns (failed: Option<Error>)
      requires c.Valid() && |file.content| == c.start
      modifies file
      ensures c.start <= |file.content|
      ensures forall i :: 0 <= i < c.start ==> At(file.content, i) == At(old(file.content), i)
      ensures failed.None? ==> |body| >= c.Size() && |file.content| <= c.end + 1
      ensures failed.None? ==> forall i :: 0 <= i < c.Size() ==> At(file.content, c.start + i) == body[i]
      ensures old(file.space) >= c.Size() ==>
                failed == if |body| >= c.Size() then None else Some(if broken then Failed else ShortChunk)
    {
      var size := c.end - c.start + 1;
      var buffer := if size < 0x10_0000 then size else 0x10_0000;
      var received := 0;
      while received < size
        invariant 0 <= received <= size && received <= |body|
        invariant c.start <= |file.content| <= c.start + received
        invariant forall i :: 0 <= i < c.start ==> At(file.content, i) == At(old(file.content), i)
        invariant forall k :: c.start <= k < c.start + received ==> At(file.content, k) == body[k - c.start]
        invariant old(file.space) - file.space <= received
        decreases size - received
      {
        var k := if buffer < size - received then buffer else size - received;
        var n := if k < |body| - received then k else |body| - received;
        if n > 0 {
          var _, ok := file.WriteAtSparse(body[received..received + n], c.start + received);
          if !ok {
            return Some(Failed);
          }
          received := received + n;
        }
        if n < k {
          return Some(if broken then Failed else ShortChunk);
        }
      }
      return None;
    }

    /** FinishUpload, where the registry grants the exclusive lease or does not. */
    method FinishUpload(total: int, replace: bool, free: bool) returns (r: Result<(), Error>)
      modifies this
      ensures (r, Now()) == Finished(old(Now()), total, replace, free)
    {
      if !staged {
        return Err(Failed);
      }
      if |file.content| != total {
        return Err(Incomplete);
      }
      if !free {
        return Err(Busy);
      }
      if image != Missing {
        if !replace || image.Irregular? {
          return Err(Exists);
        }
      }
      staged, image := false, Regular(file.content);
      return Ok(());
    }
  }

  // All the calls for one name

  /** A call of WriteChunk, with whether the chunk was taken, or of FinishUpload. */
  datatype Call = Store(chunk: Chunk, locked: bool, body: bytes, taken: bool)
    | Finish(total: int, replace: bool, free: bool)
  {
    predicate Possible() {
      Store? && taken ==> |body| >= chunk.Size()
    }
  }

  function After(s: Uploads, call: Call): Uploads
    requires call.Possible()
  {
    match call
    case Store(c, locked, body, taken) => s.(staging := Written(s.staging, c, locked, body, taken))
    case Finish(total, replace, free) => Finished(s, total, replace, free).1
  }

  function Run(s: Uploads, calls: seq<Call>): Uploads
    requires forall call :: call in calls ==> call.Possible()
    decreases |calls|
  {
    if calls == [] then s else Run(After(s, calls[0]), calls[1..])
  }

  /** A chunk that is long enough names the length of the image and carries its bytes; other calls may be anything. */
  predicate Of(call: Call, file: bytes) {
    call.Store? && call.chunk.Valid() && |call.body| >= call.chunk.Size() ==>
      var c := call.chunk;
      c.total == |file| && call.body[..c.Size()] == file[c.start..c.end + 1]
  }

  predicate Staged(s: Uploads, file: bytes) {
    s.staging.Some? ==> s.staging.value <= file
  }

  lemma PieceFollows(file: bytes, a: nat, b: nat)
    requires a <= b <= |file|
    ensures file[..a] + file[a..b] == file[..b]
  {
  }

  /** A call that puts in place what is staged, where that may replace what is there and nobody has it in use. */
  predicate Places(s: Uploads, call: Call) {
    && call.Finish? && s.staging.Some? && |s.staging.value| == call.total && call.free
    && (s.image == Missing || (s.image.Regular? && call.replace))
  }

  /** A call that names what is staged as the whole image while it is less. */
  predicate CutsShort(s: Uploads, call: Call, file: bytes) {
    Places(s, call) && call.total != |file|
  }

  /** What one call may do to what is under the name. */
  predicate MayTurn(s: Uploads, call: Call, file: bytes)
    requires call.Possible()
  {
    || After(s, call).image == s.image
    || (Places(s, call) && After(s, call) == Uploads(None, Regular(file)))
  }

  lemma StoreStays(s: Uploads, call: Call, file: bytes)
    requires call.Store? && call.Possible() && Staged(s, file) && Of(call, file)
    ensures Staged(After(s, call), file) && After(s, call).image == s.image
  {
    var c := call.chunk;
    if Settled(s.staging, c, call.locked).None? && call.taken {
      PieceFollows(file, c.start, c.end + 1);
      assert c.start == 0 || s.staging.value == file[..c.start];
    }
  }

  /**
   One call: what is staged stays a first part of the image, and something else
   than the image is put in place exactly if the call cuts it short and that
   changes what is there.
   */
  lemma HarmExactlyIfCutShort(s: Uploads, call: Call, file: bytes)
    requires call.Possible() && Staged(s, file) && Of(call, file)
    ensures Staged(After(s, call), file)
    ensures !MayTurn(s, call, file) <==> CutsShort(s, call, file) && s.image != Regular(s.staging.value)
  {
    if call.Store? {
      StoreStays(s, call, file);
    } else if s.staging.Some? && |s.staging.value| == |file| {
      assert s.staging.value == file;
    }
  }

  /** No call of a run puts anything but the image in place. */
  predicate AlwaysTurnsRight(s: Uploads, calls: seq<Call>, file: bytes)
    requires forall call :: call in calls ==> call.Possible()
    decreases |calls|
  {
    calls != [] ==> MayTurn(s, calls[0], file) && AlwaysTurnsRight(After(s, calls[0]), calls[1..], file)
  }

  /** No call of a run cuts the image short, where that changes what is there. */
  predicate NeverCutShort(s: Uploads, calls: seq<Call>, file: bytes)
    requires forall call :: call in calls ==> call.Possible()
    decreases |calls|
  {
    calls != [] ==>
      && (CutsShort(s, calls[0], file) ==> s.image == Regular(s.staging.value))
      && NeverCutShort(After(s, calls[0]), calls[1..], file)
  }

  /**
   Any calls for one name that do not overlap, in any order, with repeats, gaps
   and chunks that fail: if all chunks that are long enough are of one image,
   what is staged is always a first part of it. Nothing else than the image is
   ever put in place exactly if no call that finishes names less than its length.
   */
  lemma {:induction false} RunsTurnRightExactlyIfNotCutShort(s: Uploads, calls: seq<Call>, file: bytes)
    requires Staged(s, file) && forall call :: call in calls ==> call.Possible() && Of(call, file)
    ensures Staged(Run(s, calls), file)
    ensures AlwaysTurnsRight(s, calls, file) <==> NeverCutShort(s, calls, file)
    decreases |calls|
  {
    if calls != [] {
      hide After, Of, Staged, CutsShort, MayTurn;
      var call := calls[0];
      assert call in calls;
      HarmExactlyIfCutShort(s, call, file);
      RunsTurnRightExactlyIfNotCutShort(After(s, call), calls[1..], file);
    }
  }

  /**
   Then what is under the name is what was there before or exactly the image,
   which only takes the place of an image that may be replaced, and only under
   an exclusive lease.
   */
  lemma {:induction false} OnlyTheImageIsPutInPlace(s: Uploads, calls: seq<Call>, file: bytes)
    requires Staged(s, file) && forall call :: call in calls ==> call.Possible() && Of(call, file)
    requires NeverCutShort(s, calls, file)
    ensures var last := Run(s, calls);
            && Staged(last, file)
            && (last.image == s.image || last.image == Regular(file))
            && (s.image.Irregular? ==> last.image == s.image)
            && (s.image.Regular? && (forall call :: call in calls && call.Finish? ==> !call.replace) ==>
                  last.image == s.image)
            && ((forall call :: call in calls && call.Finish? ==> !call.free) ==> last.image == s.image)
    decreases |calls|
  {
    if calls != [] {
      hide After, Of, Staged, CutsShort;
      var call := calls[0];
      assert call in calls;
      HarmExactlyIfCutShort(s, call, file);
      OnlyTheImageIsPutInPlace(After(s, call), calls[1..], file);
    }
  }

  /** Calls that all name the length of the image never cut it short. */
  lemma {:induction false} NamingTheLengthIsEnough(s: Uploads, calls: seq<Call>, file: bytes)
    requires forall call :: call in calls ==> call.Possible() && (call.Finish? ==> call.total == |file|)
    ensures NeverCutShort(s, calls, file)
    decreases |calls|
  {
    if calls != [] {
      assert calls[0] in calls;
      NamingTheLengthIsEnough(After(s, calls[0]), calls[1..], file);
    }
  }

  /**
   A chunk with nothing in it that is found to be staged is said to be the last
   where it names its end as the end of the image, and finishing with the length
   it names puts two bytes of three in place.
   */
  lemma EmptyChunkCutsShort()
    ensures var file, s, c := [1, 2, 3], Uploads(Some([1, 2]), Missing), Chunk(1, 1, 2);
            var store, finish := Store(c, false, [], false), Finish(c.total, false, true);
            && Staged(s, file) && Of(store, file) && Of(finish, file)
            && Settled(s.staging, c, false) == Some(Ok(true))
            && Run(s, [store, finish]) == Uploads(None, Regular([1, 2]))
            && !NeverCutShort(s, [store, finish], file)
  {
    var s, c := Uploads(Some([1, 2]), Missing), Chunk(1, 1, 2);
    var store, finish := Store(c, false, [], false), Finish(c.total, false, true);
    assert After(s, store) == s && After(s, finish) == Uploads(None, Regular([1, 2]));
    assert [store, finish][1..] == [finish] && [finish][1..] == [];
    assert Run(s, [store, finish]) == Run(s, [finish]) == Run(After(s, finish), []);
  }

  /** A chunk that failed leaves what was staged, or nothing of it if it started at 0, so it can be sent again. */
  lemma FailedChunkIsUndone(staging: Option<bytes>, c: Chunk, locked: bool, body: bytes)
    ensures var next := Written(staging, c, locked, body, false);
            next == staging || (c.start == 0 && next == Some([]))
    ensures c.start != 0 ==> Settled(Written(staging, c, locked, body, false), c, locked) == Settled(staging, c, locked)
    ensures c.start == 0 && c.Valid() && !locked ==> Written(staging, c, locked, body, false) == Some([])
  {
    assert Before(staging, c) + [] == Before(staging, c);
  }

  /** A chunk that was stored and is sent again is found to be there, unless it started over. */
  lemma StoredChunkIsFound(staging: Option<bytes>, c: Chunk, locked: bool, body: bytes, again: bytes)
    requires c.Valid() && Settled(staging, c, locked).None? && |body| >= c.Size()
    ensures var next := Written(staging, c, locked, body, true);
            && |next.value| == c.end + 1
            && (c.start != 0 ==>
                  Settled(next, c, locked) == Some(Ok(c.Last())) && Written(next, c, locked, again, false) == next)
            && (c.start == 0 ==> Written(next, c, locked, body, true) == next)
  {
  }

  // An upload that nothing stops

  /** The rest of an image from a on, in chunks of n bytes that are all taken, and the end of the upload. */
  function Calls(file: bytes, a: nat, n: nat, replace: bool): (calls: seq<Call>)
    requires a <= |file| && n > 0
    ensures forall call :: call in calls ==> call.Possible()
    decreases |file| - a
  {
    if a == |file| then [Finish(|file|, replace, true)]
    else
      var b := if |file| - a < n then |file| else a + n;
      [Store(Chunk(a, b - 1, |file|), false, file[a..b], true)] + Calls(file, b, n, replace)
  }

  lemma ChunkIsStaged(s: Uploads, file: bytes, a: nat, b: nat)
    requires a < b <= |file| <= 1_125_899_906_842_624 && (a == 0 || s.staging == Some(file[..a]))
    ensures Settled(s.staging, Chunk(a, b - 1, |file|), false).None?
    ensures After(s, Store(Chunk(a, b - 1, |file|), false, file[a..b], true)) == Uploads(Some(file[..b]), s.image)
  {
    PieceFollows(file, a, b);
    assert file[a..b][..b - a] == file[a..b] && file[..0] == [];
  }

  /**
   A client that sends the rest of an image in order, from where what is staged
   ends or from the start, and then finishes, gets exactly the image in place,
   where there is none or it may be replaced and nobody has it in use.
   */
  lemma {:induction false} UploadCompletes(s: Uploads, file: bytes, a: nat, n: nat, replace: bool)
    requires a <= |file| <= 1_125_899_906_842_624 && n > 0
    requires (a == 0 && file != []) || s.staging == Some(file[..a])
    requires s.image == Missing || (s.image.Regular? && replace)
    ensures Run(s, Calls(file, a, n, replace)) == Uploads(None, Regular(file))
    decreases |file| - a
  {
    var calls := Calls(file, a, n, replace);
    if a == |file| {
      assert file[..a] == file;
      assert Run(s, calls) == Run(After(s, calls[0]), []);
    } else {
      var b := if |file| - a < n then |file| else a + n;
      ChunkIsStaged(s, file, a, b);
      assert calls[1..] == Calls(file, b, n, replace);
      hide After;
      UploadCompletes(Uploads(Some(file[..b]), s.image), file, b, n, replace);
    }
  }

  /** A chunk that is out of sync is told where one would have fitted, and is neither there nor fits itself. */
  lemma OutOfSyncTellsWhere(staging: Option<bytes>, c: Chunk, have: nat, end: int)
    requires Settled(staging, c, false) == Some(Err(OutOfSync(have)))
    ensures have == if staging.Some? then |staging.value| else 0
    ensures c.start != 0 && c.start != have && c.end + 1 != have
    ensures have <= end < c.total ==> Settled(staging, Chunk(have, end, c.total), false).None?
  {
  }

  /** A chunk is refused for its numbers exactly if they are out of order or beyond 1 PiB, and then whoever uploads. */
  lemma RefusedForSize(staging: Option<bytes>, c: Chunk, locked: bool)
    ensures Settled(staging, c, locked) == Some(Err(SizeError))
       <==> c.start < 0 || c.start > c.end || c.end >= c.total || c.total > 1_125_899_906_842_624
    ensures Settled(staging, c, locked) == Some(Err(Uploading)) <==> c.Valid() && locked
  {
  }

  /** Why an upload is not finished is so, and then nothing changes. */
  lemma UnfinishedForAReason(s: Uploads, total: int, replace: bool, free: bool)
    ensures var (r, after) := Finished(s, total, replace, free);
            && (r.Err? ==> after == s)
            && (r == Err(Failed) <==> s.staging.None?)
            && (r == Err(Incomplete) ==> |s.staging.value| != total)
            && (r == Err(Busy) ==> !free)
            && (r == Err(Exists) ==> s.image.Irregular? || (s.image.Regular? && !replace))
  {
  }
}
