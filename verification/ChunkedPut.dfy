/**
 An upload sent in pieces, one PUT with a Content-Range for each. The class is
 the handler with the two files it works on, the staging file and the target;
 Handled is what one request comes to, and the lemmas are about all the
 requests to one target together. How the body arrives and which calls to the
 operating system fail is part of a request.
 */
module ChunkedPut {
  import opened Wrappers
  import opened Bytes
  import opened ContentRange

  /** What is under the name of the target: Other is a folder or the like. */
  datatype Place = Nothing | File(content: bytes) | Other

  datatype Uploads = Uploads(staging: Option<bytes>, target: Place)

  datatype Settings = Settings(maxChunkSize: int, maxUploadSize: int)

  datatype Copying = Works | CannotOpen | Breaks | DoesNotClose

  /**
   What works of the file system while a request is handled: making folders,
   asking for the staging file, opening it, how many bytes it takes and whether
   it closes, renaming it, copying it instead, and removing it.
   */
  datatype Disk = Disk(folders: bool, stats: bool, opens: bool, room: Option<nat>, closes: bool,
                       renames: bool, copies: Copying, removes: bool)

  /**
   A request: raw is whether the body is the file itself, broken whether it
   ends in an error rather than at its end, and noticed whether a body that is
   too long was found to be before the disk was full.
   */
  datatype Request = Request(settings: Settings, header: string, raw: bool, replace: bool,
                             body: bytes, broken: bool, noticed: bool, disk: Disk)

  datatype Answer = Stored | Created | NotFound | BadRequest | TooLarge | ChunkTooLarge | OutOfSync(have: nat)
    | ServerError

  // What a request comes to

  predicate Taken(target: Place, replace: bool) {
    target != Nothing && (!replace || !target.File?)
  }

  /** Why a request is refused before anything is stored, if it is. */
  function Refusal(s: Uploads, q: Request): (answer: Option<Answer>)
    ensures answer.None? ==> ParseContentRange(q.header).Some?
  {
    var range := ParseContentRange(q.header);
    if q.settings.maxChunkSize <= 0 then Some(NotFound)
    else if range.None? then Some(BadRequest)
    else if !q.raw then Some(NotFound)
    else if q.settings.maxUploadSize > 0 && range.value.total > q.settings.maxUploadSize then Some(TooLarge)
    else if range.value.Size() > q.settings.maxChunkSize then Some(ChunkTooLarge)
    else if range.value.start == 0 && Taken(s.target, q.replace) then Some(NotFound)
    else if range.value.start == 0 && !q.disk.folders then Some(ServerError)
    else None
  }

  /** A body that is as long as its range says, and ends there. */
  predicate Whole(q: Request, r: Range) {
    |q.body| == r.Size() && !q.broken
  }

  predicate Lands(q: Request, r: Range) {
    Whole(q, r) && (q.disk.room.Some? ==> q.disk.room.value >= |q.body|) && q.disk.closes
  }

  /** Whether the body was found to be longer than its range says. */
  predicate Exceeds(q: Request, r: Range) {
    |q.body| > r.Size() && (q.disk.room.None? || q.disk.room.value >= r.Size() || q.noticed)
  }

  /** Where a chunk meets the staging file: it continues it, it is there already, or it does not fit. */
  function Fit(staging: Option<bytes>, r: Range): Option<Answer> {
    if r.start == 0 || (staging.Some? && |staging.value| == r.start) then None
    else if staging.Some? && |staging.value| == r.end + 1 then Some(Stored)
    else Some(OutOfSync(if staging.Some? then |staging.value| else 0))
  }

  /** What the staging file is after a chunk, with the answer if there is one already. */
  function Chunk(s: Uploads, q: Request, r: Range): (Option<Answer>, Uploads) {
    if r.start != 0 && !q.disk.stats then (Some(ServerError), s)
    else
      match Fit(s.staging, r)
      case Some(Stored) => (None, s)
      case Some(answer) => (Some(answer), s)
      case None =>
        var before := if r.start == 0 then [] else s.staging.value;
        if !q.disk.opens then (Some(ServerError), s)
        else if Lands(q, r) then (None, s.(staging := Some(before + q.body)))
        else (Some(if Exceeds(q, r) then ChunkTooLarge else ServerError), s.(staging := Some(before)))
  }

  /** The staging file becomes the target, by its name or, where that fails, by its bytes. */
  function PutInPlace(s: Uploads, disk: Disk): (bool, Uploads)
    requires s.staging.Some?
  {
    if disk.renames then (true, Uploads(None, File(s.staging.value)))
    else
      match disk.copies
      case CannotOpen => (false, s)
      case Breaks => (false, s.(target := Nothing))
      case DoesNotClose => (false, s.(target := File(s.staging.value)))
      case Works =>
        if disk.removes then (true, Uploads(None, File(s.staging.value)))
        else (false, s.(target := File(s.staging.value)))
  }

  /** The last chunk puts the file in place, if all of it is there and the name is not taken. */
  function Finish(s: Uploads, q: Request, r: Range): (Answer, Uploads) {
    if !q.disk.stats || s.staging.None? || |s.staging.value| != r.total then (ServerError, s)
    else if Taken(s.target, q.replace) then (NotFound, s)
    else
      var (ok, next) := PutInPlace(s, q.disk);
      (if ok then Created else ServerError, next)
  }

  function Handled(s: Uploads, q: Request): (Answer, Uploads) {
    var refusal := Refusal(s, q);
    if refusal.Some? then (refusal.value, s)
    else
      var r := ParseContentRange(q.header).value;
      var (answer, next) := Chunk(s, q, r);
      if answer.Some? then (answer.value, next)
      else if r.end + 1 < r.total then (Stored, next)
      else Finish(next, q, r)
  }

  // The handler

  class Handler {
    var staging: Option<bytes>
    var target: Place

    function Now(): Uploads
      reads this
    {
      Uploads(staging, target)
    }

    /** handleChunkedPut, which holds the lock of the target throughout. */
    method Put(q: Request) returns (answer: Answer)
      modifies this
      ensures (answer, Now()) == Handled(old(Now()), q)
    {
      if q.settings.maxChunkSize <= 0 {
        return NotFound;
      }
      var range := ParseContentRange(q.header);
      if range.None? {
        return BadRequest;
      }
      var r := range.value;
      if !q.raw {
        return NotFound;
      }
      if q.settings.maxUploadSize > 0 && r.total > q.settings.maxUploadSize {
        return TooLarge;
      }
      var chunkSize := r.end - r.start + 1;
      if chunkSize > q.settings.maxChunkSize {
        return ChunkTooLarge;
      }
      if r.start == 0 {
        if target != Nothing && (!q.replace || !target.File?) {
          return NotFound;
        }
        if !q.disk.folders {
          return ServerError;
        }
      }
      var refused := WriteRangeChunk(q, r);
      if refused.Some? {
        return refused.value;
      }
      if r.end + 1 < r.total {
        return Stored;
      }
      if !q.disk.stats || staging.None? || |staging.value| != r.total {
        return ServerError;
      }
      if target != Nothing && (!q.replace || !target.File?) {
        return NotFound;
      }
      var finished := FinalizeUpload(q);
      return if finished then Created else ServerError;
    }

    /** writeRangeChunk: the answer is there only when it answered the request. */
    method WriteRangeChunk(q: Request, r: Range) returns (answer: Option<Answer>)
      requires r.Valid()
      modifies this`staging
      ensures (answer, Now()) == Chunk(old(Now()), q, r)
    {
      var chunkSize := r.end - r.start + 1;
      var alreadyApplied := false;
      if r.start != 0 {
        if !q.disk.stats {
          return Some(ServerError);
        }
        if staging.Some? && |staging.value| == r.start {
        } else if staging.Some? && |staging.value| == r.end + 1 {
          alreadyApplied := true;
        } else if staging.Some? {
          return Some(OutOfSync(|staging.value|));
        } else {
          return Some(OutOfSync(0));
        }
      }
      if !alreadyApplied {
        if !q.disk.opens {
          return Some(ServerError);
        }
        if r.start == 0 {
          staging := Some([]);
        }
        var arrived := q.body[..if |q.body| < chunkSize then |q.body| else chunkSize];
        var full := q.disk.room.Some? && q.disk.room.value < |arrived|;
        var written := if full then q.disk.room.value else |arrived|;
        staging := Some(staging.value + arrived[..written]);
        var exceeded := |q.body| > chunkSize && (!full || q.noticed);
        if full || exceeded || q.broken || !q.disk.closes || written != chunkSize {
          staging := Some(staging.value[..r.start]);
          return Some(if exceeded then ChunkTooLarge else ServerError);
        }
        assert arrived[..written] == q.body;
      }
      return None;
    }

    /** finalizeUpload. */
    method FinalizeUpload(q: Request) returns (ok: bool)
      requires staging.Some? && !Taken(target, q.replace)
      modifies this
      ensures (ok, Now()) == PutInPlace(old(Now()), q.disk)
    {
      if q.disk.renames {
        target := File(staging.value);
        staging := None;
        return true;
      }
      var copied := CopyFile(q);
      if !copied {
        return false;
      }
      if !q.disk.removes {
        return false;
      }
      staging := None;
      return true;
    }

    /** copyFile, whose flags keep it from a target that exists unless it may be replaced. */
    method CopyFile(q: Request) returns (ok: bool)
      requires staging.Some? && !Taken(target, q.replace)
      modifies this`target
      ensures ok == q.disk.copies.Works?
      ensures target == match q.disk.copies
                        case Works => File(staging.value)
                        case DoesNotClose => File(staging.value)
                        case CannotOpen => old(target)
                        case Breaks => Nothing
    {
      if q.disk.copies.CannotOpen? || (!q.replace && target != Nothing) {
        return false;
      }
      target := File([]);
      if q.disk.copies.Breaks? {
        target := Nothing;
        return false;
      }
      target := File(staging.value);
      return !q.disk.copies.DoesNotClose?;
    }
  }

  // All the requests to one target

  function Run(s: Uploads, requests: seq<Request>): Uploads
    decreases |requests|
  {
    if requests == [] then s else Run(Handled(s, requests[0]).1, requests[1..])
  }

  /** A request that is of the file where its body is whole: it names its length and carries its bytes. */
  predicate Of(q: Request, file: bytes) {
    var range := ParseContentRange(q.header);
    range.Some? && Whole(q, range.value) ==>
      && range.value.total == |file|
      && q.body == file[range.value.start..range.value.end + 1]
  }

  /** What is staged is a first part of the file. */
  predicate Staged(s: Uploads, file: bytes) {
    s.staging.Some? ==> s.staging.value <= file
  }

  lemma PieceFollows(file: bytes, a: nat, b: nat)
    requires a <= b <= |file|
    ensures file[..a] + file[a..b] == file[..b]
  {
  }

  lemma WholeChunkStays(s: Uploads, q: Request, r: Range, file: bytes)
    requires Staged(s, file) && Whole(q, r) && r.start <= r.end < r.total == |file|
    requires q.body == file[r.start..r.end + 1]
    ensures Staged(Chunk(s, q, r).1, file)
  {
    PieceFollows(file, r.start, r.end + 1);
    assert s.staging.Some? && |s.staging.value| == r.start ==> s.staging.value == file[..r.start];
  }

  /** A chunk whose body is not whole only gets past the staging file where it is there already. */
  lemma OtherChunkStays(s: Uploads, q: Request, r: Range, file: bytes)
    requires Staged(s, file) && !Whole(q, r)
    ensures Staged(Chunk(s, q, r).1, file)
    ensures Chunk(s, q, r).0.None? ==>
              && Chunk(s, q, r).1 == s && q.disk.stats
              && r.start != 0 && s.staging.Some? && |s.staging.value| == r.end + 1
  {
  }

  lemma ChunkLeavesTarget(s: Uploads, q: Request, r: Range)
    ensures Chunk(s, q, r).1.target == s.target
    ensures Chunk(s, q, r).0 != Some(Created) && Chunk(s, q, r).0 != Some(Stored)
  {
  }

  /** What one request may do to the target. */
  predicate MayTurn(before: Place, after: Place, q: Request, file: bytes) {
    || after == before
    || (!Taken(before, q.replace)
        && (after == File(file) || (after == Nothing && !q.disk.renames && q.disk.copies.Breaks?)))
  }

  lemma FinishPutsFile(s: Uploads, q: Request, r: Range, file: bytes)
    requires Staged(s, file) && r.total == |file|
    ensures var (answer, next) := Finish(s, q, r);
            && Staged(next, file) && MayTurn(s.target, next.target, q, file)
            && (answer == Created ==> next == Uploads(None, File(file)))
            && answer != Stored
  {
  }

  lemma StaysIsATurn(target: Place, q: Request, file: bytes)
    ensures MayTurn(target, target, q, file)
  {
  }

  /**
   A request whose body is not looked at, since what is staged ends where it
   would, and which names that as the end of the file.
   */
  predicate CutsShort(s: Uploads, q: Request, file: bytes) {
    Refusal(s, q).None? && q.disk.stats &&
    var r := ParseContentRange(q.header).value;
    r.start != 0 && s.staging.Some? && |s.staging.value| == r.end + 1 == r.total != |file|
  }

  /**
   One request for an upload of the file that does not cut it short: what is
   staged stays a first part of it, the target becomes the file or stays, and is
   only said to be created when it is the file.
   */
  lemma RequestStays(s: Uploads, q: Request, file: bytes)
    requires Staged(s, file) && Of(q, file) && !CutsShort(s, q, file)
    ensures var (answer, next) := Handled(s, q);
            && Staged(next, file) && MayTurn(s.target, next.target, q, file)
            && (answer == Created ==> next == Uploads(None, File(file)))
            && (answer == Stored ==> next.target == s.target)
  {
    hide Chunk, Finish, Staged, MayTurn, Whole, Taken;
    if Refusal(s, q).None? {
      var r := ParseContentRange(q.header).value;
      if Whole(q, r) {
        WholeChunkStays(s, q, r, file);
      } else {
        OtherChunkStays(s, q, r, file);
      }
      ChunkLeavesTarget(s, q, r);
      if r.total == |file| {
        FinishPutsFile(Chunk(s, q, r).1, q, r, file);
      }
    }
    StaysIsATurn(s.target, q, file);
  }

  /** Whether finishing changes what is under the name. */
  predicate Replaces(s: Uploads, q: Request) {
    && s.staging.Some? && !Taken(s.target, q.replace)
    && (q.disk.renames || q.disk.copies.Works? || q.disk.copies.DoesNotClose?)
    && s.target != File(s.staging.value)
  }

  /**
   Cutting short is the one way in which a request does harm: the target becomes
   what is not the file exactly if a request cuts the file short where finishing
   changes the target.
   */
  lemma HarmExactlyIfCutShort(s: Uploads, q: Request, file: bytes)
    requires Staged(s, file) && Of(q, file)
    ensures Staged(Handled(s, q).1, file)
    ensures !MayTurn(s.target, Handled(s, q).1.target, q, file) <==> CutsShort(s, q, file) && Replaces(s, q)
  {
    hide Refusal, Chunk, Finish, Staged, MayTurn, Of;
    if CutsShort(s, q, file) {
      CutShortIsFinished(s, q, ParseContentRange(q.header).value);
      FinishedShort(s, q, ParseContentRange(q.header).value, file);
    } else {
      RequestStays(s, q, file);
    }
  }

  lemma CutShortIsFinished(s: Uploads, q: Request, r: Range)
    requires Refusal(s, q).None? && ParseContentRange(q.header) == Some(r) && q.disk.stats
    requires r.start != 0 && s.staging.Some? && |s.staging.value| == r.end + 1 == r.total
    ensures Handled(s, q) == Finish(s, q, r)
  {
    hide Finish, Taken;
  }

  lemma FinishedShort(s: Uploads, q: Request, r: Range, file: bytes)
    requires Staged(s, file) && s.staging.Some? && |s.staging.value| == r.total != |file| && q.disk.stats
    ensures Staged(Finish(s, q, r).1, file)
    ensures !MayTurn(s.target, Finish(s, q, r).1.target, q, file) <==> Replaces(s, q)
  {
  }

  /** No request of a run turns the target into anything but the file. */
  predicate AlwaysTurnsRight(s: Uploads, requests: seq<Request>, file: bytes)
    decreases |requests|
  {
    requests != [] ==>
      var next := Handled(s, requests[0]).1;
      MayTurn(s.target, next.target, requests[0], file) && AlwaysTurnsRight(next, requests[1..], file)
  }

  /** No request of a run cuts the file short, where finishing changes the target. */
  predicate NeverCutShort(s: Uploads, requests: seq<Request>, file: bytes)
    decreases |requests|
  {
    requests != [] ==>
      && !(CutsShort(s, requests[0], file) && Replaces(s, requests[0]))
      && NeverCutShort(Handled(s, requests[0]).1, requests[1..], file)
  }

  /**
   Any requests to one target, in any order, with repeats, gaps and bodies that
   are short, too long or broken off: if all whole chunks are of one file, what
   is staged is always a first part of it. The target never becomes anything
   else exactly if no request cuts the file short.
   */
  lemma {:induction false} RunsTurnRightExactlyIfNotCutShort(s: Uploads, requests: seq<Request>, file: bytes)
    requires Staged(s, file) && forall q :: q in requests ==> Of(q, file)
    ensures Staged(Run(s, requests), file)
    ensures AlwaysTurnsRight(s, requests, file) <==> NeverCutShort(s, requests, file)
    decreases |requests|
  {
    if requests != [] {
      hide Handled, Of, Staged, CutsShort, Replaces, MayTurn;
      assert requests[0] in requests;
      HarmExactlyIfCutShort(s, requests[0], file);
      RunsTurnRightExactlyIfNotCutShort(Handled(s, requests[0]).1, requests[1..], file);
    }
  }

  /**
   Then the target is as it was, or exactly the file, or gone because copying the
   file to it broke off, and one that nobody may replace stays.
   */
  lemma {:induction false} OnlyTheFileIsPutInPlace(s: Uploads, requests: seq<Request>, file: bytes)
    requires Staged(s, file) && forall q :: q in requests ==> Of(q, file)
    requires NeverCutShort(s, requests, file)
    ensures var last := Run(s, requests);
            && Staged(last, file)
            && (last.target == s.target || last.target == File(file) || last.target == Nothing)
            && (last.target == Nothing && s.target != Nothing ==>
                  exists q :: q in requests && !q.disk.renames && q.disk.copies.Breaks?)
            && (s.target.Other? ==> last.target == s.target)
            && (s.target.File? && (forall q :: q in requests ==> !q.replace) ==> last.target == s.target)
    decreases |requests|
  {
    if requests != [] {
      hide Handled, Of, Staged, CutsShort, Replaces;
      var q, next := requests[0], Handled(s, requests[0]).1;
      assert q in requests;
      HarmExactlyIfCutShort(s, q, file);
      OnlyTheFileIsPutInPlace(next, requests[1..], file);
    }
  }

  /** Requests that all name the length of the file never cut it short. */
  lemma {:induction false} NamingTheLengthIsEnough(s: Uploads, requests: seq<Request>, file: bytes)
    requires forall q :: q in requests && ParseContentRange(q.header).Some? ==>
               ParseContentRange(q.header).value.total == |file|
    ensures NeverCutShort(s, requests, file)
    decreases |requests|
  {
    hide ParseContentRange, Handled;
    if requests != [] {
      assert requests[0] in requests;
      NamingTheLengthIsEnough(Handled(s, requests[0]).1, requests[1..], file);
    }
  }

  lemma ShortRange()
    ensures ParseContentRange("bytes 1-1/2") == Some(Range(1, 1, 2))
  {
    hide ParseContentRange, Value, AllDigits;
    PrintedRangeIsRead(Range(1, 1, 2));
    assert Decimal(1) == "1" && Decimal(2) == "2";
    assert "bytes 1-1/2" == Written("1", "1", "2");
  }

  /** A client that claims less than there is, with nothing in the body, gets two of three bytes put in place. */
  lemma EmptyChunkCutsShort()
    ensures var disk := Disk(true, true, true, None, true, true, Works, true);
            var q := Request(Settings(10, 0), "bytes 1-1/2", true, false, [], false, false, disk);
            && Of(q, [1, 2, 3])
            && Handled(Uploads(Some([1, 2]), Nothing), q) == (Created, Uploads(None, File([1, 2])))
  {
    ShortRange();
    hide ParseContentRange;
  }

  // Chunks that are sent again

  /** A chunk that was stored may be sent again, and changes nothing. */
  lemma StoredAgain(s: Uploads, q: Request)
    requires Handled(s, q).0 == Stored
    ensures Handled(Handled(s, q).1, q) == Handled(s, q)
  {
    hide ParseContentRange, Finish;
    var r := ParseContentRange(q.header).value;
    ChunkLeavesTarget(s, q, r);
    FinishIsNotStored(Chunk(s, q, r).1, q, r);
    StoredChunkAgain(s, q, r);
    hide Chunk;
  }

  lemma FinishIsNotStored(s: Uploads, q: Request, r: Range)
    ensures Finish(s, q, r).0 != Stored
  {
  }

  lemma StoredChunkAgain(s: Uploads, q: Request, r: Range)
    requires Chunk(s, q, r).0.None? && r.Valid()
    ensures Chunk(Chunk(s, q, r).1, q, r) == Chunk(s, q, r) && Chunk(s, q, r).1.target == s.target
  {
  }

  /**
   A chunk that is not stored leaves the target alone and the staging file as
   it was, or empty if the upload started over; one that does not fit is told
   where it would have.
   */
  lemma UnstoredIsUndone(s: Uploads, q: Request)
    requires Refusal(s, q).None?
    ensures var r := ParseContentRange(q.header).value;
            var (answer, next) := Chunk(s, q, r);
            answer.Some? ==>
              && Handled(s, q) == (answer.value, next)
              && next.target == s.target
              && (next.staging == s.staging || (r.start == 0 && next.staging == Some([])))
              && (answer.value.OutOfSync? ==>
                    && next == s && answer.value.have == (if s.staging.Some? then |s.staging.value| else 0)
                    && r.start != 0 && r.start != answer.value.have && r.end + 1 != answer.value.have)
  {
  }

  /** One more piece of the file, as a client prints it. */
  function Piece(q: Request, file: bytes, a: nat, b: nat): Request
    requires a < b <= |file|
  {
    q.(header := Written(Decimal(a), Decimal(b - 1), Decimal(|file|)), body := file[a..b], broken := false)
  }

  /** The rest of the file from a, in pieces of n bytes. */
  function Pieces(q: Request, file: bytes, a: nat, n: nat): seq<Request>
    requires a <= |file| && n > 0
    decreases |file| - a
  {
    if a == |file| then []
    else
      var b := if |file| - a < n then |file| else a + n;
      [Piece(q, file, a, b)] + Pieces(q, file, b, n)
  }

  /** The server takes a file of that size in pieces of n bytes, and nothing fails. */
  predicate Willing(q: Request, file: bytes, n: nat) {
    && q.settings.maxChunkSize >= n && (q.settings.maxUploadSize > 0 ==> q.settings.maxUploadSize >= |file|)
    && |file| <= MAX_INT64 && q.raw
    && q.disk.folders && q.disk.stats && q.disk.opens && q.disk.room.None? && q.disk.closes
    && (q.disk.renames || (q.disk.copies.Works? && q.disk.removes))
  }

  lemma PieceIsRead(q: Request, file: bytes, a: nat, b: nat)
    requires a < b <= |file| <= MAX_INT64
    ensures ParseContentRange(Piece(q, file, a, b).header) == Some(Range(a, b - 1, |file|))
  {
    hide ParseContentRange, Written, Decimal, Value, AllDigits;
    PrintedRangeIsRead(Range(a, b - 1, |file|));
  }

  lemma PieceIsStored(s: Uploads, q: Request, file: bytes, a: nat, b: nat)
    requires a < b <= |file| && Willing(q, file, b - a)
    requires a == 0 || s.staging == Some(file[..a])
    ensures Chunk(s, Piece(q, file, a, b), Range(a, b - 1, |file|)) == (None, s.(staging := Some(file[..b])))
  {
    hide Written, Decimal, Value, AllDigits;
    PieceFollows(file, a, b);
    assert file[..0] == [];
  }

  lemma PieceIsHandled(s: Uploads, q: Request, file: bytes, a: nat, b: nat)
    requires a < b <= |file| && Willing(q, file, b - a) && !Taken(s.target, q.replace)
    requires a == 0 || s.staging == Some(file[..a])
    ensures Handled(s, Piece(q, file, a, b)) ==
              if b == |file| then (Created, Uploads(None, File(file))) else (Stored, Uploads(Some(file[..b]), s.target))
  {
    hide ParseContentRange, Written, Decimal, Value, AllDigits, Chunk, Taken;
    PieceIsRead(q, file, a, b);
    PieceIsStored(s, q, file, a, b);
    assert file[..|file|] == file;
  }

  /**
   A client that sends the rest of a file in order, from where the staging file
   ends or from the start, gets exactly the file in place.
   */
  lemma {:induction false} UploadCompletes(s: Uploads, q: Request, file: bytes, a: nat, n: nat)
    requires a < |file| && n > 0 && Willing(q, file, n) && !Taken(s.target, q.replace)
    requires a == 0 || s.staging == Some(file[..a])
    ensures Run(s, Pieces(q, file, a, n)) == Uploads(None, File(file))
    decreases |file| - a
  {
    var b := if |file| - a < n then |file| else a + n;
    PieceIsHandled(s, q, file, a, b);
    var rest := Pieces(q, file, b, n);
    assert Pieces(q, file, a, n) == [Piece(q, file, a, b)] + rest;
    assert ([Piece(q, file, a, b)] + rest)[1..] == rest;
    hide Handled, Piece;
    if b < |file| {
      UploadCompletes(Uploads(Some(file[..b]), s.target), q, file, b, n);
    }
  }

  /**
   Whatever is stored is within both limits, of a body that is the file itself,
   and starts over only where the target may be made or replaced.
   */
  lemma OnlyWithinLimits(s: Uploads, q: Request)
    requires Handled(s, q).1 != s || Handled(s, q).0.Stored? || Handled(s, q).0.Created? || Handled(s, q).0.OutOfSync?
    ensures ParseContentRange(q.header).Some?
    ensures var r := ParseContentRange(q.header).value;
            && r.end - r.start + 1 <= q.settings.maxChunkSize && q.raw
            && (q.settings.maxUploadSize > 0 ==> r.total <= q.settings.maxUploadSize)
            && (r.start == 0 ==> s.target == Nothing || (q.replace && s.target.File?))
  {
    hide ParseContentRange, Chunk, Finish;
  }

  /** The staging file never grows beyond the limit of an upload, if it was not beyond it. */
  lemma StagedWithinLimit(s: Uploads, q: Request)
    requires q.settings.maxUploadSize > 0
    requires s.staging.Some? ==> |s.staging.value| <= q.settings.maxUploadSize
    ensures var next := Handled(s, q).1;
            && (next.staging.Some? ==> |next.staging.value| <= q.settings.maxUploadSize)
            && (Handled(s, q).0 == Created ==> next.target.File? && |next.target.content| <= q.settings.maxUploadSize)
  {
    hide ParseContentRange;
  }

  /** Each reason a request is refused for before anything is stored is the one it is told, first things first. */
  lemma RefusalsAreTrue(s: Uploads, q: Request)
    requires Refusal(s, q).Some?
    ensures Handled(s, q) == (Refusal(s, q).value, s)
    ensures match Refusal(s, q).value
            case BadRequest => q.settings.maxChunkSize > 0 && ParseContentRange(q.header).None?
            case TooLarge =>
              && ParseContentRange(q.header).Some?
              && 0 < q.settings.maxUploadSize < ParseContentRange(q.header).value.total
            case ChunkTooLarge =>
              && ParseContentRange(q.header).Some?
              && var r := ParseContentRange(q.header).value;
              r.end + 1 - r.start > q.settings.maxChunkSize > 0
            case NotFound =>
              || q.settings.maxChunkSize <= 0 || !q.raw
              || (s.target != Nothing && (s.target.Other? || !q.replace))
            case ServerError => !q.disk.folders && s.target != Other
            case _ => false
  {
    hide ParseContentRange;
  }

  /**
   A chunk gets through where it was found to be stored already, or its body was
   as long as it said, ended well and was written whole.
   */
  lemma OnlyWholeBodiesGetThrough(s: Uploads, q: Request, r: Range)
    requires r.Valid() && Chunk(s, q, r).0.None?
    ensures || (r.start != 0 && s.staging.Some? && |s.staging.value| == r.end + 1 && Chunk(s, q, r).1 == s)
            || (&& |q.body| == r.end - r.start + 1 && !q.broken && q.disk.opens && q.disk.closes
                && (q.disk.room.Some? ==> q.disk.room.value >= |q.body|)
                && Chunk(s, q, r).1.staging == Some((if r.start == 0 then [] else s.staging.value) + q.body))
  {
  }

  /** A body that is longer than its chunk is said to be too large, where nothing else is wrong. */
  lemma LongBodyIsTooLarge(s: Uploads, q: Request, r: Range)
    requires r.start == 0 || (s.staging.Some? && |s.staging.value| == r.start)
    requires |q.body| > r.end - r.start + 1 && r.Valid() && q.disk.stats && q.disk.opens && q.disk.room.None?
    ensures Chunk(s, q, r).0 == Some(ChunkTooLarge)
  {
  }
}
