/**
 The disk images of a folder as everything in the process works on them at
 once: NBD sessions that attach, write and go, downloads, clones that copy in
 the background, resizes, renames, deletes and uploads put in place. A step is
 one critical section of the registry or one change of a file; a run is any
 interleaving of steps. File operations never fail by themselves here, except
 where a step says so.
 */
module DiskProtocol {
  import opened Wrappers
  import opened Bytes
  import opened Locks

  /** A writer that closed a session of its own certificate and waits for it, with those it waited for before. */
  datatype Wait = Wait(lease: Lease, victim: Session, past: set<Session>)

  /**
   A clone job: started, copying with so much done, its file renamed or given
   up with a lease still held, both leases released, and said to be over.
   */
  datatype Phase = Started | Copying(size: nat, done: nat) | Finished(ok: bool) | Freed(ok: bool) | Ended(ok: bool)

  /**
   A clone, with what its source held when the clone was granted its hold, and
   what was under its target name when it released that.
   */
  datatype Clone = Clone(hold: Lease, target: Lease, snapshot: Option<bytes>, phase: Phase, left: Option<bytes>) {
    /** The leases the clone still works under. */
    function Needs(): set<Lease> {
      match phase
      case Started => {hold, target}
      case Copying(_, _) => {hold, target}
      case Finished(_) => {target}
      case _ => {}
    }
  }

  datatype State = State(
    tables: Tables,
    leases: set<Lease>,
    /** Sessions that released their lease, and sessions that ever asked for one. */
    released: set<Session>,
    started: set<Session>,
    /** The numbers of the leases that were ever asked for. */
    numbers: set<nat>,
    waits: map<Session, Wait>,
    files: map<Key, bytes>,
    /** What each image held when a hold on it was granted. */
    held: map<Lease, Option<bytes>>,
    /** The staging files of the clones. */
    staged: map<Key, bytes>,
    clones: map<nat, Clone>)

  function Look(files: map<Key, bytes>, key: Key): Option<bytes> {
    if key in files then Some(files[key]) else None
  }

  /** A file cut off, or lengthened with zeros. */
  function Truncated(content: bytes, size: nat): (r: bytes)
    ensures |r| == size
  {
    if size <= |content| then content[..size] else content + Zeros(size - |content|)
  }

  datatype Step =
    // acquire: the first attempt for a lease, one more after the session that was closed let go, and the deadline
    | Ask(lease: Lease) | Retry(session: Session, id: Id) | GiveUp(session: Session)
    // release, by whoever holds the lease but a clone
    | LetGo(lease: Lease)
    // a guest writes through its session
    | Write(lease: Lease, content: bytes)
    // what is done under an exclusive lease
    | Create(lease: Lease, size: nat) | Resize(lease: Lease, size: nat, shrink: bool)
    | Rename(lease: Lease, to: Lease) | Delete(lease: Lease) | Place(lease: Lease, content: bytes)
    // the goroutine of a clone
    | Begin(job: nat, hold: Lease, target: Lease) | Open(job: nat) | Copy(job: nat, n: nat) | Fail(job: nat)
    | PutInPlace(job: nat) | FreeHold(job: nat) | FreeTarget(job: nat) | End(job: nat)

  /** A lease that no clone works under. */
  predicate OfNoClone(s: State, l: Lease) {
    forall j :: j in s.clones ==> l != s.clones[j].hold && l != s.clones[j].target
  }

  predicate HeldAs(s: State, l: Lease, mode: Mode) {
    l in s.leases && l.mode == mode && OfNoClone(s, l)
  }

  // Each step: when it may be taken, and what it makes of the state

  ghost predicate MayAsk(s: State, l: Lease) {
    && l.Proper() && l.number !in s.numbers && Fresh(s.leases, l)
    && (l.session.Some? ==> l.session.value !in s.started)
  }

  ghost predicate MayRetry(s: State, x: Session, id: Id) {
    && x in s.waits && s.waits[x].victim in s.released
    && s.waits[x].lease.Proper() && Fresh(s.leases, s.waits[x].lease.(id := id))
  }

  predicate MayBegin(s: State, j: nat, hold: Lease, target: Lease) {
    && j !in s.clones && HeldAs(s, hold, Hold) && HeldAs(s, target, Exclusive) && target.key !in s.files
    && hold in s.held
  }

  predicate AtWork(s: State, j: nat) {
    j in s.clones && (s.clones[j].phase.Started? || s.clones[j].phase.Copying?)
  }

  predicate MayCopy(s: State, j: nat, n: nat) {
    j in s.clones && s.clones[j].phase.Copying? && s.clones[j].phase.done + n <= s.clones[j].phase.size
  }

  predicate MayPutInPlace(s: State, j: nat) {
    && j in s.clones && s.clones[j].phase.Copying? && s.clones[j].phase.done == s.clones[j].phase.size
    && s.clones[j].target.key in s.staged
  }

  predicate MayFreeHold(s: State, j: nat) {
    j in s.clones && s.clones[j].phase.Finished? && s.clones[j].hold in s.leases
  }

  predicate MayFreeTarget(s: State, j: nat) {
    j in s.clones && s.clones[j].phase.Finished? && s.clones[j].hold !in s.leases && s.clones[j].target in s.leases
  }

  /** The registry with a lease granted; of a hold it is noted what the image holds. */
  function Given(s: State, l: Lease): State {
    s.(tables := Taken(s.tables, l), leases := s.leases + {l},
       held := if l.mode.Hold? then s.held[l := Look(s.files, l.key)] else s.held)
  }

  function TakenBack(s: State, l: Lease): State {
    s.(tables := Locks.Freed(s.tables, l), leases := s.leases - {l},
       released := s.released + if l.session.Some? then {l.session.value} else {})
  }

  function Waiting(s: State, l: Lease, victim: Session, past: set<Session>): State {
    if l.session.Some? then s.(waits := s.waits[l.session.value := Wait(l, victim, past)]) else s
  }

  /** An attempt of acquire, of one that waited for these sessions before. */
  function Attempted(s: State, l: Lease, past: set<Session>): State
    requires l.Proper()
  {
    match Decide(s.tables.At(l.key), l.mode, l.session)
    case Granted => Given(s, l)
    case Refused(_) => s
    case Takeover(victim) => Waiting(s, l, victim, past)
  }

  /** A clone that does not come to its end: its staging file is removed. */
  function GivenUp(s: State, j: nat): State
    requires j in s.clones
  {
    var c := s.clones[j];
    s.(staged := s.staged - {c.target.key}, clones := s.clones[j := c.(phase := Finished(false))])
  }

  function Asked(s: State, l: Lease): State {
    s.(numbers := s.numbers + {l.number}, started := s.started + if l.session.Some? then {l.session.value} else {})
  }

  ghost function Retried(s: State, x: Session, id: Id): State
    requires MayRetry(s, x, id)
  {
    var w := s.waits[x];
    Attempted(s.(waits := s.waits - {x}), w.lease.(id := id), w.past + {w.victim})
  }

  function Resized(s: State, l: Lease, size: nat, shrink: bool): State
    requires l.key in s.files
  {
    if size < |s.files[l.key]| && !shrink then s
    else s.(files := s.files[l.key := Truncated(s.files[l.key], size)])
  }

  function Begun(s: State, j: nat, hold: Lease, target: Lease): State
    requires MayBegin(s, j, hold, target)
  {
    s.(staged := s.staged - {target.key}, clones := s.clones[j := Clone(hold, target, s.held[hold], Started, None)])
  }

  /** The copy starts with a staging file as long as the source, all zeros. */
  function Opened(s: State, j: nat): State
    requires j in s.clones
  {
    var c := s.clones[j];
    if c.hold.key !in s.files then GivenUp(s, j)
    else
      var size := |s.files[c.hold.key]|;
      s.(staged := s.staged[c.target.key := Zeros(size)], clones := s.clones[j := c.(phase := Copying(size, 0))])
  }

  /** The next n bytes are read from the source, as it is now, and written to the staging file. */
  function Copied(s: State, j: nat, n: nat): State
    requires MayCopy(s, j, n)
  {
    var c := s.clones[j];
    var end := c.phase.done + n;
    if c.hold.key !in s.files || |s.files[c.hold.key]| < end
       || c.target.key !in s.staged || |s.staged[c.target.key]| < end
    then GivenUp(s, j)
    else
      var copy := s.staged[c.target.key];
      var piece := s.files[c.hold.key][c.phase.done..end];
      s.(staged := s.staged[c.target.key := copy[..c.phase.done] + piece + copy[end..]],
         clones := s.clones[j := c.(phase := Copying(c.phase.size, end))])
  }

  /** The staging file is renamed to the target, unless there is one. */
  function PutUnderName(s: State, j: nat): State
    requires MayPutInPlace(s, j)
  {
    var c := s.clones[j];
    if c.target.key in s.files then GivenUp(s, j)
    else
      s.(files := s.files[c.target.key := s.staged[c.target.key]], staged := s.staged - {c.target.key},
         clones := s.clones[j := c.(phase := Finished(true))])
  }

  function TargetNoted(s: State, j: nat): State
    requires MayFreeTarget(s, j)
  {
    var c := s.clones[j];
    s.(clones := s.clones[j := c.(phase := Freed(c.phase.ok), left := Look(s.files, c.target.key))])
  }

  function Over(s: State, j: nat): State
    requires j in s.clones && s.clones[j].phase.Freed?
  {
    s.(clones := s.clones[j := s.clones[j].(phase := Ended(s.clones[j].phase.ok))])
  }

  ghost predicate Enabled(s: State, step: Step) {
    match step
    case Ask(l) => MayAsk(s, l)
    case Retry(x, id) => MayRetry(s, x, id)
    case GiveUp(x) => x in s.waits
    case LetGo(l) => l in s.leases && OfNoClone(s, l)
    case Write(l, _) => HeldAs(s, l, Writer) && l.key in s.files
    case Create(l, _) => HeldAs(s, l, Exclusive) && l.key !in s.files
    case Resize(l, _, _) => HeldAs(s, l, Exclusive) && l.key in s.files
    case Rename(l, to) => HeldAs(s, l, Exclusive) && HeldAs(s, to, Exclusive) && l.key in s.files && to.key !in s.files
    case Delete(l) => HeldAs(s, l, Exclusive) && l.key in s.files
    case Place(l, _) => HeldAs(s, l, Exclusive)
    case Begin(j, hold, target) => MayBegin(s, j, hold, target)
    case Open(j) => j in s.clones && s.clones[j].phase.Started?
    case Copy(j, n) => MayCopy(s, j, n)
    case Fail(j) => AtWork(s, j)
    case PutInPlace(j) => MayPutInPlace(s, j)
    case FreeHold(j) => MayFreeHold(s, j)
    case FreeTarget(j) => MayFreeTarget(s, j)
    case End(j) => j in s.clones && s.clones[j].phase.Freed?
  }

  ghost function Do(s: State, step: Step): State
    requires Enabled(s, step)
  {
    match step
    case Ask(l) => Attempted(Asked(s, l), l, {})
    case Retry(x, id) => Retried(s, x, id)
    case GiveUp(x) => s.(waits := s.waits - {x})
    case LetGo(l) => TakenBack(s, l)
    case Write(l, content) => s.(files := s.files[l.key := content])
    case Create(l, size) => s.(files := s.files[l.key := Zeros(size)])
    case Resize(l, size, shrink) => Resized(s, l, size, shrink)
    case Rename(l, to) => s.(files := (s.files - {l.key})[to.key := s.files[l.key]])
    case Delete(l) => s.(files := s.files - {l.key})
    case Place(l, content) => s.(files := s.files[l.key := content])
    case Begin(j, hold, target) => Begun(s, j, hold, target)
    case Open(j) => Opened(s, j)
    case Copy(j, n) => Copied(s, j, n)
    case Fail(j) => GivenUp(s, j)
    case PutInPlace(j) => PutUnderName(s, j)
    case FreeHold(j) => TakenBack(s, s.clones[j].hold)
    case FreeTarget(j) => TakenBack(TargetNoted(s, j), s.clones[j].target)
    case End(j) => Over(s, j)
  }

  // What holds in every state of every run

  ghost predicate LocksGood(s: State) {
    && Consistent(s.tables, s.leases)
    && s.released <= s.started
    && (forall l :: l in s.leases ==> l.number in s.numbers)
    && (forall l :: l in s.leases && l.session.Some? ==> l.session.value in s.started && l.session.value !in s.released)
  }

  /**
   A waiter has no lease; whom it waits for came with its own certificate, never
   waits, and holds the image or let go of it.
   */
  ghost predicate WaitGood(s: State, x: Session)
    requires x in s.waits
  {
    var w := s.waits[x];
    && x in s.started && x !in s.released && x !in s.waits[x].past && x != w.victim
    && x.fingerprint == w.victim.fingerprint != ""
    && w.lease.session == Some(x) && w.lease.mode.Writer? && w.lease.number in s.numbers
    && (forall l :: l in s.leases ==> l.session != Some(x) && l.number != w.lease.number)
    && w.victim !in s.waits && w.victim in s.started
    && (w.victim in s.released
        || exists l :: l in s.leases && l.session == Some(w.victim) && l.key == w.lease.key && l.mode.Writer?)
    && w.past <= s.released && w.victim !in w.past
  }

  ghost predicate WaitsGood(s: State) {
    && (forall x :: x in s.waits ==> WaitGood(s, x))
    && (forall x, y :: x in s.waits && y in s.waits && x != y ==> s.waits[x].lease.number != s.waits[y].lease.number)
  }

  /** An image under a hold is as it was when the hold was granted. */
  ghost predicate HeldGood(s: State) {
    forall l :: l in s.leases && l.mode.Hold? ==> l in s.held && s.held[l] == Look(s.files, l.key)
  }

  ghost predicate CloneGood(s: State, c: Clone) {
    && c.hold.mode.Hold? && c.target.mode.Exclusive? && c.hold.number != c.target.number
    && c.hold.number in s.numbers && c.target.number in s.numbers
    && (forall x :: x in s.waits ==>
          s.waits[x].lease.number != c.hold.number && s.waits[x].lease.number != c.target.number)
    && (forall l :: l in s.leases && l.number == c.hold.number ==> l == c.hold)
    && (forall l :: l in s.leases && l.number == c.target.number ==> l == c.target)
    && c.Needs() <= s.leases
    && (c.phase.Started? || c.phase.Copying? ==>
          c.hold in s.held && c.snapshot == s.held[c.hold] && c.target.key !in s.files)
    && (c.phase.Copying? ==>
          && c.snapshot.Some? && |c.snapshot.value| == c.phase.size && c.phase.done <= c.phase.size
          && c.target.key in s.staged && |s.staged[c.target.key]| == c.phase.size
          && s.staged[c.target.key][..c.phase.done] == c.snapshot.value[..c.phase.done])
    && (c.phase.Finished? ==>
          if c.phase.ok then c.snapshot.Some? && Look(s.files, c.target.key) == c.snapshot
          else c.target.key !in s.files)
    && (c.phase.Freed? || c.phase.Ended? ==>
          if c.phase.ok then c.snapshot.Some? && c.left == c.snapshot else c.left.None?)
  }

  /** Two clones share no lease. */
  predicate ClonesApart(c: Clone, d: Clone) {
    {c.hold.number, c.target.number} !! {d.hold.number, d.target.number}
  }

  ghost predicate ClonesGood(s: State) {
    && (forall j :: j in s.clones ==> CloneGood(s, s.clones[j]))
    && (forall j, k :: j in s.clones && k in s.clones && j != k ==> ClonesApart(s.clones[j], s.clones[k]))
  }

  ghost predicate Good(s: State) {
    LocksGood(s) && WaitsGood(s) && HeldGood(s) && ClonesGood(s)
  }

  // Every step keeps it

  /** A lease that may be granted: nothing in the state has its number or its session yet. */
  ghost predicate Pending(s: State, l: Lease) {
    && l.Proper() && l.number in s.numbers && Fresh(s.leases, l)
    && (l.session.Some? ==>
          l.session.value in s.started && l.session.value !in s.released && l.session.value !in s.waits)
    && (forall x :: x in s.waits ==> s.waits[x].lease.number != l.number && l.session != Some(s.waits[x].victim))
    && (forall j :: j in s.clones ==> s.clones[j].hold.number != l.number && s.clones[j].target.number != l.number)
  }

  lemma GivenKeepsGood(s: State, l: Lease)
    requires Good(s) && Pending(s, l) && Decide(s.tables.At(l.key), l.mode, l.session) == Granted
    ensures Good(Given(s, l))
  {
    hide Decide, Taken, Consistent, LocksGood, WaitGood, HeldGood, CloneGood, ClonesApart, Pending;
    var s' := Given(s, l);
    GrantKeepsLocks(s, l);
    GrantKeepsHeld(s, l);
    forall x | x in s'.waits
      ensures WaitGood(s', x)
    {
      GrantKeepsWait(s, l, x);
    }
    forall j | j in s'.clones
      ensures CloneGood(s', s'.clones[j])
    {
      GrantKeepsClone(s, l, j);
    }
  }

  lemma GrantKeepsLocks(s: State, l: Lease)
    requires LocksGood(s) && Pending(s, l) && Decide(s.tables.At(l.key), l.mode, l.session) == Granted
    ensures LocksGood(Given(s, l))
  {
    hide Decide, Taken, Consistent;
    GrantKeepsConsistent(s.tables, s.leases, l);
  }

  lemma GrantKeepsHeld(s: State, l: Lease)
    requires HeldGood(s) && Pending(s, l)
    ensures HeldGood(Given(s, l))
  {
  }

  lemma GrantKeepsWait(s: State, l: Lease, x: Session)
    requires x in s.waits && WaitGood(s, x) && Pending(s, l)
    ensures WaitGood(Given(s, l), x)
  {
  }

  lemma GrantKeepsClone(s: State, l: Lease, j: nat)
    requires j in s.clones && CloneGood(s, s.clones[j]) && Pending(s, l)
    ensures CloneGood(Given(s, l), s.clones[j])
  {
  }

  lemma TakenBackKeepsGood(s: State, l: Lease)
    requires Good(s) && l in s.leases
    requires forall j :: j in s.clones ==> l !in s.clones[j].Needs()
    ensures Good(TakenBack(s, l))
  {
    hide Locks.Freed, Consistent, LocksGood, WaitGood, HeldGood, CloneGood, ClonesApart;
    var s' := TakenBack(s, l);
    ReleaseKeepsLocks(s, l);
    ReleaseKeepsHeld(s, l);
    forall x | x in s'.waits
      ensures WaitGood(s', x)
    {
      ReleaseKeepsWait(s, l, x);
    }
    forall j | j in s'.clones
      ensures CloneGood(s', s'.clones[j])
    {
      ReleaseKeepsClone(s, l, s.clones[j]);
    }
  }

  lemma ReleaseKeepsLocks(s: State, l: Lease)
    requires LocksGood(s) && l in s.leases
    ensures LocksGood(TakenBack(s, l))
  {
    ReleaseKeepsConsistent(s.tables, s.leases, l);
    ApartFromOthers(s.leases, l);
    hide Locks.Freed, Consistent;
  }

  lemma ReleaseKeepsHeld(s: State, l: Lease)
    requires HeldGood(s)
    ensures HeldGood(TakenBack(s, l))
  {
  }

  lemma ReleaseKeepsWait(s: State, l: Lease, x: Session)
    requires LocksGood(s) && x in s.waits && WaitGood(s, x) && l in s.leases
    ensures WaitGood(TakenBack(s, l), x)
  {
  }

  lemma ReleaseKeepsClone(s: State, l: Lease, c: Clone)
    requires CloneGood(s, c) && l !in c.Needs()
    ensures CloneGood(TakenBack(s, l), c)
  {
  }

  /** A change of one image by the holder of a writer or exclusive lease that is no clone's. */
  lemma ChangeKeepsGood(s: State, l: Lease, files: map<Key, bytes>)
    requires Good(s) && l in s.leases && OfNoClone(s, l) && !l.mode.Hold? && !l.mode.Reader?
    requires forall key :: key != l.key ==> Look(files, key) == Look(s.files, key)
    ensures Good(s.(files := files))
  {
    hide LocksGood, WaitGood, HeldGood, CloneGood, ClonesApart, Look;
    var s' := s.(files := files);
    ChangeKeepsOthers(s, l, files);
    assert LocksGood(s') by {
      LocksIgnoreFiles(s, s');
    }
    forall x | x in s'.waits
      ensures WaitGood(s', x)
    {
      WaitIgnoresFiles(s, s', x);
    }
    forall j | j in s'.clones
      ensures CloneGood(s', s'.clones[j])
    {
      ChangeKeepsClone(s, l, files, s.clones[j]);
    }
  }

  lemma LocksIgnoreFiles(s: State, s': State)
    requires LocksGood(s)
    requires s'.(files := s.files, staged := s.staged, clones := s.clones) == s
    ensures LocksGood(s')
  {
  }

  lemma WaitIgnoresFiles(s: State, s': State, x: Session)
    requires x in s.waits && WaitGood(s, x)
    requires s'.(files := s.files, staged := s.staged, clones := s.clones) == s
    ensures x in s'.waits && WaitGood(s', x)
  {
  }

  /** Nobody else has a hold or an exclusive lease on the image. */
  lemma AloneOn(s: State, l: Lease, m: Lease)
    requires LocksGood(s) && l in s.leases && m in s.leases && l != m && l.key == m.key
    requires !l.mode.Hold? && !l.mode.Reader?
    ensures !m.mode.Hold? && !m.mode.Exclusive?
  {
  }

  lemma ChangeKeepsOthers(s: State, l: Lease, files: map<Key, bytes>)
    requires LocksGood(s) && HeldGood(s) && l in s.leases && !l.mode.Hold? && !l.mode.Reader?
    requires forall key :: key != l.key ==> Look(files, key) == Look(s.files, key)
    ensures HeldGood(s.(files := files))
  {
  }

  lemma ChangeKeepsClone(s: State, l: Lease, files: map<Key, bytes>, c: Clone)
    requires LocksGood(s) && CloneGood(s, c) && l in s.leases && !l.mode.Hold? && !l.mode.Reader?
    requires l != c.hold && l != c.target
    requires forall key :: key != l.key ==> Look(files, key) == Look(s.files, key)
    ensures CloneGood(s.(files := files), c)
  {
    hide LocksGood;
    if c.Needs() != {} {
      assert c.target in c.Needs();
      if c.target.key == l.key {
        AloneOn(s, l, c.target);
      }
      assert Look(files, c.target.key) == Look(s.files, c.target.key);
    }
  }

  /** A step of one clone that changes its own record and staging file, and its target while it has it. */
  lemma CloneStepKeepsGood(s: State, j: nat, c: Clone, files: map<Key, bytes>, staged: map<Key, bytes>)
    requires Good(s) && j in s.clones
    requires c.hold == s.clones[j].hold && c.target == s.clones[j].target && c.target in s.leases
    requires forall key :: key != c.target.key ==> Look(files, key) == Look(s.files, key)
    requires forall key :: key != c.target.key ==> Look(staged, key) == Look(s.staged, key)
    requires CloneGood(s.(files := files, staged := staged, clones := s.clones[j := c]), c)
    requires c.target.mode.Exclusive?
    ensures Good(s.(files := files, staged := staged, clones := s.clones[j := c]))
  {
    hide LocksGood, WaitGood, HeldGood, CloneGood, ClonesApart, Look;
    var s' := s.(files := files, staged := staged, clones := s.clones[j := c]);
    ChangeKeepsOthers(s, c.target, files);
    HeldIgnoresClones(s.(files := files), s');
    LocksIgnoreFiles(s, s');
    forall x | x in s'.waits
      ensures WaitGood(s', x)
    {
      WaitIgnoresFiles(s, s', x);
    }
    forall k | k in s'.clones
      ensures CloneGood(s', s'.clones[k])
    {
      if k != j {
        OtherCloneKept(s, j, k, files, staged, s');
      }
    }
    forall k, m | k in s'.clones && m in s'.clones && k != m
      ensures ClonesApart(s'.clones[k], s'.clones[m])
    {
      ApartByLeases(s, s', k, m);
    }
  }

  lemma HeldIgnoresClones(s: State, s': State)
    requires HeldGood(s) && s'.(staged := s.staged, clones := s.clones) == s
    ensures HeldGood(s')
  {
  }

  lemma ApartByLeases(s: State, s': State, k: nat, m: nat)
    requires k in s.clones && m in s.clones && k in s'.clones && m in s'.clones
    requires ClonesApart(s.clones[k], s.clones[m])
    requires s'.clones[k].hold == s.clones[k].hold && s'.clones[k].target == s.clones[k].target
    requires s'.clones[m].hold == s.clones[m].hold && s'.clones[m].target == s.clones[m].target
    ensures ClonesApart(s'.clones[k], s'.clones[m])
  {
  }

  lemma OtherCloneKept(s: State, j: nat, k: nat, files: map<Key, bytes>, staged: map<Key, bytes>, s': State)
    requires Good(s) && j in s.clones && k in s.clones && j != k
    requires s'.(files := s.files, staged := s.staged, clones := s.clones) == s
    requires s'.files == files && s'.staged == staged
    requires s.clones[j].target in s.leases && s.clones[j].target.mode.Exclusive?
    requires forall key :: key != s.clones[j].target.key ==> Look(files, key) == Look(s.files, key)
    requires forall key :: key != s.clones[j].target.key ==> Look(staged, key) == Look(s.staged, key)
    ensures CloneGood(s', s.clones[k])
  {
    hide LocksGood, WaitsGood, HeldGood;
    var d, target := s.clones[k], s.clones[j].target;
    assert CloneGood(s, d) && ClonesApart(s.clones[j], d);
    if d.Needs() != {} {
      assert d.target in d.Needs();
      if d.target.key == target.key {
        AloneOn(s, target, d.target);
      }
      assert Look(files, d.target.key) == Look(s.files, d.target.key);
      assert Look(staged, d.target.key) == Look(s.staged, d.target.key);
    }
  }

  // The steps, one by one

  lemma AskedKeepsGood(s: State, l: Lease)
    requires Good(s) && MayAsk(s, l)
    ensures Good(Asked(s, l)) && Pending(Asked(s, l), l)
  {
    hide Consistent, Fresh, HeldGood, CloneGood, WaitGood, ClonesApart;
    var s' := Asked(s, l);
    HeldIgnoresAsking(s, l);
    forall x | x in s'.waits
      ensures WaitGood(s', x)
      ensures s'.waits[x].lease.number != l.number && l.session != Some(s'.waits[x].victim) && l.session != Some(x)
    {
      WaitIgnoresAsking(s, l, x);
    }
    forall j | j in s'.clones
      ensures CloneGood(s', s'.clones[j])
      ensures s'.clones[j].hold.number != l.number && s'.clones[j].target.number != l.number
    {
      CloneIgnoresAsking(s, l, j);
    }
  }

  lemma HeldIgnoresAsking(s: State, l: Lease)
    requires HeldGood(s)
    ensures HeldGood(Asked(s, l))
  {
  }

  lemma WaitIgnoresAsking(s: State, l: Lease, x: Session)
    requires MayAsk(s, l) && x in s.waits && WaitGood(s, x)
    ensures WaitGood(Asked(s, l), x)
    ensures s.waits[x].lease.number != l.number && l.session != Some(s.waits[x].victim) && l.session != Some(x)
  {
  }

  lemma CloneIgnoresAsking(s: State, l: Lease, j: nat)
    requires MayAsk(s, l) && j in s.clones && CloneGood(s, s.clones[j])
    ensures CloneGood(Asked(s, l), s.clones[j])
    ensures s.clones[j].hold.number != l.number && s.clones[j].target.number != l.number
  {
  }

  lemma StoppedWaitingKeepsGood(s: State, x: Session)
    requires Good(s) && x in s.waits
    ensures Good(s.(waits := s.waits - {x}))
  {
    hide LocksGood, HeldGood, CloneGood, WaitGood, ClonesApart;
    var s' := s.(waits := s.waits - {x});
    LocksIgnoreWaits(s, s');
    HeldIgnoresWaits(s, s');
    forall y | y in s'.waits
      ensures WaitGood(s', y)
    {
      WaitBesideStopped(s, x, y);
    }
    forall j | j in s'.clones
      ensures CloneGood(s', s'.clones[j])
    {
      CloneBesideStopped(s, x, j);
    }
  }

  lemma WaitBesideStopped(s: State, x: Session, y: Session)
    requires y in s.waits && WaitGood(s, y) && x != y
    ensures WaitGood(s.(waits := s.waits - {x}), y)
  {
  }

  lemma CloneBesideStopped(s: State, x: Session, j: nat)
    requires j in s.clones && CloneGood(s, s.clones[j])
    ensures CloneGood(s.(waits := s.waits - {x}), s.clones[j])
  {
  }

  lemma LocksIgnoreWaits(s: State, s': State)
    requires LocksGood(s) && s'.(waits := s.waits) == s
    ensures LocksGood(s')
  {
  }

  /** A writer that may be waited for: it holds the image, and waits for nobody. */
  ghost predicate InTheWay(s: State, l: Lease, victim: Session) {
    && victim !in s.waits && victim in s.started && victim !in s.released && Some(victim) != l.session
    && l.session.Some? && l.session.value.fingerprint == victim.fingerprint != ""
    && exists m :: m in s.leases && m.session == Some(victim) && m.key == l.key && m.mode.Writer?
  }

  lemma VictimInTheWay(s: State, l: Lease)
    requires Good(s) && Pending(s, l) && Decide(s.tables.At(l.key), l.mode, l.session).Takeover?
    ensures l.mode.Writer? && l.session.Some? && InTheWay(s, l, Decide(s.tables.At(l.key), l.mode, l.session).victim)
  {
    hide Consistent, HeldGood, ClonesGood;
    TakenOverFromWriter(s.tables.At(l.key), l.mode, l.session);
    TakesOverExactlyFromOwn(s.tables.At(l.key), l.mode, l.session, s.tables.At(l.key).writer.value);
    WriterHoldsLease(s.tables, s.leases, l.key);
    HasNoLease(s, l);
    hide Decide;
    var victim := s.tables.At(l.key).writer.value;
    var m :| m in s.leases && m.key == l.key && m.mode.Writer? && m.session == Some(victim);
  }

  /** A writer that closed the session in its way waits for it. */
  lemma WaitingKeepsGood(s: State, l: Lease, victim: Session, past: set<Session>)
    requires Good(s) && Pending(s, l) && l.mode.Writer? && l.session.Some? && InTheWay(s, l, victim)
    requires past <= s.released && victim !in past
    ensures Good(Waiting(s, l, victim, past))
  {
    hide LocksGood, WaitGood, HeldGood, CloneGood, ClonesApart, Pending, InTheWay;
    var s' := Waiting(s, l, victim, past);
    LocksIgnoreWaits(s, s');
    HeldIgnoresWaits(s, s');
    PendingApart(s, l);
    forall y | y in s'.waits
      ensures WaitGood(s', y)
    {
      if y == l.session.value {
        WaiterGood(s, l, victim, past);
      } else {
        OtherWaitBeside(s, l, victim, past, y);
      }
    }
    forall j | j in s'.clones
      ensures CloneGood(s', s'.clones[j])
    {
      CloneBesideWait(s, l, victim, past, j);
    }
  }

  lemma PendingApart(s: State, l: Lease)
    requires Pending(s, l)
    ensures forall x :: x in s.waits ==> s.waits[x].lease.number != l.number
  {
  }

  lemma HeldIgnoresWaits(s: State, s': State)
    requires HeldGood(s) && s'.(waits := s.waits) == s
    ensures HeldGood(s')
  {
  }

  lemma WaiterGood(s: State, l: Lease, victim: Session, past: set<Session>)
    requires Pending(s, l) && l.mode.Writer? && l.session.Some? && InTheWay(s, l, victim)
    requires past <= s.released && victim !in past
    ensures WaitGood(Waiting(s, l, victim, past), l.session.value)
  {
  }

  lemma OtherWaitBeside(s: State, l: Lease, victim: Session, past: set<Session>, y: Session)
    requires Pending(s, l) && y in s.waits && WaitGood(s, y) && l.session.Some? && y != l.session.value
    ensures WaitGood(Waiting(s, l, victim, past), y)
  {
  }

  lemma CloneBesideWait(s: State, l: Lease, victim: Session, past: set<Session>, j: nat)
    requires Pending(s, l) && j in s.clones && CloneGood(s, s.clones[j])
    ensures CloneGood(Waiting(s, l, victim, past), s.clones[j])
  {
  }

  lemma HasNoLease(s: State, l: Lease)
    requires Fresh(s.leases, l) && l.session.Some?
    ensures forall m :: m in s.leases ==> m.session != l.session && m.number != l.number
  {
  }

  lemma AttemptedKeepsGood(s: State, l: Lease, past: set<Session>)
    requires Good(s) && Pending(s, l) && past <= s.released
    ensures Good(Attempted(s, l, past))
  {
    hide Decide, Good, Fresh;
    match Decide(s.tables.At(l.key), l.mode, l.session) {
      case Granted => GivenKeepsGood(s, l);
      case Refused(_) =>
      case Takeover(victim) =>
        VictimInTheWay(s, l);
        WaitingKeepsGood(s, l, victim, past);
    }
  }

  lemma RetryKeepsGood(s: State, x: Session, id: Id)
    requires Good(s) && MayRetry(s, x, id)
    ensures Good(Retried(s, x, id))
  {
    hide Consistent;
    var w := s.waits[x];
    var s1, l := s.(waits := s.waits - {x}), w.lease.(id := id);
    assert WaitGood(s, x);
    StoppedWaitingKeepsGood(s, x);
    assert Pending(s1, l) by {
      forall y | y in s1.waits
        ensures s1.waits[y].lease.number != l.number && l.session != Some(s1.waits[y].victim)
      {
        assert WaitGood(s, y);
      }
      forall j | j in s.clones
        ensures s.clones[j].hold.number != l.number && s.clones[j].target.number != l.number
      {
        assert CloneGood(s, s.clones[j]);
      }
    }
    AttemptedKeepsGood(s1, l, w.past + {w.victim});
  }

  lemma RenameKeepsGood(s: State, l: Lease, to: Lease)
    requires Good(s) && HeldAs(s, l, Exclusive) && HeldAs(s, to, Exclusive) && l.key in s.files && to.key !in s.files
    ensures Good(s.(files := (s.files - {l.key})[to.key := s.files[l.key]]))
  {
    hide Good;
    var s1 := s.(files := s.files - {l.key});
    ChangeKeepsGood(s, l, s.files - {l.key});
    ChangeKeepsGood(s1, to, s1.files[to.key := s.files[l.key]]);
  }

  lemma BeginKeepsGood(s: State, j: nat, hold: Lease, target: Lease)
    requires Good(s) && MayBegin(s, j, hold, target)
    ensures Good(Begun(s, j, hold, target))
  {
    hide LocksGood, WaitGood, HeldGood, CloneGood, ClonesApart, OfNoClone;
    var s' := Begun(s, j, hold, target);
    BegunCloneGood(s, j, hold, target);
    LocksIgnoreFiles(s, s');
    HeldIgnoresClones(s, s');
    forall x | x in s'.waits
      ensures WaitGood(s', x)
    {
      WaitIgnoresFiles(s, s', x);
    }
    forall k | k in s'.clones && k != j
      ensures CloneGood(s', s'.clones[k])
      ensures ClonesApart(s'.clones[j], s'.clones[k]) && ClonesApart(s'.clones[k], s'.clones[j])
    {
      OtherCloneBesideBegun(s, j, hold, target, k);
    }
  }

  lemma ToldApart(s: State, l: Lease)
    requires LocksGood(s) && l in s.leases
    ensures forall m :: m in s.leases && m.number == l.number ==> m == l
  {
  }

  /** Whoever waits has no lease of that number. */
  lemma NoWaiterHolds(s: State, l: Lease)
    requires WaitsGood(s) && l in s.leases
    ensures forall x :: x in s.waits ==> s.waits[x].lease.number != l.number
  {
  }

  lemma NumbersTaken(s: State, l: Lease)
    requires LocksGood(s) && l in s.leases
    ensures l.number in s.numbers
  {
  }

  lemma BegunCloneGood(s: State, j: nat, hold: Lease, target: Lease)
    requires Good(s) && MayBegin(s, j, hold, target)
    ensures CloneGood(Begun(s, j, hold, target), Begun(s, j, hold, target).clones[j])
  {
    hide LocksGood, WaitsGood, HeldGood, ClonesGood, OfNoClone;
    ToldApart(s, hold);
    ToldApart(s, target);
    NumbersTaken(s, hold);
    NumbersTaken(s, target);
    NoWaiterHolds(s, hold);
    NoWaiterHolds(s, target);
  }

  lemma OtherCloneBesideBegun(s: State, j: nat, hold: Lease, target: Lease, k: nat)
    requires Good(s) && MayBegin(s, j, hold, target) && k in s.clones
    ensures var s' := Begun(s, j, hold, target);
            && CloneGood(s', s'.clones[k])
            && ClonesApart(s'.clones[j], s'.clones[k]) && ClonesApart(s'.clones[k], s'.clones[j])
  {
    hide LocksGood, WaitsGood, HeldGood, CloneGood;
    assert CloneGood(s, s.clones[k]);
    NumbersApart(s, k, hold);
    NumbersApart(s, k, target);
    OtherCloneStaged(s, j, hold, target, k);
  }

  lemma NumbersApart(s: State, k: nat, l: Lease)
    requires k in s.clones && CloneGood(s, s.clones[k]) && l in s.leases && OfNoClone(s, l)
    ensures l.number != s.clones[k].hold.number && l.number != s.clones[k].target.number
  {
  }

  lemma OtherCloneStaged(s: State, j: nat, hold: Lease, target: Lease, k: nat)
    requires LocksGood(s) && MayBegin(s, j, hold, target) && k in s.clones && CloneGood(s, s.clones[k])
    requires target != s.clones[k].target
    ensures CloneGood(Begun(s, j, hold, target), s.clones[k])
  {
    hide LocksGood, OfNoClone;
    var d := s.clones[k];
    if d.Needs() != {} {
      assert d.target in d.Needs();
      if d.target.key == target.key {
        AloneOn(s, target, d.target);
      }
    }
  }

  /** What a clone copies from is what the snapshot holds. */
  lemma SourceIsSnapshot(s: State, j: nat)
    requires Good(s) && j in s.clones && (s.clones[j].phase.Started? || s.clones[j].phase.Copying?)
    ensures Look(s.files, s.clones[j].hold.key) == s.clones[j].snapshot
    ensures s.clones[j].target in s.leases && s.clones[j].target.mode.Exclusive? && CloneGood(s, s.clones[j])
  {
  }

  lemma GivenUpKeepsGood(s: State, j: nat)
    requires Good(s) && AtWork(s, j)
    ensures Good(GivenUp(s, j))
  {
    hide Good;
    SourceIsSnapshot(s, j);
    var c := s.clones[j];
    CloneStepKeepsGood(s, j, c.(phase := Finished(false)), s.files, s.staged - {c.target.key});
  }

  lemma OpenKeepsGood(s: State, j: nat)
    requires Good(s) && j in s.clones && s.clones[j].phase.Started?
    ensures Good(Opened(s, j))
  {
    hide Good;
    SourceIsSnapshot(s, j);
    var c := s.clones[j];
    if c.hold.key in s.files {
      var size := |s.files[c.hold.key]|;
      CloneStepKeepsGood(s, j, c.(phase := Copying(size, 0)), s.files, s.staged[c.target.key := Zeros(size)]);
    } else {
      GivenUpKeepsGood(s, j);
    }
  }

  /** A piece copied under the hold is the same piece of the snapshot, and copying it never fails for the source. */
  lemma CopyKeepsGood(s: State, j: nat, n: nat)
    requires Good(s) && MayCopy(s, j, n)
    ensures Good(Copied(s, j, n))
    ensures Copied(s, j, n).clones[j].phase == Copying(s.clones[j].phase.size, s.clones[j].phase.done + n)
  {
    hide Good;
    SourceIsSnapshot(s, j);
    var c := s.clones[j];
    var content, copy, at, end := c.snapshot.value, s.staged[c.target.key], c.phase.done, c.phase.done + n;
    var copied := copy[..at] + content[at..end] + copy[end..];
    PieceCopied(content, copy, at, end);
    CopiedCloneGood(s, j, end, copied);
    hide CloneGood;
    CloneStepKeepsGood(s, j, c.(phase := Copying(c.phase.size, end)), s.files, s.staged[c.target.key := copied]);
  }

  lemma PieceCopied(content: bytes, copy: bytes, at: nat, end: nat)
    requires at <= end <= |content| == |copy| && copy[..at] == content[..at]
    ensures |copy[..at] + content[at..end] + copy[end..]| == |copy|
    ensures (copy[..at] + content[at..end] + copy[end..])[..end] == content[..end]
  {
  }

  lemma CopiedCloneGood(s: State, j: nat, end: nat, copied: bytes)
    requires j in s.clones && CloneGood(s, s.clones[j]) && s.clones[j].phase.Copying? && end <= s.clones[j].phase.size
    requires |copied| == s.clones[j].phase.size && copied[..end] == s.clones[j].snapshot.value[..end]
    ensures var c := s.clones[j].(phase := Copying(s.clones[j].phase.size, end));
            CloneGood(s.(staged := s.staged[c.target.key := copied], clones := s.clones[j := c]), c)
  {
  }

  lemma PutInPlaceKeepsGood(s: State, j: nat)
    requires Good(s) && MayPutInPlace(s, j)
    ensures Good(PutUnderName(s, j))
  {
    hide Good;
    SourceIsSnapshot(s, j);
    var c := s.clones[j];
    var copy := s.staged[c.target.key];
    assert copy[..|copy|] == copy && c.snapshot.value[..|copy|] == c.snapshot.value;
    CloneStepKeepsGood(s, j, c.(phase := Finished(true)), s.files[c.target.key := copy], s.staged - {c.target.key});
  }

  /** A finished copy is put in place: its name is free, and what is renamed there is the snapshot. */
  lemma FinishedCopyIsPutInPlace(s: State, j: nat)
    requires Good(s) && MayPutInPlace(s, j)
    ensures var c := s.clones[j];
            && c.snapshot.Some?
            && Do(s, PutInPlace(j)) == s.(files := s.files[c.target.key := c.snapshot.value],
                                          staged := s.staged - {c.target.key},
                                          clones := s.clones[j := c.(phase := Finished(true))])
  {
    hide Good;
    SourceIsSnapshot(s, j);
    var c := s.clones[j];
    var copy := s.staged[c.target.key];
    assert copy[..|copy|] == copy && c.snapshot.value[..|copy|] == c.snapshot.value;
  }

  /** A lease of a clone is no other clone's. */
  lemma OfNoOther(s: State, j: nat, l: Lease)
    requires ClonesGood(s) && j in s.clones && (l == s.clones[j].hold || l == s.clones[j].target)
    ensures forall k :: k in s.clones && k != j ==> l !in s.clones[k].Needs()
  {
  }

  lemma FreeHoldKeepsGood(s: State, j: nat)
    requires Good(s) && MayFreeHold(s, j)
    ensures Good(TakenBack(s, s.clones[j].hold))
  {
    OfNoOther(s, j, s.clones[j].hold);
    assert CloneGood(s, s.clones[j]);
    hide Good, TakenBack, CloneGood;
    TakenBackKeepsGood(s, s.clones[j].hold);
  }

  lemma FreeTargetKeepsGood(s: State, j: nat)
    requires Good(s) && MayFreeTarget(s, j)
    ensures Good(TakenBack(TargetNoted(s, j), s.clones[j].target))
  {
    var c, s1 := s.clones[j], TargetNoted(s, j);
    TargetNotedKeepsGood(s, j);
    OfNoOther(s1, j, c.target);
    hide Good, TakenBack, CloneGood;
    TakenBackKeepsGood(s1, c.target);
  }

  lemma TargetNotedKeepsGood(s: State, j: nat)
    requires Good(s) && MayFreeTarget(s, j)
    ensures Good(TargetNoted(s, j))
  {
    var c, d := s.clones[j], TargetNoted(s, j).clones[j];
    assert CloneGood(s, c);
    NotedCloneGood(s, j);
    assert s.(files := s.files, staged := s.staged, clones := s.clones[j := d]) == TargetNoted(s, j);
    hide Good, CloneGood, Look;
    CloneStepKeepsGood(s, j, d, s.files, s.staged);
  }

  lemma NotedCloneGood(s: State, j: nat)
    requires MayFreeTarget(s, j) && CloneGood(s, s.clones[j])
    ensures CloneGood(TargetNoted(s, j), TargetNoted(s, j).clones[j])
  {
  }

  lemma EndKeepsGood(s: State, j: nat)
    requires Good(s) && j in s.clones && s.clones[j].phase.Freed?
    ensures Good(Over(s, j))
  {
    hide LocksGood, WaitGood, HeldGood, ClonesApart, CloneGood;
    var s' := Over(s, j);
    LocksIgnoreFiles(s, s');
    HeldIgnoresClones(s, s');
    forall x | x in s'.waits
      ensures WaitGood(s', x)
    {
      WaitIgnoresFiles(s, s', x);
    }
    forall k | k in s'.clones
      ensures CloneGood(s', s'.clones[k])
    {
      EndedCloneGood(s, j, k);
    }
    forall k, m | k in s'.clones && m in s'.clones && k != m
      ensures ClonesApart(s'.clones[k], s'.clones[m])
    {
      ApartByLeases(s, s', k, m);
    }
  }

  lemma EndedCloneGood(s: State, j: nat, k: nat)
    requires j in s.clones && s.clones[j].phase.Freed? && k in s.clones && CloneGood(s, s.clones[k])
    ensures CloneGood(Over(s, j), Over(s, j).clones[k])
  {
  }

  /** Every step keeps everything good. */
  lemma StepKeepsGood(s: State, step: Step)
    requires Good(s) && Enabled(s, step)
    ensures Good(Do(s, step))
  {
    hide Good, Attempted, Truncated, MayAsk, MayRetry, MayBegin, MayCopy, MayPutInPlace, Asked, Retried, Begun, Opened,
      Copied, GivenUp, PutUnderName, TargetNoted, TakenBack, Over;
    match step {
      case Ask(l) =>
        AskedKeepsGood(s, l);
        AttemptedKeepsGood(Asked(s, l), l, {});
      case Retry(x, id) => RetryKeepsGood(s, x, id);
      case GiveUp(x) => StoppedWaitingKeepsGood(s, x);
      case LetGo(l) => TakenBackKeepsGood(s, l);
      case Write(l, content) => ChangeKeepsGood(s, l, s.files[l.key := content]);
      case Create(l, size) => ChangeKeepsGood(s, l, s.files[l.key := Zeros(size)]);
      case Resize(l, size, shrink) => ChangeKeepsGood(s, l, s.files[l.key := Truncated(s.files[l.key], size)]);
      case Rename(l, to) => RenameKeepsGood(s, l, to);
      case Delete(l) => ChangeKeepsGood(s, l, s.files - {l.key});
      case Place(l, content) => ChangeKeepsGood(s, l, s.files[l.key := content]);
      case Begin(j, hold, target) => BeginKeepsGood(s, j, hold, target);
      case Open(j) => OpenKeepsGood(s, j);
      case Copy(j, n) => CopyKeepsGood(s, j, n);
      case Fail(j) => GivenUpKeepsGood(s, j);
      case PutInPlace(j) => PutInPlaceKeepsGood(s, j);
      case FreeHold(j) => FreeHoldKeepsGood(s, j);
      case FreeTarget(j) => FreeTargetKeepsGood(s, j);
      case End(j) => EndKeepsGood(s, j);
    }
  }
}
