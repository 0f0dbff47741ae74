/**
 Runs of the disk image protocol, from a folder nobody works on: what holds in
 every state of every run, and what runs say about clones, downloads and
 writers that take over.
 */
module DiskRuns {
  import opened Wrappers
  import opened Bytes
  import opened Locks
  import opened DiskProtocol

  /** A folder of images nobody works on yet. */
  function Idle(files: map<Key, bytes>): State {
    State(Tables(map[], map[]), {}, {}, {}, {}, map[], files, map[], map[], map[])
  }

  ghost predicate Follows(s: State, step: Step, next: State) {
    Enabled(s, step) && next == Do(s, step)
  }

  ghost predicate Run(states: seq<State>, steps: seq<Step>) {
    && |states| == |steps| + 1
    && states[0] == Idle(states[0].files)
    && forall k :: 0 <= k < |steps| ==> Follows(states[k], steps[k], states[k + 1])
  }

  lemma IdleIsGood(files: map<Key, bytes>)
    ensures Good(Idle(files))
  {
  }

  lemma FollowingIsGood(s: State, step: Step, next: State)
    requires Good(s) && Follows(s, step, next)
    ensures Good(next)
  {
    hide Good, Enabled, Do;
    StepKeepsGood(s, step);
  }

  lemma {:induction false} EveryStateIsGood(states: seq<State>, steps: seq<Step>, k: nat)
    requires Run(states, steps) && k <= |steps|
    ensures Good(states[k])
  {
    hide Good, Follows;
    if k == 0 {
      IdleIsGood(states[0].files);
    } else {
      EveryStateIsGood(states, steps, k - 1);
      FollowingIsGood(states[k - 1], steps[k - 1], states[k]);
    }
  }

  /**
   In every state of every run an image has at most one writer, no writer
   beside a hold and nothing beside an exclusive lease, and the tables say
   exactly which leases are not released.
   */
  lemma LeasesExcludeInEveryRun(states: seq<State>, steps: seq<Step>, k: nat, l: Lease, m: Lease)
    requires Run(states, steps) && k <= |steps|
    ensures Reflects(states[k].tables, states[k].leases)
    ensures l in states[k].leases && m in states[k].leases && l != m && l.key == m.key ==> Compatible(l.mode, m.mode)
    ensures l in states[k].leases && m in states[k].leases && l != m ==> Apart(l, m)
  {
    hide Follows, Reflects, Apart, Compatible, WaitsGood, HeldGood, ClonesGood;
    EveryStateIsGood(states, steps, k);
  }

  /** Only writers wait, for one with their own certificate; a waiter has no lease, and nobody it waits for waits. */
  lemma NobodyWaitsInCircles(states: seq<State>, steps: seq<Step>, k: nat, x: Session)
    requires Run(states, steps) && k <= |steps| && x in states[k].waits
    ensures states[k].waits[x].lease.mode.Writer? && states[k].waits[x].victim !in states[k].waits
    ensures x.fingerprint == states[k].waits[x].victim.fingerprint != ""
    ensures forall l :: l in states[k].leases ==> l.session != Some(x)
  {
    hide Follows, LocksGood, HeldGood, ClonesGood;
    EveryStateIsGood(states, steps, k);
    assert WaitGood(states[k], x);
  }

  // Leases come and go once

  /** A lease that was asked for and that nobody has or waits for. */
  ghost predicate Gone(s: State, l: Lease) {
    l.number in s.numbers && l !in s.leases && forall x :: x in s.waits ==> s.waits[x].lease.number != l.number
  }

  /** A step that has nothing to do with the registry. */
  predicate Quiet(step: Step) {
    !step.Ask? && !step.Retry? && !step.GiveUp? && !step.LetGo? && !step.FreeHold? && !step.FreeTarget?
  }

  lemma QuietKeepsRegistry(s: State, step: Step)
    requires Enabled(s, step) && Quiet(step)
    ensures Do(s, step).(files := s.files, staged := s.staged, clones := s.clones) == s
  {
    hide Truncated, Zeros;
  }

  lemma AttemptedKeepsGone(s: State, l: Lease, past: set<Session>, m: Lease)
    requires Gone(s, m) && l.Proper() && l.number != m.number
    ensures Gone(Attempted(s, l, past), m)
  {
    hide Decide, Taken;
  }

  /** A lease that was released does not come back. */
  lemma GoneStaysGone(s: State, step: Step, l: Lease)
    requires Enabled(s, step) && Gone(s, l)
    ensures Gone(Do(s, step), l)
  {
    hide Attempted, Locks.Freed;
    if Quiet(step) {
      QuietKeepsRegistry(s, step);
    } else {
      match step {
        case Ask(m) => AttemptedKeepsGone(Asked(s, m), m, {}, l);
        case Retry(x, id) =>
          var w := s.waits[x];
          AttemptedKeepsGone(s.(waits := s.waits - {x}), w.lease.(id := id), w.past + {w.victim}, l);
        case _ =>
      }
    }
  }

  /** What a hold keeps. */
  ghost predicate StillHeld(s: State, s': State, l: Lease) {
    l in s'.leases && (l in s.held ==> l in s'.held && s'.held[l] == s.held[l])
  }

  lemma AttemptedKeepsLease(s: State, l: Lease, past: set<Session>, m: Lease)
    requires m in s.leases && l.Proper() && l.number != m.number
    ensures StillHeld(s, Attempted(s, l, past), m)
  {
  }

  lemma TakenBackIsGone(s: State, l: Lease, m: Lease)
    requires WaitsGood(s) && LocksGood(s) && l in s.leases && m in s.leases
    ensures if l == m then Gone(TakenBack(s, l), m) else StillHeld(s, TakenBack(s, l), m)
  {
  }

  lemma HeldUntilGone(s: State, step: Step, l: Lease)
    requires Good(s) && Enabled(s, step) && l in s.leases
    ensures StillHeld(s, Do(s, step), l) || Gone(Do(s, step), l)
  {
    hide Attempted, TakenBack, LocksGood, WaitsGood, HeldGood, ClonesGood;
    if Quiet(step) {
      QuietKeepsRegistry(s, step);
    } else {
      match step {
        case Ask(m) =>
          NumbersTaken(s, l);
          AttemptedKeepsLease(Asked(s, m), m, {}, l);
        case Retry(x, id) =>
          NoWaiterHolds(s, l);
          var w := s.waits[x];
          AttemptedKeepsLease(s.(waits := s.waits - {x}), w.lease.(id := id), w.past + {w.victim}, l);
        case GiveUp(_) =>
        case LetGo(m) => TakenBackIsGone(s, m, l);
        case FreeHold(j) => TakenBackIsGone(s, s.clones[j].hold, l);
        case FreeTarget(j) =>
          TargetNotedKeepsGood(s, j);
          TakenBackIsGone(TargetNoted(s, j), s.clones[j].target, l);
      }
    }
  }

  lemma {:induction false} GoneForGood(states: seq<State>, steps: seq<Step>, a: nat, b: nat, l: Lease)
    requires Run(states, steps) && a <= b <= |steps| && Gone(states[a], l)
    ensures Gone(states[b], l)
    decreases b - a
  {
    hide Gone, Enabled, Do;
    if a < b {
      assert Follows(states[a], steps[a], states[a + 1]);
      GoneStaysGone(states[a], steps[a], l);
      GoneForGood(states, steps, a + 1, b, l);
    }
  }

  /** A lease that is held twice in a run is held all the time between. */
  lemma {:induction false} HeldAllAlong(states: seq<State>, steps: seq<Step>, a: nat, b: nat, l: Lease)
    requires Run(states, steps) && a <= b <= |steps| && l in states[a].leases && l in states[b].leases
    ensures forall k :: a <= k <= b ==> l in states[k].leases
    ensures StillHeld(states[a], states[b], l)
    decreases b - a
  {
    hide Good, Enabled, Do;
    if a < b {
      EveryStateIsGood(states, steps, a);
      assert Follows(states[a], steps[a], states[a + 1]);
      HeldUntilGone(states[a], steps[a], l);
      if Gone(states[a + 1], l) {
        GoneForGood(states, steps, a + 1, b, l);
      }
      HeldAllAlong(states, steps, a + 1, b, l);
    }
  }

  /** The step in which a lease is granted. */
  ghost predicate Takes(states: seq<State>, k: nat, l: Lease) {
    k + 1 < |states| && l !in states[k].leases && l in states[k + 1].leases
  }

  /** Every lease was granted, and in one step only. */
  lemma {:induction false} TakenOnce(states: seq<State>, steps: seq<Step>, k: nat, l: Lease) returns (g: nat)
    requires Run(states, steps) && k <= |steps| && l in states[k].leases
    ensures g < k && Takes(states, g, l)
    ensures forall g': nat :: g' < k && Takes(states, g', l) ==> g' == g
  {
    hide Follows, Gone;
    g := k - 1;
    while l in states[g].leases
      invariant g < k && l in states[g + 1].leases
      decreases g
    {
      g := g - 1;
    }
    forall g': nat | g' < k && Takes(states, g', l)
      ensures g' == g
    {
      if g' < g {
        HeldAllAlong(states, steps, g' + 1, k, l);
      } else if g < g' {
        HeldAllAlong(states, steps, g + 1, k, l);
      }
    }
  }

  /** What a hold is on does not change while the lease is held: a download is of one moment. */
  lemma HeldImageStays(states: seq<State>, steps: seq<Step>, a: nat, b: nat, l: Lease)
    requires Run(states, steps) && a <= b <= |steps| && l.mode.Hold?
    requires l in states[a].leases && l in states[b].leases
    ensures Look(states[a].files, l.key) == Look(states[b].files, l.key)
  {
    hide Follows, LocksGood, WaitsGood, ClonesGood, Look;
    EveryStateIsGood(states, steps, a);
    EveryStateIsGood(states, steps, b);
    HeldAllAlong(states, steps, a, b, l);
  }

  lemma AskingChangesNoFile(s: State, step: Step, l: Lease)
    requires Enabled(s, step) && l !in s.leases && l in Do(s, step).leases
    ensures Do(s, step).files == s.files && Do(s, step).clones == s.clones && !Gone(s, l)
  {
    hide Truncated, Taken, Locks.Freed, Decide;
    if Gone(s, l) {
      GoneStaysGone(s, step, l);
    }
    if Quiet(step) {
      QuietKeepsRegistry(s, step);
    }
  }

  // Clones

  /** How the record of a clone goes on in one step. */
  ghost predicate GoesOn(s: State, step: Step, j: nat, c: Clone, d: Clone) {
    && d.hold == c.hold && d.target == c.target && d.snapshot == c.snapshot
    && (d.phase.Freed? || d.phase.Ended? ==>
          || (step == FreeTarget(j) && c.phase == Finished(d.phase.ok) && c.hold !in s.leases)
          || ((c.phase.Freed? || c.phase.Ended?) && c.phase.ok == d.phase.ok && c.left == d.left))
  }

  /** A step of the goroutine of a clone. */
  predicate OfAClone(step: Step) {
    step.Begin? || step.Open? || step.Copy? || step.Fail? || step.PutInPlace? || step.FreeTarget? || step.End?
  }

  lemma OthersLeaveClones(s: State, step: Step)
    requires Enabled(s, step) && !OfAClone(step)
    ensures Do(s, step).clones == s.clones
  {
    hide Truncated, Taken, Locks.Freed, Decide, Zeros;
  }

  lemma CloneGoesOn(s: State, step: Step, j: nat)
    requires Enabled(s, step) && j in s.clones
    ensures j in Do(s, step).clones && GoesOn(s, step, j, s.clones[j], Do(s, step).clones[j])
  {
    hide GoesOn, Enabled, Do;
    if OfAClone(step) {
      CloneStepGoesOn(s, step, j);
    } else {
      OthersLeaveClones(s, step);
      SameGoesOn(s, step, j);
    }
  }

  lemma CloneStepGoesOn(s: State, step: Step, j: nat)
    requires Enabled(s, step) && OfAClone(step) && j in s.clones
    ensures j in Do(s, step).clones && GoesOn(s, step, j, s.clones[j], Do(s, step).clones[j])
  {
    hide GoesOn, MayBegin, MayCopy, MayPutInPlace, MayFreeTarget, AtWork, Look, Taken, Locks.Freed, Decide, Zeros,
      Truncated, Attempted, Opened, Copied, PutUnderName, Resized, TakenBack, TargetNoted, GivenUp, Over, Begun;
    match step {
      case Begin(i, hold, target) => BeginGoesOn(s, i, hold, target, j);
      case Open(i) => OpenGoesOn(s, i, j);
      case Copy(i, n) => CopyGoesOn(s, i, n, j);
      case Fail(i) => FailGoesOn(s, i, j);
      case PutInPlace(i) => PutGoesOn(s, i, j);
      case FreeTarget(i) => FreeGoesOn(s, i, j);
      case End(i) => EndGoesOn(s, i, j);
    }
  }

  lemma SameGoesOn(s: State, step: Step, j: nat)
    requires j in s.clones
    ensures GoesOn(s, step, j, s.clones[j], s.clones[j])
  {
  }

  lemma BeginGoesOn(s: State, i: nat, hold: Lease, target: Lease, j: nat)
    requires MayBegin(s, i, hold, target) && j in s.clones
    ensures j in Begun(s, i, hold, target).clones
    ensures GoesOn(s, Begin(i, hold, target), j, s.clones[j], Begun(s, i, hold, target).clones[j])
  {
  }

  lemma FailGoesOn(s: State, i: nat, j: nat)
    requires AtWork(s, i) && j in s.clones
    ensures j in GivenUp(s, i).clones && GoesOn(s, Fail(i), j, s.clones[j], GivenUp(s, i).clones[j])
  {
  }

  lemma EndGoesOn(s: State, i: nat, j: nat)
    requires i in s.clones && s.clones[i].phase.Freed? && j in s.clones
    ensures j in Over(s, i).clones && GoesOn(s, End(i), j, s.clones[j], Over(s, i).clones[j])
  {
  }

  lemma OpenGoesOn(s: State, i: nat, j: nat)
    requires i in s.clones && s.clones[i].phase.Started? && j in s.clones
    ensures j in Opened(s, i).clones && GoesOn(s, Open(i), j, s.clones[j], Opened(s, i).clones[j])
  {
  }

  lemma PutGoesOn(s: State, i: nat, j: nat)
    requires MayPutInPlace(s, i) && j in s.clones
    ensures j in PutUnderName(s, i).clones && GoesOn(s, PutInPlace(i), j, s.clones[j], PutUnderName(s, i).clones[j])
  {
  }

  lemma FreeGoesOn(s: State, i: nat, j: nat)
    requires MayFreeTarget(s, i) && j in s.clones
    ensures var s' := TakenBack(TargetNoted(s, i), s.clones[i].target);
            j in s'.clones && GoesOn(s, FreeTarget(i), j, s.clones[j], s'.clones[j])
  {
  }

  lemma CopyGoesOn(s: State, i: nat, n: nat, j: nat)
    requires MayCopy(s, i, n) && j in s.clones
    ensures j in Copied(s, i, n).clones && GoesOn(s, Copy(i, n), j, s.clones[j], Copied(s, i, n).clones[j])
  {
  }

  lemma CloneBegins(s: State, step: Step, j: nat)
    requires Good(s) && Enabled(s, step) && j !in s.clones && j in Do(s, step).clones
    ensures var c := Do(s, step).clones[j];
            c.phase.Started? && c.hold in s.leases && c.hold.mode.Hold? && c.snapshot == Look(s.files, c.hold.key)
  {
    hide Truncated, Taken, Locks.Freed, Decide, Zeros, LocksGood, WaitsGood, ClonesGood, Look;
  }

  /** The snapshot of a clone is what its source held in the step that granted the hold. */
  lemma {:induction false} SnapshotIsOfGrant(states: seq<State>, steps: seq<Step>, g: nat, k: nat, j: nat)
    requires Run(states, steps) && k <= |steps| && j in states[k].clones && g < k
    requires Takes(states, g, states[k].clones[j].hold)
    ensures states[k].clones[j].snapshot == Look(states[g].files, states[k].clones[j].hold.key)
    decreases k
  {
    hide Good, Enabled, Do, Look, Gone;
    var s, c := states[k - 1], states[k].clones[j];
    assert Follows(s, steps[k - 1], states[k]);
    assert Follows(states[g], steps[g], states[g + 1]);
    EveryStateIsGood(states, steps, k - 1);
    AskingChangesNoFile(states[g], steps[g], c.hold);
    if j in s.clones {
      CloneGoesOn(s, steps[k - 1], j);
      if g == k - 1 {
        HoldOfCloneIsKnown(s, j);
      } else {
        SnapshotIsOfGrant(states, steps, g, k - 1, j);
      }
    } else {
      CloneBegins(s, steps[k - 1], j);
      HeldImageStays(states, steps, g + 1, k - 1, c.hold);
    }
  }

  lemma HoldOfCloneIsKnown(s: State, j: nat)
    requires Good(s) && j in s.clones && s.clones[j].hold !in s.leases
    ensures Gone(s, s.clones[j].hold)
  {
  }

  /** What a clone that lets go of its target leaves under the name. */
  lemma LeftByClone(s: State, j: nat)
    requires Good(s) && MayFreeTarget(s, j)
    ensures var c, s' := s.clones[j], TakenBack(TargetNoted(s, j), s.clones[j].target);
            && Look(s'.files, c.target.key) == (if c.phase.ok then c.snapshot else None)
            && (c.phase.ok ==> c.snapshot.Some?)
            && Gone(s', c.hold) && Gone(s', c.target)
  {
  }

  /** The step in which a clone let go of its target. */
  lemma {:induction false} FreedInStep(states: seq<State>, steps: seq<Step>, k: nat, j: nat) returns (f: nat)
    requires Run(states, steps) && k <= |steps| && j in states[k].clones
    requires states[k].clones[j].phase.Freed? || states[k].clones[j].phase.Ended?
    ensures f < k && steps[f] == FreeTarget(j) && j in states[f].clones && MayFreeTarget(states[f], j)
    ensures var c, d := states[f].clones[j], states[k].clones[j];
            c.hold == d.hold && c.target == d.target && c.phase.ok == d.phase.ok
    decreases k
  {
    hide Good, Do, Attempted, Look, Gone;
    if k == 0 {
      assert false;
    }
    var s := states[k - 1];
    assert Follows(s, steps[k - 1], states[k]);
    EveryStateIsGood(states, steps, k - 1);
    if j !in s.clones {
      CloneBegins(s, steps[k - 1], j);
    }
    CloneGoesOn(s, steps[k - 1], j);
    if s.clones[j].phase.Finished? {
      f := k - 1;
    } else {
      f := FreedInStep(states, steps, k - 1, j);
    }
  }

  lemma {:induction false} HoldWasGranted(states: seq<State>, steps: seq<Step>, k: nat, j: nat) returns (g: nat)
    requires Run(states, steps) && k <= |steps| && j in states[k].clones
    ensures g < k && Takes(states, g, states[k].clones[j].hold)
    decreases k
  {
    hide Good, Do, Enabled;
    if k == 0 {
      assert false;
    }
    assert Follows(states[k - 1], steps[k - 1], states[k]);
    EveryStateIsGood(states, steps, k - 1);
    if j in states[k - 1].clones {
      CloneGoesOn(states[k - 1], steps[k - 1], j);
      g := HoldWasGranted(states, steps, k - 1, j);
    } else {
      CloneBegins(states[k - 1], steps[k - 1], j);
      g := TakenOnce(states, steps, k - 1, states[k].clones[j].hold);
    }
  }

  lemma HoldIsFree(s: State, j: nat)
    requires MayFreeTarget(s, j)
    ensures s.clones[j].hold !in s.leases
  {
  }

  /**
   A clone that is over was granted its hold in step g and let go of both
   images in step f, before it said so. If it is done, the target was left
   holding what the source held when the hold was granted, whatever the others
   did meanwhile; if not, no target was left.
   */
  lemma CloneIsOfOneMoment(states: seq<State>, steps: seq<Step>, k: nat, j: nat) returns (g: nat, f: nat)
    requires Run(states, steps) && k <= |steps| && j in states[k].clones
    requires states[k].clones[j].phase.Freed? || states[k].clones[j].phase.Ended?
    ensures g < f < k && steps[f] == FreeTarget(j)
    ensures var c := states[k].clones[j];
            && c.hold !in states[k].leases && c.target !in states[k].leases
            && Takes(states, g, c.hold)
            && (c.phase.ok ==> c.hold.key in states[g].files)
            && Look(states[f + 1].files, c.target.key)
               == if c.phase.ok then Look(states[g].files, c.hold.key) else None
  {
    hide Good, Enabled, MayFreeTarget;
    f := FreedInStep(states, steps, k, j);
    g := HoldWasGranted(states, steps, f, j);
    var c := states[f].clones[j];
    EveryStateIsGood(states, steps, f);
    HoldIsFree(states[f], j);
    assert Follows(states[f], steps[f], states[f + 1]);
    hide Do;
    SnapshotIsOfGrant(states, steps, g, f, j);
    LeftByClone(states[f], j);
    GoneForGood(states, steps, f + 1, k, c.hold);
    GoneForGood(states, steps, f + 1, k, c.target);
  }

  /** A clone that is done for without a target. */
  predicate Lost(c: Clone) {
    (c.phase.Finished? || c.phase.Freed? || c.phase.Ended?) && !c.phase.ok
  }

  lemma LostOnlyIfFailed(s: State, step: Step, j: nat)
    requires Good(s) && Enabled(s, step) && j in s.clones && !Lost(s.clones[j])
    requires j in Do(s, step).clones && Lost(Do(s, step).clones[j])
    ensures step == Fail(j) || s.clones[j].snapshot.None?
  {
    hide Good, Truncated, Taken, Locks.Freed, Decide, Zeros, Attempted, Copied, PutUnderName, Opened;
    if !OfAClone(step) {
      OthersLeaveClones(s, step);
    } else {
      match step {
        case Open(i) => OpenLoses(s, i, j);
        case Copy(i, n) =>
          CopyKeepsGood(s, i, n);
          CopiedOthers(s, i, n, j);
        case PutInPlace(i) =>
          FinishedCopyIsPutInPlace(s, i);
          PutOthers(s, i, j);
        case _ =>
      }
    }
  }

  lemma OpenLoses(s: State, i: nat, j: nat)
    requires Good(s) && i in s.clones && s.clones[i].phase.Started? && j in s.clones && !Lost(s.clones[j])
    ensures j in Opened(s, i).clones && (Lost(Opened(s, i).clones[j]) ==> s.clones[j].snapshot.None?)
  {
    hide Good;
    SourceIsSnapshot(s, i);
    hide CloneGood, Zeros;
  }

  lemma CopiedOthers(s: State, i: nat, n: nat, j: nat)
    requires MayCopy(s, i, n) && j in s.clones && i != j
    ensures j in Copied(s, i, n).clones && Copied(s, i, n).clones[j] == s.clones[j]
  {
  }

  lemma PutOthers(s: State, i: nat, j: nat)
    requires MayPutInPlace(s, i) && j in s.clones && i != j
    ensures j in PutUnderName(s, i).clones && PutUnderName(s, i).clones[j] == s.clones[j]
  {
  }

  /** A clone that is over and not done was made to fail, or its source was gone when its hold was granted. */
  lemma {:induction false} NotDoneOnlyIfFailed(states: seq<State>, steps: seq<Step>, k: nat, j: nat) returns (f: nat)
    requires Run(states, steps) && k <= |steps| && j in states[k].clones && Lost(states[k].clones[j])
    ensures f < k
    ensures steps[f] == Fail(j) || states[k].clones[j].snapshot.None?
    decreases k
  {
    hide Good, Enabled, Do;
    if k == 0 {
      assert false;
    }
    var s := states[k - 1];
    assert Follows(s, steps[k - 1], states[k]);
    EveryStateIsGood(states, steps, k - 1);
    if j !in s.clones {
      CloneBegins(s, steps[k - 1], j);
    }
    CloneGoesOn(s, steps[k - 1], j);
    if Lost(s.clones[j]) {
      f := NotDoneOnlyIfFailed(states, steps, k - 1, j);
    } else {
      LostOnlyIfFailed(s, steps[k - 1], j);
      f := k - 1;
    }
  }

  // Writers that take over

  /** Of a session that was closed for x: x has no lease before it let go. */
  ghost predicate LetsGoFirst(s: State, x: Session, victim: Session) {
    && x in s.started
    && (x in s.waits ==> victim == s.waits[x].victim || victim in s.waits[x].past)
    && (forall l :: l in s.leases && l.session == Some(x) ==> victim in s.released)
  }

  lemma AttemptedLetsGoFirst(s: State, l: Lease, past: set<Session>, x: Session, victim: Session)
    requires LetsGoFirst(s, x, victim) && l.Proper()
    requires l.session == Some(x) ==> victim in past && past <= s.released
    ensures LetsGoFirst(Attempted(s, l, past), x, victim)
  {
    hide Decide, Taken;
  }

  lemma RetryLetsGoFirst(s: State, y: Session, id: Id, x: Session, victim: Session)
    requires WaitsGood(s) && MayRetry(s, y, id) && LetsGoFirst(s, x, victim)
    ensures LetsGoFirst(Retried(s, y, id), x, victim)
  {
    hide Attempted;
    var w := s.waits[y];
    assert WaitGood(s, y);
    AttemptedLetsGoFirst(s.(waits := s.waits - {y}), w.lease.(id := id), w.past + {w.victim}, x, victim);
  }

  lemma StepLetsGoFirst(s: State, step: Step, x: Session, victim: Session)
    requires Good(s) && Enabled(s, step) && LetsGoFirst(s, x, victim)
    ensures LetsGoFirst(Do(s, step), x, victim)
  {
    hide Attempted, Retried, Locks.Freed, LocksGood, HeldGood, ClonesGood, WaitGood;
    if Quiet(step) {
      QuietKeepsRegistry(s, step);
    } else {
      match step {
        case Ask(l) => AttemptedLetsGoFirst(Asked(s, l), l, {}, x, victim);
        case Retry(y, id) => RetryLetsGoFirst(s, y, id, x, victim);
        case _ =>
      }
    }
  }

  lemma {:induction false} LetsGoFirstFromThenOn(states: seq<State>, steps: seq<Step>, t: nat, k: nat,
                                                 x: Session, victim: Session)
    requires Run(states, steps) && t <= k <= |steps| && LetsGoFirst(states[t], x, victim)
    ensures LetsGoFirst(states[k], x, victim)
    decreases k - t
  {
    hide Good, Enabled, Do, LetsGoFirst;
    if t < k {
      EveryStateIsGood(states, steps, t);
      assert Follows(states[t], steps[t], states[t + 1]);
      StepLetsGoFirst(states[t], steps[t], x, victim);
      LetsGoFirstFromThenOn(states, steps, t + 1, k, x, victim);
    }
  }

  /** A writer that had to wait for another has a lease only after that one let go of its own. */
  lemma TakeoverAfterLettingGo(states: seq<State>, steps: seq<Step>, t: nat, k: nat, x: Session, l: Lease)
    requires Run(states, steps) && t <= k <= |steps|
    requires x in states[t].waits && l in states[k].leases && l.session == Some(x)
    ensures states[t].waits[x].victim in states[k].released
    ensures forall m :: m in states[k].leases ==> m.session != Some(states[t].waits[x].victim)
  {
    hide Follows, Consistent, WaitGood, HeldGood, ClonesGood;
    EveryStateIsGood(states, steps, t);
    EveryStateIsGood(states, steps, k);
    WaiterIsStarted(states[t], x);
    LetsGoFirstFromThenOn(states, steps, t, k, x, states[t].waits[x].victim);
  }

  lemma WaiterIsStarted(s: State, x: Session)
    requires WaitsGood(s) && x in s.waits
    ensures LetsGoFirst(s, x, s.waits[x].victim)
  {
  }

  // What Acquire assumes of the others

  /** The registry as a writer finds it that waited, and whether that ended because the other let go. */
  function Found(s: State, letGo: bool): World {
    World(s.tables, s.leases, s.released, letGo)
  }

  lemma {:induction false} ReleasedForGood(states: seq<State>, steps: seq<Step>, t: nat, k: nat)
    requires Run(states, steps) && t <= k <= |steps|
    ensures states[t].released <= states[k].released
    decreases k - t
  {
    hide Enabled, Do;
    if t < k {
      assert Follows(states[t], steps[t], states[t + 1]);
      StepKeepsReleased(states[t], steps[t]);
      ReleasedForGood(states, steps, t + 1, k);
    }
  }

  lemma StepKeepsReleased(s: State, step: Step)
    requires Enabled(s, step)
    ensures s.released <= Do(s, step).released
  {
    hide Taken, Locks.Freed, Decide;
    if Quiet(step) {
      QuietKeepsRegistry(s, step);
    }
  }

  lemma LocksAreAWorld(s: State, letGo: bool)
    requires LocksGood(s)
    ensures Consistent(s.tables, s.leases) && LetGoForGood(Found(s, letGo))
  {
    hide Consistent;
  }

  /** Whom a session waits for is the writer of the image until it lets go. */
  lemma WriterInTheWay(s: State, x: Session)
    requires Good(s) && x in s.waits && s.waits[x].victim !in s.released
    ensures s.tables.At(s.waits[x].lease.key).writer == Some(s.waits[x].victim)
  {
    hide HeldGood, ClonesGood, Distinct, Excludes, Lists;
    assert WaitGood(s, x);
    var w := s.waits[x];
    var m :| m in s.leases && m.session == Some(w.victim) && m.key == w.lease.key && m.mode.Writer?;
    assert m in On(s.leases, m.key, Writer) && Shows(s.tables.At(m.key), s.leases, m.key);
  }

  /**
   Between closing the writer in its way and trying again, a writer of a run
   finds of the registry what Acquire assumes that the others may make of it.
   */
  lemma RunsAreWhatAcquireAssumes(states: seq<State>, steps: seq<Step>, t: nat, k: nat, x: Session, id: Id, letGo: bool)
    requires Run(states, steps) && t <= k < |steps| && x in states[t].waits && x in states[k].waits
    requires states[t].waits[x] == states[k].waits[x] && states[t].waits[x].victim !in states[t].released
    requires steps[k] == Retry(x, id)
    ensures var l := states[k].waits[x].lease.(id := id);
            MayBecome(Found(states[t], letGo), Found(states[k], true), l) && MayAttempt(Found(states[k], true), l)
  {
    EveryStateIsGood(states, steps, t);
    EveryStateIsGood(states, steps, k);
    ReleasedForGood(states, steps, t, k);
    assert Follows(states[k], steps[k], states[k + 1]);
    hide Consistent, HeldGood, ClonesGood, LocksGood, Fresh, Run, Do;
    WriterInTheWay(states[t], x);
    LocksAreAWorld(states[k], true);
    assert WaitGood(states[k], x);
  }

  /** How often a session tried again. */
  function Retries(steps: seq<Step>, x: Session): nat {
    if steps == [] then 0
    else
      var last := steps[|steps| - 1];
      Retries(steps[..|steps| - 1], x) + if last.Retry? && last.session == x then 1 else 0
  }

  ghost predicate Counted(s: State, n: nat, x: Session) {
    (x !in s.started ==> n == 0) && (x in s.waits ==> n == |s.waits[x].past|)
  }

  lemma AttemptedCounts(s: State, l: Lease, past: set<Session>, n: nat, x: Session)
    requires Counted(s, n, x) && l.Proper() && (l.session == Some(x) ==> n == |past|)
    ensures Counted(Attempted(s, l, past), n, x)
  {
  }

  lemma RetryCounts(s: State, y: Session, id: Id, n: nat, x: Session)
    requires WaitsGood(s) && MayRetry(s, y, id) && Counted(s, n, x)
    ensures Counted(Retried(s, y, id), n + if y == x then 1 else 0, x)
  {
    hide Attempted;
    var w := s.waits[y];
    assert WaitGood(s, y);
    AttemptedCounts(s.(waits := s.waits - {y}), w.lease.(id := id), w.past + {w.victim},
                    n + if y == x then 1 else 0, x);
  }

  lemma StepCounts(s: State, step: Step, n: nat, x: Session)
    requires Good(s) && Enabled(s, step) && Counted(s, n, x)
    ensures Counted(Do(s, step), n + if step.Retry? && step.session == x then 1 else 0, x)
  {
    hide Attempted, Retried, Locks.Freed, LocksGood, HeldGood, ClonesGood, WaitGood;
    if Quiet(step) {
      QuietKeepsRegistry(s, step);
    } else {
      match step {
        case Ask(l) => AttemptedCounts(Asked(s, l), l, {}, n, x);
        case Retry(y, id) => RetryCounts(s, y, id, n, x);
        case _ =>
      }
    }
  }

  lemma {:induction false} EveryRetryIsCounted(states: seq<State>, steps: seq<Step>, k: nat, x: Session)
    requires Run(states, steps) && k <= |steps|
    ensures Counted(states[k], Retries(steps[..k], x), x)
  {
    hide Good, Enabled, Do;
    if k > 0 {
      EveryRetryIsCounted(states, steps, k - 1, x);
      EveryStateIsGood(states, steps, k - 1);
      assert Follows(states[k - 1], steps[k - 1], states[k]);
      assert steps[..k][..k - 1] == steps[..k - 1];
      StepCounts(states[k - 1], steps[k - 1], Retries(steps[..k - 1], x), x);
    }
  }

  /** A session tries again at most once for every other session there has been. */
  lemma RetriesEnd(states: seq<State>, steps: seq<Step>, k: nat, x: Session)
    requires Run(states, steps) && k <= |steps| && x in states[k].waits
    ensures Retries(steps[..k], x) + 2 <= |states[k].started|
  {
    hide Follows, HeldGood, ClonesGood, Consistent;
    EveryStateIsGood(states, steps, k);
    EveryRetryIsCounted(states, steps, k, x);
    var s := states[k];
    var w := s.waits[x];
    assert WaitGood(s, x);
    Within(w.past + {w.victim, x}, s.started);
    assert |w.past + {w.victim} + {x}| == |w.past| + 2;
    assert w.past + {w.victim} + {x} == w.past + {w.victim, x};
  }

  lemma {:induction false} Within(a: set<Session>, b: set<Session>)
    requires a <= b
    ensures |a| <= |b|
  {
    if a != {} {
      var x :| x in a;
      Within(a - {x}, b - {x});
    }
  }
}
