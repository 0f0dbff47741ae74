/**
 What the steps of the disk image protocol achieve: requests are granted, waited
 for or refused as the leases are, a writer that waited gets its turn, a clone
 that nothing stops completes, and the operations on images are steps.
 */
module DiskSteps {
  import opened Wrappers
  import opened Bytes
  import opened Locks
  import opened DiskProtocol
  import Disks
  import DiskUpload

  /** Steps that can be taken one after the other, and where they lead. */
  ghost predicate Leads(s: State, steps: seq<Step>, last: State)
    decreases |steps|
  {
    if steps == [] then last == s else Enabled(s, steps[0]) && Leads(Do(s, steps[0]), steps[1..], last)
  }

  lemma LeadsFurther(s: State, step: Step, steps: seq<Step>, last: State)
    requires Enabled(s, step) && Leads(Do(s, step), steps, last)
    ensures Leads(s, [step] + steps, last)
  {
    hide Enabled, Do;
    assert ([step] + steps)[1..] == steps;
  }

  // Requests

  /**
   A first request is granted exactly if the lease may be held beside all on its
   image, and waits exactly for a writer of its own certificate.
   */
  lemma RequestIsDecided(s: State, l: Lease)
    requires Good(s) && MayAsk(s, l)
    ensures Enabled(s, Ask(l))
    ensures var s' := Do(s, Ask(l));
            && (s'.leases == if (forall m :: m in s.leases && m.key == l.key ==> Compatible(m.mode, l.mode))
                             then s.leases + {l} else s.leases)
            && (l.session.Some? ==>
                  (l.session.value in s'.waits <==>
                     exists m :: m in s.leases && m.key == l.key && m.mode.Writer? && l.mode.Writer?
                       && m.session.Some? && m.session.value.fingerprint == l.session.value.fingerprint != ""))
            && s'.files == s.files && s'.clones == s.clones
  {
    hide Good, MayAsk, Consistent, Decide, Fresh, Compatible, Attempted, Enabled, Do;
    AskIsAttempt(s, l);
    AttemptIsDecided(Asked(s, l), l);
    GoodIsConsistent(s);
    GrantedExactlyIfCompatible(s.tables, s.leases, l.key, l.mode, l.session);
    NotWaitingYet(s, l);
    if l.session.Some? {
      WaitsForItsOwn(s, l);
    }
  }

  lemma GoodIsConsistent(s: State)
    requires Good(s)
    ensures Consistent(s.tables, s.leases)
  {
  }

  lemma AskIsAttempt(s: State, l: Lease)
    requires MayAsk(s, l)
    ensures l.Proper() && Enabled(s, Ask(l)) && Do(s, Ask(l)) == Attempted(Asked(s, l), l, {})
  {
    hide Attempted, Asked, Fresh;
  }

  /** What an attempt makes of the state, by what is decided. */
  lemma AttemptIsDecided(s: State, l: Lease)
    requires l.Proper()
    ensures var s', d := Attempted(s, l, {}), Decide(s.tables.At(l.key), l.mode, l.session);
            && s'.files == s.files && s'.clones == s.clones
            && match d
               case Granted => s'.leases == s.leases + {l} && s'.waits == s.waits
               case Refused(_) => s' == s
               case Takeover(victim) =>
                 && s'.leases == s.leases
                 && (l.session.Some? ==> s'.waits == s.waits[l.session.value := Wait(l, victim, {})])
  {
    hide Decide, Taken;
    match Decide(s.tables.At(l.key), l.mode, l.session)
    case Granted =>
    case Refused(_) =>
    case Takeover(_) =>
  }

  lemma NotWaitingYet(s: State, l: Lease)
    requires Good(s) && MayAsk(s, l)
    ensures l.session.Some? ==> l.session.value !in s.waits
  {
    hide LocksGood, HeldGood, ClonesGood;
    assert forall x :: x in s.waits ==> WaitGood(s, x);
  }

  lemma WaitsForItsOwn(s: State, l: Lease)
    requires Good(s) && MayAsk(s, l) && l.session.Some?
    ensures Decide(s.tables.At(l.key), l.mode, l.session).Takeover?
       <==> exists m :: m in s.leases && m.key == l.key && m.mode.Writer? && l.mode.Writer?
              && m.session.Some? && m.session.value.fingerprint == l.session.value.fingerprint != ""
  {
  }

  /**
   A writer whose own session let go gets the image exactly if nothing else is
   in its way, and then waits no longer.
   */
  lemma WaiterGetsItsTurn(s: State, x: Session, id: Id)
    requires Good(s) && MayRetry(s, x, id)
    ensures Enabled(s, Retry(x, id))
    ensures var l, s' := s.waits[x].lease.(id := id), Do(s, Retry(x, id));
            && (s'.leases == if (forall m :: m in s.leases && m.key == l.key ==> Compatible(m.mode, l.mode))
                             then s.leases + {l} else s.leases)
            && (s'.leases != s.leases ==> x !in s'.waits)
            && s'.files == s.files && s'.clones == s.clones
  {
    hide HeldGood, ClonesGood, Consistent, Decide, Fresh;
    var l := s.waits[x].lease.(id := id);
    GrantedExactlyIfCompatible(s.tables, s.leases, l.key, l.mode, l.session);
    assert WaitGood(s, x);
    hide Taken, Compatible;
  }

  /** Letting go and giving up are possible, and leave everything else alone. */
  lemma LettingGoIsPossible(s: State, l: Lease, x: Session)
    ensures l in s.leases && OfNoClone(s, l) ==>
              && Enabled(s, LetGo(l)) && Do(s, LetGo(l)).leases == s.leases - {l}
              && Do(s, LetGo(l)).files == s.files && Do(s, LetGo(l)).waits == s.waits
              && (l.session.Some? ==> l.session.value in Do(s, LetGo(l)).released)
    ensures x in s.waits ==>
              && Enabled(s, GiveUp(x)) && Do(s, GiveUp(x)).waits == s.waits - {x}
              && Do(s, GiveUp(x)).leases == s.leases && Do(s, GiveUp(x)).files == s.files
  {
    hide Locks.Freed;
  }

  // Clones

  /** A state that differs in one clone, in files and in leases. */
  predicate Beside(s: State, s': State, j: nat) {
    && s'.waits == s.waits && s'.clones.Keys == s.clones.Keys + {j}
    && forall k :: k in s.clones && k != j ==> s'.clones[k] == s.clones[k]
  }

  lemma CloneStarts(s: State, j: nat, hold: Lease, target: Lease)
    requires MayBegin(s, j, hold, target) && HeldGood(s)
    ensures var s' := Begun(s, j, hold, target);
            && Beside(s, s', j) && s'.files == s.files && s'.leases == s.leases
            && s'.clones[j] == Clone(hold, target, Look(s.files, hold.key), Started, None)
            && hold in s.leases && target in s.leases && hold != target && target.key !in s.files
  {
    hide OfNoClone;
  }

  lemma CloneOpens(s: State, j: nat)
    requires j in s.clones && s.clones[j].phase.Started? && s.clones[j].hold.key in s.files
    ensures var s' := Opened(s, j);
            && Beside(s, s', j) && s'.files == s.files && s'.leases == s.leases
            && s'.clones[j] == s.clones[j].(phase := Copying(|s.files[s.clones[j].hold.key]|, 0))
  {
    hide Zeros;
  }

  /** What a copy finds: the source as it was, and a staging file as long. */
  predicate FindsSource(s: State, c: Clone) {
    && c.phase.Copying? && c.target.key in s.staged && |s.staged[c.target.key]| == c.phase.size
    && c.snapshot.Some? && |c.snapshot.value| == c.phase.size && Look(s.files, c.hold.key) == c.snapshot
  }

  lemma CopyFindsSource(s: State, j: nat)
    requires Good(s) && j in s.clones && s.clones[j].phase.Copying?
    ensures FindsSource(s, s.clones[j]) && s.clones[j].target.key !in s.files
  {
    SourceIsSnapshot(s, j);
    hide LocksGood, WaitsGood, HeldGood;
    assert CloneGood(s, s.clones[j]);
  }

  lemma CloneCopies(s: State, j: nat)
    requires j in s.clones && FindsSource(s, s.clones[j]) && s.clones[j].phase.done == 0
    ensures var n := s.clones[j].phase.size;
            && MayCopy(s, j, n)
            && var s' := Copied(s, j, n);
            && Beside(s, s', j) && s'.files == s.files && s'.leases == s.leases
            && MayPutInPlace(s', j) && s'.clones[j] == s.clones[j].(phase := Copying(n, n))
  {
  }

  lemma ClonePuts(s: State, j: nat)
    requires MayPutInPlace(s, j)
    requires var c := s.clones[j]; c.snapshot == Some(s.staged[c.target.key]) && c.target.key !in s.files
    ensures var s', c := PutUnderName(s, j), s.clones[j];
            && Beside(s, s', j) && s'.leases == s.leases
            && c.snapshot.Some? && s'.files == s.files[c.target.key := c.snapshot.value]
            && s'.clones[j] == c.(phase := Finished(true))
  {
  }

  lemma WholeCopy(s: State, j: nat)
    requires Good(s) && MayPutInPlace(s, j)
    ensures var c := s.clones[j];
            c.snapshot == Some(s.staged[c.target.key]) && c.target.key !in s.files
  {
    hide LocksGood, WaitsGood, HeldGood;
    var c := s.clones[j];
    assert CloneGood(s, c);
    var copy := s.staged[c.target.key];
    assert copy[..|copy|] == copy && c.snapshot.value[..|copy|] == c.snapshot.value;
  }

  lemma CloneFreesHold(s: State, j: nat)
    requires MayFreeHold(s, j)
    ensures var s' := TakenBack(s, s.clones[j].hold);
            && Beside(s, s', j) && s'.files == s.files && s'.clones == s.clones
            && s'.leases == s.leases - {s.clones[j].hold}
  {
    hide Locks.Freed;
  }

  lemma CloneFreesTarget(s: State, j: nat)
    requires MayFreeTarget(s, j)
    ensures var s', c := TakenBack(TargetNoted(s, j), s.clones[j].target), s.clones[j];
            && Beside(s, s', j) && s'.files == s.files && s'.leases == s.leases - {c.target}
            && s'.clones[j] == c.(phase := Phase.Freed(c.phase.ok), left := Look(s.files, c.target.key))
  {
    hide Locks.Freed, Look;
  }

  lemma CloneEnds(s: State, j: nat)
    requires j in s.clones && s.clones[j].phase.Freed?
    ensures var s', c := Over(s, j), s.clones[j];
            && Beside(s, s', j) && s'.files == s.files && s'.leases == s.leases
            && s'.clones[j] == c.(phase := Ended(c.phase.ok))
  {
  }

  /** A clone that fails or is cancelled leaves nothing behind, and keeps its leases for the moment. */
  lemma FailingLeavesNothing(s: State, j: nat)
    requires AtWork(s, j)
    ensures Enabled(s, Fail(j))
    ensures var s', c := Do(s, Fail(j)), s.clones[j];
            && Beside(s, s', j) && s'.files == s.files && s'.leases == s.leases
            && s'.staged == s.staged - {c.target.key} && s'.clones[j] == c.(phase := Finished(false))
  {
  }

  /** What the steps of a clone are called. */
  lemma StepsOfAClone(s: State, j: nat, n: nat, hold: Lease, target: Lease)
    ensures MayBegin(s, j, hold, target) ==>
              Enabled(s, Begin(j, hold, target)) && Do(s, Begin(j, hold, target)) == Begun(s, j, hold, target)
    ensures j in s.clones && s.clones[j].phase.Started? ==> Enabled(s, Open(j)) && Do(s, Open(j)) == Opened(s, j)
    ensures MayCopy(s, j, n) ==> Enabled(s, Copy(j, n)) && Do(s, Copy(j, n)) == Copied(s, j, n)
    ensures MayPutInPlace(s, j) ==> Enabled(s, PutInPlace(j)) && Do(s, PutInPlace(j)) == PutUnderName(s, j)
    ensures MayFreeHold(s, j) ==>
              Enabled(s, FreeHold(j)) && Do(s, FreeHold(j)) == TakenBack(s, s.clones[j].hold)
    ensures MayFreeTarget(s, j) ==>
              Enabled(s, FreeTarget(j)) && Do(s, FreeTarget(j)) == TakenBack(TargetNoted(s, j), s.clones[j].target)
    ensures j in s.clones && s.clones[j].phase.Freed? ==> Enabled(s, End(j)) && Do(s, End(j)) == Over(s, j)
  {
    hide MayBegin, MayCopy, MayPutInPlace, Begun, Opened, Copied, PutUnderName, TakenBack, TargetNoted, Over;
  }

  /** The second half of a clone: its copy is put in place, both leases go, and it says that it is done. */
  lemma CopyCompletes(s: State, j: nat) returns (last: State)
    requires Good(s) && MayPutInPlace(s, j) && j in s.clones && s.clones[j].hold in s.leases
    ensures Leads(s, [PutInPlace(j), FreeHold(j), FreeTarget(j), End(j)], last)
    ensures var c := s.clones[j];
            && Beside(s, last, j) && c.snapshot.Some? && last.files == s.files[c.target.key := c.snapshot.value]
            && last.leases == s.leases - {c.hold} - {c.target} && last.clones[j].phase == Ended(true)
  {
    hide Good, MayPutInPlace, Begun, Opened, Copied, PutUnderName, TakenBack, TargetNoted, Over, Look, Enabled, Do;
    var c := s.clones[j];
    StepsOfAClone(s, j, 0, c.hold, c.target);
    WholeCopy(s, j);
    ClonePuts(s, j);
    PutInPlaceKeepsGood(s, j);
    var s1 := PutUnderName(s, j);
    TargetIsHeld(s1, j);
    StepsOfAClone(s1, j, 0, c.hold, c.target);
    CloneFreesHold(s1, j);
    var s2 := TakenBack(s1, c.hold);
    StepsOfAClone(s2, j, 0, c.hold, c.target);
    CloneFreesTarget(s2, j);
    var s3 := TakenBack(TargetNoted(s2, j), c.target);
    StepsOfAClone(s3, j, 0, c.hold, c.target);
    CloneEnds(s3, j);
    last := Over(s3, j);
    LeadsNowhere(last);
    LeadsFurther(s3, End(j), [], last);
    LeadsFurther(s2, FreeTarget(j), [End(j)], last);
    LeadsFurther(s1, FreeHold(j), [FreeTarget(j), End(j)], last);
    LeadsFurther(s, PutInPlace(j), [FreeHold(j), FreeTarget(j), End(j)], last);
  }

  lemma LeadsNowhere(s: State)
    ensures Leads(s, [], s)
  {
  }

  lemma TargetIsHeld(s: State, j: nat)
    requires Good(s) && j in s.clones && s.clones[j].phase.Finished?
    ensures s.clones[j].target in s.leases && s.clones[j].target != s.clones[j].hold
  {
    hide LocksGood, WaitsGood, HeldGood;
    assert CloneGood(s, s.clones[j]);
  }

  /**
   A clone that nothing stops completes: its target is then what its source was,
   both leases are free and it is done, and nothing else has changed.
   */
  lemma CloneCompletes(s: State, j: nat, hold: Lease, target: Lease) returns (last: State)
    requires Good(s) && MayBegin(s, j, hold, target) && hold.key in s.files
    ensures var steps := [Begin(j, hold, target), Open(j), Copy(j, |s.files[hold.key]|)]
                         + [PutInPlace(j), FreeHold(j), FreeTarget(j), End(j)];
            Leads(s, steps, last)
    ensures last.files == s.files[target.key := s.files[hold.key]] && last.leases == s.leases - {hold} - {target}
    ensures Beside(s, last, j) && last.clones[j].phase == Ended(true)
  {
    hide Good, MayBegin, MayPutInPlace, Begun, Opened, Copied, PutUnderName, TakenBack, TargetNoted, Over, Enabled, Do;
    var n := |s.files[hold.key]|;
    assert HeldGood(s) by {
      GoodHolds(s);
    }
    StepsOfAClone(s, j, n, hold, target);
    CloneStarts(s, j, hold, target);
    BeginKeepsGood(s, j, hold, target);
    var s1 := Begun(s, j, hold, target);
    StepsOfAClone(s1, j, n, hold, target);
    CloneOpens(s1, j);
    OpenKeepsGood(s1, j);
    var s2 := Opened(s1, j);
    StepsOfAClone(s2, j, n, hold, target);
    CopyFindsSource(s2, j);
    CloneCopies(s2, j);
    CopyKeepsGood(s2, j, n);
    var s3 := Copied(s2, j, n);
    last := CopyCompletes(s3, j);
    var rest := [PutInPlace(j), FreeHold(j), FreeTarget(j), End(j)];
    LeadsFurther(s2, Copy(j, n), rest, last);
    LeadsFurther(s1, Open(j), [Copy(j, n)] + rest, last);
    LeadsFurther(s, Begin(j, hold, target), [Open(j)] + ([Copy(j, n)] + rest), last);
    assert [Begin(j, hold, target)] + ([Open(j)] + ([Copy(j, n)] + rest))
        == [Begin(j, hold, target), Open(j), Copy(j, n)] + rest;
  }

  lemma GoodHolds(s: State)
    requires Good(s)
    ensures HeldGood(s)
  {
  }

  // The operations on images

  function Contents(files: Disks.Files): map<Key, bytes> {
    map key | key in files :: files[key].content
  }

  lemma StepsOnImages(s: State, l: Lease, to: Lease, size: nat, shrink: bool)
    requires HeldAs(s, l, Exclusive)
    ensures l.key !in s.files ==>
              Enabled(s, Create(l, size)) && Do(s, Create(l, size)) == s.(files := s.files[l.key := Zeros(size)])
    ensures l.key in s.files ==>
              Enabled(s, Resize(l, size, shrink)) && Do(s, Resize(l, size, shrink)) == Resized(s, l, size, shrink)
    ensures l.key in s.files ==> Enabled(s, Delete(l)) && Do(s, Delete(l)) == s.(files := s.files - {l.key})
    ensures l.key in s.files && to.key !in s.files && HeldAs(s, to, Exclusive) ==>
              && Enabled(s, Rename(l, to))
              && Do(s, Rename(l, to)) == s.(files := (s.files - {l.key})[to.key := s.files[l.key]])
  {
    hide HeldAs, Resized;
  }

  /** What the Disks page does to the images, in the middle of everything, is a step of the holder of the lease. */
  lemma OperationsAreSteps(s: State, l: Lease, to: Lease, op: Disks.Op, folds: bool, files: Disks.Files, t: Tables)
    requires s.files == Contents(files) && HeldAs(s, l, Exclusive)
    requires Disks.Applied(op, folds, files, t).0.Ok?
    requires match op
             case Create(name, _) => l.key == Disks.KeyOf(folds, name)
             case Resize(name, _, _) => l.key == Disks.KeyOf(folds, name)
             case Delete(name) => l.key == Disks.KeyOf(folds, name)
             case Rename(a, b) =>
               && l.key == Disks.KeyOf(folds, a) && to.key == Disks.KeyOf(folds, b) != l.key
               && HeldAs(s, to, Exclusive)
    ensures var step := match op
                        case Create(_, size) => Create(l, Disks.RoundUp(size))
                        case Resize(_, size, shrink) => Resize(l, Disks.RoundUp(size), shrink)
                        case Delete(_) => Delete(l)
                        case Rename(_, _) => Rename(l, to);
            Enabled(s, step) && Do(s, step) == s.(files := Contents(Disks.Applied(op, folds, files, t).1))
  {
    hide HeldAs, Enabled, Do, Contents, Disks.ValidName, Disks.InTheWay, Disks.KeyOf, Disks.Resized, Truncated;
    ContentsAre(files, l.key);
    match op {
      case Create(name, size) =>
        StepsOnImages(s, l, to, Disks.RoundUp(size), false);
        ContentsUpdated(files, l.key, Disks.Disk(name, Zeros(Disks.RoundUp(size))));
      case Resize(name, size, shrink) =>
        StepsOnImages(s, l, to, Disks.RoundUp(size), shrink);
        var resized := Disks.Resized(files[l.key].content, Disks.RoundUp(size));
        SameResize(files[l.key].content, Disks.RoundUp(size));
        ContentsUpdated(files, l.key, files[l.key].(content := resized));
      case Delete(_) =>
        StepsOnImages(s, l, to, 0, false);
      case Rename(_, name) =>
        StepsOnImages(s, l, to, 0, false);
        ContentsAre(files, to.key);
        ContentsUpdated(files - {l.key}, to.key, files[l.key].(name := name));
    }
  }

  /** Where shrinking is refused, the step changes nothing. */
  lemma RefusedShrinkIsNoChange(s: State, l: Lease, name: string, size: int, shrink: bool, folds: bool,
                                files: Disks.Files, t: Tables)
    requires s.files == Contents(files) && HeldAs(s, l, Exclusive) && l.key == Disks.KeyOf(folds, name)
    requires Disks.Applied(Disks.Op.Resize(name, size, shrink), folds, files, t).0 == Err(Disks.Shrinks)
    ensures var step := Resize(l, Disks.RoundUp(size), shrink);
            Enabled(s, step) && Do(s, step) == s
  {
    hide HeldAs, Enabled, Do, Disks.ValidName, Disks.InTheWay, Disks.KeyOf, Truncated;
    StepsOnImages(s, l, l, Disks.RoundUp(size), shrink);
  }

  lemma ContentsAre(files: Disks.Files, key: Key)
    ensures key in Contents(files) <==> key in files
    ensures key in files ==> Contents(files)[key] == files[key].content
    ensures Contents(files - {key}) == Contents(files) - {key}
  {
  }

  lemma ContentsUpdated(files: Disks.Files, key: Key, disk: Disks.Disk)
    ensures Contents(files[key := disk]) == Contents(files)[key := disk.content]
  {
  }

  lemma SameResize(content: bytes, size: nat)
    ensures Truncated(content, size) == Disks.Resized(content, size)
  {
  }

  /** A guest that writes, and an upload that is put in place, leave what they give, and all else alone. */
  lemma ContentIsReplaced(s: State, l: Lease, content: bytes)
    ensures HeldAs(s, l, Writer) && l.key in s.files ==>
              && Enabled(s, Write(l, content))
              && Do(s, Write(l, content)) == s.(files := s.files[l.key := content])
    ensures HeldAs(s, l, Exclusive) ==>
              && Enabled(s, Place(l, content))
              && Do(s, Place(l, content)) == s.(files := s.files[l.key := content])
  {
    hide HeldAs;
  }

  function ImageOf(files: map<Key, bytes>, key: Key): DiskUpload.Image {
    if key in files then DiskUpload.Regular(files[key]) else DiskUpload.Missing
  }

  /** Finishing an upload under an exclusive lease is a step that puts what was staged under the name. */
  lemma FinishingIsAStep(s: State, l: Lease, staging: bytes, total: int, replace: bool)
    requires HeldAs(s, l, Exclusive)
    requires DiskUpload.Finished(DiskUpload.Uploads(Some(staging), ImageOf(s.files, l.key)), total, replace, true).0.Ok?
    ensures var u := DiskUpload.Uploads(Some(staging), ImageOf(s.files, l.key));
            && Enabled(s, Place(l, staging))
            && DiskUpload.Finished(u, total, replace, true).1
               == DiskUpload.Uploads(None, ImageOf(Do(s, Place(l, staging)).files, l.key))
  {
    hide HeldAs, Enabled, Do;
    ContentIsReplaced(s, l, staging);
  }
}
