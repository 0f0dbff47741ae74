/**
 All the background jobs together: the goroutines that do the work, the pages
 that start jobs, answer imports and stop jobs, in any interleaving.
 */
module JobRuns {
  import opened Wrappers
  import opened RegistryJobs

  /** Where the goroutine of a job is: at work, waiting for an answer, on its way out without one, or done. */
  datatype Stage = Working | Awaiting | Leaving | Over

  datatype Process = Process(record: Record, stage: Stage, stopped: bool)

  /** The jobs in the table, and the IDs that were ever given. */
  datatype State = State(jobs: map<Id, Process>, used: set<Id>)

  datatype Step =
    // startJob, which may count a job that ends meanwhile
    | Start(id: Id, kind: Kind, now: int, counted: nat)
    // the goroutine: ready, await, its three ways to go on, and end
    | Offer(id: Id) | Await(id: Id) | Receive(id: Id, c: Choice) | GiveUp(id: Id) | End(id: Id, how: JobState, now: int)
    // the page
    | Choose(id: Id, c: Choice) | Stop(id: Id)

  function Records(jobs: map<Id, Process>): map<Id, Record> {
    map id | id in jobs :: jobs[id].record
  }

  ghost predicate Enabled(s: State, step: Step) {
    if step.Start? then
      step.id !in s.used && step.counted >= |ActiveOf(Records(s.jobs), step.kind.Listing())|
    else
      step.id in s.jobs && Fits(s.jobs[step.id], step)
  }

  /** Whether the goroutine of a job is where it takes the step. */
  predicate Fits(p: Process, step: Step) {
    match step
    case Offer(_) => p.stage.Working?
    case Await(_) => p.stage.Working? && p.record.choice.Some?
    case Receive(_, c) =>
      p.stage.Awaiting? && p.record.choice.Some? && p.record.choice.value != [] && p.record.choice.value[0] == c
    case GiveUp(_) => p.stage.Awaiting?
    case End(_, how, _) =>
      && (p.stage.Working? || (p.stage.Leaving? && !how.Done?))
      && (how.Done? || how == if p.stopped then Cancelled else Failed)
    case _ => true
  }

  function Stepped(p: Process, step: Step): Process
    requires Fits(p, step)
  {
    match step
    case Offer(_) => p.(record := Offered(p.record))
    case Await(_) => p.(stage := Awaiting)
    case Receive(_, _) => p.(stage := Working, record := p.record.(choice := Some(p.record.choice.value[1..])))
    case GiveUp(_) => p.(stage := Leaving)
    case End(_, how, now) => p.(stage := Over, record := EndedAs(p.record, how, now))
    case Choose(_, c) => p.(record := Chosen(p.record, c))
    case Stop(_) => p.(stopped := true)
    case Start(_, _, _, _) => p
  }

  /** The processes whose jobs are in the table. */
  function Kept(jobs: map<Id, Process>, records: map<Id, Record>): map<Id, Process> {
    map id | id in jobs && id in records :: jobs[id]
  }

  function AfterStart(s: State, id: Id, kind: Kind, now: int, counted: nat): State {
    var records := Started(Records(s.jobs), id, kind, now, counted);
    var kept := Kept(s.jobs, records);
    State(if id in records then kept[id := Process(records[id], Working, false)] else kept, s.used + {id})
  }

  ghost function Do(s: State, step: Step): State
    requires Enabled(s, step)
  {
    if step.Start? then AfterStart(s, step.id, step.kind, step.now, step.counted)
    else s.(jobs := s.jobs[step.id := Stepped(s.jobs[step.id], step)])
  }

  // What holds in every state

  /** A job is at work or ready exactly until it ends, and its channel holds at most the one answer it was given. */
  predicate JobGood(p: Process) {
    && (p.record.Active() <==> !p.stage.Over?)
    && (p.record.state.Ready? || p.stage.Awaiting? ==> p.record.choice.Some?)
    && (p.record.choice.Some? ==> |p.record.choice.value| <= if p.record.confirmed then 1 else 0)
  }

  ghost predicate Good(s: State) {
    && s.jobs.Keys <= s.used
    && (forall id :: id in s.jobs ==> JobGood(s.jobs[id]))
    && (forall listing :: |ActiveOf(Records(s.jobs), listing)| <= Limit(listing))
  }

  lemma SteppedIsGood(p: Process, step: Step)
    requires JobGood(p) && Fits(p, step)
    ensures JobGood(Stepped(p, step))
    ensures Stepped(p, step).record.Active() ==> p.record.Active()
    ensures Stepped(p, step).record.kind == p.record.kind
  {
  }

  lemma {:induction false} FewerActive(a: set<Id>, b: set<Id>)
    requires a <= b
    ensures |a| <= |b|
  {
    if a != {} {
      var id :| id in a;
      FewerActive(a - {id}, b - {id});
    }
  }

  lemma OthersKeepGood(s: State, step: Step)
    requires Good(s) && Enabled(s, step) && !step.Start?
    ensures Good(Do(s, step))
  {
    hide Stepped, Fits;
    var s' := Do(s, step);
    SteppedIsGood(s.jobs[step.id], step);
    forall listing
      ensures |ActiveOf(Records(s'.jobs), listing)| <= Limit(listing)
    {
      FewerActive(ActiveOf(Records(s'.jobs), listing), ActiveOf(Records(s.jobs), listing));
    }
  }

  /** Starting a job makes no other active, and not even that one where the limit is reached. */
  lemma StartedActive(s: State, id: Id, kind: Kind, now: int, counted: nat, listing: bool)
    requires id !in s.jobs
    ensures ActiveOf(Records(AfterStart(s, id, kind, now, counted).jobs), listing)
         <= ActiveOf(Records(s.jobs), listing)
            + if counted < Limit(kind.Listing()) && listing == kind.Listing() then {id} else {}
  {
  }

  lemma StartKeepsJobsGood(s: State, id: Id, kind: Kind, now: int, counted: nat)
    requires id !in s.jobs && forall other :: other in s.jobs ==> JobGood(s.jobs[other])
    ensures var jobs := AfterStart(s, id, kind, now, counted).jobs;
            jobs.Keys <= s.jobs.Keys + {id} && forall other :: other in jobs ==> JobGood(jobs[other])
  {
  }

  lemma StartKeepsGood(s: State, id: Id, kind: Kind, now: int, counted: nat)
    requires Good(s) && id !in s.used && counted >= |ActiveOf(Records(s.jobs), kind.Listing())|
    ensures Good(AfterStart(s, id, kind, now, counted))
  {
    var s' := AfterStart(s, id, kind, now, counted);
    assert s'.used == s.used + {id};
    StartKeepsJobsGood(s, id, kind, now, counted);
    hide AfterStart, Records, ActiveOf, JobGood;
    forall listing
      ensures |ActiveOf(Records(s'.jobs), listing)| <= Limit(listing)
    {
      var before, after := ActiveOf(Records(s.jobs), listing), ActiveOf(Records(s'.jobs), listing);
      StartedActive(s, id, kind, now, counted, listing);
      FewerActive(after, before + if counted < Limit(kind.Listing()) && listing == kind.Listing() then {id} else {});
    }
  }

  lemma StepKeepsGood(s: State, step: Step)
    requires Good(s) && Enabled(s, step)
    ensures Good(Do(s, step))
  {
    hide Good;
    if step.Start? {
      StartKeepsGood(s, step.id, step.kind, step.now, step.counted);
    } else {
      OthersKeepGood(s, step);
    }
  }

  // Runs

  ghost predicate Follows(s: State, step: Step, next: State) {
    Enabled(s, step) && next == Do(s, step)
  }

  ghost predicate Run(states: seq<State>, steps: seq<Step>) {
    && |states| == |steps| + 1 && states[0] == State(map[], {})
    && forall k :: 0 <= k < |steps| ==> Follows(states[k], steps[k], states[k + 1])
  }

  lemma {:induction false} EveryStateIsGood(states: seq<State>, steps: seq<Step>, k: nat)
    requires Run(states, steps) && k <= |steps|
    ensures Good(states[k])
  {
    if k == 0 {
      assert ActiveOf(Records(map[]), true) == {} && ActiveOf(Records(map[]), false) == {};
    } else {
      hide Good, Enabled, Do;
      EveryStateIsGood(states, steps, k - 1);
      assert Follows(states[k - 1], steps[k - 1], states[k]);
      StepKeepsGood(states[k - 1], steps[k - 1]);
    }
  }

  /** At no time are more than four jobs of the registry, nor more than eight of the listing, at work or ready. */
  lemma LimitsHold(states: seq<State>, steps: seq<Step>, k: nat)
    requires Run(states, steps) && k <= |steps|
    ensures var jobs := states[k].jobs;
            && |set id | id in jobs && jobs[id].record.Active() && !jobs[id].record.kind.Listing()| <= 4
            && |set id | id in jobs && jobs[id].record.Active() && jobs[id].record.kind.Listing()| <= 8
  {
    EveryStateIsGood(states, steps, k);
    var jobs := states[k].jobs;
    assert (set id | id in jobs && jobs[id].record.Active() && !jobs[id].record.kind.Listing())
        == ActiveOf(Records(jobs), false);
    assert (set id | id in jobs && jobs[id].record.Active() && jobs[id].record.kind.Listing())
        == ActiveOf(Records(jobs), true);
  }

  /** What a step may make of a job: an active one stays in the table, and one that ended is not touched. */
  lemma JobGoesOn(s: State, step: Step, id: Id)
    requires Good(s) && Enabled(s, step) && id in s.jobs
    ensures s.jobs[id].record.Active() ==> id in Do(s, step).jobs
    ensures !s.jobs[id].record.Active() && id in Do(s, step).jobs ==> Do(s, step).jobs[id].record == s.jobs[id].record
    ensures id in Do(s, step).used
  {
  }

  lemma MissingStaysMissing(s: State, step: Step, id: Id)
    requires Enabled(s, step) && id !in s.jobs && id in s.used
    ensures id !in Do(s, step).jobs && id in Do(s, step).used
  {
  }

  lemma {:induction false} MissingFromThenOn(states: seq<State>, steps: seq<Step>, k: nat, m: nat, id: Id)
    requires Run(states, steps) && k <= m <= |steps| && id !in states[k].jobs && id in states[k].used
    ensures id !in states[m].jobs
    decreases m - k
  {
    hide Enabled, Do;
    if k < m {
      assert Follows(states[k], steps[k], states[k + 1]);
      MissingStaysMissing(states[k], steps[k], id);
      MissingFromThenOn(states, steps, k + 1, m, id);
    }
  }

  /** A job that ended never runs again, nor changes how it ended, and one that did not end is not forgotten. */
  lemma {:induction false} EndedStaysEnded(states: seq<State>, steps: seq<Step>, k: nat, m: nat, id: Id)
    requires Run(states, steps) && k <= m <= |steps| && id in states[k].jobs
    ensures !states[k].jobs[id].record.Active() && id in states[m].jobs ==>
              states[m].jobs[id].record == states[k].jobs[id].record
    ensures id !in states[m].jobs ==>
              exists i :: k <= i < m && id in states[i].jobs && !states[i].jobs[id].record.Active()
    decreases m - k
  {
    hide Good, Enabled, Do;
    if k < m {
      assert Follows(states[k], steps[k], states[k + 1]);
      EveryStateIsGood(states, steps, k);
      JobGoesOn(states[k], steps[k], id);
      if id in states[k + 1].jobs {
        EndedStaysEnded(states, steps, k + 1, m, id);
      } else {
        MissingFromThenOn(states, steps, k + 1, m, id);
      }
    }
  }

  // Answers

  /** Whether a step is an answer that is taken. */
  predicate Answers(s: State, step: Step, id: Id) {
    step.Choose? && step.id == id && id in s.jobs && s.jobs[id].record.Open()
  }

  /** An answer that is taken finds room, so that sending it under the lock does not block. */
  lemma SendingNeverBlocks(states: seq<State>, steps: seq<Step>, k: nat, id: Id)
    requires Run(states, steps) && k < |steps| && Answers(states[k], steps[k], id)
    ensures states[k].jobs[id].record.HasRoom()
  {
    EveryStateIsGood(states, steps, k);
    assert JobGood(states[k].jobs[id]);
  }

  function Taken(states: seq<State>, steps: seq<Step>, k: nat, id: Id): nat
    requires k <= |steps| <= |states|
  {
    if k == 0 then 0
    else Taken(states, steps, k - 1, id) + if Answers(states[k - 1], steps[k - 1], id) then 1 else 0
  }

  ghost predicate AnsweredAtMost(s: State, id: Id, n: nat) {
    n <= 1 && (id in s.jobs && !s.jobs[id].record.confirmed ==> n == 0) && (id !in s.used ==> n == 0)
  }

  lemma StepAnswersAtMost(s: State, step: Step, id: Id, n: nat)
    requires Good(s) && Enabled(s, step) && AnsweredAtMost(s, id, n)
    ensures AnsweredAtMost(Do(s, step), id, n + if Answers(s, step, id) then 1 else 0)
  {
  }

  /** At most one answer is ever taken for a job. */
  lemma {:induction false} AnsweredOnce(states: seq<State>, steps: seq<Step>, k: nat, id: Id)
    requires Run(states, steps) && k <= |steps|
    ensures Taken(states, steps, k, id) <= 1 && AnsweredAtMost(states[k], id, Taken(states, steps, k, id))
  {
    hide Good, Enabled, Do;
    if k > 0 {
      AnsweredOnce(states, steps, k - 1, id);
      EveryStateIsGood(states, steps, k - 1);
      assert Follows(states[k - 1], steps[k - 1], states[k]);
      StepAnswersAtMost(states[k - 1], steps[k - 1], id, Taken(states, steps, k - 1, id));
    }
  }

  /** Whether an answer is in the channel of a job. */
  predicate InChannel(s: State, id: Id, c: Choice) {
    id in s.jobs && s.jobs[id].record.choice.Some? && c in s.jobs[id].record.choice.value
  }

  lemma ComesFromAnAnswer(s: State, step: Step, id: Id, c: Choice)
    requires Good(s) && Enabled(s, step) && InChannel(Do(s, step), id, c)
    ensures InChannel(s, id, c) || (Answers(s, step, id) && step.c == c)
  {
  }

  /** What an import receives is the answer that was taken for it. */
  lemma {:induction false} ReceivedWasAnswered(states: seq<State>, steps: seq<Step>, k: nat, id: Id, c: Choice)
    returns (j: nat)
    requires Run(states, steps) && k <= |steps| && InChannel(states[k], id, c)
    ensures j < k && Answers(states[j], steps[j], id) && steps[j].c == c
  {
    hide Good, Enabled, Do;
    if k == 0 {
      assert false;
    }
    EveryStateIsGood(states, steps, k - 1);
    assert Follows(states[k - 1], steps[k - 1], states[k]);
    ComesFromAnAnswer(states[k - 1], steps[k - 1], id, c);
    if InChannel(states[k - 1], id, c) {
      j := ReceivedWasAnswered(states, steps, k - 1, id, c);
    } else {
      j := k - 1;
    }
  }

  /**
   An import that is ready is told once what to store: the first answer is taken,
   arrives and lets it go on, and later ones change nothing.
   */
  lemma ImportIsAnswered(p: Process, id: Id, c: Choice, other: Choice)
    requires p.stage.Working? && !p.record.confirmed && p.record.choice.None?
    ensures Fits(p, Offer(id)) && Fits(Stepped(p, Offer(id)), Await(id))
    ensures var waiting := Stepped(Stepped(p, Offer(id)), Await(id));
            && waiting.record.state.Ready? && Fits(waiting, Choose(id, c))
            && var told := Stepped(waiting, Choose(id, c));
            && Stepped(told, Choose(id, other)) == told && Fits(told, Receive(id, c))
            && (Fits(told, Receive(id, other)) ==> other == c)
            && var going := Stepped(told, Receive(id, c));
            && going == p.(record := Record(p.record.kind, Running, p.record.finished, true, Some([])))
            && Stepped(going, Choose(id, other)) == going
  {
    assert [] + [c] == [c] && [c][1..] == [];
  }

  /** A goroutine at work may end done, and one that is stopped or waited in vain only cancelled or failed. */
  lemma JobsMayEnd(p: Process, id: Id, how: JobState, now: int)
    ensures p.stage.Working? ==> Fits(p, End(id, Done, now))
    ensures p.stage.Awaiting? ==> Fits(p, GiveUp(id)) && !Fits(Stepped(p, GiveUp(id)), End(id, Done, now))
    ensures p.stage.Working? || p.stage.Leaving? ==>
              Fits(p, End(id, if p.stopped then Cancelled else Failed, now))
    ensures Fits(p, End(id, how, now)) ==>
              && Stepped(p, End(id, how, now)).record.state == how
              && (how == Done || how == if p.stopped then Cancelled else Failed)
              && Stepped(p, End(id, how, now)).stage.Over? && Stepped(p, End(id, how, now)).record.finished == now
    ensures Stepped(p, Stop(id)) == p.(stopped := true)
  {
  }

  /**
   A job starts exactly if fewer than four of its sort were counted, eight of the
   listing, and the jobs that ended more than an hour ago go, no others.
   */
  lemma StartsExactlyBelowLimit(s: State, id: Id, kind: Kind, now: int, counted: nat, other: Id)
    requires id !in s.used && s.jobs.Keys <= s.used && other != id
    ensures var jobs := AfterStart(s, id, kind, now, counted).jobs;
            && (id in jobs <==> counted < if kind == Fetch || kind == Send then 8 else 4)
            && (id in jobs ==> jobs[id] == Process(Record(kind, Running, 0, false, None), Working, false))
            && (other in jobs <==>
                  && other in s.jobs
                  && var r := s.jobs[other].record;
                  r.state == Running || r.state == Ready || now - r.finished <= 3600)
            && (other in jobs ==> jobs[other] == s.jobs[other])
  {
  }
}
