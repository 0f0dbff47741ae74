/**
 The background jobs of the server: how many may be at work at once, and how
 an import is told, once, what to store. The classes are a job and the table of
 jobs as the critical sections change them; the state machine below is what all
 the jobs and the requests for them do together.
 */
module RegistryJobs {
  import opened Wrappers

  datatype Kind = Pull | Push | Import | Fetch | Send {
    /** listingJob. */
    predicate Listing() {
      Fetch? || Send?
    }
  }

  datatype JobState = Running | Ready | Done | Failed | Cancelled

  type Id = string
  type Choice = string

  const JOB_RETENTION := 3600

  /** The fields of a job; choice is the channel of its answer, with what was sent into it and not received yet. */
  datatype Record = Record(kind: Kind, state: JobState, finished: int, confirmed: bool, choice: Option<seq<Choice>>) {
    /** running. */
    predicate Active() {
      state.Running? || state.Ready?
    }

    /** The channel has room for one answer. */
    predicate HasRoom() {
      choice == Some([])
    }

    /** Whether choose takes an answer. */
    predicate Open() {
      state.Ready? && !confirmed
    }
  }

  function Limit(listing: bool): nat {
    if listing then 8 else 4
  }

  function New(kind: Kind): Record {
    Record(kind, Running, 0, false, None)
  }

  function Offered(r: Record): Record {
    r.(state := Ready, choice := if r.choice.None? then Some([]) else r.choice)
  }

  function Chosen(r: Record, c: Choice): Record {
    if !r.Open() then r
    else r.(confirmed := true, state := Running, choice := Some((if r.choice.Some? then r.choice.value else []) + [c]))
  }

  function EndedAs(r: Record, state: JobState, now: int): Record {
    r.(state := state, finished := now)
  }

  function ActiveOf(jobs: map<Id, Record>, listing: bool): set<Id> {
    set id | id in jobs && jobs[id].Active() && jobs[id].kind.Listing() == listing
  }

  predicate Old(r: Record, now: int) {
    !r.Active() && now - r.finished > JOB_RETENTION
  }

  /** The jobs that ended long ago are forgotten. */
  function Remembered(jobs: map<Id, Record>, now: int): map<Id, Record> {
    map id | id in jobs && !Old(jobs[id], now) :: jobs[id]
  }

  /** What starting a job makes of the table, where this many jobs of its sort were counted at work. */
  function Started(jobs: map<Id, Record>, id: Id, kind: Kind, now: int, counted: nat): map<Id, Record> {
    if counted >= Limit(kind.Listing()) then Remembered(jobs, now) else Remembered(jobs, now)[id := New(kind)]
  }

  class Job {
    const kind: Kind
    var state: JobState
    var finished: int
    var confirmed: bool
    var choice: Option<seq<Choice>>

    function Now(): Record
      reads this
    {
      Record(kind, state, finished, confirmed, choice)
    }

    constructor (kind: Kind)
      ensures Now() == New(kind)
    {
      this.kind, state, finished, confirmed, choice := kind, Running, 0, false, None;
    }

    /** ready. */
    method Offer()
      modifies this
      ensures Now() == Offered(old(Now()))
    {
      state := Ready;
      if choice.None? {
        choice := Some([]);
      }
    }

    /** choose, which sends under the lock and so must find room. */
    method Choose(c: Choice) returns (ok: bool)
      requires Now().Open() ==> Now().HasRoom()
      modifies this
      ensures ok == old(Now()).Open() && Now() == Chosen(old(Now()), c)
    {
      if !state.Ready? || confirmed {
        return false;
      }
      confirmed := true;
      state := Running;
      choice := Some(choice.value + [c]);
      return true;
    }

    /** end. */
    method End(state: JobState, now: int)
      modifies this
      ensures Now() == EndedAs(old(Now()), state, now)
    {
      this.state, finished := state, now;
    }
  }

  class Table {
    var jobs: map<Id, Job>

    function Now(): map<Id, Record>
      reads this, jobs.Values
    {
      map id | id in jobs :: jobs[id].Now()
    }

    constructor ()
      ensures Now() == map[]
    {
      jobs := map[];
    }

    /** The loop of startJob that counts the jobs at work of one sort, and leaves out those that ended long ago. */
    method Count(listing: bool, now: int) returns (running: nat, kept: map<Id, Job>)
      ensures kept.Keys <= jobs.Keys && forall id :: id in kept ==> kept[id] == jobs[id]
      ensures forall id :: id in jobs ==> (id in kept <==> !Old(Now()[id], now))
      ensures running == |ActiveOf(Now(), listing)|
    {
      hide ActiveOf, Old;
      ghost var records := Now();
      kept := jobs;
      var left := jobs.Keys;
      NoneCounted(records, listing);
      assert records.Keys == left;
      running := 0;
      while left != {}
        invariant left <= jobs.Keys && kept.Keys <= jobs.Keys
        invariant forall other :: other in kept ==> kept[other] == jobs[other]
        invariant forall other :: other in jobs ==> (other in kept <==> other in left || !Old(records[other], now))
        invariant running == |ActiveOf(records, listing) - left|
        decreases left
      {
        var other :| other in left;
        var job := jobs[other];
        assert records[other] == job.Now();
        CountGrows(records, listing, left, other);
        OldExactly(records[other], now);
        left := left - {other};
        if job.state.Running? || job.state.Ready? {
          if job.kind.Listing() == listing {
            running := running + 1;
          }
        } else if now - job.finished > JOB_RETENTION {
          kept := kept - {other};
        }
      }
      assert ActiveOf(records, listing) - {} == ActiveOf(records, listing);
    }

    /** startJob, up to where the job is in the table, under an ID that is new. */
    method Start(id: Id, kind: Kind, now: int) returns (job: Option<Job>)
      requires id !in jobs
      modifies this
      ensures Now() == Started(old(Now()), id, kind, now, |ActiveOf(old(Now()), kind.Listing())|)
      ensures job.Some? <==> |ActiveOf(old(Now()), kind.Listing())| < Limit(kind.Listing())
      ensures job.Some? ==> id in jobs && jobs[id] == job.value && fresh(job.value)
    {
      hide ActiveOf, Remembered, New, Old, Started;
      ghost var records := Now();
      var made := new Job(kind);
      var running, kept := Count(kind.Listing(), now);
      if running >= Limit(kind.Listing()) {
        jobs := kept;
        IsRefused(Now(), records, id, kind, now, running);
        return None;
      }
      jobs := kept[id := made];
      IsStarted(Now(), records, id, kind, now, running);
      return Some(made);
    }
  }

  lemma IsRefused(jobs: map<Id, Record>, records: map<Id, Record>, id: Id, kind: Kind, now: int, counted: nat)
    requires jobs.Keys <= records.Keys && forall id :: id in jobs ==> jobs[id] == records[id]
    requires forall id :: id in records ==> (id in jobs <==> !Old(records[id], now))
    requires counted >= Limit(kind.Listing())
    ensures jobs == Started(records, id, kind, now, counted)
  {
  }

  lemma IsStarted(jobs: map<Id, Record>, records: map<Id, Record>, id: Id, kind: Kind, now: int, counted: nat)
    requires id !in records && id in jobs && jobs[id] == New(kind) && jobs.Keys <= records.Keys + {id}
    requires forall other :: other in jobs && other != id ==> jobs[other] == records[other]
    requires forall other :: other in records ==> (other in jobs <==> !Old(records[other], now))
    requires counted < Limit(kind.Listing())
    ensures jobs == Started(records, id, kind, now, counted)
  {
  }

  lemma NoneCounted(records: map<Id, Record>, listing: bool)
    ensures ActiveOf(records, listing) - records.Keys == {}
  {
  }

  lemma OldExactly(r: Record, now: int)
    ensures Old(r, now) <==> !r.Active() && now - r.finished > 3600
  {
  }

  lemma CountGrows(records: map<Id, Record>, listing: bool, left: set<Id>, other: Id)
    requires other in left && left <= records.Keys
    ensures |ActiveOf(records, listing) - (left - {other})|
         == |ActiveOf(records, listing) - left|
            + if records[other].Active() && records[other].kind.Listing() == listing then 1 else 0
  {
    if other in ActiveOf(records, listing) {
      assert ActiveOf(records, listing) - (left - {other}) == (ActiveOf(records, listing) - left) + {other};
    } else {
      assert ActiveOf(records, listing) - (left - {other}) == ActiveOf(records, listing) - left;
    }
  }
}
