/**
 The lock registry of a folder of disk images: who has which image in use, in
 four modes. The class is the registry as its critical sections change it; the
 functions are what each does to the tables, and the lemmas tie the tables to
 the set of leases nobody released yet.
 */
module Locks {
  import opened Wrappers

  datatype Mode = Reader | Writer | Hold | Exclusive

  /** What two spellings of a name have in common. */
  type Key = string

  type Id = nat

  /** An NBD session, told apart by the order it was made in. */
  datatype Session = Session(number: nat, fingerprint: string)

  /** The state of one image. */
  datatype Entry = Entry(writer: Option<Session>, readers: set<Session>, holds: int, exclusive: string) {
    predicate Empty() {
      writer.None? && readers == {} && holds == 0 && exclusive == ""
    }
  }

  const NO_ENTRY := Entry(None, {}, 0, "")

  /** A lock on an image; the numbers tell leases apart. */
  datatype Lease = Lease(number: nat, key: Key, mode: Mode, session: Option<Session>, id: Id, why: string) {
    /** What every caller of acquire passes. */
    predicate Proper() {
      && (session.Some? <==> mode.Reader? || mode.Writer?)
      && (mode.Exclusive? ==> why != "")
    }
  }

  datatype Reason = TakenExclusively(why: string) | AttachedReadWrite(session: Session)
    | AttachedReadOnly(sessions: set<Session>) | BeingRead | StillAttached(session: Session)

  datatype Decision = Granted | Refused(reason: Reason) | Takeover(victim: Session)

  datatype Tables = Tables(entries: map<Key, Entry>, byId: map<Id, Session>) {
    function At(key: Key): Entry {
      if key in entries then entries[key] else NO_ENTRY
    }
  }

  /** The switch of acquire, case by case. */
  function Decide(e: Entry, mode: Mode, session: Option<Session>): Decision
    requires mode.Writer? ==> session.Some?
  {
    if e.exclusive != "" then Refused(TakenExclusively(e.exclusive))
    else if mode.Exclusive? && e.writer.Some? then Refused(AttachedReadWrite(e.writer.value))
    else if mode.Exclusive? && e.readers != {} then Refused(AttachedReadOnly(e.readers))
    else if mode.Exclusive? && e.holds > 0 then Refused(BeingRead)
    else if (mode.Writer? || mode.Hold?) && e.writer.Some? then
      if mode.Writer? && session.value.fingerprint != "" && e.writer.value.fingerprint == session.value.fingerprint
      then Takeover(e.writer.value)
      else Refused(AttachedReadWrite(e.writer.value))
    else if mode.Writer? && e.holds > 0 then Refused(BeingRead)
    else Granted
  }

  /** An entry with a lease put into it. */
  function Occupied(e: Entry, l: Lease): Entry {
    match l.mode
    case Reader => if l.session.Some? then e.(readers := e.readers + {l.session.value}) else e
    case Writer => e.(writer := l.session)
    case Hold => e.(holds := e.holds + 1)
    case Exclusive => e.(exclusive := l.why)
  }

  /** What granting a lease makes of the tables. */
  function Taken(t: Tables, l: Lease): Tables {
    Tables(t.entries[l.key := Occupied(t.At(l.key), l)],
           if l.session.Some? then t.byId[l.id := l.session.value] else t.byId)
  }

  /** What is left of an entry that a lease is taken out of. */
  function Vacated(e: Entry, l: Lease): Entry {
    match l.mode
    case Reader => if l.session.Some? then e.(readers := e.readers - {l.session.value}) else e
    case Writer => if e.writer == l.session then e.(writer := None) else e
    case Hold => e.(holds := e.holds - 1)
    case Exclusive => e.(exclusive := "")
  }

  /** What releasing a lease makes of the tables. */
  function Freed(t: Tables, l: Lease): Tables {
    var entries :=
      if l.key !in t.entries then t.entries
      else
        var e := Vacated(t.entries[l.key], l);
        if e.Empty() then t.entries - {l.key} else t.entries[l.key := e];
    Tables(entries, if l.session.Some? then t.byId - {l.id} else t.byId)
  }

  // The tables and the leases

  /** The leases of one mode on an image. */
  function On(leases: set<Lease>, key: Key, mode: Mode): set<Lease> {
    set l | l in leases && l.key == key && l.mode == mode
  }

  function SessionsOf(leases: set<Lease>): set<Session> {
    set l | l in leases && l.session.Some? :: l.session.value
  }

  function IdsOf(leases: set<Lease>): set<Id> {
    set l | l in leases && l.session.Some? :: l.id
  }

  function KeysOf(leases: set<Lease>): set<Key> {
    set l | l in leases :: l.key
  }

  /** Two leases that are told apart: not the same one, nor of one session, nor under one ID. */
  predicate Apart(l: Lease, m: Lease) {
    && l.number != m.number
    && (l.session.Some? && m.session.Some? ==> l.session != m.session && l.id != m.id)
  }

  ghost predicate Distinct(leases: set<Lease>) {
    forall l, m :: l in leases && m in leases && l != m ==> Apart(l, m)
  }

  /** A lease that is told apart from all of the others. */
  ghost predicate Fresh(leases: set<Lease>, l: Lease) {
    forall m :: m in leases ==> Apart(l, m)
  }

  /** Whether two leases may be held on one image at once. */
  predicate Compatible(a: Mode, b: Mode) {
    match (a, b)
    case (Exclusive, _) => false
    case (_, Exclusive) => false
    case (Writer, Reader) => true
    case (Writer, _) => false
    case (Hold, Writer) => false
    case _ => true
  }

  /** At most one writer of an image, none beside a hold, and nothing beside an exclusive lease. */
  ghost predicate Excludes(leases: set<Lease>) {
    forall l, m :: l in leases && m in leases && l != m && l.key == m.key ==> Compatible(l.mode, m.mode)
  }

  /** An entry says exactly which leases on its image are not released. */
  ghost predicate Shows(e: Entry, leases: set<Lease>, key: Key) {
    && (e.writer.Some? <==> On(leases, key, Writer) != {})
    && (forall l :: l in On(leases, key, Writer) ==> l.session == e.writer)
    && e.readers == SessionsOf(On(leases, key, Reader))
    && e.holds == |On(leases, key, Hold)|
    && (e.exclusive != "" <==> On(leases, key, Exclusive) != {})
    && (forall l :: l in On(leases, key, Exclusive) ==> l.why == e.exclusive)
  }

  /** The IDs are those of the sessions that have a lease. */
  ghost predicate Lists(byId: map<Id, Session>, leases: set<Lease>) {
    && byId.Keys == IdsOf(leases)
    && (forall l :: l in leases && l.session.Some? ==> l.id in byId && byId[l.id] == l.session.value)
  }

  /** The tables hold exactly the leases: nothing is kept of an image nobody uses, and every session is listed. */
  ghost predicate Reflects(t: Tables, leases: set<Lease>) {
    && t.entries.Keys == KeysOf(leases)
    && (forall key :: Shows(t.At(key), leases, key))
    && Lists(t.byId, leases)
  }

  ghost predicate Consistent(t: Tables, leases: set<Lease>) {
    && (forall l :: l in leases ==> l.Proper())
    && Distinct(leases) && Excludes(leases) && Reflects(t, leases)
  }

  /** Whether an entry shows a lease of the mode. */
  predicate Has(e: Entry, mode: Mode) {
    match mode
    case Reader => e.readers != {}
    case Writer => e.writer.Some?
    case Hold => e.holds > 0
    case Exclusive => e.exclusive != ""
  }

  lemma HasExactlyIfOn(e: Entry, leases: set<Lease>, key: Key, mode: Mode)
    requires Shows(e, leases, key) && forall l :: l in leases ==> l.Proper()
    ensures Has(e, mode) <==> On(leases, key, mode) != {}
  {
    if mode.Reader? && On(leases, key, mode) != {} {
      var l :| l in On(leases, key, Reader);
      assert l.Proper() && l.session.value in e.readers;
    }
  }

  /** The switch, seen as a check against every mode that is in the entry. */
  lemma DecideChecksEveryMode(e: Entry, mode: Mode, session: Option<Session>)
    requires mode.Writer? ==> session.Some?
    ensures Decide(e, mode, session) == Granted <==>
              && (Has(e, Reader) ==> Compatible(Reader, mode)) && (Has(e, Writer) ==> Compatible(Writer, mode))
              && (Has(e, Hold) ==> Compatible(Hold, mode)) && (Has(e, Exclusive) ==> Compatible(Exclusive, mode))
  {
  }

  /** The switch grants exactly what does not clash with the leases that are held. */
  lemma GrantedExactlyIfCompatible(t: Tables, leases: set<Lease>, key: Key, mode: Mode, session: Option<Session>)
    requires Consistent(t, leases)
    requires mode.Writer? ==> session.Some?
    ensures Decide(t.At(key), mode, session) == Granted
       <==> forall l :: l in leases && l.key == key ==> Compatible(l.mode, mode)
  {
    hide Decide, Has, Shows, Compatible, Distinct, Lists, Excludes;
    var e := t.At(key);
    assert Shows(e, leases, key);
    HasExactlyIfOn(e, leases, key, Reader);
    HasExactlyIfOn(e, leases, key, Writer);
    HasExactlyIfOn(e, leases, key, Hold);
    HasExactlyIfOn(e, leases, key, Exclusive);
    DecideChecksEveryMode(e, mode, session);
    assert forall l :: l in leases && l.key == key ==> l in On(leases, key, l.mode);
  }

  /** What the leases of each mode become when one is granted. */
  lemma GrownOn(leases: set<Lease>, l: Lease)
    requires l !in leases
    ensures forall mode :: mode != l.mode ==> On(leases + {l}, l.key, mode) == On(leases, l.key, mode)
    ensures On(leases + {l}, l.key, l.mode) == On(leases, l.key, l.mode) + {l}
    ensures l !in On(leases, l.key, l.mode)
  {
  }

  lemma GrantedFindsFree(e: Entry, mode: Mode, session: Option<Session>)
    requires (mode.Writer? ==> session.Some?) && Decide(e, mode, session) == Granted
    ensures e.exclusive == "" && (mode.Writer? || mode.Exclusive? ==> e.writer.None?)
  {
  }

  /** An entry its lease was put into shows the lease besides the others. */
  lemma OccupiedShows(e: Entry, leases: set<Lease>, l: Lease)
    requires Shows(e, leases, l.key) && l.Proper() && l !in leases
    requires Decide(e, l.mode, l.session) == Granted
    ensures Shows(Occupied(e, l), leases + {l}, l.key)
  {
    hide On, SessionsOf, Decide;
    GrantedFindsFree(e, l.mode, l.session);
    GrownOn(leases, l);
    if l.mode.Reader? {
      SessionsGrown(On(leases, l.key, Reader), l);
    }
    assert l.mode.Hold? ==> |On(leases + {l}, l.key, Hold)| == |On(leases, l.key, Hold)| + 1;
  }

  lemma SessionsGrown(leases: set<Lease>, l: Lease)
    ensures SessionsOf(leases + {l}) == SessionsOf(leases) + if l.session.Some? then {l.session.value} else {}
  {
  }

  /** Granting what the switch grants keeps everything consistent. */
  lemma GrantKeepsConsistent(t: Tables, leases: set<Lease>, l: Lease)
    requires Consistent(t, leases) && l.Proper() && Fresh(leases, l)
    requires Decide(t.At(l.key), l.mode, l.session) == Granted
    ensures Consistent(Taken(t, l), leases + {l})
  {
    hide Decide, Occupied, Shows, Lists;
    GrantedExactlyIfCompatible(t, leases, l.key, l.mode, l.session);
    var t', ls := Taken(t, l), leases + {l};
    assert Excludes(ls);
    assert Distinct(ls);
    forall key
      ensures Shows(t'.At(key), ls, key)
    {
      assert Shows(t.At(key), leases, key);
      if key == l.key {
        assert l !in leases;
        OccupiedShows(t.At(key), leases, l);
      } else {
        OtherShows(t.At(key), leases, l, key);
      }
    }
    ListsGrown(t.byId, leases, l);
  }

  lemma OtherShows(e: Entry, leases: set<Lease>, l: Lease, key: Key)
    requires Shows(e, leases, key) && key != l.key
    ensures Shows(e, leases + {l}, key)
  {
    assert forall mode :: On(leases + {l}, key, mode) == On(leases, key, mode);
  }

  lemma ListsGrown(byId: map<Id, Session>, leases: set<Lease>, l: Lease)
    requires Lists(byId, leases) && Fresh(leases, l)
    ensures Lists(if l.session.Some? then byId[l.id := l.session.value] else byId, leases + {l})
  {
  }

  // Releasing

  /** A writer or exclusive lease is the only one of its mode on its image. */
  lemma OneOfItsMode(leases: set<Lease>, l: Lease)
    requires Excludes(leases) && l in leases && (l.mode.Writer? || l.mode.Exclusive?)
    ensures On(leases, l.key, l.mode) == {l}
  {
  }

  /** What is left of the leases of each mode when one is released. */
  lemma LeftOn(leases: set<Lease>, l: Lease)
    requires l in leases
    ensures forall mode :: mode != l.mode ==> On(leases - {l}, l.key, mode) == On(leases, l.key, mode)
    ensures On(leases - {l}, l.key, l.mode) == On(leases, l.key, l.mode) - {l}
    ensures l in On(leases, l.key, l.mode)
  {
  }

  lemma ReadersLeft(leases: set<Lease>, l: Lease)
    requires Distinct(leases) && l in leases && l.mode.Reader? && l.Proper()
    ensures SessionsOf(On(leases - {l}, l.key, Reader)) == SessionsOf(On(leases, l.key, Reader)) - {l.session.value}
  {
  }

  /** An entry its lease was taken out of shows the leases that are left. */
  lemma VacatedShows(e: Entry, leases: set<Lease>, l: Lease)
    requires Shows(e, leases, l.key) && l.Proper() && l in leases && Distinct(leases) && Excludes(leases)
    ensures Shows(Vacated(e, l), leases - {l}, l.key)
  {
    LeftOn(leases, l);
    if l.mode.Writer? || l.mode.Exclusive? {
      OneOfItsMode(leases, l);
    }
    if l.mode.Reader? {
      ReadersLeft(leases, l);
    }
    hide On, SessionsOf, Distinct, Excludes;
    assert l.mode.Hold? ==> |On(leases - {l}, l.key, Hold)| == |On(leases, l.key, Hold)| - 1;
  }

  /** An entry is empty exactly when no lease on its image is left. */
  lemma EmptyExactlyIfUnused(e: Entry, leases: set<Lease>, key: Key)
    requires Shows(e, leases, key) && forall l :: l in leases ==> l.Proper()
    ensures e.Empty() <==> key !in KeysOf(leases)
  {
    if key in KeysOf(leases) {
      var l :| l in leases && l.key == key;
      assert l in On(leases, key, l.mode) && l.Proper();
      if l.mode.Reader? {
        assert l.session.value in SessionsOf(On(leases, key, Reader));
      }
    }
  }

  /** Releasing a lease keeps everything consistent. */
  lemma ReleaseKeepsConsistent(t: Tables, leases: set<Lease>, l: Lease)
    requires Consistent(t, leases) && l in leases
    ensures Consistent(Freed(t, l), leases - {l})
  {
    hide Vacated, Shows, Lists;
    var t', ls := Freed(t, l), leases - {l};
    assert l.key in t.entries;
    var e := Vacated(t.entries[l.key], l);
    assert Shows(t.At(l.key), leases, l.key);
    VacatedShows(t.At(l.key), leases, l);
    EmptyExactlyIfUnused(e, ls, l.key);
    assert KeysOf(ls) - {l.key} == KeysOf(leases) - {l.key};
    forall key
      ensures Shows(t'.At(key), ls, key)
    {
      assert Shows(t.At(key), leases, key);
      if key == l.key {
        EmptyIsNoEntry(e);
      } else {
        OtherShowsShrunk(t.At(key), leases, l, key);
      }
    }
    ListsShrunk(t.byId, leases, l);
  }

  lemma EmptyIsNoEntry(e: Entry)
    ensures e.Empty() ==> e == NO_ENTRY
  {
  }

  lemma OtherShowsShrunk(e: Entry, leases: set<Lease>, l: Lease, key: Key)
    requires Shows(e, leases, key) && key != l.key
    ensures Shows(e, leases - {l}, key)
  {
    assert forall mode :: On(leases - {l}, key, mode) == On(leases, key, mode);
  }

  lemma ListsShrunk(byId: map<Id, Session>, leases: set<Lease>, l: Lease)
    requires Lists(byId, leases) && Distinct(leases) && l in leases
    ensures Lists(if l.session.Some? then byId - {l.id} else byId, leases - {l})
  {
  }

  /** Releasing what was just granted leaves no trace in the tables. */
  lemma ReleaseUndoesGrant(t: Tables, leases: set<Lease>, l: Lease)
    requires Consistent(t, leases) && l.Proper() && Fresh(leases, l)
    requires Decide(t.At(l.key), l.mode, l.session) == Granted
    ensures Freed(Taken(t, l), l) == t
  {
    hide Shows, Occupied, Vacated, Decide, Lists, Distinct, Excludes, Fresh;
    FreshReader(t, leases, l);
    assert Shows(t.At(l.key), leases, l.key);
    EmptyExactlyIfUnused(t.At(l.key), leases, l.key);
    VacatedUndoesOccupied(t.At(l.key), l);
    assert Freed(Taken(t, l), l).byId == t.byId;
  }

  lemma VacatedUndoesOccupied(e: Entry, l: Lease)
    requires l.Proper() && Decide(e, l.mode, l.session) == Granted
    requires l.session.Some? ==> l.session.value !in e.readers
    ensures Vacated(Occupied(e, l), l) == e
  {
  }

  lemma FreshReader(t: Tables, leases: set<Lease>, l: Lease)
    requires Consistent(t, leases) && Fresh(leases, l)
    ensures l.session.Some? ==> l.session.value !in t.At(l.key).readers
    ensures l.session.Some? ==> l.id !in t.byId
  {
  }

  // The registry

  /**
   How a registry is found again after waiting: its tables, the leases they
   hold, the sessions that let go for good, and whether the wait ended because
   the session that was waited for had let go, rather than by the deadline.
   */
  datatype World = World(tables: Tables, leases: set<Lease>, released: set<Session>, letGo: bool)

  /** Nobody who let go for good holds a lease: a session takes one lease in its life. */
  ghost predicate LetGoForGood(w: World) {
    forall m :: m in w.leases && m.session.Some? ==> m.session.value !in w.released
  }

  /** What the others may have made of a registry while the writer of the image was waited for. */
  ghost predicate MayBecome(w: World, next: World, l: Lease) {
    && Consistent(next.tables, next.leases) && Fresh(next.leases, l) && LetGoForGood(next)
    && w.released <= next.released
    && (next.letGo && w.tables.At(l.key).writer.Some? ==> w.tables.At(l.key).writer.value in next.released)
  }

  ghost predicate Plausible(w: World, schedule: seq<World>, l: Lease) {
    && (schedule != [] ==> MayBecome(w, schedule[0], l))
    && (forall k :: 0 < k < |schedule| ==> MayBecome(schedule[k - 1], schedule[k], l))
  }

  /** The attempts of acquire: what it returns, whom it closed on the way, and how it leaves the registry. */
  function Attempts(w: World, schedule: seq<World>, l: Lease): (Result<Lease, Reason>, seq<Session>, World)
    requires l.Proper()
    decreases |schedule|
  {
    match Decide(w.tables.At(l.key), l.mode, l.session)
    case Granted => (Ok(l), [], w.(tables := Taken(w.tables, l), leases := w.leases + {l}))
    case Refused(reason) => (Err(reason), [], w)
    case Takeover(victim) =>
      if schedule == [] then (Err(StillAttached(victim)), [victim], w)
      else if !schedule[0].letGo then (Err(StillAttached(victim)), [victim], schedule[0])
      else
        var rest := Attempts(schedule[0], schedule[1..], l);
        (rest.0, [victim] + rest.1, rest.2)
  }

  /** After closing the victims, the registry found as w and the rest of the schedule decide the outcome. */
  ghost predicate Leads(outcome: (Result<Lease, Reason>, seq<Session>, World), victims: seq<Session>,
                        w: World, rest: seq<World>, l: Lease)
    requires l.Proper()
  {
    var (res, more, last) := Attempts(w, rest, l);
    outcome == (res, victims + more, last)
  }

  lemma LeadsFirst(w: World, schedule: seq<World>, l: Lease)
    requires l.Proper()
    ensures schedule[0..] == schedule
    ensures Leads(Attempts(w, schedule, l), [], w, schedule, l)
  {
    hide Attempts;
    assert forall more: seq<Session> :: [] + more == more;
  }

  lemma LeadsOn(outcome: (Result<Lease, Reason>, seq<Session>, World), victims: seq<Session>,
                w: World, rest: seq<World>, l: Lease)
    requires l.Proper() && Leads(outcome, victims, w, rest, l)
    ensures match Decide(w.tables.At(l.key), l.mode, l.session)
            case Granted => outcome == (Ok(l), victims, w.(tables := Taken(w.tables, l), leases := w.leases + {l}))
            case Refused(reason) => outcome == (Err(reason), victims, w)
            case Takeover(victim) =>
              if rest == [] then outcome == (Err(StillAttached(victim)), victims + [victim], w)
              else if !rest[0].letGo then outcome == (Err(StillAttached(victim)), victims + [victim], rest[0])
              else Leads(outcome, victims + [victim], rest[0], rest[1..], l)
  {
    hide Decide, Taken;
    match Decide(w.tables.At(l.key), l.mode, l.session) {
      case Takeover(victim) =>
        if rest != [] && rest[0].letGo {
          var more := Attempts(rest[0], rest[1..], l).1;
          assert victims + ([victim] + more) == (victims + [victim]) + more;
        }
      case _ =>
        assert victims + [] == victims;
    }
  }

  /** A writer is closed for another exactly if both came with one certificate, and nothing is exclusive. */
  lemma TakesOverExactlyFromOwn(e: Entry, mode: Mode, session: Option<Session>, victim: Session)
    requires mode.Writer? ==> session.Some?
    ensures Decide(e, mode, session) == Takeover(victim)
       <==> && mode.Writer? && e.exclusive == "" && e.writer == Some(victim)
            && session.value.fingerprint == victim.fingerprint != ""
  {
  }

  /** The reason of a refusal is in the entry. */
  lemma RefusalsAreTrue(e: Entry, mode: Mode, session: Option<Session>)
    requires mode.Writer? ==> session.Some?
    ensures Decide(e, mode, session).Refused? ==>
              match Decide(e, mode, session).reason
              case TakenExclusively(why) => why == e.exclusive != ""
              case AttachedReadWrite(writer) => e.writer == Some(writer)
              case AttachedReadOnly(readers) => readers == e.readers != {} && mode.Exclusive?
              case BeingRead => e.holds > 0
              case StillAttached(_) => false
  {
  }

  /** What an attempt decides, of the registry as it is found for it. */
  function AttemptAt(w: World, schedule: seq<World>, l: Lease, i: nat): Decision
    requires l.Proper() && i <= |schedule|
  {
    Decide((if i == 0 then w else schedule[i - 1]).tables.At(l.key), l.mode, l.session)
  }

  /** Attempts that each close the writer in their way, which lets go before the next. */
  ghost predicate TookOver(w: World, schedule: seq<World>, l: Lease, victims: seq<Session>)
    requires l.Proper()
  {
    && |victims| <= |schedule| + 1
    && (forall i :: 0 <= i < |victims| ==> AttemptAt(w, schedule, l, i) == Takeover(victims[i]))
    && (forall i :: 0 <= i < |victims| - 1 ==> schedule[i].letGo)
  }

  /** How it ends after n of them: waiting in vain for the last, or as one more attempt decides. */
  predicate EndsAs(w: World, schedule: seq<World>, l: Lease, res: Result<Lease, Reason>, victims: seq<Session>)
    requires l.Proper() && |victims| <= |schedule| + 1
  {
    var n := |victims|;
    if res.Err? && res.error.StillAttached? then
      n > 0 && res.error.session == victims[n - 1] && (n - 1 == |schedule| || !schedule[n - 1].letGo)
    else
      && n <= |schedule| && (n > 0 ==> schedule[n - 1].letGo)
      && AttemptAt(w, schedule, l, n) == if res.Ok? then Granted else Refused(res.error)
  }

  lemma EndsLater(w: World, schedule: seq<World>, l: Lease, res: Result<Lease, Reason>, victim: Session,
                  more: seq<Session>)
    requires l.Proper() && schedule != [] && schedule[0].letGo && AttemptAt(w, schedule, l, 0) == Takeover(victim)
    requires TookOver(schedule[0], schedule[1..], l, more) && EndsAs(schedule[0], schedule[1..], l, res, more)
    ensures TookOver(w, schedule, l, [victim] + more) && EndsAs(w, schedule, l, res, [victim] + more)
  {
    hide Decide;
    var victims, rest := [victim] + more, schedule[1..];
    forall i | 0 <= i <= |rest|
      ensures AttemptAt(schedule[0], rest, l, i) == AttemptAt(w, schedule, l, i + 1)
    {
    }
    hide AttemptAt;
    forall i | 0 <= i < |victims|
      ensures AttemptAt(w, schedule, l, i) == Takeover(victims[i])
    {
      if i > 0 {
        assert AttemptAt(schedule[0], rest, l, i - 1) == Takeover(more[i - 1]);
      }
    }
    forall i | 0 <= i < |victims| - 1
      ensures schedule[i].letGo
    {
      if i > 0 {
        assert rest[i - 1].letGo;
      }
    }
  }

  /**
   Every attempt but the last closes the writer in its way, which lets go in
   time; the last is granted, refused for its reason, or waits in vain.
   */
  lemma {:induction false} AttemptsEndWithTheLast(w: World, schedule: seq<World>, l: Lease)
    requires l.Proper()
    ensures var (res, victims, _) := Attempts(w, schedule, l);
            TookOver(w, schedule, l, victims) && EndsAs(w, schedule, l, res, victims)
    decreases |schedule|
  {
    OnlyTimeoutsAreStillAttached(w.tables.At(l.key), l.mode, l.session);
    hide Decide, Taken;
    assert AttemptAt(w, schedule, l, 0) == Decide(w.tables.At(l.key), l.mode, l.session);
    match Decide(w.tables.At(l.key), l.mode, l.session) {
      case Takeover(victim) =>
        if schedule != [] && schedule[0].letGo {
          AttemptsEndWithTheLast(schedule[0], schedule[1..], l);
          hide TookOver, EndsAs;
          var (res, more, _) := Attempts(schedule[0], schedule[1..], l);
          EndsLater(w, schedule, l, res, victim, more);
        }
      case _ =>
    }
  }

  lemma TakenOverFromWriter(e: Entry, mode: Mode, session: Option<Session>)
    requires mode.Writer? ==> session.Some?
    ensures Decide(e, mode, session).Takeover? ==> mode.Writer? && e.writer == Some(Decide(e, mode, session).victim)
  {
  }

  ghost predicate AllDifferent(sessions: seq<Session>) {
    forall i, j :: 0 <= i < j < |sessions| ==> sessions[i] != sessions[j]
  }

  /** Somebody's lease, or the one a writer came back for. */
  ghost predicate MayAttempt(w: World, l: Lease) {
    && l.Proper() && Consistent(w.tables, w.leases) && LetGoForGood(w) && Fresh(w.leases, l)
    && (l.session.Some? ==> l.session.value !in w.released)
  }

  /**
   However often acquire is retried: a lease is granted only when every session
   that was closed for it has let go of the image, no session is closed twice,
   and only a writer closes any.
   */
  lemma {:induction false} AttemptsTakeOverInTurn(w: World, schedule: seq<World>, l: Lease)
    requires MayAttempt(w, l) && Plausible(w, schedule, l)
    requires forall k :: 0 <= k < |schedule| && l.session.Some? ==> l.session.value !in schedule[k].released
    ensures var (res, victims, last) := Attempts(w, schedule, l);
            && Consistent(last.tables, last.leases) && LetGoForGood(last) && w.released <= last.released
            && AllDifferent(victims) && |victims| <= |schedule| + 1
            && (forall v :: v in victims ==> v !in w.released)
            && (victims != [] ==> l.mode.Writer?)
            && (res.Ok? ==> res.value == l && l in last.leases && forall v :: v in victims ==> v in last.released)
            && (res.Err? ==> l !in last.leases)
            && (res.Err? && res.error.StillAttached? ==> victims != [] && res.error.session == victims[|victims| - 1])
    decreases |schedule|
  {
    hide Shows, Lists, Excludes, Distinct, Decide;
    match Decide(w.tables.At(l.key), l.mode, l.session) {
      case Granted =>
        GrantKeepsConsistent(w.tables, w.leases, l);
      case Refused(reason) =>
        OnlyTimeoutsAreStillAttached(w.tables.At(l.key), l.mode, l.session);
      case Takeover(victim) =>
        TakenOverFromWriter(w.tables.At(l.key), l.mode, l.session);
        WriterHoldsLease(w.tables, w.leases, l.key);
        if schedule != [] && schedule[0].letGo {
          AttemptsTakeOverInTurn(schedule[0], schedule[1..], l);
        }
    }
  }

  lemma AttemptsStayConsistent(w: World, schedule: seq<World>, l: Lease)
    requires MayAttempt(w, l) && Plausible(w, schedule, l)
    requires forall k :: 0 <= k < |schedule| && l.session.Some? ==> l.session.value !in schedule[k].released
    ensures var last := Attempts(w, schedule, l).2;
            Consistent(last.tables, last.leases) && LetGoForGood(last.(letGo := false))
  {
    hide Consistent, Attempts, Plausible, MayAttempt;
    AttemptsTakeOverInTurn(w, schedule, l);
  }

  /** A writer that an entry shows holds a lease. */
  lemma WriterHoldsLease(t: Tables, leases: set<Lease>, key: Key)
    requires Consistent(t, leases) && t.At(key).writer.Some?
    ensures exists m :: m in leases && m.key == key && m.mode.Writer? && m.session == t.At(key).writer
  {
  }

  lemma ApartFromOthers(leases: set<Lease>, l: Lease)
    requires Distinct(leases) && l in leases
    ensures forall m :: m in leases && m != l && l.session.Some? ==> m.session != l.session
  {
  }

  class Registry {
    var entries: map<Key, Entry>
    var byId: map<Id, Session>
    /** The leases nobody released yet, and the sessions that let go for good. */
    ghost var leases: set<Lease>
    ghost var released: set<Session>

    function Now(): Tables
      reads this
    {
      Tables(entries, byId)
    }

    ghost predicate Valid()
      reads this
    {
      Consistent(Now(), leases) && LetGoForGood(World(Now(), leases, released, false))
    }

    constructor ()
      ensures Valid() && leases == {} && released == {}
    {
      entries, byId, released, leases := map[], map[], {}, {};
    }

    /** One pass of acquire under the lock. */
    method Section(l: Lease) returns (d: Decision)
      requires l.Proper()
      modifies this`entries, this`byId
      ensures d == Decide(old(Now()).At(l.key), l.mode, l.session)
      ensures Now() == if d.Granted? then Taken(old(Now()), l) else old(Now())
    {
      if l.key !in entries {
        entries := entries[l.key := NO_ENTRY];
      }
      var e := entries[l.key];
      var victim: Option<Session> := None;
      var refusal: Option<Reason> := None;
      if e.exclusive != "" {
        refusal := Some(TakenExclusively(e.exclusive));
      } else if l.mode.Exclusive? && e.writer.Some? {
        refusal := Some(AttachedReadWrite(e.writer.value));
      } else if l.mode.Exclusive? && e.readers != {} {
        refusal := Some(AttachedReadOnly(e.readers));
      } else if l.mode.Exclusive? && e.holds > 0 {
        refusal := Some(BeingRead);
      } else if (l.mode.Writer? || l.mode.Hold?) && e.writer.Some? {
        if l.mode.Writer? && l.session.value.fingerprint != ""
           && e.writer.value.fingerprint == l.session.value.fingerprint {
          victim := e.writer;
        } else {
          refusal := Some(AttachedReadWrite(e.writer.value));
        }
      } else if l.mode.Writer? && e.holds > 0 {
        refusal := Some(BeingRead);
      }
      if refusal.Some? {
        return Refused(refusal.value);
      }
      if victim.Some? {
        return Takeover(victim.value);
      }
      match l.mode {
        case Reader => e := e.(readers := e.readers + {l.session.value});
        case Writer => e := e.(writer := l.session);
        case Hold => e := e.(holds := e.holds + 1);
        case Exclusive => e := e.(exclusive := l.why);
      }
      entries := entries[l.key := e];
      if l.session.Some? {
        byId := byId[l.id := l.session.value];
      }
      return Granted;
    }

    /**
     acquire: retried after every session that was closed to take over from it
     has let go. What the others do meanwhile is given, as the registry is
     found after each wait; where that ends, the deadline passes.
     */
    method Acquire(l: Lease, schedule: seq<World>) returns (res: Result<Lease, Reason>, victims: seq<Session>)
      requires l.Proper() && MayAttempt(World(Now(), leases, released, false), l)
      requires Plausible(World(Now(), leases, released, false), schedule, l)
      requires forall k :: 0 <= k < |schedule| && l.session.Some? ==> l.session.value !in schedule[k].released
      modifies this
      ensures Valid()
      ensures var (result, closed, last) := Attempts(old(World(Now(), leases, released, false)), schedule, l);
              && res == result && victims == closed
              && Now() == last.tables && leases == last.leases && released == last.released
    {
      hide Decide, Taken, Consistent, Attempts, Leads, LetGoForGood, Plausible, MayAttempt;
      ghost var w := World(Now(), leases, released, false);
      ghost var outcome := Attempts(w, schedule, l);
      AttemptsStayConsistent(w, schedule, l);
      LeadsFirst(w, schedule, l);
      victims := [];
      var i := 0;
      while true
        invariant 0 <= i <= |schedule|
        invariant w.tables == Now() && w.leases == leases && w.released == released
        invariant Leads(outcome, victims, w, schedule[i..], l)
        decreases |schedule| - i
      {
        LeadsOn(outcome, victims, w, schedule[i..], l);
        var d := Section(l);
        match d {
          case Granted =>
            leases := leases + {l};
            return Ok(l), victims;
          case Refused(reason) =>
            return Err(reason), victims;
          case Takeover(victim) =>
            victims := victims + [victim];
            if i == |schedule| {
              return Err(StillAttached(victim)), victims;
            }
            w := schedule[i];
            entries, byId := schedule[i].tables.entries, schedule[i].tables.byId;
            leases, released := schedule[i].leases, schedule[i].released;
            i := i + 1;
            if !schedule[i - 1].letGo {
              return Err(StillAttached(victim)), victims;
            }
            assert schedule[i - 1..][1..] == schedule[i..];
        }
      }
    }

    /** release. */
    method Release(l: Lease)
      requires Valid() && l in leases
      modifies this
      ensures Valid()
      ensures Now() == Freed(old(Now()), l)
      ensures leases == old(leases) - {l}
      ensures released == old(released) + if l.session.Some? then {l.session.value} else {}
    {
      hide Shows, Lists, Excludes, Distinct, Apart;
      ReleaseKeepsConsistent(Now(), leases, l);
      ApartFromOthers(leases, l);
      if l.key in entries {
        var e := entries[l.key];
        match l.mode {
          case Reader => e := e.(readers := e.readers - {l.session.value});
          case Writer => if e.writer == l.session {
            e := e.(writer := None);
          }
          case Hold => e := e.(holds := e.holds - 1);
          case Exclusive => e := e.(exclusive := "");
        }
        entries := if e.Empty() then entries - {l.key} else entries[l.key := e];
      }
      if l.session.Some? {
        byId := byId - {l.id};
        released := released + {l.session.value};
      }
      leases := leases - {l};
    }
  }

  lemma OnlyTimeoutsAreStillAttached(e: Entry, mode: Mode, session: Option<Session>)
    requires mode.Writer? ==> session.Some?
    ensures Decide(e, mode, session).Refused? ==> !Decide(e, mode, session).reason.StillAttached?
  {
  }

  /** A Lease, which lets go once however often it is released. */
  class Handle {
    const registry: Registry
    const lease: Lease
    var done: bool

    constructor (registry: Registry, lease: Lease)
      ensures this.registry == registry && this.lease == lease && !done
    {
      this.registry, this.lease, done := registry, lease, false;
    }

    /** Lease.Release. */
    method Release()
      requires registry.Valid() && (!done ==> lease in registry.leases)
      modifies this, registry
      ensures registry.Valid() && done
      ensures registry.leases == old(registry.leases) - if old(done) then {} else {lease}
      ensures registry.Now() == if old(done) then old(registry.Now()) else Freed(old(registry.Now()), lease)
    {
      if !done {
        done := true;
        registry.Release(lease);
      }
    }
  }
}
