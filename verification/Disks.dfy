/**
 What the Disks page does to the images of a folder, one operation at a time:
 each takes the exclusive lease of what it changes and lets go of it again. The
 class works on the registry; Applied is what an operation comes to, given what
 the registry says of the names.
 */
module Disks {
  import opened Wrappers
  import opened Bytes
  import opened Locks
  import opened Sparse

  const MAX_NAME_LENGTH := 200
  const MAX_SIZE := 0x4_0000_0000_0000

  /** An image, under the name as it was last given. */
  datatype Disk = Disk(name: string, content: bytes)

  type Files = map<Key, Disk>

  datatype Error = BadName | NotFound | BadSize | Busy(reason: Reason) | Exists | Shrinks

  datatype Op = Create(name: string, size: int) | Resize(name: string, size: int, shrink: bool)
    | Rename(from: string, to: string) | Delete(name: string)

  predicate Alphanumeric(c: char) {
    'A' <= c <= 'Z' || 'a' <= c <= 'z' || '0' <= c <= '9'
  }

  function Lower(s: string): (r: string)
    ensures |r| == |s|
  {
    if s == "" then ""
    else [if 'A' <= s[0] <= 'Z' then (s[0] as int + 32) as char else s[0]] + Lower(s[1..])
  }

  /** What is before the first dot. */
  function Stem(s: string): string {
    if s == "" || s[0] == '.' then "" else [s[0]] + Stem(s[1..])
  }

  predicate Reserved(stem: string) {
    || stem in ["con", "prn", "aux", "nul"]
    || (|stem| == 4 && stem[..3] in ["com", "lpt"] && '0' <= stem[3] <= '9')
  }

  predicate ValidName(name: string) {
    && 0 < |name| <= MAX_NAME_LENGTH && Alphanumeric(name[0])
    && (forall i :: 0 < i < |name| ==> Alphanumeric(name[i]) || name[i] in "._-")
    && name[|name| - 1] != '.'
    && !Reserved(Stem(Lower(name)))
  }

  function KeyOf(folds: bool, name: string): Key {
    if folds then Lower(name) else name
  }

  /** Sizes are whole sectors. */
  function RoundUp(size: int): (r: int)
    ensures size <= r < size + 512 && r % 512 == 0
  {
    (size + 511) / 512 * 512
  }

  function Resized(content: bytes, size: nat): (r: bytes)
    ensures |r| == size
    ensures forall i :: 0 <= i < size ==> r[i] == At(content, i)
  {
    if size <= |content| then content[..size] else content + Zeros(size - |content|)
  }

  /** What keeps an image from being held or taken exclusively. */
  function InTheWay(t: Tables, key: Key, mode: Mode): Option<Reason>
    requires !mode.Writer?
  {
    match Decide(t.At(key), mode, None)
    case Refused(reason) => Some(reason)
    case _ => None
  }

  function Applied(op: Op, folds: bool, files: Files, t: Tables): (Result<(), Error>, Files) {
    match op
    case Create(name, size) =>
      var key := KeyOf(folds, name);
      if !ValidName(name) then (Err(BadName), files)
      else if size <= 0 || size > MAX_SIZE then (Err(BadSize), files)
      else if InTheWay(t, key, Exclusive).Some? then (Err(Busy(InTheWay(t, key, Exclusive).value)), files)
      else if key in files then (Err(Exists), files)
      else (Ok(()), files[key := Disk(name, Zeros(RoundUp(size)))])
    case Resize(name, size, shrink) =>
      var key := KeyOf(folds, name);
      if !ValidName(name) then (Err(BadName), files)
      else if key !in files then (Err(NotFound), files)
      else if size <= 0 || size > MAX_SIZE then (Err(BadSize), files)
      else if InTheWay(t, key, Exclusive).Some? then (Err(Busy(InTheWay(t, key, Exclusive).value)), files)
      else if RoundUp(size) < |files[key].content| && !shrink then (Err(Shrinks), files)
      else (Ok(()), files[key := files[key].(content := Resized(files[key].content, RoundUp(size)))])
    case Rename(from, to) =>
      var a, b := KeyOf(folds, from), KeyOf(folds, to);
      if !ValidName(from) then (Err(BadName), files)
      else if a !in files then (Err(NotFound), files)
      else if !ValidName(to) then (Err(BadName), files)
      else if from == to then (Ok(()), files)
      else if InTheWay(t, a, Exclusive).Some? then (Err(Busy(InTheWay(t, a, Exclusive).value)), files)
      else if InTheWay(t, b, Exclusive).Some? then (Err(Busy(InTheWay(t, b, Exclusive).value)), files)
      else if a != b && b in files then (Err(Exists), files)
      else (Ok(()), (files - {a})[b := files[a].(name := to)])
    case Delete(name) =>
      var key := KeyOf(folds, name);
      if !ValidName(name) then (Err(BadName), files)
      else if key !in files then (Err(NotFound), files)
      else if InTheWay(t, key, Exclusive).Some? then (Err(Busy(InTheWay(t, key, Exclusive).value)), files)
      else (Ok(()), files - {key})
  }

  /** Whether a clone of one image into another name may start, and if not, why. */
  function Cloning(source: string, target: string, folds: bool, files: Files, t: Tables): Result<(), Error> {
    var a, b := KeyOf(folds, source), KeyOf(folds, target);
    if !ValidName(source) then Err(BadName)
    else if a !in files then Err(NotFound)
    else if !ValidName(target) then Err(BadName)
    else if a == b then Err(Exists)
    else if InTheWay(t, a, Hold).Some? then Err(Busy(InTheWay(t, a, Hold).value))
    else if InTheWay(t, b, Exclusive).Some? then Err(Busy(InTheWay(t, b, Exclusive).value))
    else if b in files then Err(Exists)
    else Ok(())
  }

  class Folder {
    const folds: bool
    const reg: Registry
    var files: Files

    constructor (folds: bool, reg: Registry, files: Files)
      ensures this.folds == folds && this.reg == reg && this.files == files
    {
      this.folds, this.reg, this.files := folds, reg, files;
    }

    ghost predicate Numbered(number: nat)
      reads reg
    {
      forall l :: l in reg.leases ==> l.number != number
    }

    /** acquire, for an exclusive lease or a hold, neither of which ever waits. */
    method Take(key: Key, mode: Mode, why: string, number: nat) returns (r: Result<Lease, Error>)
      requires reg.Valid() && Numbered(number) && (mode.Exclusive? || mode.Hold?) && (mode.Exclusive? ==> why != "")
      modifies reg
      ensures reg.Valid() && reg.released == old(reg.released)
      ensures match InTheWay(old(reg.Now()), key, mode)
              case Some(reason) =>
                r == Err(Busy(reason)) && reg.Now() == old(reg.Now()) && reg.leases == old(reg.leases)
              case None =>
                var l := Lease(number, key, mode, None, 0, why);
                && r == Ok(l) && reg.Now() == Taken(old(reg.Now()), l) && reg.leases == old(reg.leases) + {l}
                && Freed(reg.Now(), l) == old(reg.Now())
    {
      hide Consistent, LetGoForGood, Taken, Freed, Decide;
      var l := Lease(number, key, mode, None, 0, why);
      ghost var w := World(reg.Now(), reg.leases, reg.released, false);
      MayTakeAtOnce(w, l);
      OneAttempt(w, l);
      var res, _ := reg.Acquire(l, []);
      match res {
        case Ok(lease) => return Ok(lease);
        case Err(reason) => return Err(Busy(reason));
      }
    }

    /** release. */
    method LetGo(l: Lease)
      requires reg.Valid() && l in reg.leases && (l.mode.Exclusive? || l.mode.Hold?)
      modifies reg
      ensures reg.Valid() && reg.Now() == Freed(old(reg.Now()), l)
      ensures reg.leases == old(reg.leases) - {l} && reg.released == old(reg.released)
    {
      hide Freed;
      HasNoSession(reg.Now(), reg.leases, l);
      hide Consistent, LetGoForGood;
      reg.Release(l);
    }

    method Create(name: string, size: int, number: nat) returns (r: Result<(), Error>)
      requires reg.Valid() && Numbered(number)
      modifies this`files, reg
      ensures reg.Valid() && reg.Now() == old(reg.Now())
      ensures reg.leases == old(reg.leases) && reg.released == old(reg.released)
      ensures (r, files) == Applied(Op.Create(name, size), folds, old(files), old(reg.Now()))
    {
      hide Freed, Taken, InTheWay, ValidName, RoundUp, KeyOf;
      if !ValidName(name) {
        return Err(BadName);
      }
      if size <= 0 || size > MAX_SIZE {
        return Err(BadSize);
      }
      var lease :- Take(KeyOf(folds, name), Exclusive, "being created", number);
      if KeyOf(folds, name) in files {
        r := Err(Exists);
      } else {
        files := files[KeyOf(folds, name) := Disk(name, Zeros(RoundUp(size)))];
        r := Ok(());
      }
      LetGo(lease);
    }

    method Resize(name: string, size: int, shrink: bool, number: nat) returns (r: Result<(), Error>)
      requires reg.Valid() && Numbered(number)
      modifies this`files, reg
      ensures reg.Valid() && reg.Now() == old(reg.Now())
      ensures reg.leases == old(reg.leases) && reg.released == old(reg.released)
      ensures (r, files) == Applied(Op.Resize(name, size, shrink), folds, old(files), old(reg.Now()))
    {
      hide Freed, Taken, InTheWay, ValidName, RoundUp, KeyOf, Resized;
      var key := KeyOf(folds, name);
      if !ValidName(name) {
        return Err(BadName);
      }
      if key !in files {
        return Err(NotFound);
      }
      if size <= 0 || size > MAX_SIZE {
        return Err(BadSize);
      }
      var whole := RoundUp(size);
      var lease :- Take(key, Exclusive, "being resized", number);
      if whole < |files[key].content| && !shrink {
        r := Err(Shrinks);
      } else {
        files := files[key := files[key].(content := Resized(files[key].content, whole))];
        r := Ok(());
      }
      LetGo(lease);
    }

    /** Rename, with exclusiveBoth: one lease where the two are one name on this file system. */
    method Rename(from: string, to: string, number: nat, other: nat) returns (r: Result<(), Error>)
      requires reg.Valid() && Numbered(number) && Numbered(other) && number != other
      modifies this`files, reg
      ensures reg.Valid() && reg.Now() == old(reg.Now())
      ensures reg.leases == old(reg.leases) && reg.released == old(reg.released)
      ensures (r, files) == Applied(Op.Rename(from, to), folds, old(files), old(reg.Now()))
    {
      hide Freed, Taken, InTheWay, ValidName, KeyOf;
      var a, b := KeyOf(folds, from), KeyOf(folds, to);
      if !ValidName(from) {
        return Err(BadName);
      }
      if a !in files {
        return Err(NotFound);
      }
      if !ValidName(to) {
        return Err(BadName);
      }
      if from == to {
        return Ok(());
      }
      var first :- Take(a, Exclusive, "being renamed", number);
      var second: Option<Lease> := None;
      if a != b {
        OtherNameIsAsBefore(old(reg.Now()), first, b);
        var taken := Take(b, Exclusive, "being renamed", other);
        if taken.Err? {
          LetGo(first);
          return Err(taken.error);
        }
        second := Some(taken.value);
      }
      if a != b && b in files {
        r := Err(Exists);
      } else {
        files := (files - {a})[b := files[a].(name := to)];
        r := Ok(());
      }
      if second.Some? {
        LetGo(second.value);
      }
      LetGo(first);
    }

    /** The start of Clone, which hands both leases to the goroutine that copies, or leaves the registry as it was. */
    method Clone(source: string, target: string, number: nat, other: nat) returns (r: Result<(Lease, Lease), Error>)
      requires reg.Valid() && Numbered(number) && Numbered(other) && number != other
      modifies reg
      ensures reg.Valid() && reg.released == old(reg.released)
      ensures match Cloning(source, target, folds, files, old(reg.Now()))
              case Err(e) => r == Err(e) && reg.Now() == old(reg.Now()) && reg.leases == old(reg.leases)
              case Ok(_) =>
                var hold := Lease(number, KeyOf(folds, source), Hold, None, 0, "");
                var taken := Lease(other, KeyOf(folds, target), Exclusive, None, 0, "being cloned from " + source);
                && r == Ok((hold, taken)) && reg.leases == old(reg.leases) + {hold, taken}
                && reg.Now() == Taken(Taken(old(reg.Now()), hold), taken)
    {
      hide Freed, Taken, InTheWay, ValidName, KeyOf;
      var a, b := KeyOf(folds, source), KeyOf(folds, target);
      if !ValidName(source) {
        return Err(BadName);
      }
      if a !in files {
        return Err(NotFound);
      }
      if !ValidName(target) {
        return Err(BadName);
      }
      if a == b {
        return Err(Exists);
      }
      var hold :- Take(a, Hold, "", number);
      OtherNameIsAsBefore(old(reg.Now()), hold, b);
      var taken := Take(b, Exclusive, "being cloned from " + source, other);
      if taken.Err? {
        LetGo(hold);
        return Err(taken.error);
      }
      if b in files {
        FreedUnderAnother(old(reg.Now()), hold, taken.value);
        AloneTakenBack(old(reg.Now()), old(reg.leases), taken.value);
        LetGo(hold);
        LetGo(taken.value);
        return Err(Exists);
      }
      return Ok((hold, taken.value));
    }

    method Delete(name: string, number: nat) returns (r: Result<(), Error>)
      requires reg.Valid() && Numbered(number)
      modifies this`files, reg
      ensures reg.Valid() && reg.Now() == old(reg.Now())
      ensures reg.leases == old(reg.leases) && reg.released == old(reg.released)
      ensures (r, files) == Applied(Op.Delete(name), folds, old(files), old(reg.Now()))
    {
      hide Freed, Taken, InTheWay, ValidName, KeyOf;
      var key := KeyOf(folds, name);
      if !ValidName(name) {
        return Err(BadName);
      }
      if key !in files {
        return Err(NotFound);
      }
      var lease :- Take(key, Exclusive, "being deleted", number);
      files := files - {key};
      LetGo(lease);
      return Ok(());
    }
  }

  lemma MayTakeAtOnce(w: World, l: Lease)
    requires Consistent(w.tables, w.leases) && LetGoForGood(w)
    requires (l.mode.Exclusive? || l.mode.Hold?) && l.session.None? && (l.mode.Exclusive? ==> l.why != "")
    requires forall m :: m in w.leases ==> m.number != l.number
    ensures MayAttempt(w, l) && Plausible(w, [], l) && Fresh(w.leases, l) && l !in w.leases
  {
  }

  lemma OneAttempt(w: World, l: Lease)
    requires MayAttempt(w, l) && (l.mode.Exclusive? || l.mode.Hold?) && l.session.None?
    ensures match InTheWay(w.tables, l.key, l.mode)
            case Some(reason) => Attempts(w, [], l) == (Err(reason), [], w)
            case None =>
              && Attempts(w, [], l) == (Ok(l), [], w.(tables := Taken(w.tables, l), leases := w.leases + {l}))
              && Freed(Taken(w.tables, l), l) == w.tables
  {
    TakenOverFromWriter(w.tables.At(l.key), l.mode, None);
    if InTheWay(w.tables, l.key, l.mode).None? {
      ReleaseUndoesGrant(w.tables, w.leases, l);
    }
    hide Decide, Taken, Freed, Consistent;
  }

  lemma HasNoSession(t: Tables, leases: set<Lease>, l: Lease)
    requires Consistent(t, leases) && l in leases && (l.mode.Exclusive? || l.mode.Hold?)
    ensures l.session.None?
  {
    assert l.Proper();
  }

  lemma OtherNameIsAsBefore(t: Tables, l: Lease, key: Key)
    requires key != l.key
    ensures InTheWay(Taken(t, l), key, Exclusive) == InTheWay(t, key, Exclusive)
  {
  }

  lemma AloneTakenBack(t: Tables, leases: set<Lease>, l: Lease)
    requires Consistent(t, leases) && l.Proper() && Fresh(leases, l)
    requires !l.mode.Writer? && InTheWay(t, l.key, l.mode).None? && l.session.None?
    ensures Freed(Taken(t, l), l) == t
  {
    TakenOverFromWriter(t.At(l.key), l.mode, None);
    ReleaseUndoesGrant(t, leases, l);
  }

  /** A lease may be let go of under another that was taken on another image since. */
  lemma FreedUnderAnother(t: Tables, l: Lease, other: Lease)
    requires l.key != other.key && l.session.None? && other.session.None?
    requires Freed(Taken(t, l), l) == t
    ensures Freed(Taken(Taken(t, l), other), l) == Taken(t, other)
  {
    hide Occupied, Vacated;
    var both := Taken(Taken(t, l), other);
    assert both.entries[l.key] == Occupied(t.At(l.key), l) && both.At(other.key) == Occupied(t.At(other.key), other);
    assert Freed(Taken(t, l), l).At(l.key) == t.At(l.key);
  }

  // What the operations keep, and what undoes them

  /** An image may be taken exclusively exactly if nobody has a lease on it. */
  lemma FreeExactlyIfUnused(t: Tables, leases: set<Lease>, key: Key)
    requires Consistent(t, leases)
    ensures InTheWay(t, key, Exclusive).None? <==> forall l :: l in leases ==> l.key != key
  {
    hide Consistent;
    GrantedExactlyIfCompatible(t, leases, key, Exclusive, None);
    TakenOverFromWriter(t.At(key), Exclusive, None);
    hide Decide;
  }

  /** The keys of the names that an operation is about. */
  function Named(op: Op, folds: bool): set<Key> {
    match op
    case Create(name, _) => {KeyOf(folds, name)}
    case Resize(name, _, _) => {KeyOf(folds, name)}
    case Rename(from, to) => {KeyOf(folds, from), KeyOf(folds, to)}
    case Delete(name) => {KeyOf(folds, name)}
  }

  /** An image that anybody uses is left alone by every operation, and so is every image the operation does not name. */
  lemma UsedImagesStay(op: Op, folds: bool, files: Files, t: Tables, leases: set<Lease>, key: Key)
    requires Consistent(t, leases)
    requires (exists l :: l in leases && l.key == key) || key !in Named(op, folds)
    ensures var files' := Applied(op, folds, files, t).1;
            (key in files' <==> key in files) && (key in files ==> files'[key] == files[key])
  {
    hide Consistent, ValidName, RoundUp, Resized, KeyOf;
    FreeExactlyIfUnused(t, leases, key);
    hide InTheWay;
  }

  /** Every image is under the key of its name. */
  ghost predicate NamesFit(files: Files, folds: bool) {
    forall key :: key in files ==> KeyOf(folds, files[key].name) == key
  }

  lemma NamesStayFit(op: Op, folds: bool, files: Files, t: Tables)
    requires NamesFit(files, folds)
    ensures NamesFit(Applied(op, folds, files, t).1, folds)
  {
    hide ValidName, RoundUp, Resized, KeyOf, InTheWay;
  }

  /** Renaming an image back restores the folder. */
  lemma RenamedBack(from: string, to: string, folds: bool, files: Files, t: Tables)
    requires NamesFit(files, folds) && Applied(Rename(from, to), folds, files, t).0.Ok?
    requires KeyOf(folds, from) in files && files[KeyOf(folds, from)].name == from
    ensures Applied(Rename(to, from), folds, Applied(Rename(from, to), folds, files, t).1, t) == (Ok(()), files)
  {
    hide ValidName, KeyOf, InTheWay;
    var a, b := KeyOf(folds, from), KeyOf(folds, to);
    if from != to {
      var moved := (files - {a})[b := files[a].(name := to)];
      assert (moved - {b})[a := moved[b].(name := from)] == files;
    }
  }

  /** Deleting what was made restores the folder. */
  lemma CreatedAndDeleted(name: string, size: int, folds: bool, files: Files, t: Tables)
    requires Applied(Create(name, size), folds, files, t).0.Ok?
    ensures Applied(Delete(name), folds, Applied(Create(name, size), folds, files, t).1, t) == (Ok(()), files)
  {
    hide ValidName, KeyOf, InTheWay, RoundUp;
    var key := KeyOf(folds, name);
    assert files[key := Disk(name, Zeros(RoundUp(size)))] - {key} == files;
  }

  /** Growing an image of whole sectors and shrinking it again loses nothing, and growing never needs shrink. */
  lemma GrownAndShrunk(name: string, size: int, folds: bool, files: Files, t: Tables, any: bool)
    requires KeyOf(folds, name) in files && ValidName(name) && InTheWay(t, KeyOf(folds, name), Exclusive).None?
    requires var n := |files[KeyOf(folds, name)].content|; 0 < n <= size <= MAX_SIZE && n % 512 == 0
    ensures var grown := Applied(Resize(name, size, any), folds, files, t);
            && grown.0.Ok?
            && Applied(Resize(name, |files[KeyOf(folds, name)].content|, true), folds, grown.1, t) == (Ok(()), files)
  {
    hide ValidName, KeyOf, InTheWay;
    var key := KeyOf(folds, name);
    var n, content := |files[key].content|, files[key].content;
    WholeSectors(n);
    var grown := files[key := files[key].(content := Resized(content, RoundUp(size)))];
    assert Resized(Resized(content, RoundUp(size)), n) == content;
    assert Applied(Resize(name, size, any), folds, files, t) == (Ok(()), grown);
    hide Resized;
    assert grown[key := files[key]] == files;
  }

  lemma WholeSectors(n: nat)
    requires n % 512 == 0
    ensures RoundUp(n) == n
  {
  }

  // When the operations succeed, and what they make

  predicate Unused(leases: set<Lease>, key: Key) {
    forall l :: l in leases ==> l.key != key
  }

  /** The content of an image that was cut off or lengthened with zeros. */
  predicate IsResized(before: bytes, after: bytes) {
    forall i :: 0 <= i < |after| ==> after[i] == if i < |before| then before[i] else 0
  }

  lemma CreatedExactlyIf(name: string, size: int, folds: bool, files: Files, t: Tables, leases: set<Lease>)
    requires Consistent(t, leases)
    ensures var (r, after) := Applied(Create(name, size), folds, files, t);
            var key := KeyOf(folds, name);
            && (r.Ok? <==>
                  && ValidName(name) && 0 < size <= 1_125_899_906_842_624
                  && key !in files && Unused(leases, key))
            && (if r.Ok? then key in after && after - {key} == files && after[key].name == name else after == files)
            && (r.Ok? ==> |after[key].content| == RoundUp(size) && IsResized([], after[key].content))
  {
    FreeIfUnused(t, leases, KeyOf(folds, name));
    hide Consistent, InTheWay, ValidName, KeyOf, Unused;
  }

  /** An image is only made smaller where that is asked for. */
  lemma ResizedExactlyIf(name: string, size: int, shrink: bool, folds: bool, files: Files, t: Tables,
                         leases: set<Lease>)
    requires Consistent(t, leases)
    ensures var (r, after) := Applied(Resize(name, size, shrink), folds, files, t);
            var key := KeyOf(folds, name);
            var may := ValidName(name) && key in files && 0 < size <= 1_125_899_906_842_624 && Unused(leases, key);
            && (r.Ok? <==> may && (shrink || |files[key].content| <= RoundUp(size)))
            && (r == Err(Shrinks) <==> may && !shrink && RoundUp(size) < |files[key].content|)
            && after.Keys == files.Keys && (r.Err? ==> after == files)
            && (r.Ok? ==>
                  && after[key].name == files[key].name && |after[key].content| == RoundUp(size)
                  && IsResized(files[key].content, after[key].content)
                  && forall other :: other in files && other != key ==> after[other] == files[other])
  {
    FreeIfUnused(t, leases, KeyOf(folds, name));
    hide Consistent, InTheWay, ValidName, KeyOf, Unused, Resized;
  }

  lemma MovedOnly(files: Files, a: Key, b: Key, moved: Disk)
    requires a in files && (a == b || b !in files)
    ensures var after := (files - {a})[b := moved];
            after[b] == moved && after - {b} == files - {a} && (a != b ==> a !in after)
  {
  }

  lemma RenamedExactlyIf(from: string, to: string, folds: bool, files: Files, t: Tables, leases: set<Lease>)
    requires Consistent(t, leases)
    ensures var (r, after) := Applied(Rename(from, to), folds, files, t);
            var a, b := KeyOf(folds, from), KeyOf(folds, to);
            && (r.Ok? <==>
                  && ValidName(from) && ValidName(to) && a in files
                  && (from == to || (Unused(leases, a) && Unused(leases, b) && (a == b || b !in files))))
            && (r.Err? || from == to ==> after == files)
  {
    hide Applied, Consistent, InTheWay, ValidName, KeyOf, Unused;
    RenamedWhereFree(from, to, folds, files, t);
    FreeIfUnused(t, leases, KeyOf(folds, from));
    FreeIfUnused(t, leases, KeyOf(folds, to));
  }

  lemma FreeIfUnused(t: Tables, leases: set<Lease>, key: Key)
    requires Consistent(t, leases)
    ensures InTheWay(t, key, Exclusive).None? <==> Unused(leases, key)
  {
    hide Consistent, InTheWay;
    FreeExactlyIfUnused(t, leases, key);
  }

  lemma RenamedWhereFree(from: string, to: string, folds: bool, files: Files, t: Tables)
    ensures var (r, after) := Applied(Rename(from, to), folds, files, t);
            var a, b := KeyOf(folds, from), KeyOf(folds, to);
            && (r.Ok? <==>
                  && ValidName(from) && ValidName(to) && a in files
                  && (from == to || (InTheWay(t, a, Exclusive).None? && InTheWay(t, b, Exclusive).None?
                                     && (a == b || b !in files))))
            && (r.Err? || from == to ==> after == files)
  {
    hide InTheWay, ValidName, KeyOf;
  }

  /** A renamed image has its new name and what it held, and the others are where they were. */
  lemma RenamedKeepsContent(from: string, to: string, folds: bool, files: Files, t: Tables)
    requires Applied(Rename(from, to), folds, files, t).0.Ok? && from != to && KeyOf(folds, from) in files
    ensures var after := Applied(Rename(from, to), folds, files, t).1;
            var a, b := KeyOf(folds, from), KeyOf(folds, to);
            && b in after && after[b] == Disk(to, files[a].content)
            && after - {b} == files - {a} && (a != b ==> a !in after)
  {
    hide InTheWay, ValidName, KeyOf;
    var a, b := KeyOf(folds, from), KeyOf(folds, to);
    MovedOnly(files, a, b, Disk(to, files[a].content));
  }

  lemma DeletedExactlyIf(name: string, folds: bool, files: Files, t: Tables, leases: set<Lease>)
    requires Consistent(t, leases)
    ensures var (r, after) := Applied(Delete(name), folds, files, t);
            var key := KeyOf(folds, name);
            && (r.Ok? <==> ValidName(name) && key in files && Unused(leases, key))
            && after == if r.Ok? then files - {key} else files
  {
    FreeIfUnused(t, leases, KeyOf(folds, name));
    hide Consistent, InTheWay, ValidName, KeyOf, Unused;
  }

  /** A clone starts exactly if nobody writes or changes the source, and nobody has the target, which is free. */
  lemma CloneStartsExactlyIf(source: string, target: string, folds: bool, files: Files, t: Tables, leases: set<Lease>)
    requires Consistent(t, leases)
    ensures var a, b := KeyOf(folds, source), KeyOf(folds, target);
            Cloning(source, target, folds, files, t).Ok? <==>
              && ValidName(source) && ValidName(target) && a in files && b !in files && a != b && Unused(leases, b)
              && forall l :: l in leases && l.key == a ==> l.mode.Reader? || l.mode.Hold?
  {
    var a := KeyOf(folds, source);
    FreeIfUnused(t, leases, KeyOf(folds, target));
    HoldIsGivenExactlyIf(t, leases, a);
    hide Consistent, InTheWay, ValidName, KeyOf, Unused;
  }

  lemma HoldIsGivenExactlyIf(t: Tables, leases: set<Lease>, key: Key)
    requires Consistent(t, leases)
    ensures InTheWay(t, key, Hold).None?
       <==> forall l :: l in leases && l.key == key ==> l.mode.Reader? || l.mode.Hold?
  {
    hide Consistent;
    GrantedExactlyIfCompatible(t, leases, key, Hold, None);
    TakenOverFromWriter(t.At(key), Hold, None);
    hide Decide;
  }

  // Names

  /** The same letter, but for its case. */
  predicate SameLetter(c: char, d: char) {
    c == d || ('A' <= c <= 'Z' && d as int == c as int + 32) || ('A' <= d <= 'Z' && c as int == d as int + 32)
  }

  /** Two names are of one image exactly if they are the same, but for their case where the file system ignores it. */
  lemma {:induction false} SameKeyExactly(folds: bool, a: string, b: string)
    ensures KeyOf(folds, a) == KeyOf(folds, b)
       <==> if folds then |a| == |b| && forall i :: 0 <= i < |a| ==> SameLetter(a[i], b[i]) else a == b
    decreases |a|
  {
    if folds && a != "" && b != "" {
      SameKeyExactly(folds, a[1..], b[1..]);
      assert Lower(a)[1..] == Lower(a[1..]) && Lower(b)[1..] == Lower(b[1..]);
      assert forall i :: 1 <= i < |a| ==> a[i] == a[1..][i - 1];
      assert forall i :: 1 <= i < |b| ==> b[i] == b[1..][i - 1];
    }
  }

  /** No valid name leads out of the folder, or to what is staged, which starts with a dot. */
  lemma ValidNamesStayInside(name: string, c: char)
    requires ValidName(name)
    ensures 0 < |name| <= 200 && name[0] != '.' && name[0] != '-' && name[|name| - 1] != '.'
    ensures c in name ==> 'A' <= c <= 'Z' || 'a' <= c <= 'z' || '0' <= c <= '9' || c == '.' || c == '_' || c == '-'
  {
  }

  lemma DeviceStems()
    ensures Stem(Lower("CON")) == "con" && Stem(Lower("com10")) == "com10"
  {
    assert Lower("CON") == "con" && Lower("com10") == "com10";
  }

  lemma PortStem()
    ensures Stem(Lower("Com1.a")) == "com1"
  {
    assert Lower("Com1.a") == "com1.a";
  }

  /** What Windows takes for a device is refused, in any case and with any extension. */
  lemma DevicesAreRefused()
    ensures !ValidName("CON") && !ValidName("Com1.a") && ValidName("com10")
  {
    DeviceStems();
    PortStem();
    hide Lower, Stem;
    assert "com1"[..3] == "com";
  }
}
