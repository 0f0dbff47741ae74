/**
 What the registry's garbage collector marks: a manifest, what it refers to,
 and so on through indexes, no deeper than eight steps down. The method changes
 the marks as the source does, Mark is what one call comes to, and the lemmas
 compare the marks with everything that can be reached.
 */
module RegistryMark {
  import opened Wrappers

  datatype Algorithm = Sha256 | Sha384 | Sha512 | Unknown

  datatype Digest = Digest(algorithm: Algorithm, encoded: string)

  /** parseBlobDigest: the algorithms the registry accepts. */
  predicate Accepted(d: Digest) {
    d.algorithm.Sha256? || d.algorithm.Sha512?
  }

  /** A manifest or an index, as far as it can be read. */
  datatype Doc = Doc(config: Option<Digest>, layers: seq<Digest>, manifests: seq<Digest>) {
    /** What it refers to by itself. */
    function Own(): set<Digest> {
      (if config.Some? then {config.value} else {}) + set d | d in layers
    }
  }

  /** The blobs that are manifests. */
  type Docs = map<Digest, Doc>

  /** markManifest, which goes no deeper than eight steps. */
  function Mark(docs: Docs, d: Digest, marked: set<Digest>, depth: nat): (m: set<Digest>)
    ensures marked <= m && (depth <= 8 ==> d in m)
    decreases 10 - depth, 1, 0
  {
    if (d in marked && depth > 0) || depth > 8 then marked
    else if d !in docs then marked + {d}
    else MarkEach(docs, docs[d].manifests, marked + {d} + docs[d].Own(), depth)
  }

  /** The entries of an index that are accepted, each marked in turn. */
  function MarkEach(docs: Docs, entries: seq<Digest>, marked: set<Digest>, depth: nat): (m: set<Digest>)
    requires depth <= 8
    ensures marked <= m
    decreases 10 - depth, 0, |entries|
  {
    if entries == [] then marked
    else
      var first := if Accepted(entries[0]) then Mark(docs, entries[0], marked, depth + 1) else marked;
      MarkEach(docs, entries[1..], first, depth)
  }

  /** The manifests of a repository, each marked in turn. */
  function MarkRevisions(docs: Docs, revisions: seq<Digest>, marked: set<Digest>): (m: set<Digest>)
    ensures marked <= m && forall d :: d in revisions ==> d in m
    decreases |revisions|
  {
    if revisions == [] then marked
    else MarkRevisions(docs, revisions[1..], Mark(docs, revisions[0], marked, 0))
  }

  class Marks {
    var marked: set<Digest>

    constructor ()
      ensures marked == {}
    {
      marked := {};
    }

    method MarkManifest(docs: Docs, d: Digest, depth: nat)
      modifies this
      ensures marked == Mark(docs, d, old(marked), depth)
      decreases 10 - depth
    {
      if (d in marked && depth > 0) || depth > 8 {
        return;
      }
      ghost var before := marked;
      marked := marked + {d};
      if d !in docs {
        return;
      }
      var doc := docs[d];
      if doc.config.Some? {
        marked := marked + {doc.config.value};
      }
      marked := marked + set layer | layer in doc.layers;
      assert marked == before + {d} + doc.Own();
      ghost var start := marked;
      for i := 0 to |doc.manifests|
        invariant MarkEach(docs, doc.manifests, start, depth) == MarkEach(docs, doc.manifests[i..], marked, depth)
      {
        ghost var rest := doc.manifests[i..];
        assert rest[0] == doc.manifests[i] && rest[1..] == doc.manifests[i + 1..];
        if Accepted(doc.manifests[i]) {
          MarkManifest(docs, doc.manifests[i], depth + 1);
        }
      }
    }
  }

  // What can be reached

  predicate Child(docs: Docs, d: Digest, e: Digest) {
    d in docs && e in docs[d].manifests && Accepted(e)
  }

  /** A way from a revision down through indexes. */
  predicate Chain(docs: Docs, revisions: seq<Digest>, p: seq<Digest>) {
    p != [] && p[0] in revisions && forall i :: 0 < i < |p| ==> Child(docs, p[i - 1], p[i])
  }

  ghost predicate Below(docs: Docs, revisions: seq<Digest>, d: Digest) {
    exists p :: Chain(docs, revisions, p) && p[|p| - 1] == d
  }

  /** A manifest below a revision, or what one refers to. */
  ghost predicate Reached(docs: Docs, revisions: seq<Digest>, x: Digest) {
    Below(docs, revisions, x) || exists d :: Below(docs, revisions, d) && d in docs && x in docs[d].Own()
  }

  /** The end of a way down with at most so many manifests on it. */
  ghost predicate BelowBy(docs: Docs, revisions: seq<Digest>, d: Digest, n: nat) {
    exists p :: Chain(docs, revisions, p) && |p| <= n && p[|p| - 1] == d
  }

  /** A manifest at most eight steps down, or what one refers to. */
  ghost predicate InReach(docs: Docs, revisions: seq<Digest>, x: Digest) {
    BelowBy(docs, revisions, x, 9) || exists d :: BelowBy(docs, revisions, d, 9) && d in docs && x in docs[d].Own()
  }

  lemma RevisionIsBelow(docs: Docs, revisions: seq<Digest>, d: Digest)
    requires d in revisions
    ensures BelowBy(docs, revisions, d, 1) && Below(docs, revisions, d)
  {
    assert Chain(docs, revisions, [d]);
  }

  lemma ChildIsBelow(docs: Docs, revisions: seq<Digest>, d: Digest, e: Digest)
    requires Below(docs, revisions, d) && Child(docs, d, e)
    ensures Below(docs, revisions, e)
  {
    var p :| Chain(docs, revisions, p) && p[|p| - 1] == d;
    assert Chain(docs, revisions, p + [e]);
  }

  lemma ChildIsBelowBy(docs: Docs, revisions: seq<Digest>, d: Digest, e: Digest, n: nat)
    requires BelowBy(docs, revisions, d, n) && Child(docs, d, e)
    ensures BelowBy(docs, revisions, e, n + 1)
  {
    var p :| Chain(docs, revisions, p) && |p| <= n && p[|p| - 1] == d;
    assert Chain(docs, revisions, p + [e]) && |p + [e]| <= n + 1;
  }

  // Only what can be reached is marked

  lemma {:induction false} MarkReaches(docs: Docs, revisions: seq<Digest>, d: Digest, marked: set<Digest>, depth: nat)
    requires BelowBy(docs, revisions, d, depth + 1)
    ensures forall x :: x in Mark(docs, d, marked, depth) && x !in marked ==> InReach(docs, revisions, x)
    decreases 10 - depth, 1, 0
  {
    hide BelowBy, InReach;
    if !((d in marked && depth > 0) || depth > 8) {
      OwnIsInReach(docs, revisions, d, depth);
      if d in docs {
        MarkEachReaches(docs, revisions, d, docs[d].manifests, marked + {d} + docs[d].Own(), depth);
      }
    }
  }

  lemma OwnIsInReach(docs: Docs, revisions: seq<Digest>, d: Digest, depth: nat)
    requires BelowBy(docs, revisions, d, depth + 1) && depth <= 8
    ensures InReach(docs, revisions, d)
    ensures d in docs ==> forall x :: x in docs[d].Own() ==> InReach(docs, revisions, x)
  {
    var p :| Chain(docs, revisions, p) && |p| <= depth + 1 && p[|p| - 1] == d;
    assert BelowBy(docs, revisions, d, 9);
    hide BelowBy;
  }

  lemma {:induction false} MarkEachReaches(docs: Docs, revisions: seq<Digest>, d: Digest, entries: seq<Digest>,
                                           marked: set<Digest>, depth: nat)
    requires depth <= 8 && BelowBy(docs, revisions, d, depth + 1) && d in docs
    requires forall e :: e in entries ==> e in docs[d].manifests
    ensures forall x :: x in MarkEach(docs, entries, marked, depth) && x !in marked ==> InReach(docs, revisions, x)
    decreases 10 - depth, 0, |entries|
  {
    hide BelowBy, InReach;
    if entries != [] {
      if Accepted(entries[0]) {
        assert Child(docs, d, entries[0]);
        ChildIsBelowBy(docs, revisions, d, entries[0], depth + 1);
        MarkReaches(docs, revisions, entries[0], marked, depth + 1);
      }
      var first := if Accepted(entries[0]) then Mark(docs, entries[0], marked, depth + 1) else marked;
      MarkEachReaches(docs, revisions, d, entries[1..], first, depth);
    }
  }

  /** Nothing is marked for a repository but what its revisions reach in eight steps. */
  lemma {:induction false} MarksAreInReach(docs: Docs, all: seq<Digest>, revisions: seq<Digest>, marked: set<Digest>)
    requires forall d :: d in revisions ==> d in all
    ensures forall x :: x in MarkRevisions(docs, revisions, marked) && x !in marked ==> InReach(docs, all, x)
    decreases |revisions|
  {
    hide Below, BelowBy, InReach, Mark;
    if revisions != [] {
      RevisionIsBelow(docs, all, revisions[0]);
      MarkReaches(docs, all, revisions[0], marked, 0);
      MarksAreInReach(docs, all, revisions[1..], Mark(docs, revisions[0], marked, 0));
    }
  }

  /** What is within eight steps is reached. */
  lemma InReachIsReached(docs: Docs, revisions: seq<Digest>, x: Digest)
    requires InReach(docs, revisions, x)
    ensures Reached(docs, revisions, x)
  {
    assert forall d :: BelowBy(docs, revisions, d, 9) ==> Below(docs, revisions, d);
    hide Below, BelowBy;
  }

  /** So nothing is marked but what is reached, and what only longer ways lead to is not marked. */
  lemma MarksAreReached(docs: Docs, revisions: seq<Digest>, x: Digest)
    requires x in MarkRevisions(docs, revisions, {})
    ensures InReach(docs, revisions, x) && Reached(docs, revisions, x)
  {
    hide Below, BelowBy, InReach, Reached, MarkRevisions;
    MarksAreInReach(docs, revisions, revisions, {});
    InReachIsReached(docs, revisions, x);
  }

  /** What is not accepted is not followed: it is only marked where it is a config, a layer or a revision itself. */
  lemma OnlyAcceptedIsFollowed(docs: Docs, revisions: seq<Digest>, x: Digest)
    requires x in MarkRevisions(docs, revisions, {}) && (x.algorithm.Sha384? || x.algorithm.Unknown?)
    ensures x in revisions || exists d :: d in docs && (docs[d].config == Some(x) || x in docs[d].layers)
  {
    MarksAreReached(docs, revisions, x);
    hide MarkRevisions;
    if Below(docs, revisions, x) {
      var p :| Chain(docs, revisions, p) && p[|p| - 1] == x;
      ChainEnds(docs, revisions, p);
    }
  }

  lemma ChainEnds(docs: Docs, revisions: seq<Digest>, p: seq<Digest>)
    requires Chain(docs, revisions, p)
    ensures p[|p| - 1] in revisions || Accepted(p[|p| - 1])
  {
    assert |p| > 1 ==> Child(docs, p[|p| - 2], p[|p| - 1]);
  }

  // When all that can be reached is marked

  predicate NoRepeats(p: seq<Digest>) {
    forall i, j :: 0 <= i < j < |p| ==> p[i] != p[j]
  }

  /** Nothing below is named as a config or a layer as well, but manifests that the repository holds. */
  ghost predicate ChildrenAreManifests(docs: Docs, revisions: seq<Digest>) {
    forall d, x :: Below(docs, revisions, d) && d in docs && x in docs[d].Own() && Below(docs, revisions, x) ==>
                     x in revisions
  }

  /** What is eight steps down on a way without repeats, and no manifest that the repository holds, leads only back. */
  ghost predicate EndsInTime(docs: Docs, revisions: seq<Digest>) {
    forall p, e :: Chain(docs, revisions, p) && NoRepeats(p) && |p| == 9 && p[8] !in revisions ==>
                     Child(docs, p[8], e) ==> e in p
  }

  ghost predicate Whole(docs: Docs, x: Digest, m: set<Digest>) {
    x in docs ==> docs[x].Own() <= m && forall e :: Child(docs, x, e) ==> e in m
  }

  /** What is marked of it, among what the repository does not hold itself, is marked with all it refers to. */
  ghost predicate WholeSince(docs: Docs, revisions: seq<Digest>, marked: set<Digest>, m: set<Digest>) {
    forall x :: x in m && x !in marked && x !in revisions && Below(docs, revisions, x) ==> Whole(docs, x, m)
  }

  lemma WholeGrows(docs: Docs, revisions: seq<Digest>, marked: set<Digest>, m: set<Digest>, m': set<Digest>)
    requires WholeSince(docs, revisions, marked, m) && WholeSince(docs, revisions, m, m') && m <= m'
    ensures WholeSince(docs, revisions, marked, m')
  {
  }

  lemma {:induction false} MarkIsWhole(docs: Docs, revisions: seq<Digest>, p: seq<Digest>, marked: set<Digest>)
    requires ChildrenAreManifests(docs, revisions) && EndsInTime(docs, revisions)
    requires Chain(docs, revisions, p) && |p| <= 10 && NoRepeats(p[..|p| - 1])
    requires forall i :: 0 <= i < |p| - 1 ==> p[i] in marked
    ensures var m := Mark(docs, p[|p| - 1], marked, |p| - 1);
            WholeSince(docs, revisions, marked, m) && (|p| == 1 ==> Whole(docs, p[0], m))
    decreases 10 - |p|, 1, 0
  {
    hide Below, ChildrenAreManifests, EndsInTime, Whole, WholeSince;
    var d, depth := p[|p| - 1], |p| - 1;
    var m := Mark(docs, d, marked, depth);
    if (d in marked && depth > 0) || depth > 8 {
      NothingNew(docs, revisions, marked);
    } else if d !in docs {
      NoDocIsWhole(docs, revisions, d, marked, m);
    } else {
      var first := marked + {d} + docs[d].Own();
      assert p[..depth] + [d] == p;
      MarkEachIsWhole(docs, revisions, p, docs[d].manifests, first);
      ChainIsBelow(docs, revisions, p);
      DocIsWhole(docs, revisions, p, marked, m);
    }
  }

  lemma NothingNew(docs: Docs, revisions: seq<Digest>, m: set<Digest>)
    ensures WholeSince(docs, revisions, m, m)
  {
  }

  lemma NoDocIsWhole(docs: Docs, revisions: seq<Digest>, d: Digest, marked: set<Digest>, m: set<Digest>)
    requires d !in docs && m == marked + {d}
    ensures WholeSince(docs, revisions, marked, m) && Whole(docs, d, m)
  {
  }

  lemma ChainIsBelow(docs: Docs, revisions: seq<Digest>, p: seq<Digest>)
    requires Chain(docs, revisions, p)
    ensures Below(docs, revisions, p[|p| - 1])
  {
  }

  /** The manifest itself, once its own and its children are marked. */
  lemma DocIsWhole(docs: Docs, revisions: seq<Digest>, p: seq<Digest>, marked: set<Digest>, m: set<Digest>)
    requires Chain(docs, revisions, p) && |p| <= 9 && NoRepeats(p) && p[|p| - 1] in docs
    requires ChildrenAreManifests(docs, revisions) && EndsInTime(docs, revisions) && Below(docs, revisions, p[|p| - 1])
    requires forall i :: 0 <= i < |p| - 1 ==> p[i] in marked
    requires var d := p[|p| - 1];
             && marked + {d} + docs[d].Own() <= m
             && WholeSince(docs, revisions, marked + {d} + docs[d].Own(), m)
             && (|p| <= 8 ==> forall e :: Child(docs, d, e) ==> e in m)
    ensures WholeSince(docs, revisions, marked, m) && (|p| == 1 ==> Whole(docs, p[0], m))
  {
  }

  lemma ChainGrows(docs: Docs, revisions: seq<Digest>, p: seq<Digest>, e: Digest)
    requires Chain(docs, revisions, p) && Child(docs, p[|p| - 1], e)
    ensures Chain(docs, revisions, p + [e]) && (p + [e])[..|p|] == p
  {
  }

  lemma {:induction false} MarkEachIsWhole(docs: Docs, revisions: seq<Digest>, p: seq<Digest>, entries: seq<Digest>,
                                           marked: set<Digest>)
    requires ChildrenAreManifests(docs, revisions) && EndsInTime(docs, revisions)
    requires Chain(docs, revisions, p) && |p| <= 9 && NoRepeats(p) && p[|p| - 1] in docs
    requires forall e :: e in entries ==> e in docs[p[|p| - 1]].manifests
    requires forall i :: 0 <= i < |p| ==> p[i] in marked
    ensures var m := MarkEach(docs, entries, marked, |p| - 1);
            && WholeSince(docs, revisions, marked, m)
            && (|p| <= 8 ==> forall e :: e in entries && Accepted(e) ==> e in m)
    decreases 10 - |p|, 0, |entries|
  {
    hide Below, ChildrenAreManifests, EndsInTime, Whole, WholeSince, Mark;
    if entries == [] {
      NothingNew(docs, revisions, marked);
    } else {
      var e, rest := entries[0], entries[1..];
      var first := if Accepted(e) then Mark(docs, e, marked, |p|) else marked;
      if Accepted(e) {
        assert e in entries;
        ChainGrows(docs, revisions, p, e);
        MarkIsWhole(docs, revisions, p + [e], marked);
      } else {
        NothingNew(docs, revisions, marked);
      }
      assert forall x :: x in rest ==> x in entries;
      MarkEachIsWhole(docs, revisions, p, rest, first);
      WholeGrows(docs, revisions, marked, first, MarkEach(docs, rest, first, |p| - 1));
    }
  }

  lemma {:induction false} RevisionsAreWhole(docs: Docs, all: seq<Digest>, revisions: seq<Digest>, marked: set<Digest>)
    requires ChildrenAreManifests(docs, all) && EndsInTime(docs, all) && forall d :: d in revisions ==> d in all
    ensures var m := MarkRevisions(docs, revisions, marked);
            WholeSince(docs, all, marked, m) && forall d :: d in revisions ==> Whole(docs, d, m)
    decreases |revisions|
  {
    hide Below, ChildrenAreManifests, EndsInTime, Whole, WholeSince, Mark;
    if revisions == [] {
      NothingNew(docs, all, marked);
    } else {
      var d, rest := revisions[0], revisions[1..];
      var first := Mark(docs, d, marked, 0);
      var m := MarkRevisions(docs, rest, first);
      assert Chain(docs, all, [d]);
      MarkIsWhole(docs, all, [d], marked);
      RevisionsAreWhole(docs, all, rest, first);
      WholeGrows(docs, all, marked, first, m);
      StaysWhole(docs, d, first, m);
    }
  }

  lemma StaysWhole(docs: Docs, x: Digest, m: set<Digest>, m': set<Digest>)
    requires Whole(docs, x, m) && m <= m'
    ensures Whole(docs, x, m')
  {
  }

  /** Where all that is marked below is marked with all it refers to, all that is below is marked. */
  lemma {:induction false} ChainIsMarked(docs: Docs, revisions: seq<Digest>, p: seq<Digest>, m: set<Digest>)
    requires Chain(docs, revisions, p) && forall d :: d in revisions ==> d in m
    requires forall x :: x in m && Below(docs, revisions, x) ==> Whole(docs, x, m)
    ensures p[|p| - 1] in m
    decreases |p|
  {
    if |p| > 1 {
      var q := p[..|p| - 1];
      ChainIsMarked(docs, revisions, q, m);
      ChainIsBelow(docs, revisions, q);
      assert Child(docs, p[|p| - 2], p[|p| - 1]);
    }
  }

  /**
   What is marked for a repository is exactly what its manifests reach, unless
   a child that the repository does not hold is named as a config or a layer as
   well, or has children itself where it is first met eight steps down.
   */
  lemma MarksExactlyReached(docs: Docs, revisions: seq<Digest>, x: Digest)
    requires ChildrenAreManifests(docs, revisions) && EndsInTime(docs, revisions)
    ensures x in MarkRevisions(docs, revisions, {}) <==> Reached(docs, revisions, x)
  {
    hide ChildrenAreManifests, EndsInTime, MarkRevisions;
    var m := MarkRevisions(docs, revisions, {});
    if x in m {
      MarksAreReached(docs, revisions, x);
    }
    RevisionsAreWhole(docs, revisions, revisions, {});
    forall p | Chain(docs, revisions, p)
      ensures p[|p| - 1] in m
    {
      ChainIsMarked(docs, revisions, p, m);
    }
  }

  /** A repository that holds every child of its manifests loses none of what they reach. */
  lemma HeldChildrenAreMarked(docs: Docs, revisions: seq<Digest>, x: Digest)
    requires forall d, e :: d in revisions && Child(docs, d, e) ==> e in revisions
    ensures x in MarkRevisions(docs, revisions, {}) <==> Reached(docs, revisions, x)
  {
    hide Reached, MarkRevisions;
    forall p | Chain(docs, revisions, p)
      ensures p[|p| - 1] in revisions
    {
      ChainIsHeld(docs, revisions, p);
    }
    MarksExactlyReached(docs, revisions, x);
  }

  lemma {:induction false} ChainIsHeld(docs: Docs, revisions: seq<Digest>, p: seq<Digest>)
    requires Chain(docs, revisions, p)
    requires forall d, e :: d in revisions && Child(docs, d, e) ==> e in revisions
    ensures p[|p| - 1] in revisions
    decreases |p|
  {
    if |p| > 1 {
      ChainIsHeld(docs, revisions, p[..|p| - 1]);
      assert Child(docs, p[|p| - 2], p[|p| - 1]);
    }
  }

  /** So does one whose indexes are at most eight steps deep, where no child it does not hold is a config or a layer. */
  lemma ShallowIndexesAreMarked(docs: Docs, revisions: seq<Digest>, x: Digest)
    requires ChildrenAreManifests(docs, revisions)
    requires forall p :: Chain(docs, revisions, p) && NoRepeats(p) ==> |p| <= 9
    ensures x in MarkRevisions(docs, revisions, {}) <==> Reached(docs, revisions, x)
  {
    hide Reached, MarkRevisions, ChildrenAreManifests;
    assert EndsInTime(docs, revisions) by {
      forall p, e | Chain(docs, revisions, p) && NoRepeats(p) && |p| == 9 && p[8] !in revisions && Child(docs, p[8], e)
        ensures e in p
      {
        ChainGrows(docs, revisions, p, e);
        assert |p + [e]| == 10;
      }
    }
    MarksExactlyReached(docs, revisions, x);
  }

  /** Of each manifest of a repository, its config, its layers and its children are marked whatever else there is. */
  lemma {:induction false} DirectlyReferredIsMarked(docs: Docs, revisions: seq<Digest>, marked: set<Digest>, d: Digest)
    requires d in revisions
    ensures var m := MarkRevisions(docs, revisions, marked);
            d in m && Whole(docs, d, m)
    decreases |revisions|
  {
    hide Mark;
    var first := Mark(docs, revisions[0], marked, 0);
    if revisions[0] == d {
      RevisionIsWhole(docs, d, marked);
      StaysWhole(docs, d, first, MarkRevisions(docs, revisions[1..], first));
    } else {
      DirectlyReferredIsMarked(docs, revisions[1..], first, d);
    }
  }

  lemma RevisionIsWhole(docs: Docs, d: Digest, marked: set<Digest>)
    ensures Whole(docs, d, Mark(docs, d, marked, 0))
  {
    if d in docs {
      EntriesAreMarked(docs, docs[d].manifests, marked + {d} + docs[d].Own(), 0);
    }
  }

  lemma {:induction false} EntriesAreMarked(docs: Docs, entries: seq<Digest>, marked: set<Digest>, depth: nat)
    requires depth <= 7
    ensures forall e :: e in entries && Accepted(e) ==> e in MarkEach(docs, entries, marked, depth)
    decreases |entries|
  {
    if entries != [] {
      var first := if Accepted(entries[0]) then Mark(docs, entries[0], marked, depth + 1) else marked;
      EntriesAreMarked(docs, entries[1..], first, depth);
    }
  }

  // Marks depend on what is marked only

  /** Two stores that say the same of what is in a set. */
  ghost predicate Agree(docs: Docs, docs': Docs, m: set<Digest>) {
    forall x :: x in m ==> (x in docs <==> x in docs') && (x in docs ==> docs[x] == docs'[x])
  }

  lemma {:induction false} MarkAgrees(docs: Docs, docs': Docs, d: Digest, marked: set<Digest>, depth: nat)
    requires Agree(docs, docs', Mark(docs, d, marked, depth))
    ensures Mark(docs', d, marked, depth) == Mark(docs, d, marked, depth)
    decreases 10 - depth, 1, 0
  {
    if !((d in marked && depth > 0) || depth > 8) && d in docs {
      MarkEachAgrees(docs, docs', docs[d].manifests, marked + {d} + docs[d].Own(), depth);
    }
  }

  lemma {:induction false} MarkEachAgrees(docs: Docs, docs': Docs, entries: seq<Digest>, marked: set<Digest>,
                                          depth: nat)
    requires depth <= 8 && Agree(docs, docs', MarkEach(docs, entries, marked, depth))
    ensures MarkEach(docs', entries, marked, depth) == MarkEach(docs, entries, marked, depth)
    decreases 10 - depth, 0, |entries|
  {
    if entries != [] {
      if Accepted(entries[0]) {
        MarkAgrees(docs, docs', entries[0], marked, depth + 1);
      }
      var first := if Accepted(entries[0]) then Mark(docs, entries[0], marked, depth + 1) else marked;
      MarkEachAgrees(docs, docs', entries[1..], first, depth);
    }
  }

  /** Changes outside of what is marked do not change what is marked. */
  lemma {:induction false} MarksAgree(docs: Docs, docs': Docs, revisions: seq<Digest>, marked: set<Digest>)
    requires Agree(docs, docs', MarkRevisions(docs, revisions, marked))
    ensures MarkRevisions(docs', revisions, marked) == MarkRevisions(docs, revisions, marked)
    decreases |revisions|
  {
    hide Mark;
    if revisions != [] {
      MarkAgrees(docs, docs', revisions[0], marked, 0);
      MarksAgree(docs, docs', revisions[1..], Mark(docs, revisions[0], marked, 0));
    }
  }

  // Where it is not

  /** An index whose child is named as its config too: the layer of the child is reached, and not marked. */
  lemma ChildNamedAsConfigIsNotFollowed()
    ensures var index, child, layer := Digest(Sha256, "1"), Digest(Sha256, "2"), Digest(Sha256, "3");
            var docs := map[index := Doc(Some(child), [], [child]), child := Doc(None, [layer], [])];
            Reached(docs, [index], layer) && layer !in MarkRevisions(docs, [index], {})
  {
    var index, child, layer := Digest(Sha256, "1"), Digest(Sha256, "2"), Digest(Sha256, "3");
    var docs := map[index := Doc(Some(child), [], [child]), child := Doc(None, [layer], [])];
    RevisionIsBelow(docs, [index], index);
    assert Child(docs, index, child);
    ChildIsBelow(docs, [index], index, child);
    assert layer in docs[child].Own();
    assert docs[index].manifests[1..] == [];
    assert Mark(docs, child, {index, child}, 1) == {index, child};
    assert docs[index].Own() == {child};
    assert Mark(docs, index, {}, 0) == MarkEach(docs, [child], {index, child}, 0) == {index, child};
    assert [index][1..] == [];
  }

  /** The manifests of a ladder, told apart by the lengths of their names. */
  function Rung(k: nat): (d: Digest)
    ensures Accepted(d) && |d.encoded| == k
  {
    Digest(Sha256, seq(k, _ => '0'))
  }

  /** Indexes one below the other, with a manifest nine steps down. */
  function Ladder(): (docs: Docs)
    ensures forall k :: 0 <= k <= 8 ==> Rung(k) in docs && docs[Rung(k)] == Doc(None, [], [Rung(k + 1)])
  {
    map d | d in {Rung(0), Rung(1), Rung(2), Rung(3), Rung(4), Rung(5), Rung(6), Rung(7), Rung(8)}
      :: Doc(None, [], [Rung(|d.encoded| + 1)])
  }

  lemma MarkOfOneChild(docs: Docs, d: Digest, e: Digest, marked: set<Digest>, depth: nat)
    requires d in docs && docs[d] == Doc(None, [], [e]) && Accepted(e) && d !in marked && depth <= 8
    ensures Mark(docs, d, marked, depth) == Mark(docs, e, marked + {d}, depth + 1)
  {
    var next := marked + {d};
    assert docs[d].Own() == {} && next + docs[d].Own() == next;
    assert [e][1..] == [];
    assert MarkEach(docs, [e], next, depth) == MarkEach(docs, [], Mark(docs, e, next, depth + 1), depth);
  }

  lemma {:induction false} LadderIsMarkedFrom(k: nat, marked: set<Digest>)
    requires k <= 9 && forall j :: k <= j <= 9 ==> Rung(j) !in marked
    ensures Rung(9) !in Mark(Ladder(), Rung(k), marked, k)
    decreases 9 - k
  {
    hide Ladder, Rung;
    if k <= 8 {
      forall j | k + 1 <= j <= 9
        ensures Rung(j) !in marked + {Rung(k)}
      {
      }
      LadderIsMarkedFrom(k + 1, marked + {Rung(k)});
      MarkOfOneChild(Ladder(), Rung(k), Rung(k + 1), marked, k);
    }
  }

  lemma {:induction false} RungIsBelow(k: nat)
    requires k <= 9
    ensures Below(Ladder(), [Rung(0)], Rung(k))
  {
    hide Ladder, Rung;
    if k == 0 {
      RevisionIsBelow(Ladder(), [Rung(0)], Rung(0));
    } else {
      RungIsBelow(k - 1);
      assert Child(Ladder(), Rung(k - 1), Rung(k));
      ChildIsBelow(Ladder(), [Rung(0)], Rung(k - 1), Rung(k));
    }
  }

  /** What is nine steps down is reached, and not marked. */
  lemma NineStepsDownIsNotMarked()
    ensures Reached(Ladder(), [Rung(0)], Rung(9)) && Rung(9) !in MarkRevisions(Ladder(), [Rung(0)], {})
  {
    RungIsBelow(9);
    LadderIsMarkedFrom(0, {});
    hide Ladder, Rung, Mark;
    assert [Rung(0)][1..] == [];
  }
}
