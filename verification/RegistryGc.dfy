/**
 The registry's garbage collection: links that no manifest of their repository
 refers to go, and then the blobs that nothing marked. Files are removed
 without fail here, as nothing else runs while the lock is held.
 */
module RegistryGc {
  import opened Wrappers
  import opened RegistryMark

  const MAX_MANIFEST_SIZE := 0x40_0000

  /** A blob: its size, when it was last changed, and the manifest it is, if it can be read as one. */
  datatype Blob = Blob(size: nat, changed: int, doc: Option<Doc>)

  /** A repository: its manifests, unless they cannot be listed, and its links with the time they were last touched. */
  datatype Repository = Repository(revisions: Option<seq<Digest>>, links: map<Digest, int>)

  datatype Store = Store(repositories: seq<Repository>, blobs: map<Digest, Blob>)

  /** A name that is no digest is not looked at. */
  predicate Validates(d: Digest) {
    !d.algorithm.Unknown?
  }

  /** What reading and parsing a blob gives. */
  function DocsOf(blobs: map<Digest, Blob>): Docs {
    map d | d in blobs && blobs[d].size <= MAX_MANIFEST_SIZE && blobs[d].doc.Some? :: blobs[d].doc.value
  }

  function Referenced(docs: Docs, revisions: seq<Digest>): set<Digest> {
    MarkRevisions(docs, revisions, {})
  }

  /** Whether a link stays. */
  predicate StaysLinked(referenced: set<Digest>, d: Digest, changed: int, cutoff: int) {
    !Validates(d) || d in referenced || changed > cutoff
  }

  function LinksKept(links: map<Digest, int>, referenced: set<Digest>, cutoff: int): map<Digest, int> {
    map d | d in links && StaysLinked(referenced, d, links[d], cutoff) :: links[d]
  }

  /** The links that are too young to go. */
  function Young(links: map<Digest, int>, cutoff: int): set<Digest> {
    set d | d in links && Validates(d) && links[d] > cutoff
  }

  /** What becomes of the links of the repositories, and what they mark, unless one cannot be read. */
  function Swept(repositories: seq<Repository>, docs: Docs, cutoff: int): (r: (seq<Repository>, Option<set<Digest>>))
    ensures |r.0| == |repositories|
  {
    if repositories == [] then ([], Some({}))
    else if repositories[0].revisions.None? then (repositories, None)
    else
      var first := repositories[0];
      var referenced := Referenced(docs, first.revisions.value);
      var (rest, marked) := Swept(repositories[1..], docs, cutoff);
      ([first.(links := LinksKept(first.links, referenced, cutoff))] + rest,
       if marked.Some? then Some(referenced + Young(first.links, cutoff) + marked.value) else None)
  }

  /** Whether a blob stays. */
  predicate StaysStored(marked: set<Digest>, d: Digest, b: Blob, cutoff: int) {
    !Validates(d) || d in marked || b.changed > cutoff
  }

  function BlobsKept(blobs: map<Digest, Blob>, marked: set<Digest>, cutoff: int): map<Digest, Blob> {
    map d | d in blobs && StaysStored(marked, d, blobs[d], cutoff) :: blobs[d]
  }

  /** What a collection makes of the store. Where a repository cannot be read no blob goes, though links may have. */
  function Collected(s: Store, cutoff: int): Store {
    var (repositories, marked) := Swept(s.repositories, DocsOf(s.blobs), cutoff);
    Store(repositories, if marked.Some? then BlobsKept(s.blobs, marked.value, cutoff) else s.blobs)
  }

  /** How many bytes some of the blobs take. */
  ghost function Bytes(blobs: map<Digest, Blob>, ds: set<Digest>): nat
    requires ds <= blobs.Keys
  {
    if ds == {} then 0
    else
      var d :| d in ds;
      blobs[d].size + Bytes(blobs, ds - {d})
  }

  lemma {:induction false} BytesWithout(blobs: map<Digest, Blob>, ds: set<Digest>, d: Digest)
    requires ds <= blobs.Keys && d in ds
    ensures Bytes(blobs, ds) == blobs[d].size + Bytes(blobs, ds - {d})
    decreases ds
  {
    var first :| first in ds && Bytes(blobs, ds) == blobs[first].size + Bytes(blobs, ds - {first});
    if first != d {
      BytesWithout(blobs, ds - {first}, d);
      BytesWithout(blobs, ds - {d}, first);
      assert ds - {first} - {d} == ds - {d} - {first};
    }
  }

  type Outcome = (seq<Repository>, Option<set<Digest>>)

  /** With some repositories done and this much marked, the rest decides the outcome. */
  ghost predicate Leads(outcome: Outcome, done: seq<Repository>, marked: set<Digest>,
                        rest: seq<Repository>, docs: Docs, cutoff: int)
  {
    var (kept, more) := Swept(rest, docs, cutoff);
    outcome == (done + kept, if more.Some? then Some(marked + more.value) else None)
  }

  lemma LeadsFirst(all: seq<Repository>, docs: Docs, cutoff: int)
    ensures Leads(Swept(all, docs, cutoff), [], {}, all, docs, cutoff)
  {
    hide Swept;
    var (kept, more) := Swept(all, docs, cutoff);
    assert [] + kept == kept;
    assert more.Some? ==> {} + more.value == more.value;
  }

  lemma LeadsOn(outcome: Outcome, done: seq<Repository>, marked: set<Digest>, rest: seq<Repository>,
                docs: Docs, cutoff: int, young: set<Digest>)
    requires Leads(outcome, done, marked, rest, docs, cutoff) && rest != [] && rest[0].revisions.Some?
    requires var referenced := Referenced(docs, rest[0].revisions.value);
             referenced + young == referenced + Young(rest[0].links, cutoff)
    ensures var referenced := Referenced(docs, rest[0].revisions.value);
            Leads(outcome, done + [rest[0].(links := LinksKept(rest[0].links, referenced, cutoff))],
                  marked + referenced + young, rest[1..], docs, cutoff)
  {
    hide LinksKept, Referenced, Young;
    var (kept, more) := Swept(rest[1..], docs, cutoff);
    var referenced := Referenced(docs, rest[0].revisions.value);
    var first := rest[0].(links := LinksKept(rest[0].links, referenced, cutoff));
    assert done + ([first] + kept) == (done + [first]) + kept;
    if more.Some? {
      assert marked + (referenced + Young(rest[0].links, cutoff) + more.value)
          == (marked + referenced + young) + more.value;
    }
  }

  lemma LeadsEnd(outcome: Outcome, done: seq<Repository>, marked: set<Digest>, rest: seq<Repository>,
                 docs: Docs, cutoff: int)
    requires Leads(outcome, done, marked, rest, docs, cutoff) && (rest == [] || rest[0].revisions.None?)
    ensures outcome == (done + rest, if rest == [] then Some(marked) else None)
  {
    assert marked + {} == marked;
  }

  class Collector {
    var repositories: seq<Repository>
    var blobs: map<Digest, Blob>

    function Now(): Store
      reads this
    {
      Store(repositories, blobs)
    }

    constructor (s: Store)
      ensures Now() == s
    {
      repositories, blobs := s.repositories, s.blobs;
    }

    /** The manifests of one repository and all they refer to. */
    method MarkAll(revisions: seq<Digest>) returns (referenced: set<Digest>)
      ensures referenced == Referenced(DocsOf(blobs), revisions)
    {
      var docs := DocsOf(blobs);
      var marks := new Marks();
      for i := 0 to |revisions|
        invariant MarkRevisions(docs, revisions, {}) == MarkRevisions(docs, revisions[i..], marks.marked)
      {
        assert revisions[i..][1..] == revisions[i + 1..];
        marks.MarkManifest(docs, revisions[i], 0);
      }
      referenced := marks.marked;
    }

    /** The links of one repository: what is referred to stays, what is young stays and is marked, and the rest goes. */
    method SweepLinks(k: nat, referenced: set<Digest>, cutoff: int) returns (young: set<Digest>)
      requires k < |repositories|
      modifies this`repositories
      ensures var first := old(repositories[k]);
              repositories == old(repositories)[k := first.(links := LinksKept(first.links, referenced, cutoff))]
      ensures referenced + young == referenced + Young(old(repositories[k].links), cutoff)
    {
      var all := repositories[k].links;
      var left := set d | d in all && Validates(d);
      young := {};
      while left != {}
        invariant left <= all.Keys && forall d :: d in left ==> Validates(d)
        invariant |repositories| == |old(repositories)|
        invariant repositories == old(repositories)[k := old(repositories[k]).(links := repositories[k].links)]
        invariant repositories[k].links
               == map d | d in all && (d in left || StaysLinked(referenced, d, all[d], cutoff)) :: all[d]
        invariant forall d :: d in young ==> d in Young(all, cutoff)
        invariant forall d :: d in Young(all, cutoff) && d !in left ==> d in young || d in referenced
        decreases left
      {
        var d :| d in left;
        left := left - {d};
        if d in referenced {
        } else if all[d] > cutoff {
          young := young + {d};
        } else {
          repositories := repositories[k := repositories[k].(links := repositories[k].links - {d})];
        }
      }
      assert repositories[k].links == LinksKept(all, referenced, cutoff);
    }

    /** collectRegistryGarbage, where the repositories can be listed. */
    method Collect(cutoff: int) returns (removed: nat, freed: nat)
      modifies this
      ensures Now() == Collected(old(Now()), cutoff)
      ensures blobs.Keys <= old(blobs).Keys && removed == |old(blobs).Keys| - |blobs.Keys|
      ensures Bytes(old(blobs), old(blobs).Keys) == Bytes(old(blobs), blobs.Keys) + freed
    {
      hide LinksKept, Referenced, Young, BlobsKept, StaysLinked, DocsOf, Swept, Leads;
      ghost var docs, all := DocsOf(blobs), repositories;
      ghost var outcome := Swept(all, docs, cutoff);
      LeadsFirst(all, docs, cutoff);
      var marked: set<Digest> := {};
      for k := 0 to |repositories|
        invariant |repositories| == |all| && blobs == old(blobs)
        invariant repositories[k..] == all[k..]
        invariant Leads(outcome, repositories[..k], marked, all[k..], docs, cutoff)
      {
        assert all[k..][0] == all[k] == repositories[k] && all[k..][1..] == all[k + 1..];
        if repositories[k].revisions.None? {
          LeadsEnd(outcome, repositories[..k], marked, all[k..], docs, cutoff);
          assert repositories == repositories[..k] + all[k..];
          return 0, 0;
        }
        ghost var before := repositories;
        var referenced := MarkAll(repositories[k].revisions.value);
        var young := SweepLinks(k, referenced, cutoff);
        assert repositories[..k + 1] == before[..k] + [repositories[k]];
        assert repositories[k + 1..] == before[k + 1..];
        LeadsOn(outcome, before[..k], marked, all[k..], docs, cutoff, young);
        marked := marked + referenced + young;
      }
      LeadsEnd(outcome, repositories[..|all|], marked, all[|all|..], docs, cutoff);
      assert repositories == repositories[..|all|] + all[|all|..];
      removed, freed := SweepBlobs(marked, cutoff);
    }

    /** The walk over the blobs. */
    method SweepBlobs(marked: set<Digest>, cutoff: int) returns (removed: nat, freed: nat)
      modifies this`blobs
      ensures blobs == BlobsKept(old(blobs), marked, cutoff)
      ensures blobs.Keys <= old(blobs).Keys && removed == |old(blobs).Keys| - |blobs.Keys|
      ensures Bytes(old(blobs), old(blobs).Keys) == Bytes(old(blobs), blobs.Keys) + freed
    {
      removed, freed := 0, 0;
      var all := blobs;
      var left := blobs.Keys;
      while left != {}
        invariant left <= all.Keys && blobs.Keys <= all.Keys && forall d :: d in left ==> d in blobs
        invariant forall d :: d in all ==> (d in blobs <==> d in left || StaysStored(marked, d, all[d], cutoff))
        invariant forall d :: d in blobs ==> blobs[d] == all[d]
        invariant removed == |all.Keys| - |blobs.Keys|
        invariant Bytes(all, all.Keys) == Bytes(all, blobs.Keys) + freed
        decreases left
      {
        var d :| d in left;
        left := left - {d};
        if !Validates(d) || d in marked || blobs[d].changed > cutoff {
        } else {
          BytesWithout(all, blobs.Keys, d);
          removed, freed := removed + 1, freed + blobs[d].size;
          blobs := blobs - {d};
        }
      }
    }
  }

  // What goes and what stays

  predicate AllReadable(repositories: seq<Repository>) {
    forall k :: 0 <= k < |repositories| ==> repositories[k].revisions.Some?
  }

  /** Whether a repository needs a blob: a manifest refers to it, or a link to it is young. */
  predicate Needs(r: Repository, docs: Docs, d: Digest, cutoff: int) {
    r.revisions.Some? && (d in Referenced(docs, r.revisions.value) || d in Young(r.links, cutoff))
  }

  /** The links of a repository after a collection that came to it. */
  function Cleaned(r: Repository, docs: Docs, cutoff: int): Repository {
    if r.revisions.None? then r else r.(links := LinksKept(r.links, Referenced(docs, r.revisions.value), cutoff))
  }

  lemma {:induction false} SweptMarks(repositories: seq<Repository>, docs: Docs, cutoff: int, d: Digest)
    ensures Swept(repositories, docs, cutoff).1.Some? <==> AllReadable(repositories)
    ensures AllReadable(repositories) ==>
              (d in Swept(repositories, docs, cutoff).1.value
               <==> exists k :: 0 <= k < |repositories| && Needs(repositories[k], docs, d, cutoff))
    decreases |repositories|
  {
    hide LinksKept, Referenced, Young;
    if repositories != [] {
      SweptMarks(repositories[1..], docs, cutoff, d);
      assert forall k :: 1 <= k < |repositories| ==> repositories[k] == repositories[1..][k - 1];
      assert AllReadable(repositories) ==> AllReadable(repositories[1..]);
      if k :| 0 <= k < |repositories| && Needs(repositories[k], docs, d, cutoff) {
        assert k == 0 || Needs(repositories[1..][k - 1], docs, d, cutoff);
      }
    }
  }

  lemma {:induction false} SweptLinks(repositories: seq<Repository>, docs: Docs, cutoff: int, k: nat)
    requires k < |repositories|
    ensures Swept(repositories, docs, cutoff).0[k]
         == if AllReadable(repositories[..k]) then Cleaned(repositories[k], docs, cutoff) else repositories[k]
    decreases |repositories|
  {
    hide LinksKept, Referenced, Young;
    if repositories[0].revisions.Some? && k > 0 {
      SweptLinks(repositories[1..], docs, cutoff, k - 1);
      assert repositories[..k][1..] == repositories[1..][..k - 1];
      assert AllReadable(repositories[..k]) <==> AllReadable(repositories[1..][..k - 1]) by {
        assert forall i :: 0 < i < k ==> repositories[..k][i] == repositories[1..][..k - 1][i - 1];
      }
    } else if k > 0 {
      assert repositories[..k][0] == repositories[0];
    }
  }

  /** An old link that nothing refers to goes, although a later repository cannot be read and no blob goes for it. */
  lemma LinkGoesBeforeAnUnreadableRepository()
    ensures var layer, unreadable := Digest(Sha256, "1"), Repository(None, map[]);
            var blobs := map[layer := Blob(100, 0, None)];
            && Collected(Store([Repository(Some([]), map[layer := 0]), unreadable], blobs), 1)
               == Store([Repository(Some([]), map[]), unreadable], blobs)
  {
    var layer, unreadable := Digest(Sha256, "1"), Repository(None, map[]);
    var docs := DocsOf(map[layer := Blob(100, 0, None)]);
    var first := Repository(Some([]), map[layer := 0]);
    assert [first, unreadable][1..] == [unreadable];
    assert Referenced(docs, []) == {} && LinksKept(map[layer := 0], {}, 1) == map[];
    assert Swept([unreadable], docs, 1) == ([unreadable], None);
  }

  /**
   A blob goes exactly if every repository can be read, none needs it, and it is
   old itself; nothing else changes about the blobs.
   */
  lemma GoesExactlyIfUnneeded(s: Store, cutoff: int, d: Digest)
    requires d in s.blobs
    ensures d !in Collected(s, cutoff).blobs
       <==> AllReadable(s.repositories) && Validates(d) && s.blobs[d].changed <= cutoff
            && forall k :: 0 <= k < |s.repositories| ==> !Needs(s.repositories[k], DocsOf(s.blobs), d, cutoff)
    ensures d in Collected(s, cutoff).blobs ==> Collected(s, cutoff).blobs[d] == s.blobs[d]
    ensures Collected(s, cutoff).blobs.Keys <= s.blobs.Keys
  {
    hide Swept, DocsOf, Needs;
    SweptMarks(s.repositories, DocsOf(s.blobs), cutoff, d);
  }

  /** A link that stays does not lose its blob. */
  lemma NoLinkIsLeftDangling(s: Store, cutoff: int, k: nat, d: Digest)
    requires k < |s.repositories| && d in s.blobs
    ensures |Collected(s, cutoff).repositories| == |s.repositories|
    ensures d in Collected(s, cutoff).repositories[k].links ==>
              d in Collected(s, cutoff).blobs && d in s.repositories[k].links
  {
    var docs := DocsOf(s.blobs);
    hide DocsOf, Collected, Referenced;
    CollectedRepositories(s, cutoff);
    GoesExactlyIfUnneeded(s, cutoff, d);
    SweptLinks(s.repositories, docs, cutoff, k);
    if AllReadable(s.repositories) {
      assert AllReadable(s.repositories[..k]);
    }
  }

  lemma CollectedRepositories(s: Store, cutoff: int)
    ensures Collected(s, cutoff).repositories == Swept(s.repositories, DocsOf(s.blobs), cutoff).0
  {
  }

  /** What a repository's manifests reach stays, where marking finds all of it. */
  lemma ReachedBlobsStay(s: Store, cutoff: int, k: nat, x: Digest)
    requires k < |s.repositories| && s.repositories[k].revisions.Some? && x in s.blobs
    requires var docs, revisions := DocsOf(s.blobs), s.repositories[k].revisions.value;
             ChildrenAreManifests(docs, revisions) && EndsInTime(docs, revisions) && Reached(docs, revisions, x)
    ensures x in Collected(s, cutoff).blobs
  {
    hide DocsOf, ChildrenAreManifests, EndsInTime, Reached, MarkRevisions;
    MarksExactlyReached(DocsOf(s.blobs), s.repositories[k].revisions.value, x);
    GoesExactlyIfUnneeded(s, cutoff, x);
    assert Needs(s.repositories[k], DocsOf(s.blobs), x, cutoff);
  }

  /**
   Where every repository can be read, a link stays exactly if it is no digest,
   the repository refers to it, or it is young. Nothing else changes about the
   repository.
   */
  lemma LinkStaysExactlyIfNeeded(s: Store, cutoff: int, k: nat, d: Digest)
    requires k < |s.repositories| && AllReadable(s.repositories)
    ensures |Collected(s, cutoff).repositories| == |s.repositories|
    ensures var before, after := s.repositories[k], Collected(s, cutoff).repositories[k];
            && after.revisions == before.revisions
            && (d in after.links <==>
                  && d in before.links
                  && (|| d.algorithm.Unknown?
                      || d in Referenced(DocsOf(s.blobs), before.revisions.value)
                      || before.links[d] > cutoff))
            && (d in after.links ==> after.links[d] == before.links[d])
  {
    hide DocsOf, Collected, Referenced, Swept;
    CollectedRepositories(s, cutoff);
    SweptLinks(s.repositories, DocsOf(s.blobs), cutoff, k);
    assert AllReadable(s.repositories[..k]);
  }

  /**
   So a link stays exactly if what the manifests of the repository reach by
   descending through indexes has it, or it is young, where marking finds all of that.
   */
  lemma ReachedLinksStay(s: Store, cutoff: int, k: nat, d: Digest)
    requires k < |s.repositories| && AllReadable(s.repositories) && !d.algorithm.Unknown?
    requires var docs, revisions := DocsOf(s.blobs), s.repositories[k].revisions.value;
             ChildrenAreManifests(docs, revisions) && EndsInTime(docs, revisions)
    ensures |Collected(s, cutoff).repositories| == |s.repositories|
    ensures var before, after := s.repositories[k], Collected(s, cutoff).repositories[k];
            d in after.links <==>
              && d in before.links
              && (Reached(DocsOf(s.blobs), before.revisions.value, d) || before.links[d] > cutoff)
  {
    hide DocsOf, ChildrenAreManifests, EndsInTime, Reached, MarkRevisions, Collected;
    MarksExactlyReached(DocsOf(s.blobs), s.repositories[k].revisions.value, d);
    LinkStaysExactlyIfNeeded(s, cutoff, k, d);
  }

  /** The digests that a manifest names, of those that may be children only the accepted ones. */
  predicate Names(doc: Doc, d: Digest) {
    doc.config == Some(d) || d in doc.layers || (d in doc.manifests && (d.algorithm.Sha256? || d.algorithm.Sha512?))
  }

  /**
   A manifest that a repository holds keeps the blobs it names, and the links to
   them, whatever else the repository holds and whether the others can be read.
   */
  lemma PushedImageStaysWhole(s: Store, cutoff: int, k: nat, m: Digest, d: Digest)
    requires k < |s.repositories| && s.repositories[k].revisions.Some? && m in s.repositories[k].revisions.value
    requires m in s.blobs && s.blobs[m].size <= 4_194_304 && s.blobs[m].doc.Some?
    requires d == m || Names(s.blobs[m].doc.value, d)
    ensures |Collected(s, cutoff).repositories| == |s.repositories|
    ensures d in s.blobs ==> d in Collected(s, cutoff).blobs
    ensures d in s.repositories[k].links ==> d in Collected(s, cutoff).repositories[k].links
  {
    var docs, revisions := DocsOf(s.blobs), s.repositories[k].revisions.value;
    assert m in docs && docs[m] == s.blobs[m].doc.value;
    DirectlyReferredIsMarked(docs, revisions, {}, m);
    assert d in Referenced(docs, revisions);
    hide DocsOf, Collected, Referenced, Swept;
    CollectedRepositories(s, cutoff);
    SweptLinks(s.repositories, docs, cutoff, k);
    if d in s.blobs {
      assert Needs(s.repositories[k], docs, d, cutoff);
      GoesExactlyIfUnneeded(s, cutoff, d);
    }
  }

  /** What is larger than a manifest may be, or none, refers to nothing, so what only it names is not kept for it. */
  lemma OnlyManifestsRefer(blobs: map<Digest, Blob>, m: Digest)
    requires m in blobs ==> blobs[m].size > 4_194_304 || blobs[m].doc.None?
    ensures Referenced(DocsOf(blobs), [m]) == {m}
  {
    var docs := DocsOf(blobs);
    assert Mark(docs, m, {}, 0) == {m};
    assert MarkRevisions(docs, [m], {}) == MarkRevisions(docs, [], {m});
  }

  // A second collection

  lemma KeptLinksAgain(links: map<Digest, int>, referenced: set<Digest>, cutoff: int)
    ensures LinksKept(LinksKept(links, referenced, cutoff), referenced, cutoff) == LinksKept(links, referenced, cutoff)
    ensures Young(LinksKept(links, referenced, cutoff), cutoff) == Young(links, cutoff)
  {
  }

  ghost predicate MarksTheSame(repositories: seq<Repository>, docs: Docs, docs': Docs) {
    forall k :: 0 <= k < |repositories| && repositories[k].revisions.Some? ==>
              var revisions := repositories[k].revisions.value;
              Referenced(docs', revisions) == Referenced(docs, revisions)
  }

  lemma {:induction false} SweptAgain(repositories: seq<Repository>, docs: Docs, docs': Docs, cutoff: int)
    requires MarksTheSame(repositories, docs, docs')
    ensures Swept(Swept(repositories, docs, cutoff).0, docs', cutoff) == Swept(repositories, docs, cutoff)
    decreases |repositories|
  {
    hide LinksKept, Referenced, Young;
    if repositories != [] && repositories[0].revisions.Some? {
      var rest := repositories[1..];
      assert MarksTheSame(rest, docs, docs') by {
        assert forall k :: 0 <= k < |rest| ==> rest[k] == repositories[k + 1];
      }
      SweptAgain(rest, docs, docs', cutoff);
      var referenced := Referenced(docs, repositories[0].revisions.value);
      KeptLinksAgain(repositories[0].links, referenced, cutoff);
      var swept := Swept(repositories, docs, cutoff).0;
      assert swept[1..] == Swept(rest, docs, cutoff).0;
    }
  }

  /** What is marked is still there to be read, if it was there before. */
  lemma KeptDocsMarkTheSame(s: Store, cutoff: int)
    ensures MarksTheSame(s.repositories, DocsOf(s.blobs), DocsOf(Collected(s, cutoff).blobs))
  {
    var docs, docs' := DocsOf(s.blobs), DocsOf(Collected(s, cutoff).blobs);
    forall k | 0 <= k < |s.repositories| && s.repositories[k].revisions.Some?
      ensures var revisions := s.repositories[k].revisions.value;
              Referenced(docs', revisions) == Referenced(docs, revisions)
    {
      var revisions := s.repositories[k].revisions.value;
      hide MarkRevisions, Collected;
      forall x | x in Referenced(docs, revisions)
        ensures (x in docs <==> x in docs') && (x in docs ==> docs[x] == docs'[x])
      {
        assert Needs(s.repositories[k], docs, x, cutoff);
        KeysShrink(s, cutoff);
        if x in s.blobs {
          GoesExactlyIfUnneeded(s, cutoff, x);
        }
      }
      MarksAgree(docs, docs', revisions, {});
    }
  }

  lemma KeysShrink(s: Store, cutoff: int)
    ensures Collected(s, cutoff).blobs.Keys <= s.blobs.Keys
  {
  }

  lemma BlobsKeptAgain(blobs: map<Digest, Blob>, marked: set<Digest>, cutoff: int)
    ensures BlobsKept(BlobsKept(blobs, marked, cutoff), marked, cutoff) == BlobsKept(blobs, marked, cutoff)
  {
  }

  /** Collecting again, with nothing changed in between, changes nothing. */
  lemma CollectingAgainChangesNothing(s: Store, cutoff: int)
    ensures Collected(Collected(s, cutoff), cutoff) == Collected(s, cutoff)
  {
    var s' := Collected(s, cutoff);
    KeptDocsMarkTheSame(s, cutoff);
    SweptAgain(s.repositories, DocsOf(s.blobs), DocsOf(s'.blobs), cutoff);
    hide Swept, DocsOf, BlobsKept;
    var marked := Swept(s.repositories, DocsOf(s.blobs), cutoff).1;
    if marked.Some? {
      BlobsKeptAgain(s.blobs, marked.value, cutoff);
    }
  }
}
