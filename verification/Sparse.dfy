/** Files that stay sparse: what is all zeros in a block is left as a hole rather than written. */
module Sparse {
  import opened Bytes

  predicate IsZero(b: bytes) {
    forall i :: 0 <= i < |b| ==> b[i] == 0
  }

  /** A file reads as zeros behind its end. */
  function At(content: bytes, i: nat): byte {
    if i < |content| then content[i] else 0
  }

  /** The content with b written over it at an offset, which may be behind the end. */
  function Patched(content: bytes, b: bytes, off: nat): (r: bytes)
    ensures |r| == if b != [] && off + |b| > |content| then off + |b| else |content|
    ensures forall i :: 0 <= i < |r| ==> r[i] == if off <= i < off + |b| then b[i - off] else At(content, i)
  {
    if b == [] then content
    else
      seq(if off + |b| > |content| then off + |b| else |content|,
          i requires 0 <= i => if off <= i < off + |b| then b[i - off] else At(content, i))
  }

  /** The block of a file that a position is in, each of 4096 bytes. */
  function BlockOf(k: nat): nat {
    k / 4096
  }

  /** Whether what is written at an offset has something but zeros in the block of position k. */
  ghost predicate InData(b: bytes, off: nat, k: nat) {
    exists i :: 0 <= i < |b| && BlockOf(off + i) == BlockOf(k) && b[i] != 0
  }

  ghost function Span(off: nat, n: nat): (s: set<nat>)
    ensures forall k :: k in s <==> off <= k < off + n
  {
    if n == 0 then {} else Span(off, n - 1) + {off + n - 1}
  }

  /** Which positions were written once b is written as far as a position: those that were before, and the data in b. */
  ghost predicate TouchedUpTo(now: set<nat>, before: set<nat>, b: bytes, off: nat, at: nat) {
    forall k :: k in now <==> k in before || (off <= k < at && InData(b, off, k))
  }

  lemma NothingTouched(now: set<nat>, b: bytes, off: nat)
    ensures TouchedUpTo(now, now, b, off, off)
  {
  }

  lemma TouchedOn(now: set<nat>, before: set<nat>, b: bytes, off: nat, at: nat, n: nat)
    requires TouchedUpTo(now, before, b, off, at) && off <= at
    ensures (forall k :: at <= k < at + n ==> !InData(b, off, k)) ==> TouchedUpTo(now, before, b, off, at + n)
    ensures (forall k :: at <= k < at + n ==> InData(b, off, k)) ==>
              TouchedUpTo(now + Span(at, n), before, b, off, at + n)
  {
  }

  /** A file that reads as if b was written as far as a position, and is no longer than that asks for. */
  ghost predicate WrittenUpTo(now: bytes, before: bytes, b: bytes, off: nat, at: nat)
    requires at <= off + |b|
  {
    && |before| <= |now| && (|now| > |before| ==> |now| <= at)
    && forall i :: 0 <= i ==> At(now, i) == if off <= i < at then b[i - off] else At(before, i)
  }

  lemma NothingWritten(now: bytes, b: bytes, off: nat)
    ensures WrittenUpTo(now, now, b, off, off)
  {
  }

  lemma ZerosSkipped(now: bytes, before: bytes, b: bytes, off: nat, at: nat, n: nat)
    requires off <= at && at + n <= off + |b| && WrittenUpTo(now, before, b, off, at)
    requires IsZero(b[at - off..at - off + n]) && forall i :: at <= i < at + n ==> At(before, i) == 0
    ensures WrittenUpTo(now, before, b, off, at + n)
  {
  }

  lemma DataWritten(now: bytes, before: bytes, b: bytes, off: nat, at: nat, n: nat)
    requires off <= at && at + n <= off + |b| && WrittenUpTo(now, before, b, off, at) && n > 0
    ensures WrittenUpTo(Patched(now, b[at - off..at - off + n], at), before, b, off, at + n)
  {
  }

  lemma AllWritten(now: bytes, before: bytes, b: bytes, off: nat)
    requires WrittenUpTo(now, before, b, off, off + |b|)
    ensures |before| <= |now| && (|now| > |before| ==> |now| <= off + |b|)
    ensures forall i :: 0 <= i < off || off + |b| <= i ==> At(now, i) == At(before, i)
  {
  }

  /** Where the disk is full, what is before the place is as it was. */
  lemma PartWritten(now: bytes, before: bytes, b: bytes, off: nat, at: nat, n: nat)
    requires off <= at && at + n <= off + |b| && WrittenUpTo(now, before, b, off, at)
    ensures var after := Patched(now, b[at - off..at - off + n], at);
            |before| <= |after| && forall i :: 0 <= i < off || off + |b| <= i ==> At(after, i) == At(before, i)
    ensures var after := Patched(now, b[at - off..at - off + n], at);
            |after| > |before| ==> |after| <= off + |b|
  {
  }

  /** What is left to write starts at the start of a block, or with all of it. */
  predicate Aligned(off: nat, at: nat) {
    at == off || at % 4096 == 0
  }

  /** From there to the next boundary is all that is written of the block. */
  lemma PieceIsBlock(off: nat, size: nat, at: nat, n: nat)
    requires off <= at < off + size && Aligned(off, at)
    requires n == if 4096 - at % 4096 < off + size - at then 4096 - at % 4096 else off + size - at
    ensures forall k :: off <= k < off + size ==> (at <= k < at + n <==> BlockOf(k) == BlockOf(at))
    ensures at + n == off + size || Aligned(off, at + n)
  {
    forall k | off <= k < off + size
      ensures at <= k < at + n <==> BlockOf(k) == BlockOf(at)
    {
    }
  }

  /** A piece that is a block counts as data as a whole, or not at all. */
  lemma PieceInData(b: bytes, off: nat, at: nat, n: nat)
    requires off <= at && at + n <= off + |b| && n > 0
    requires forall k :: off <= k < off + |b| ==> (at <= k < at + n <==> BlockOf(k) == BlockOf(at))
    ensures forall k :: at <= k < at + n ==> (InData(b, off, k) <==> !IsZero(b[at - off..at - off + n]))
  {
    var piece := b[at - off..at - off + n];
    forall k | at <= k < at + n
      ensures InData(b, off, k) <==> !IsZero(piece)
    {
      assert BlockOf(k) == BlockOf(at);
      if !IsZero(piece) {
        var i :| 0 <= i < n && piece[i] != 0;
        assert BlockOf(off + (at - off + i)) == BlockOf(at) && b[at - off + i] != 0;
      }
      if InData(b, off, k) {
        var i :| 0 <= i < |b| && BlockOf(off + i) == BlockOf(k) && b[i] != 0;
        assert at <= off + i < at + n;
        assert piece[off + i - at] == b[i];
      }
    }
  }

  /** How far a run of blocks with data in them goes that starts with one of n bytes. */
  method DataRun(b: bytes, off: nat, at: nat, n: nat) returns (end: nat)
    requires off <= at && 0 < n && at + n <= off + |b|
    requires at + n == off + |b| || Aligned(off, at + n)
    requires forall k :: at <= k < at + n ==> InData(b, off, k)
    ensures n <= end && at + end <= off + |b|
    ensures at + end == off + |b| || Aligned(off, at + end)
    ensures forall k :: at <= k < at + end ==> InData(b, off, k)
  {
    hide InData, IsZero, BlockOf;
    var rest := b[at - off..];
    end := n;
    while end < |rest|
      invariant n <= end <= |rest|
      invariant at + end == off + |b| || Aligned(off, at + end)
      invariant forall k :: at <= k < at + end ==> InData(b, off, k)
      decreases |rest| - end
    {
      var next := if end + 4096 < |rest| then end + 4096 else |rest|;
      if IsZero(rest[end..next]) {
        break;
      }
      NextPiece(b, off, at + end, next - end);
      assert rest[end..next] == b[at + end - off..at + next - off];
      end := next;
    }
  }

  /** A piece that starts at a boundary behind the first. */
  lemma NextPiece(b: bytes, off: nat, at: nat, n: nat)
    requires off < at && n > 0 && at + n <= off + |b| && Aligned(off, at)
    requires n == if 4096 < off + |b| - at then 4096 else off + |b| - at
    ensures at + n == off + |b| || Aligned(off, at + n)
    ensures forall k :: at <= k < at + n ==> (InData(b, off, k) <==> !IsZero(b[at - off..at - off + n]))
  {
    PieceIsBlock(off, |b|, at, n);
    PieceInData(b, off, at, n);
  }

  /** A run of a file that is all data or all hole. */
  datatype Extent = Extent(offset: nat, length: nat, hole: bool)

  /** Extents that follow each other from a position to the end of a file, whose holes read as zeros. */
  predicate Covers(extents: seq<Extent>, content: bytes, start: nat) {
    if extents == [] then start == |content|
    else
      var e := extents[0];
      && e.offset == start && e.offset + e.length <= |content|
      && (e.hole ==> IsZero(content[e.offset..e.offset + e.length]))
      && Covers(extents[1..], content, start + e.length)
  }

  class File {
    var content: bytes
    /** How many bytes the disk still takes. */
    var space: nat
    /** Which positions were ever written. */
    ghost var touched: set<nat>

    constructor (space: nat)
      ensures content == [] && this.space == space && touched == {}
    {
      content, this.space, touched := [], space, {};
    }

    /** os.File.WriteAt: a disk that is full takes what it has space for. */
    method WriteAt(b: bytes, off: nat) returns (ok: bool)
      modifies this
      ensures ok == (|b| <= old(space))
      ensures var n := if ok then |b| else old(space);
              && content == Patched(old(content), b[..n], off)
              && space == old(space) - n
              && touched == old(touched) + Span(off, n)
    {
      ok := |b| <= space;
      var n := if ok then |b| else space;
      content := Patched(content, b[..n], off);
      space := space - n;
      touched := touched + Span(off, n);
    }

    /** os.File.Truncate. */
    method Truncate(size: nat)
      modifies this`content
      ensures |content| == size
      ensures forall i :: 0 <= i < size ==> content[i] == At(old(content), i)
    {
      content := if size <= |content| then content[..size] else content + Zeros(size - |content|);
    }

    /**
     WriteAtSparse: the file reads as if all of b was written, and exactly the
     blocks with something but zeros in them were.
     */
    method WriteAtSparse(b: bytes, off: nat) returns (written: nat, ok: bool)
      requires forall i :: off <= i < off + |b| ==> At(content, i) == 0
      modifies this
      ensures |old(content)| <= |content| && (|content| > |old(content)| ==> |content| <= off + |b|)
      ensures forall i :: 0 <= i < off || off + |b| <= i ==> At(content, i) == At(old(content), i)
      ensures ok ==> WrittenUpTo(content, old(content), b, off, off + |b|)
      ensures ok ==> TouchedUpTo(touched, old(touched), b, off, off + |b|)
      ensures written <= |b| && space <= old(space) && (ok ==> space == old(space) - written)
      ensures old(space) >= |b| ==> ok
    {
      hide BlockOf, InData, TouchedUpTo, WrittenUpTo, IsZero, At;
      NothingWritten(content, b, off);
      NothingTouched(touched, b, off);
      var rest, at := b, off;
      written := 0;
      while |rest| > 0
        invariant off <= at && at + |rest| == off + |b| && rest == b[at - off..]
        invariant rest == [] || Aligned(off, at)
        invariant WrittenUpTo(content, old(content), b, off, at)
        invariant TouchedUpTo(touched, old(touched), b, off, at)
        invariant written <= at - off && space == old(space) - written
      {
        var n := 4096 - at % 4096;
        n := if n < |rest| then n else |rest|;
        PieceIsBlock(off, |b|, at, n);
        PieceInData(b, off, at, n);
        assert rest[..n] == b[at - off..at - off + n];
        if !IsZero(rest[..n]) {
          ok, n := WriteRun(b, off, at, n, old(content), old(touched));
          if !ok {
            return written, false;
          }
          written := written + n;
        } else {
          ZerosSkipped(content, old(content), b, off, at, n);
          TouchedOn(touched, old(touched), b, off, at, n);
        }
        rest, at := rest[n..], at + n;
      }
      AllWritten(content, old(content), b, off);
      ok := true;
    }

    /** The run of blocks with data in them that is written in one call, from a piece of n bytes on. */
    method WriteRun(b: bytes, off: nat, at: nat, n: nat, ghost was: bytes, ghost before: set<nat>)
      returns (ok: bool, end: nat)
      requires off <= at && 0 < n && at + n <= off + |b|
      requires at + n == off + |b| || Aligned(off, at + n)
      requires forall k :: at <= k < at + n ==> InData(b, off, k)
      requires WrittenUpTo(content, was, b, off, at) && TouchedUpTo(touched, before, b, off, at)
      modifies this
      ensures n <= end && at + end <= off + |b| && (at + end == off + |b| || Aligned(off, at + end))
      ensures ok == (end <= old(space)) && space == if ok then old(space) - end else 0
      ensures ok ==> WrittenUpTo(content, was, b, off, at + end) && TouchedUpTo(touched, before, b, off, at + end)
      ensures !ok ==> |was| <= |content| && (|content| > |was| ==> |content| <= off + |b|)
      ensures !ok ==> forall i :: 0 <= i < off || off + |b| <= i ==> At(content, i) == At(was, i)
    {
      hide Patched, BlockOf, InData, Span, TouchedUpTo, WrittenUpTo, At;
      end := DataRun(b, off, at, n);
      var run := b[at - off..at - off + end];
      TouchedOn(touched, before, b, off, at, end);
      DataWritten(content, was, b, off, at, end);
      ghost var full := space;
      assert run[..end] == run;
      if full < end {
        assert run[..full] == b[at - off..at - off + full];
        PartWritten(content, was, b, off, at, full);
      }
      ok := WriteAt(run, at);
    }

    /**
     The copying of copyExtents into a new file, in pieces of at most 1 MiB:
     holes and blocks of zeros are left out, and the copy is the same all the same.
     */
    method CopyExtents(source: bytes, extents: seq<Extent>) returns (ok: bool)
      requires content == [] && Covers(extents, source, 0)
      modifies this
      ensures ok ==> content == source
      ensures old(space) >= |source| ==> ok
    {
      hide TouchedUpTo;
      Truncate(|source|);
      var done := 0;
      for k := 0 to |extents|
        invariant 0 <= done <= |source| && Covers(extents[k..], source, done)
        invariant |content| == |source| && forall i :: done <= i < |source| ==> content[i] == 0
        invariant content[..done] == source[..done]
        invariant old(space) - space <= done
      {
        var e := extents[k];
        assert extents[k..][0] == e && extents[k..][1..] == extents[k + 1..];
        if e.hole {
          assert forall i :: done <= i < done + e.length ==> source[i] == source[done..done + e.length][i - done];
          done := done + e.length;
          continue;
        }
        var off, end := e.offset, e.offset + e.length;
        while off < end
          invariant done == off <= end
          invariant |content| == |source| && forall i :: off <= i < |source| ==> content[i] == 0
          invariant content[..off] == source[..off]
          invariant old(space) - space <= off
          decreases end - off
        {
          var n := if end - off < 0x10_0000 then end - off else 0x10_0000;
          ghost var before := content;
          var _, written := WriteAtSparse(source[off..off + n], off);
          if !written {
            return false;
          }
          CopiedOn(source, before, content, off, n);
          off, done := off + n, done + n;
        }
      }
      assert content[..|source|] == content && source[..|source|] == source;
      ok := true;
    }
  }

  lemma CopiedOn(source: bytes, before: bytes, after: bytes, off: nat, n: nat)
    requires off + n <= |source| == |before| && |before| <= |after| && (|after| > |before| ==> |after| <= off + n)
    requires before[..off] == source[..off]
    requires forall i :: 0 <= i < off || off + n <= i ==> At(after, i) == At(before, i)
    requires forall i :: off <= i < off + n ==> At(after, i) == source[off..off + n][i - off]
    requires forall i :: off <= i < |source| ==> before[i] == 0
    ensures |after| == |source| && after[..off + n] == source[..off + n]
    ensures forall i :: off + n <= i < |source| ==> after[i] == 0
  {
    forall i | 0 <= i < off + n
      ensures after[i] == source[i]
    {
      assert At(after, i) == after[i];
      if i < off {
        assert before[i] == before[..off][i] == source[..off][i];
      }
    }
    forall i | off + n <= i < |source|
      ensures after[i] == 0
    {
      assert At(after, i) == At(before, i);
    }
  }
}
