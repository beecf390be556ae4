/** What VerifyPrunedChainFromReader (pkg/audit/streaming.go) accepts: a checkpoint
    on the first nonblank line, and exactly the records it speaks of. */
module ChainPruned {
  import opened Bytes
  import opened Traces
  import opened ChainVerifier
  import opened ChainTheory
  import opened LogStream

  // ----- the checkpoint line -----

  /** The terms of ParsePruneCheckpoint. */
  lemma CheckpointTerms(c: Codec, raw: bytes, s: StoredCheckpoint)
    ensures c.ParseCheckpoint(raw) == Some(s) <==>
            && c.decodeCheckpoint(raw) == Some(s) && s.recordType == "prune_checkpoint" && s.version == 1
            && s.body.removedCount > 0 && s.body.lastRemovedIndex == s.body.removedCount && s.body.retainedCount >= 0
            && s.body.lastRemovedTimestamp.Some? && s.body.cutoff.Some? && s.body.lastRemovedTimestamp.value < s.body.cutoff.value
            && (s.body.boundaryVersion == "v1" || s.body.boundaryVersion == "v2")
            && (s.body.lastRemovedHash.Sha256? || (s.body.lastRemovedHash.Foreign? && WellFormedDigest(s.body.lastRemovedHash.text)))
            && (s.body.retainedTail.Sha256? || (s.body.retainedTail.Foreign? && WellFormedDigest(s.body.retainedTail.text)))
            && s.checksum == ChecksumFor(s)
            && (s.body.retainedCount == 0 ==> s.body.retainedTail == s.body.lastRemovedHash)
  {
    hide WellFormedDigest;
  }

  /** The checksum, and so a pin, covers everything a checkpoint says. */
  lemma ChecksumCovers(c: Codec, a: bytes, b: bytes)
    requires c.ParseCheckpoint(a).Some? && c.ParseCheckpoint(b).Some?
    requires c.ParseCheckpoint(a).value.checksum == c.ParseCheckpoint(b).value.checksum
    ensures c.ParseCheckpoint(a) == c.ParseCheckpoint(b)
  {
    hide WellFormedDigest;
  }

  // ----- the records after it -----

  /** The i-th record retained links to the one before, or to the last one removed. */
  predicate LinkedFrom(cp: Checkpoint, rs: seq<Trace>, i: nat)
    requires i < |rs|
  {
    && TraceHash(rs[i]) == Some(rs[i].hash)
    && rs[i].prev == (if i == 0 then cp.lastRemovedHash else rs[i - 1].hash)
    && ((if i == 0 then cp.boundaryVersion else rs[i - 1].canonicalVersion) == "v2" ==> rs[i].canonicalVersion == "v2")
  }

  predicate ChainFrom(cp: Checkpoint, rs: seq<Trace>) {
    forall i :: 0 <= i < |rs| ==> LinkedFrom(cp, rs, i)
  }

  function LastHash(cp: Checkpoint, rs: seq<Trace>): Hash {
    if rs == [] then cp.lastRemovedHash else rs[|rs| - 1].hash
  }

  function LastRank(cp: Checkpoint, rs: seq<Trace>): nat {
    if (if rs == [] then cp.boundaryVersion else rs[|rs| - 1].canonicalVersion) == "v2" then 2 else 1
  }

  function After(cp: StoredCheckpoint, rs: seq<Trace>): Scan {
    Running(LastHash(cp.body, rs), LastRank(cp.body, rs), rs, Some(cp))
  }

  lemma ChainFromSnoc(cp: Checkpoint, rs: seq<Trace>, t: Trace)
    ensures ChainFrom(cp, rs + [t]) <==> ChainFrom(cp, rs) && LinkedFrom(cp, rs + [t], |rs|)
  {
    hide LinkedFrom;
    var more := rs + [t];
    forall i | 0 <= i < |rs|
      ensures LinkedFrom(cp, rs, i) == LinkedFrom(cp, more, i)
    {
      SameLink(cp, rs, t, i);
    }
  }

  lemma SameLink(cp: Checkpoint, rs: seq<Trace>, t: Trace, i: nat)
    requires i < |rs|
    ensures LinkedFrom(cp, rs, i) == LinkedFrom(cp, rs + [t], i)
  {
    hide TraceHash;
  }

  lemma StepFrom(cp: StoredCheckpoint, rs: seq<Trace>, t: Trace)
    requires ValidCheckpoint(cp)
    ensures StepRecord(After(cp, rs), t) == if LinkedFrom(cp.body, rs + [t], |rs|) then After(cp, rs + [t]) else Failed
  {
    hide WellFormedDigest, ValidProvenance;
  }

  /** After a checkpoint the scan accepts exactly the chains that go on from it. */
  lemma {:induction false} FoldFrom(c: Codec, pin: Option<Checksum>, cp: StoredCheckpoint, lines: seq<bytes>)
    requires ValidCheckpoint(cp)
    ensures Fold(c, true, pin, After(cp, []), lines) ==
            if Parse(c, lines).Some? && ChainFrom(cp.body, Parse(c, lines).value) then After(cp, Parse(c, lines).value) else Failed
    decreases |lines|
  {
    if lines != [] {
      hide StepRecord, After, ChainFrom, LinkedFrom, ValidCheckpoint, Fold;
      var n := |lines| - 1;
      FoldFrom(c, pin, cp, lines[..n]);
      assert lines[..n + 1] == lines;
      FoldSnoc(c, true, pin, After(cp, []), lines, n);
      StepOneFrom(c, pin, cp, lines[..n], lines[n]);
    } else {
      assert ChainFrom(cp.body, []);
    }
  }

  lemma StepOneFrom(c: Codec, pin: Option<Checksum>, cp: StoredCheckpoint, front: seq<bytes>, l: bytes)
    requires ValidCheckpoint(cp)
    ensures var whole, s := Parse(c, front + [l]),
                            if Parse(c, front).Some? && ChainFrom(cp.body, Parse(c, front).value) then After(cp, Parse(c, front).value) else Failed;
            Step(c, true, pin, s, l) ==
            if whole.Some? && ChainFrom(cp.body, whole.value) then After(cp, whole.value) else Failed
  {
    hide StepRecord, ChainFrom, LinkedFrom, ValidCheckpoint;
    assert (front + [l])[..|front|] == front;
    var parsed := Parse(c, front);
    if parsed.Some? && c.unmarshal(l).Some? {
      ChainFromSnoc(cp.body, parsed.value, c.unmarshal(l).value);
      StepFrom(cp, parsed.value, c.unmarshal(l).value);
    }
  }

  // ----- the whole stream -----

  /** A checkpoint on line k, blank lines before it, and after it as many records as
      it retains, chained from the last one removed up to its tail. */
  ghost predicate PrunedAt(c: Codec, pin: Option<Checksum>, lines: seq<bytes>, k: nat) {
    && k < |lines| && (forall i :: 0 <= i < k ==> lines[i] == [])
    && lines[k] != [] && |lines[k]| <= 4_194_304 && c.isCheckpoint(lines[k]) == Some(true)
    && c.ParseCheckpoint(lines[k]).Some? && Parse(c, lines[k + 1..]).Some?
    && var cp, rs := c.ParseCheckpoint(lines[k]).value, Parse(c, lines[k + 1..]).value;
       && (pin.Some? ==> cp.checksum == pin.value)
       && ChainFrom(cp.body, rs) && |rs| == cp.body.retainedCount && LastHash(cp.body, rs) == cp.body.retainedTail
  }

  lemma {:induction false} BlankLinesFirst(c: Codec, pin: Option<Checksum>, lines: seq<bytes>, k: nat)
    requires k <= |lines| && forall i :: 0 <= i < k ==> lines[i] == []
    ensures Fold(c, true, pin, START, lines) == Fold(c, true, pin, START, lines[k..])
    decreases k
  {
    if k > 0 {
      BlankLinesFirst(c, pin, lines[1..], k - 1);
      assert lines[1..][k - 1..] == lines[k..];
    }
  }

  /** What follows the first nonblank line. */
  lemma FirstLine(c: Codec, pin: Option<Checksum>, lines: seq<bytes>, k: nat)
    requires k < |lines| && (forall i :: 0 <= i < k ==> lines[i] == []) && lines[k] != []
    ensures Fold(c, true, pin, START, lines) == Fold(c, true, pin, Step(c, true, pin, START, lines[k]), lines[k + 1..])
  {
    hide Step;
    BlankLinesFirst(c, pin, lines, k);
    assert lines[k..][0] == lines[k] && lines[k..][1..] == lines[k + 1..];
  }

  /** Records carry the checkpoint, or its absence, along. */
  lemma {:induction false} KeepsCheckpoint(c: Codec, pin: Option<Checksum>, s: Scan, lines: seq<bytes>)
    requires s.Running? && (s.cp.Some? || s.recs != []) && Fold(c, true, pin, s, lines).Running?
    ensures Fold(c, true, pin, s, lines).cp == s.cp
    decreases |lines|
  {
    hide TraceHash;
    if lines != [] {
      FailureSticks(c, true, pin, lines[1..]);
      KeepsCheckpoint(c, pin, Step(c, true, pin, s, lines[0]), lines[1..]);
    }
  }

  /** The scan of these lines ends in a pruned log that closes. */
  predicate Verifies(c: Codec, pin: Option<Checksum>, lines: seq<bytes>) {
    var s := Fold(c, true, pin, START, lines);
    s.Running? && s.cp.Some? && Closes(s, pin)
  }

  /** A pruned log is accepted if and only if it is a checkpoint with exactly the
      records it speaks of, and the checkpoint is the pinned one. */
  lemma PrunedAcceptedExactly(c: Codec, stream: bytes, pin: Option<Checksum>)
    ensures var s := Replay(c, true, pin, stream);
            s.Running? && s.cp.Some? && Closes(s, pin) <==> exists k: nat :: PrunedAt(c, pin, Lines(stream), k)
  {
    assert Verifies(c, pin, Lines(stream)) <==>
           var s := Replay(c, true, pin, stream); s.Running? && s.cp.Some? && Closes(s, pin);
    LinesDecide(c, pin, Lines(stream));
  }

  lemma LinesDecide(c: Codec, pin: Option<Checksum>, lines: seq<bytes>)
    ensures Verifies(c, pin, lines) <==> exists k: nat :: PrunedAt(c, pin, lines, k)
  {
    if k: nat :| k < |lines| && lines[k] != [] && forall i :: 0 <= i < k ==> lines[i] == [] {
      DecidedAt(c, pin, lines, k);
      if j: nat :| PrunedAt(c, pin, lines, j) {
        FirstOnly(c, pin, lines, j, k);
      }
    } else {
      AllBlank(c, pin, lines, |lines|);
    }
  }

  lemma FirstOnly(c: Codec, pin: Option<Checksum>, lines: seq<bytes>, j: nat, k: nat)
    requires PrunedAt(c, pin, lines, j) && k < |lines| && lines[k] != [] && forall i :: 0 <= i < k ==> lines[i] == []
    ensures j == k
  {
  }

  lemma {:induction false} AllBlank(c: Codec, pin: Option<Checksum>, lines: seq<bytes>, n: nat)
    requires n <= |lines| && forall k: nat :: k < |lines| && lines[k] != [] ==> exists i :: 0 <= i < k && lines[i] != []
    ensures forall i :: 0 <= i < n ==> lines[i] == []
    ensures n == |lines| ==> Fold(c, true, pin, START, lines) == START
    decreases n
  {
    if n > 0 {
      AllBlank(c, pin, lines, n - 1);
      var k: nat := n - 1;
      assert lines[k] == [];
    }
    if n == |lines| {
      BlankLinesFirst(c, pin, lines, n);
    }
  }

  lemma DecidedAt(c: Codec, pin: Option<Checksum>, lines: seq<bytes>, k: nat)
    requires k < |lines| && (forall i :: 0 <= i < k ==> lines[i] == []) && lines[k] != []
    ensures Verifies(c, pin, lines) <==> PrunedAt(c, pin, lines, k)
  {
    hide Parse, ChainFrom, Fold, StepRecord, ValidCheckpoint, LastHash;
    var l, rest := lines[k], lines[k + 1..];
    FirstLine(c, pin, lines, k);
    FailureSticks(c, true, pin, rest);
    if c.isCheckpoint(l) == Some(true) && c.ParseCheckpoint(l).Some? {
      BeginsValid(c, l);
      FoldFrom(c, pin, c.ParseCheckpoint(l).value, rest);
    } else if Step(c, true, pin, START, l).Running? && Fold(c, true, pin, Step(c, true, pin, START, l), rest).Running? {
      FirstRecord(c, pin, l);
      KeepsCheckpoint(c, pin, Step(c, true, pin, START, l), rest);
    }
  }

  lemma FirstRecord(c: Codec, pin: Option<Checksum>, l: bytes)
    requires l != [] && c.isCheckpoint(l) != Some(true) && Step(c, true, pin, START, l).Running?
    ensures Step(c, true, pin, START, l).recs != [] && Step(c, true, pin, START, l).cp.None?
  {
    hide TraceHash;
  }

  lemma BeginsValid(c: Codec, l: bytes)
    requires c.ParseCheckpoint(l).Some?
    ensures var cp := c.ParseCheckpoint(l).value;
            ValidCheckpoint(cp) && After(cp, []) == Running(cp.body.lastRemovedHash, VersionRank(cp.body.boundaryVersion).value, [], Some(cp))
  {
    hide WellFormedDigest;
  }

  /** Without a checkpoint the pruned mode accepts what the plain one accepts, and
      nothing when a checkpoint is pinned. */
  lemma UnprunedAccepted(c: Codec, stream: bytes, pin: Option<Checksum>)
    ensures var s := Replay(c, true, pin, stream);
            s.Running? && s.cp.None? && Closes(s, pin) <==> pin.None? && Intact(c, stream)
    ensures var s := Replay(c, true, None, stream);
            s.Running? && s.cp.None? ==> s == Genesis(c, stream)
  {
    hide Lines;
    SameWithout(c, START, Lines(stream));
  }

  lemma {:induction false} SameWithout(c: Codec, s: Scan, lines: seq<bytes>)
    requires s.Running? ==> s.cp.None?
    ensures var p, g := Fold(c, true, None, s, lines), Fold(c, false, None, s, lines);
            && (g.Running? ==> p == g && g.cp.None?) && (p.Running? && p.cp.None? ==> p == g)
    decreases |lines|
  {
    hide TraceHash, StepRecord;
    if lines != [] && s.Running? {
      var l := lines[0];
      FailureSticks(c, false, None, lines[1..]);
      FailureSticks(c, true, None, lines[1..]);
      var p := Step(c, true, None, s, l);
      if c.isCheckpoint(l) == Some(true) && l != [] {
        if p.Running? && Fold(c, true, None, p, lines[1..]).Running? {
          KeepsCheckpoint(c, None, p, lines[1..]);
        }
      } else {
        RecordHasNone(c, s, l);
        SameWithout(c, p, lines[1..]);
      }
    } else if s.Failed? {
      FailureSticks(c, false, None, lines);
      FailureSticks(c, true, None, lines);
    }
  }

  lemma RecordHasNone(c: Codec, s: Scan, l: bytes)
    requires s.Running? && s.cp.None? && !(c.isCheckpoint(l) == Some(true) && l != [])
    ensures Step(c, true, None, s, l) == Step(c, false, None, s, l)
    ensures Step(c, true, None, s, l).Running? ==> Step(c, true, None, s, l).cp.None?
  {
    hide TraceHash;
  }
}
