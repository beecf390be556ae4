/** Pruning in plain terms: what goes, what stays and what the checkpoint says, by
    the fields of the records and of the checkpoint. */
module PruneLaws {
  import opened Bytes
  import opened Traces
  import opened ChainVerifier
  import opened Prune

  /** The records of a log. */
  function Records(c: Codec, stream: bytes): seq<Trace> {
    if Replay(c, true, None, stream).Running? then Replay(c, true, None, stream).recs else []
  }

  /** The checkpoint it begins with. */
  function Front(c: Codec, stream: bytes): Option<StoredCheckpoint> {
    if Replay(c, true, None, stream).Running? then Replay(c, true, None, stream).cp else None
  }

  /** How many records were removed before. */
  function Before(c: Codec, stream: bytes): int {
    if Front(c, stream).Some? then Front(c, stream).value.body.removedCount else 0
  }

  /** The last n records removed end at t. */
  predicate Says(cp: StoredCheckpoint, t: Trace, count: int, cutoff: int, retained: int, tail: Hash) {
    && cp.recordType == "prune_checkpoint" && cp.version == 1
    && cp.body.removedCount == count && cp.body.lastRemovedIndex == count
    && cp.body.lastRemovedHash == t.hash && cp.body.lastRemovedTimestamp == t.core.timestamp
    && cp.body.boundaryVersion == (if t.canonicalVersion == "" then "v1" else t.canonicalVersion)
    && cp.body.cutoff == Some(cutoff) && cp.body.retainedCount == retained && cp.body.retainedTail == tail
    && cp.checksum == ChecksumOf(cp.(checksum := NoChecksum))
  }

  lemma CheckpointSays(s: Selection, cutoff: int, tail: Hash)
    requires s.Selecting? && s.last.Some?
    ensures Says(CheckpointFor(s, cutoff, tail), s.last.value, s.count, cutoff, s.retained, tail)
  {
  }

  /** What the selection of a file comes to, by where it was cut. */
  lemma SelectionIs(c: Codec, file: bytes, cutoff: int, head: bytes, body: bytes)
    requires Shape(c, cutoff, file, head, body) && Select(c, cutoff, NOTHING_YET, RawLines(file)).Selecting?
    requires Select(c, cutoff, NOTHING_YET, RawLines(file)).removed > 0
    ensures var total, cut := Replay(c, true, None, file), Fold(c, true, None, START, Lines(head));
            var s := Select(c, cutoff, NOTHING_YET, RawLines(file));
            && total.Running? && cut.Running? && 0 < |cut.recs| <= |total.recs|
            && s.last == Some(total.recs[|cut.recs| - 1]) && s.retained == |total.recs| - |cut.recs|
            && s.count == |cut.recs| + Before(c, file) && (body == [] ==> |cut.recs| == |total.recs|)
  {
    hide Lines, RawLines, Fold, Select, StartsRetained, Codec.Lawful, Replay;
    EmptyFolds(c, cutoff, Fold(c, true, None, START, Lines(head)), NOTHING_YET);
  }

  /** A pruned log: the records older than the cutoff are gone from the front, the
      first that is not and all after it stay byte for byte, and the checkpoint in
      front says how many have gone in all, which record was the last of them, how
      many follow, and up to which tail. */
  lemma PrunedSays(c: Codec, file: bytes, cutoff: int) returns (n: nat, head: bytes, body: bytes, text: bytes)
    requires c.Lawful() && PruneLog(c, file, cutoff).Pruned?
    ensures var recs, out := Records(c, file), PruneLog(c, file, cutoff).output;
            && 0 < n <= |recs|
            && (forall k :: 0 <= k < n ==> recs[k].core.timestamp.Some? && recs[k].core.timestamp.value < cutoff)
            && (n < |recs| ==> !(recs[n].core.timestamp.Some? && recs[n].core.timestamp.value < cutoff))
            && file == head + body && out == text + [10] + body && (n == |recs| <==> body == [])
            && Records(c, out) == recs[n..] && Front(c, out).Some? && c.marshalCheckpoint(Front(c, out).value) == Some(text)
            && Says(Front(c, out).value, recs[n - 1], Before(c, file) + n, cutoff, |recs| - n, Tail(c, file))
            && Tail(c, out) == Tail(c, file)
  {
    head, body := PrunedLogVerifies(c, file, cutoff);
    CheckpointIsValid(c, cutoff, file, head, body);
    CutIsExpired(c, file, cutoff, head, body);
    SelectionIs(c, file, cutoff, head, body);
    BodyHasRecords(c, file, cutoff, head, body);
    hide *;
    n := |Fold(c, true, None, START, Lines(head)).recs|;
    CheckpointSays(Select(c, cutoff, NOTHING_YET, RawLines(file)), cutoff, Tail(c, file));
    text := c.marshalCheckpoint(Replay(c, true, None, PruneLog(c, file, cutoff).output).cp.value).value;
    RecordsAre(c, file);
    RecordsAre(c, PruneLog(c, file, cutoff).output);
    PrunedRuns(c, file, cutoff);
    ExpiredIs(Records(c, file), cutoff);
  }

  lemma RecordsAre(c: Codec, stream: bytes)
    ensures Replay(c, true, None, stream).Running? ==>
              Records(c, stream) == Replay(c, true, None, stream).recs && Front(c, stream) == Replay(c, true, None, stream).cp
  {
    hide Replay;
  }

  lemma PrunedRuns(c: Codec, file: bytes, cutoff: int)
    requires PruneLog(c, file, cutoff).Pruned?
    ensures Replay(c, true, None, file).Running?
  {
    hide Replay, Select, CheckpointText, RawLines;
  }

  lemma ExpiredIs(recs: seq<Trace>, cutoff: int)
    ensures forall k :: 0 <= k < |recs| ==>
              (Expired(recs[k], cutoff) <==> recs[k].core.timestamp.Some? && recs[k].core.timestamp.value < cutoff)
  {
  }

  lemma BodyHasRecords(c: Codec, file: bytes, cutoff: int, head: bytes, body: bytes)
    requires Shape(c, cutoff, file, head, body)
    ensures body != [] ==> |Replay(c, true, None, file).recs| > |Fold(c, true, None, START, Lines(head)).recs|
  {
    hide Lines, RawLines, Fold, Select, StartsRetained, Replay;
  }

  // ----- when it does -----

  /** A verified log whose records are dated and not more than a 64-bit count can
      hold is left alone if its first record is not older than the cutoff, and
      pruned if it is, as long as the checkpoint fits the 4 MiB of a line. */
  lemma PrunesWhen(c: Codec, file: bytes, cutoff: int)
    requires c.Lawful() && Accepted(c, file)
    requires forall k :: 0 <= k < |Records(c, file)| ==> Records(c, file)[k].core.timestamp.Some?
    requires Before(c, file) + |Records(c, file)| <= 9_223_372_036_854_775_807
    ensures var recs, s := Records(c, file), Select(c, cutoff, NOTHING_YET, RawLines(file));
            if recs == [] || cutoff <= recs[0].core.timestamp.value then PruneLog(c, file, cutoff) == NothingToRemove
            else
              && s.Selecting? && s.last.Some?
              && (PruneLog(c, file, cutoff).Pruned? <==>
                  CheckpointText(c, file, s, cutoff).Some? && |CheckpointText(c, file, s, cutoff).value| <= 4_194_304)
              && (PruneLog(c, file, cutoff).Pruned? || PruneLog(c, file, cutoff).Refused?)
  {
    StillSelecting(c, cutoff, file);
    RecordsAre(c, file);
    DatedIsSelectable(c, file);
    ExpiredIs(Records(c, file), cutoff);
    hide Accepted, Replay, Select, RawLines, CheckpointText, Codec.Lawful, Expired, Records, PruneLog;
    PrunesExactlyWhenFirstIsExpired(c, file, cutoff);
  }

  lemma DatedIsSelectable(c: Codec, file: bytes)
    requires Replay(c, true, None, file).Running?
    requires forall k :: 0 <= k < |Records(c, file)| ==> Records(c, file)[k].core.timestamp.Some?
    requires Before(c, file) + |Records(c, file)| <= 9_223_372_036_854_775_807
    ensures Selectable(Replay(c, true, None, file))
  {
    hide Replay;
  }

  predicate AllDated(recs: seq<Trace>) {
    forall k :: 0 <= k < |recs| ==> recs[k].core.timestamp.Some?
  }

  lemma OneDated(c: Codec, cutoff: int, scan: Scan, s: Selection, raw: bytes, line: bytes)
    requires scan.Running? && s.Selecting? && Step(c, true, None, scan, line).Running? && AllDated(scan.recs)
    requires c.unmarshal(raw) == c.unmarshal(line) && c.isCheckpoint(raw) == c.isCheckpoint(line)
    requires Blank(raw) ==> line == [] || c.isCheckpoint(line) == None
    requires SelectOne(c, cutoff, s, raw).Selecting?
    ensures AllDated(Step(c, true, None, scan, line).recs)
  {
  }

  lemma {:induction false} SelectedAreDated(c: Codec, cutoff: int, scan: Scan, s: Selection, rest: bytes)
    requires c.Lawful() && scan.Running? && s.Selecting? && AllDated(scan.recs)
    requires Fold(c, true, None, scan, Lines(rest)).Running? && Select(c, cutoff, s, RawLines(rest)).Selecting?
    ensures AllDated(Fold(c, true, None, scan, Lines(rest)).recs)
    decreases |rest|
  {
    if rest == [] {
      EmptyFolds(c, cutoff, scan, s);
    } else {
      hide *;
      var raw, line, more := FirstRaw(c, rest);
      FoldFirst(c, scan, line, Lines(more));
      SelectFirst(c, cutoff, s, raw, RawLines(more));
      OneDated(c, cutoff, scan, s, raw, line);
      SelectedAreDated(c, cutoff, Step(c, true, None, scan, line), SelectOne(c, cutoff, s, raw), more);
    }
  }

  /** Otherwise it is refused: a log that does not verify, and one with a record
      that has no time. */
  lemma RefusesWhen(c: Codec, file: bytes, cutoff: int)
    requires c.Lawful()
    requires !Accepted(c, file) || exists k :: 0 <= k < |Records(c, file)| && Records(c, file)[k].core.timestamp.None?
    ensures PruneLog(c, file, cutoff) == Refused
  {
    if Accepted(c, file) && Select(c, cutoff, NOTHING_YET, RawLines(file)).Selecting? {
      StillSelecting(c, cutoff, file);
      RecordsAre(c, file);
      SelectedAreDated(c, cutoff, START, NOTHING_YET, file);
    } else {
      hide Accepted, Select, RawLines, Replay;
    }
  }

  /** The count of a 64-bit integer is not exceeded: one more is refused. */
  lemma FullCountIsRefused(c: Codec, cutoff: int, s: Selection, raw: bytes, t: Trace)
    requires s.Selecting? && s.kept.None? && s.count == 9_223_372_036_854_775_807
    requires (exists k :: 0 <= k < |raw| && raw[k] != 10 && raw[k] != 13) && c.isCheckpoint(raw) == Some(false)
    requires c.unmarshal(raw) == Some(t) && t.core.timestamp.Some? && t.core.timestamp.value < cutoff
    ensures SelectOne(c, cutoff, s, raw) == Rejected
  {
  }
}
