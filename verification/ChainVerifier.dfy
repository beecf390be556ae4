/** The streaming chain verifier (pkg/audit/streaming.go). */
module ChainVerifier {
  import opened Bytes
  import opened Traces

  /** State of the scan loop after some lines. `recs` are the records accepted so
      far; the loop itself only keeps their number. */
  datatype Scan =
    | Running(prev: Hash, rank: nat, recs: seq<Trace>, cp: Option<StoredCheckpoint>)
    | Failed

  const START := Running(NoHash, 0, [], None)

  /** One iteration of the scan loop. */
  function Step(c: Codec, allowPruned: bool, pin: Option<Checksum>, s: Scan, line: bytes): Scan {
    if s.Failed? then Failed
    else if |line| > MAX_RECORD_BYTES then Failed
    else if line == [] then s
    else match c.isCheckpoint(line)
      case None => Failed
      case Some(true) => StepCheckpoint(c, allowPruned, pin, s, line)
      case Some(false) =>
        if s.cp.None? && pin.Some? then Failed
        else match c.unmarshal(line)
          case None => Failed
          case Some(t) => StepRecord(s, t)
  }

  function StepCheckpoint(c: Codec, allowPruned: bool, pin: Option<Checksum>, s: Scan, line: bytes): Scan
    requires s.Running?
  {
    if s.cp.Some? || s.recs != [] || !allowPruned then Failed
    else match c.ParseCheckpoint(line)
      case None => Failed
      case Some(cp) =>
        if pin.Some? && cp.checksum != pin.value then Failed
        else Running(cp.body.lastRemovedHash, VersionRank(cp.body.boundaryVersion).value, [], Some(cp))
  }

  function StepRecord(s: Scan, t: Trace): Scan
    requires s.Running?
  {
    var rank := VersionRank(EffectiveVersion(t));
    if rank.Some? && rank.value < s.rank then Failed
    else
      var newRank := if rank.Some? && rank.value > s.rank then rank.value else s.rank;
      if s.recs == [] && s.cp.None? && t.prev != NoHash then Failed
      else if (s.cp.Some? || s.recs != []) && t.prev != s.prev then Failed
      else match TraceHash(t)
        case None => Failed
        case Some(want) => if t.hash != want then Failed else Running(t.hash, newRank, s.recs + [t], s.cp)
  }

  function Fold(c: Codec, allowPruned: bool, pin: Option<Checksum>, s: Scan, lines: seq<bytes>): Scan
    decreases |lines|
  {
    if lines == [] then s
    else Fold(c, allowPruned, pin, Step(c, allowPruned, pin, s, lines[0]), lines[1..])
  }

  datatype Report = Report(pruned: bool, intact: bool, records: nat, tail: Hash, failedLine: nat)

  /** The final checks, once the stream has ended without a bad line. */
  predicate Closes(s: Scan, pin: Option<Checksum>)
    requires s.Running?
  {
    if s.cp.None? then pin.None?
    else |s.recs| == s.cp.value.body.retainedCount && s.prev == s.cp.value.body.retainedTail
  }

  lemma {:induction false} FoldConcat(c: Codec, allow: bool, pin: Option<Checksum>, s: Scan, a: seq<bytes>, b: seq<bytes>)
    ensures Fold(c, allow, pin, s, a + b) == Fold(c, allow, pin, Fold(c, allow, pin, s, a), b)
    decreases |a|
  {
    if a == [] {
      assert a + b == b;
    } else {
      assert (a + b)[0] == a[0] && (a + b)[1..] == a[1..] + b;
      FoldConcat(c, allow, pin, Step(c, allow, pin, s, a[0]), a[1..], b);
    }
  }

  lemma FoldOne(c: Codec, allow: bool, pin: Option<Checksum>, s: Scan, l: bytes)
    ensures Fold(c, allow, pin, s, [l]) == Step(c, allow, pin, s, l)
  {
    assert [l][1..] == [];
  }

  lemma {:induction false} FailureSticks(c: Codec, allow: bool, pin: Option<Checksum>, lines: seq<bytes>)
    ensures Fold(c, allow, pin, Failed, lines) == Failed
    decreases |lines|
  {
    if lines != [] {
      FailureSticks(c, allow, pin, lines[1..]);
    }
  }

  lemma FoldNothing(c: Codec, allow: bool, pin: Option<Checksum>, s: Scan)
    ensures Fold(c, allow, pin, s, []) == s
  {
  }

  lemma LinesOfNothing()
    ensures Lines([]) == []
  {
  }

  /** The scan of a whole stream. */
  function Replay(c: Codec, allow: bool, pin: Option<Checksum>, stream: bytes): Scan {
    Fold(c, allow, pin, START, Lines(stream))
  }

  /** VerifyChainFromReader and VerifyPrunedChainFromReader. failedLine is the
      1-based line the report blames. */
  method VerifyChain(c: Codec, stream: bytes, allowPruned: bool, pin: Option<Checksum>) returns (rep: Report)
    ensures rep.intact <==>
            var s := Replay(c, allowPruned, pin, stream); s.Running? && Closes(s, pin)
    ensures rep.intact ==>
            var s := Replay(c, allowPruned, pin, stream);
            rep.records == |s.recs| && rep.tail == s.prev && rep.pruned == s.cp.Some?
    ensures !rep.intact ==>
            var all := Lines(stream);
            rep.tail == NoHash &&
            if Replay(c, allowPruned, pin, stream).Running? then
              rep.failedLine == |all| && rep.records == |Replay(c, allowPruned, pin, stream).recs|
            else
              && 1 <= rep.failedLine <= |all|
              && Fold(c, allowPruned, pin, START, all[..rep.failedLine - 1]).Running?
              && rep.records == |Fold(c, allowPruned, pin, START, all[..rep.failedLine - 1]).recs|
              && Fold(c, allowPruned, pin, START, all[..rep.failedLine]).Failed?
  {
    hide Lines, Fold, FirstLF, Project;
    var prev, rank, records, cp := NoHash, 0, 0, None;
    var line, rest, pruned := 0, stream, false;
    ghost var all := Lines(stream);
    ghost var s := START;
    assert all[..0] == [];
    FoldNothing(c, allowPruned, pin, START);
    LinesOfNothing();
    while rest != []
      invariant s.Running? && s.prev == prev && s.rank == rank && |s.recs| == records && s.cp == cp
      invariant line <= |all| && Lines(rest) == all[line..]
      invariant s == Fold(c, allowPruned, pin, START, all[..line])
      invariant pruned == cp.Some?
      decreases |rest|
    {
      var i := FirstLF(rest);
      var raw := DropCR(rest[..i]);
      ghost var next := Step(c, allowPruned, pin, s, raw);
      LineConsumed(c, allowPruned, pin, s, stream, rest, line);
      line := line + 1;
      rest := if i < |rest| then rest[i + 1..] else [];
      if |raw| > MAX_RECORD_BYTES {
        return Report(pruned, false, records, NoHash, line);
      }
      if raw != [] {
        var isCheckpoint := c.isCheckpoint(raw);
        if isCheckpoint.None? {
          return Report(pruned, false, records, NoHash, line);
        }
        if isCheckpoint.value {
          if cp.Some? || records != 0 {
            return Report(pruned, false, records, NoHash, line);
          }
          pruned := true;
          if !allowPruned {
            return Report(pruned, false, records, NoHash, line);
          }
          var parsed := c.ParseCheckpoint(raw);
          if parsed.None? || (pin.Some? && parsed.value.checksum != pin.value) {
            return Report(pruned, false, records, NoHash, line);
          }
          cp := parsed;
          prev := parsed.value.body.lastRemovedHash;
          rank := VersionRank(parsed.value.body.boundaryVersion).value;
        } else {
          if cp.None? && pin.Some? {
            return Report(pruned, false, records, NoHash, line);
          }
          var t := c.unmarshal(raw);
          if t.None? {
            return Report(pruned, false, records, NoHash, line);
          }
          var version := VersionRank(EffectiveVersion(t.value));
          if version.Some? {
            if version.value < rank {
              return Report(pruned, false, records, NoHash, line);
            }
            rank := version.value;
          }
          if records == 0 && cp.None? && t.value.prev != NoHash {
            return Report(pruned, false, records, NoHash, line);
          }
          if (cp.Some? || records > 0) && t.value.prev != prev {
            return Report(pruned, false, records, NoHash, line);
          }
          var want := TraceHash(t.value);
          if want.None? || t.value.hash != want.value {
            return Report(pruned, false, records, NoHash, line);
          }
          prev := t.value.hash;
          records := records + 1;
        }
      }
      s := next;
    }
    assert all[..line] == all;
    if cp.None? && pin.Some? {
      return Report(pruned, false, records, NoHash, line);
    }
    if cp.Some? && (records != cp.value.body.retainedCount || prev != cp.value.body.retainedTail) {
      return Report(pruned, false, records, NoHash, line);
    }
    return Report(pruned, true, records, prev, 0);
  }

  /** The next line of the stream is the first line of what is left of it. */
  lemma NextLine(rest: bytes, all: seq<bytes>, line: nat)
    requires rest != [] && line <= |all| && Lines(rest) == all[line..]
    ensures var i := FirstLF(rest);
            && line < |all| && all[line] == DropCR(rest[..i])
            && Lines(if i < |rest| then rest[i + 1..] else []) == all[line + 1..]
  {
    var i := FirstLF(rest);
    assert i == |rest| ==> rest[..i] == rest;
    assert Lines(rest)[0] == DropCR(rest[..i]);
    assert all[line..][1..] == all[line + 1..];
  }

  /** Folding up to one line further is one more step. */
  lemma FoldSnoc(c: Codec, allow: bool, pin: Option<Checksum>, s: Scan, all: seq<bytes>, line: nat)
    requires line < |all|
    ensures Fold(c, allow, pin, s, all[..line + 1]) == Step(c, allow, pin, Fold(c, allow, pin, s, all[..line]), all[line])
  {
    assert all[..line + 1] == all[..line] + [all[line]];
    FoldConcat(c, allow, pin, s, all[..line], [all[line]]);
    FoldOne(c, allow, pin, Fold(c, allow, pin, s, all[..line]), all[line]);
  }

  /** A stream with a failing prefix fails. */
  lemma FailedPrefix(c: Codec, allow: bool, pin: Option<Checksum>, s: Scan, all: seq<bytes>, line: nat)
    requires line <= |all| && Fold(c, allow, pin, s, all[..line]).Failed?
    ensures Fold(c, allow, pin, s, all).Failed?
  {
    assert all == all[..line] + all[line..];
    FoldConcat(c, allow, pin, s, all[..line], all[line..]);
    FailureSticks(c, allow, pin, all[line..]);
  }

  lemma LineConsumed(c: Codec, allow: bool, pin: Option<Checksum>, s: Scan, stream: bytes, rest: bytes, line: nat)
    requires rest != [] && line <= |Lines(stream)| && Lines(rest) == Lines(stream)[line..]
    requires s == Fold(c, allow, pin, START, Lines(stream)[..line])
    ensures line < |Lines(stream)|
    ensures var i := FirstLF(rest);
            var next := Step(c, allow, pin, s, DropCR(rest[..i]));
            && Lines(if i < |rest| then rest[i + 1..] else []) == Lines(stream)[line + 1..]
            && next == Fold(c, allow, pin, START, Lines(stream)[..line + 1])
            && (next.Failed? ==> Replay(c, allow, pin, stream).Failed?)
  {
    hide Lines, Fold, Step;
    NextLine(rest, Lines(stream), line);
    FoldSnoc(c, allow, pin, START, Lines(stream), line);
    if Fold(c, allow, pin, START, Lines(stream)[..line + 1]).Failed? {
      FailedPrefix(c, allow, pin, START, Lines(stream), line + 1);
    }
  }
}
