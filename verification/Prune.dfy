/** tg prune (cmd/tg/prune.go): cut the expired prefix of a closed log and put a
    checkpoint in its place. */
module Prune {
  import opened Bytes
  import opened Traces
  import opened ChainVerifier
  import opened ChainTheory

  /** pruneRawLines: how far the next token reaches, delimiter included. */
  function RawLength(s: bytes): (n: nat)
    ensures n <= |s| && (s != [] ==> n > 0)
  {
    var i := FirstLF(s);
    if i < |s| then i + 1 else |s|
  }

  function RawLines(s: bytes): seq<bytes>
    decreases |s|
  {
    if s == [] then [] else [s[..RawLength(s)]] + RawLines(s[RawLength(s)..])
  }

  /** Nothing but line delimiters: bytes.TrimRight(raw, "\r\n") is empty. */
  predicate Blank(raw: bytes) {
    forall k :: 0 <= k < |raw| ==> raw[k] == CR || raw[k] == LF
  }

  const MAX_COUNT := 0x7FFF_FFFF_FFFF_FFFF

  /** The variables of the selection loop. `kept` is the retained suffix so far,
      once it has begun; `last` the newest removed record. */
  datatype Selection =
    | Selecting(count: int, removed: nat, last: Option<Trace>, retained: nat, kept: Option<bytes>)
    | Rejected

  const NOTHING_YET := Selecting(0, 0, None, 0, None)

  function Keep(s: Selection, raw: bytes): Selection
    requires s.Selecting?
  {
    if s.kept.Some? then s.(kept := Some(s.kept.value + raw)) else s
  }

  /** What one raw line is to the selection. */
  datatype Line = Unreadable | Skipped | Prior(count: int) | Record(trace: Trace)

  function Read(c: Codec, raw: bytes): Line {
    if Blank(raw) then Skipped
    else match c.isCheckpoint(raw)
      case None => Unreadable
      case Some(true) =>
        (match c.ParseCheckpoint(raw)
         case None => Unreadable
         case Some(prior) => Prior(prior.body.removedCount))
      case Some(false) =>
        match c.unmarshal(raw)
        case None => Unreadable
        case Some(t) => if t.core.timestamp.None? then Unreadable else Record(t)
  }

  function SelectOne(c: Codec, cutoff: int, s: Selection, raw: bytes): Selection {
    if s.Rejected? then Rejected
    else match Read(c, raw)
      case Unreadable => Rejected
      case Skipped => Keep(s, raw)
      case Prior(count) => Keep(s.(count := count), raw)
      case Record(t) =>
        if s.kept.None? && t.core.timestamp.value < cutoff then
          if s.count == MAX_COUNT then Rejected
          else s.(count := s.count + 1, removed := s.removed + 1, last := Some(t))
        else
          s.(retained := s.retained + 1, kept := Some((if s.kept.Some? then s.kept.value else []) + raw))
  }

  function Select(c: Codec, cutoff: int, s: Selection, raws: seq<bytes>): Selection
    decreases |raws|
  {
    if raws == [] then s else Select(c, cutoff, SelectOne(c, cutoff, s, raws[0]), raws[1..])
  }

  /** The checkpoint written for a selection. */
  function CheckpointFor(s: Selection, cutoff: int, tail: Hash): StoredCheckpoint
    requires s.Selecting? && s.last.Some?
  {
    var t := s.last.value;
    var body := Checkpoint(s.count, s.count, t.hash, t.core.timestamp, EffectiveVersion(t), Some(cutoff), s.retained, tail);
    var unsigned := StoredCheckpoint("prune_checkpoint", 1, body, NoChecksum);
    unsigned.(checksum := ChecksumFor(unsigned))
  }

  datatype Outcome = Refused | NothingToRemove | Pruned(output: bytes)

  predicate Accepted(c: Codec, stream: bytes) {
    Replay(c, true, None, stream).Running? && Closes(Replay(c, true, None, stream), None)
  }

  function Tail(c: Codec, stream: bytes): Hash {
    if Replay(c, true, None, stream).Running? then Replay(c, true, None, stream).prev else NoHash
  }

  function CheckpointText(c: Codec, file: bytes, s: Selection, cutoff: int): Option<bytes>
    requires s.Selecting? && s.last.Some?
  {
    c.marshalCheckpoint(CheckpointFor(s, cutoff, Tail(c, file)))
  }

  /** pruneFile: verify, select, write, and verify what was written. */
  function PruneLog(c: Codec, file: bytes, cutoff: int): Outcome {
    if !Accepted(c, file) then Refused
    else
      var s := Select(c, cutoff, NOTHING_YET, RawLines(file));
      if s.Rejected? then Refused
      else if s.removed == 0 || s.last.None? then NothingToRemove
      else
        match CheckpointText(c, file, s, cutoff)
        case None => Refused
        case Some(m) =>
          var output := m + [LF] + (if s.kept.Some? then s.kept.value else []);
          if Accepted(c, output) then Pruned(output) else Refused
  }

  // ----- raw lines -----

  lemma RawSplit(l: bytes, rest: bytes)
    requires Unbroken(l)
    ensures RawLines(l + [LF] + rest) == [l + [LF]] + RawLines(rest)
  {
    hide Lines;
    LineThenRest(l, rest);
    var s := l + [LF] + rest;
    assert s[..|l| + 1] == l + [LF] && s[|l| + 1..] == rest;
  }

  lemma RawLast(l: bytes)
    requires Unbroken(l)
    ensures RawLines(l) == if l == [] then [] else [l]
  {
    if l != [] {
      assert FirstLF(l) == |l| && l[|l|..] == [] && l[..|l|] == l;
    }
  }

  lemma {:induction false} SelectConcat(c: Codec, cutoff: int, s: Selection, a: seq<bytes>, b: seq<bytes>)
    ensures Select(c, cutoff, s, a + b) == Select(c, cutoff, Select(c, cutoff, s, a), b)
    decreases |a|
  {
    if a == [] {
      assert a + b == b;
    } else {
      assert (a + b)[0] == a[0] && (a + b)[1..] == a[1..] + b;
      SelectConcat(c, cutoff, SelectOne(c, cutoff, s, a[0]), a[1..], b);
    }
  }

  lemma {:induction false} RejectedStays(c: Codec, cutoff: int, raws: seq<bytes>)
    ensures Select(c, cutoff, Rejected, raws) == Rejected
    decreases |raws|
  {
    if raws != [] {
      RejectedStays(c, cutoff, raws[1..]);
    }
  }

  /** raw is the whole of `line` with its delimiter, if it has one. */
  ghost predicate RawOf(c: Codec, raw: bytes, line: bytes) {
    && raw != []
    && ((exists l :: Unbroken(l) && raw == l + [LF] && line == DropCR(l)) || (Unbroken(raw) && line == DropCR(raw)))
  }

  lemma RawThen(c: Codec, raw: bytes, line: bytes, rest: bytes)
    requires RawOf(c, raw, line) && (rest == [] || Terminated(raw))
    ensures RawLines(raw + rest) == [raw] + RawLines(rest) && Lines(raw + rest) == [line] + Lines(rest)
  {
    if Unbroken(raw) {
      assert raw[|raw| - 1] != LF;
      assert raw + rest == raw;
      RawLast(raw);
      LastLine(raw);
    } else {
      var l :| Unbroken(l) && raw == l + [LF] && line == DropCR(l);
      RawSplit(l, rest);
      LineThenRest(l, rest);
    }
  }

  /** The first raw line of a stream is its first line with the delimiter, which
      changes nothing about how it parses. */
  lemma FirstRaw(c: Codec, s: bytes) returns (raw: bytes, line: bytes, rest: bytes)
    requires c.Lawful() && s != []
    ensures s == raw + rest && RawOf(c, raw, line) && (rest == [] || Terminated(raw)) && |rest| < |s|
    ensures RawLines(s) == [raw] + RawLines(rest) && Lines(s) == [line] + Lines(rest)
    ensures c.unmarshal(raw) == c.unmarshal(line) && c.isCheckpoint(raw) == c.isCheckpoint(line)
            && c.decodeCheckpoint(raw) == c.decodeCheckpoint(line)
    ensures line == [] ==> Blank(raw)
    ensures Blank(raw) ==> line == [] || c.isCheckpoint(line) == None
  {
    var i := FirstLF(s);
    var l := s[..i];
    line := DropCR(l);
    c.DropCRIsIgnored(l);
    if i < |s| {
      raw, rest := s[..i + 1], s[i + 1..];
      assert raw == l + [LF];
      assert s == l + [LF] + rest;
      RawSplit(l, rest);
      LineThenRest(l, rest);
    } else {
      raw, rest := s, [];
      assert l == s;
      RawLast(s);
      LastLine(s);
    }
    BlankLines(c, l, raw);
  }

  lemma BlankLines(c: Codec, l: bytes, raw: bytes)
    requires c.Lawful() && Unbroken(l) && (raw == l + [LF] || raw == l)
    ensures DropCR(l) == [] ==> Blank(raw)
    ensures Blank(raw) ==> DropCR(l) == [] || c.isCheckpoint(DropCR(l)) == None
  {
    if Blank(raw) {
      forall k | 0 <= k < |l|
        ensures l[k] == CR
      {
        assert raw[k] == l[k];
      }
      CarriageReturns(c, DropCR(l));
    }
  }

  lemma {:induction false} CarriageReturns(c: Codec, l: bytes)
    requires c.Lawful() && forall k :: 0 <= k < |l| ==> l[k] == CR
    ensures c.isCheckpoint(l) == None
    decreases |l|
  {
    if l != [] {
      var n := |l| - 1;
      assert l == l[..n] + [CR];
      CarriageReturns(c, l[..n]);
    }
  }

  // ----- the scan and the selection side by side -----

  predicate Expired(t: Trace, cutoff: int) {
    t.core.timestamp.Some? && t.core.timestamp.value < cutoff
  }

  /** The verifier accepted one more record, and it is not expired. */
  ghost predicate Retains(cutoff: int, scan: Scan, scan1: Scan) {
    && scan.Running? && scan1.Running? && scan1.cp == scan.cp
    && |scan1.recs| == |scan.recs| + 1 && IsPrefix(scan.recs, scan1.recs) && !Expired(scan1.recs[|scan.recs|], cutoff)
  }

  /** While nothing is retained yet, the selection has removed exactly the records
      the verifier has accepted. */
  ghost predicate InStep(cutoff: int, scan: Scan, s: Selection) {
    && scan.Running? && s.Selecting? && s.kept.None? && s.retained == 0
    && s.removed == |scan.recs|
    && s.count == s.removed + (if scan.cp.Some? then scan.cp.value.body.removedCount else 0)
    && (scan.cp.Some? ==> ValidCheckpoint(scan.cp.value))
    && (scan.recs == [] ==> s.last.None?)
    && (scan.recs != [] ==>
          var t := scan.recs[|scan.recs| - 1];
          && s.last == Some(t) && TraceHash(t) == Some(t.hash)
          && scan.prev == t.hash && scan.rank == Rank(t)
          && t.core.timestamp.Some? && t.core.timestamp.value < cutoff)
    && (forall k :: 0 <= k < |scan.recs| ==> Expired(scan.recs[k], cutoff))
  }

  /** One raw line: the selection goes on removing, or this record is the first it
      retains. */
  lemma OneInStep(c: Codec, cutoff: int, scan: Scan, s: Selection, raw: bytes, line: bytes)
    requires InStep(cutoff, scan, s)
    requires c.unmarshal(raw) == c.unmarshal(line) && c.isCheckpoint(raw) == c.isCheckpoint(line) && c.decodeCheckpoint(raw) == c.decodeCheckpoint(line)
    requires (line == [] ==> Blank(raw)) && (Blank(raw) ==> line == [] || c.isCheckpoint(line) == None)
    requires Step(c, true, None, scan, line).Running? && SelectOne(c, cutoff, s, raw).Selecting?
    ensures var scan', s' := Step(c, true, None, scan, line), SelectOne(c, cutoff, s, raw);
            if s'.kept.None? then InStep(cutoff, scan', s')
            else s' == s.(retained := 1, kept := Some(raw)) && Retains(cutoff, scan, scan')
  {
    hide InStep, Step, SelectOne, Retains;
    if line == [] {
      BlankInStep(c, cutoff, scan, s, raw, line);
    } else if c.isCheckpoint(line) == Some(true) {
      CheckpointInStep(c, cutoff, scan, s, raw, line);
    } else {
      RecordInStep(c, cutoff, scan, s, raw, line);
    }
  }

  lemma BlankInStep(c: Codec, cutoff: int, scan: Scan, s: Selection, raw: bytes, line: bytes)
    requires InStep(cutoff, scan, s)
    requires c.unmarshal(raw) == c.unmarshal(line) && c.isCheckpoint(raw) == c.isCheckpoint(line) && c.decodeCheckpoint(raw) == c.decodeCheckpoint(line)
    requires (line == [] ==> Blank(raw)) && (Blank(raw) ==> line == [] || c.isCheckpoint(line) == None)
    requires Step(c, true, None, scan, line).Running? && SelectOne(c, cutoff, s, raw).Selecting?
    requires line == []
    ensures var scan', s' := Step(c, true, None, scan, line), SelectOne(c, cutoff, s, raw);
            if s'.kept.None? then InStep(cutoff, scan', s')
            else s' == s.(retained := 1, kept := Some(raw)) && Retains(cutoff, scan, scan')
  {
  }

  lemma CheckpointInStep(c: Codec, cutoff: int, scan: Scan, s: Selection, raw: bytes, line: bytes)
    requires InStep(cutoff, scan, s)
    requires c.unmarshal(raw) == c.unmarshal(line) && c.isCheckpoint(raw) == c.isCheckpoint(line) && c.decodeCheckpoint(raw) == c.decodeCheckpoint(line)
    requires (line == [] ==> Blank(raw)) && (Blank(raw) ==> line == [] || c.isCheckpoint(line) == None)
    requires Step(c, true, None, scan, line).Running? && SelectOne(c, cutoff, s, raw).Selecting?
    requires line != [] && c.isCheckpoint(line) == Some(true)
    ensures var scan', s' := Step(c, true, None, scan, line), SelectOne(c, cutoff, s, raw);
            if s'.kept.None? then InStep(cutoff, scan', s')
            else s' == s.(retained := 1, kept := Some(raw)) && Retains(cutoff, scan, scan')
  {
    hide StepRecord;
  }

  lemma RecordInStep(c: Codec, cutoff: int, scan: Scan, s: Selection, raw: bytes, line: bytes)
    requires InStep(cutoff, scan, s)
    requires c.unmarshal(raw) == c.unmarshal(line) && c.isCheckpoint(raw) == c.isCheckpoint(line) && c.decodeCheckpoint(raw) == c.decodeCheckpoint(line)
    requires (line == [] ==> Blank(raw)) && (Blank(raw) ==> line == [] || c.isCheckpoint(line) == None)
    requires Step(c, true, None, scan, line).Running? && SelectOne(c, cutoff, s, raw).Selecting?
    requires line != [] && c.isCheckpoint(line) != Some(true)
    ensures var scan', s' := Step(c, true, None, scan, line), SelectOne(c, cutoff, s, raw);
            if s'.kept.None? then InStep(cutoff, scan', s')
            else s' == s.(retained := 1, kept := Some(raw)) && Retains(cutoff, scan, scan')
  {
    InStepBegins(cutoff, scan, s);
    hide StepCheckpoint, ValidCheckpoint, InStep, Retains, StepRecord, Blank;
    var t := c.unmarshal(line).value;
    if t.core.timestamp.value < cutoff {
      ExpiredInStep(cutoff, scan, s, t);
    } else {
      assert [] + raw == raw;
      RetainedInStep(cutoff, scan, s, t);
    }
  }

  lemma InStepBegins(cutoff: int, scan: Scan, s: Selection)
    requires InStep(cutoff, scan, s)
    ensures scan.Running? && s.Selecting? && s.kept.None? && s.retained == 0
  {
  }

  lemma ExpiredInStep(cutoff: int, scan: Scan, s: Selection, t: Trace)
    requires InStep(cutoff, scan, s) && StepRecord(scan, t).Running? && Expired(t, cutoff)
    ensures InStep(cutoff, StepRecord(scan, t), s.(count := s.count + 1, removed := s.removed + 1, last := Some(t)))
  {
    hide ValidCheckpoint;
    var recs := scan.recs + [t];
    assert forall k :: 0 <= k < |scan.recs| ==> recs[k] == scan.recs[k];
    assert recs[|scan.recs|] == t;
  }

  lemma RetainedInStep(cutoff: int, scan: Scan, s: Selection, t: Trace)
    requires InStep(cutoff, scan, s) && StepRecord(scan, t).Running? && t.core.timestamp.Some? && !Expired(t, cutoff)
    ensures Retains(cutoff, scan, StepRecord(scan, t))
  {
    hide ValidCheckpoint, Project;
  }

  /** Verifier states that will accept exactly the same continuation. */
  predicate Linking(scan: Scan) {
    scan.Running? && (scan.cp.Some? || scan.recs != [])
  }

  lemma {:induction false} SameContinuation(c: Codec, a: Scan, b: Scan, lines: seq<bytes>)
    requires Linking(a) && b.Running? && b.cp.Some? && a.prev == b.prev && a.rank == b.rank
    requires Fold(c, true, None, a, lines).Running?
    ensures var r := Fold(c, true, None, a, lines);
            && IsPrefix(a.recs, r.recs) && r.cp == a.cp
            && Fold(c, true, None, b, lines) == Running(r.prev, r.rank, b.recs + r.recs[|a.recs|..], b.cp)
    decreases |lines|
  {
    if lines != [] {
      var a1, b1 := Step(c, true, None, a, lines[0]), Step(c, true, None, b, lines[0]);
      FailureSticks(c, true, None, lines[1..]);
      assert a1.recs == a.recs || (|a1.recs| == |a.recs| + 1 && a1.recs[..|a.recs|] == a.recs && b1.recs == b.recs + [a1.recs[|a.recs|]]);
      SameContinuation(c, a1, b1, lines[1..]);
      var r := Fold(c, true, None, a, lines);
      SplitTail(a.recs, a1.recs, b.recs, b1.recs, r.recs);
    } else {
      assert a.recs[|a.recs|..] == [];
      assert b.recs + [] == b.recs;
    }
  }

  lemma SplitTail(a: seq<Trace>, a1: seq<Trace>, b: seq<Trace>, b1: seq<Trace>, r: seq<Trace>)
    requires (a1 == a && b1 == b) || (|a1| == |a| + 1 && a1[..|a|] == a && b1 == b + [a1[|a|]])
    requires |a1| <= |r| && (|a1| == |a| + 1 ==> r[|a|] == a1[|a|])
    ensures b1 + r[|a1|..] == b + r[|a|..]
  {
    if |a1| == |a| + 1 {
      assert r[|a|..] == [r[|a|]] + r[|a1|..];
    }
  }

  /** Where a selection stops removing: `head` is everything removed, `body`
      starts with the first retained record. */
  ghost predicate CutAt(c: Codec, cutoff: int, scan: Scan, s: Selection, head: bytes, body: bytes) {
    && (body == [] || Terminated(head))
    && Lines(head + body) == Lines(head) + Lines(body)
    && RawLines(head + body) == RawLines(head) + RawLines(body)
    && InStep(cutoff, Fold(c, true, None, scan, Lines(head)), Select(c, cutoff, s, RawLines(head)))
    && (body != [] ==> StartsRetained(c, cutoff, Fold(c, true, None, scan, Lines(head)), Select(c, cutoff, s, RawLines(head)), body))
  }

  /** The first line of `body` is a record that is kept. */
  ghost predicate StartsRetained(c: Codec, cutoff: int, scan: Scan, s: Selection, body: bytes) {
    && s.Selecting? && body != []
    && var raw, line := RawLines(body)[0], Lines(body)[0];
       && SelectOne(c, cutoff, s, raw) == s.(retained := 1, kept := Some(raw))
       && Retains(cutoff, scan, Step(c, true, None, scan, line))
  }

  lemma FoldFirst(c: Codec, s: Scan, line: bytes, rest: seq<bytes>)
    ensures Fold(c, true, None, s, [line] + rest) == Fold(c, true, None, Step(c, true, None, s, line), rest)
    ensures Fold(c, true, None, s, [line] + rest).Running? ==> Step(c, true, None, s, line).Running?
  {
    var all := [line] + rest;
    assert all[0] == line && all[1..] == rest;
    FailureSticks(c, true, None, rest);
  }

  lemma SelectFirst(c: Codec, cutoff: int, s: Selection, raw: bytes, rest: seq<bytes>)
    ensures Select(c, cutoff, s, [raw] + rest) == Select(c, cutoff, SelectOne(c, cutoff, s, raw), rest)
    ensures Select(c, cutoff, s, [raw] + rest).Selecting? ==> SelectOne(c, cutoff, s, raw).Selecting?
  {
    var all := [raw] + rest;
    assert all[0] == raw && all[1..] == rest;
    RejectedStays(c, cutoff, rest);
  }

  lemma {:induction false} FindCut(c: Codec, cutoff: int, scan: Scan, s: Selection, rest: bytes) returns (head: bytes, body: bytes)
    requires c.Lawful() && InStep(cutoff, scan, s)
    requires Fold(c, true, None, scan, Lines(rest)).Running? && Select(c, cutoff, s, RawLines(rest)).Selecting?
    ensures rest == head + body && CutAt(c, cutoff, scan, s, head, body)
    decreases |rest|
  {
    if rest == [] {
      head, body := [], [];
      NothingCut(c, cutoff, scan, s);
    } else {
      hide Lines, RawLines, Fold, Select, Step, SelectOne, FirstLF, Codec.Lawful, InStep, CutAt, RawOf, Terminated,
           Blank, StartsRetained;
      var raw, line, more := FirstRaw(c, rest);
      FoldFirst(c, scan, line, Lines(more));
      SelectFirst(c, cutoff, s, raw, RawLines(more));
      OneInStep(c, cutoff, scan, s, raw, line);
      var scan1, s1 := Step(c, true, None, scan, line), SelectOne(c, cutoff, s, raw);
      if s1.kept.None? {
        head, body := FindCut(c, cutoff, scan1, s1, more);
        CutLater(c, cutoff, scan, s, raw, line, head, body);
        head := PutBack(raw, head, body, rest);
      } else {
        head, body := [], rest;
        CutHere(c, cutoff, scan, s, raw, line, rest);
        assert [] + rest == rest;
      }
    }
  }

  lemma PutBack(raw: bytes, head: bytes, body: bytes, rest: bytes) returns (longer: bytes)
    requires rest == raw + (head + body)
    ensures longer == raw + head && rest == longer + body
  {
    longer := raw + head;
  }

  lemma NothingCut(c: Codec, cutoff: int, scan: Scan, s: Selection)
    requires InStep(cutoff, scan, s)
    ensures CutAt(c, cutoff, scan, s, [], [])
  {
  }

  lemma CutHere(c: Codec, cutoff: int, scan: Scan, s: Selection, raw: bytes, line: bytes, rest: bytes)
    requires InStep(cutoff, scan, s) && rest != []
    requires Lines(rest) != [] && Lines(rest)[0] == line && RawLines(rest) != [] && RawLines(rest)[0] == raw
    requires SelectOne(c, cutoff, s, raw) == s.(retained := 1, kept := Some(raw))
    requires Retains(cutoff, scan, Step(c, true, None, scan, line))
    ensures CutAt(c, cutoff, scan, s, [], rest)
  {
    hide Step, SelectOne;
    assert [] + rest == rest;
    assert Lines([]) == [] && RawLines([]) == [];
  }

  lemma CutLater(c: Codec, cutoff: int, scan: Scan, s: Selection, raw: bytes, line: bytes, head: bytes, body: bytes)
    requires CutAt(c, cutoff, Step(c, true, None, scan, line), SelectOne(c, cutoff, s, raw), head, body)
    requires head + body == [] || Terminated(raw)
    requires Lines(raw + (head + body)) == [line] + Lines(head + body) && RawLines(raw + (head + body)) == [raw] + RawLines(head + body)
    requires RawOf(c, raw, line)
    ensures CutAt(c, cutoff, scan, s, raw + head, body)
  {
    hide Step, SelectOne, Fold, Select, Lines, RawLines, InStep;
    RawThen(c, raw, line, head);
    assert raw + head + body == raw + (head + body);
    assert [line] + (Lines(head) + Lines(body)) == [line] + Lines(head) + Lines(body);
    assert [raw] + (RawLines(head) + RawLines(body)) == [raw] + RawLines(head) + RawLines(body);
    FoldFirst(c, scan, line, Lines(head));
    SelectFirst(c, cutoff, s, raw, RawLines(head));
    if body != [] {
      assert head + body != [];
      assert head == [] ==> raw + head == raw;
    }
  }

  lemma OneKept(c: Codec, cutoff: int, scan: Scan, s: Selection, raw: bytes, line: bytes)
    requires Linking(scan) && s.Selecting? && s.kept.Some?
    requires c.unmarshal(raw) == c.unmarshal(line) && c.isCheckpoint(raw) == c.isCheckpoint(line)
    requires (line == [] ==> Blank(raw)) && (Blank(raw) ==> line == [] || c.isCheckpoint(line) == None)
    requires Step(c, true, None, scan, line).Running? && SelectOne(c, cutoff, s, raw).Selecting?
    ensures var scan' := Step(c, true, None, scan, line);
            && Linking(scan') && IsPrefix(scan.recs, scan'.recs) && scan'.cp == scan.cp
            && SelectOne(c, cutoff, s, raw) ==
               s.(kept := Some(s.kept.value + raw), retained := s.retained + |scan'.recs| - |scan.recs|)
  {
  }

  /** Once a record is retained, everything after it is. */
  lemma {:induction false} KeepRest(c: Codec, cutoff: int, scan: Scan, s: Selection, rest: bytes)
    requires c.Lawful() && Linking(scan) && s.Selecting? && s.kept.Some?
    requires Fold(c, true, None, scan, Lines(rest)).Running? && Select(c, cutoff, s, RawLines(rest)).Selecting?
    ensures var r := Fold(c, true, None, scan, Lines(rest));
            && IsPrefix(scan.recs, r.recs) && r.cp == scan.cp
            && Select(c, cutoff, s, RawLines(rest)) ==
               s.(kept := Some(s.kept.value + rest), retained := s.retained + |r.recs| - |scan.recs|)
    decreases |rest|
  {
    if rest == [] {
      PrefixIsReflexive(scan.recs);
      assert s.kept.value + [] == s.kept.value;
    } else {
      hide *;
      var raw, line, more := FirstRaw(c, rest);
      FoldFirst(c, scan, line, Lines(more));
      SelectFirst(c, cutoff, s, raw, RawLines(more));
      OneKept(c, cutoff, scan, s, raw, line);
      var scan1 := Step(c, true, None, scan, line);
      KeepRest(c, cutoff, scan1, SelectOne(c, cutoff, s, raw), more);
      PrefixTransitive(scan.recs, scan1.recs, Fold(c, true, None, scan, Lines(rest)).recs);
      Regroup(s.kept.value, raw, more);
    }
  }

  lemma PrefixIsReflexive<T>(a: seq<T>)
    ensures IsPrefix(a, a)
  {
  }

  lemma Regroup(a: bytes, b: bytes, d: bytes)
    ensures a + b + d == a + (b + d)
  {
  }

  /** What the whole selection is: the records of `head` removed, the bytes of
      `body` kept. */
  ghost predicate Shape(c: Codec, cutoff: int, file: bytes, head: bytes, body: bytes) {
    var total := Replay(c, true, None, file);
    var cut := Fold(c, true, None, START, Lines(head));
    var s := Select(c, cutoff, NOTHING_YET, RawLines(head));
    && file == head + body && CutAt(c, cutoff, START, NOTHING_YET, head, body)
    && total.Running? && IsPrefix(cut.recs, total.recs) && total.cp == cut.cp
    && total == Fold(c, true, None, cut, Lines(body))
    && Select(c, cutoff, NOTHING_YET, RawLines(file)) ==
       s.(kept := if body == [] then None else Some(body), retained := |total.recs| - |cut.recs|)
    && (body != [] ==> |total.recs| > |cut.recs| && !Expired(total.recs[|cut.recs|], cutoff))
  }

  lemma WholeSelection(c: Codec, cutoff: int, file: bytes) returns (head: bytes, body: bytes)
    requires c.Lawful() && Accepted(c, file) && Select(c, cutoff, NOTHING_YET, RawLines(file)).Selecting?
    ensures Shape(c, cutoff, file, head, body)
  {
    hide Lines, RawLines, Fold, Select, Step, SelectOne, FirstLF, Codec.Lawful, Terminated;
    head, body := FindCut(c, cutoff, START, NOTHING_YET, file);
    FoldConcat(c, true, None, START, Lines(head), Lines(body));
    SelectConcat(c, cutoff, NOTHING_YET, RawLines(head), RawLines(body));
    EmptyFolds(c, cutoff, Fold(c, true, None, START, Lines(head)), Select(c, cutoff, NOTHING_YET, RawLines(head)));
    if body != [] {
      BodyKept(c, cutoff, Fold(c, true, None, START, Lines(head)), Select(c, cutoff, NOTHING_YET, RawLines(head)), body);
    }
  }

  lemma EmptyFolds(c: Codec, cutoff: int, scan: Scan, s: Selection)
    ensures Fold(c, true, None, scan, Lines([])) == scan && Select(c, cutoff, s, RawLines([])) == s
  {
  }

  lemma BodyKept(c: Codec, cutoff: int, scan: Scan, s: Selection, body: bytes)
    requires c.Lawful() && StartsRetained(c, cutoff, scan, s, body)
    requires Fold(c, true, None, scan, Lines(body)).Running? && Select(c, cutoff, s, RawLines(body)).Selecting?
    ensures var r := Fold(c, true, None, scan, Lines(body));
            && IsPrefix(scan.recs, r.recs) && r.cp == scan.cp && |r.recs| > |scan.recs| && !Expired(r.recs[|scan.recs|], cutoff)
            && Select(c, cutoff, s, RawLines(body)) == s.(kept := Some(body), retained := |r.recs| - |scan.recs|)
  {
    hide Lines, RawLines, Fold, Select, SelectOne, FirstLF, Codec.Lawful, RawOf, Blank, Terminated;
    var raw, line, more := FirstRaw(c, body);
    FoldFirst(c, scan, line, Lines(more));
    SelectFirst(c, cutoff, s, raw, RawLines(more));
    var scan1 := Step(c, true, None, scan, line);
    assert IsPrefix(scan.recs, scan1.recs);
    KeepRest(c, cutoff, scan1, s.(retained := 1, kept := Some(raw)), more);
    PrefixTransitive(scan.recs, scan1.recs, Fold(c, true, None, scan, Lines(body)).recs);
  }

  lemma {:induction false} TailIsDigest(c: Codec, scan: Scan, lines: seq<bytes>)
    requires Fold(c, true, None, scan, lines).Running?
    requires scan.Running? && (scan.recs != [] ==> scan.prev.Sha256?)
    ensures var r := Fold(c, true, None, scan, lines);
            r.recs != [] ==> r.prev.Sha256?
    decreases |lines|
  {
    if lines != [] {
      FailureSticks(c, true, None, lines[1..]);
      TailIsDigest(c, Step(c, true, None, scan, lines[0]), lines[1..]);
    }
  }

  /** The checkpoint of a selection is one the verifier accepts. */
  lemma CheckpointIsValid(c: Codec, cutoff: int, file: bytes, head: bytes, body: bytes)
    requires Shape(c, cutoff, file, head, body)
    requires Select(c, cutoff, NOTHING_YET, RawLines(file)).removed > 0
    ensures var s := Select(c, cutoff, NOTHING_YET, RawLines(file));
            var cut := Fold(c, true, None, START, Lines(head));
            && s.last.Some? && ValidCheckpoint(CheckpointFor(s, cutoff, Tail(c, file)))
            && Linking(cut) && cut.prev == s.last.value.hash && Some(cut.rank) == VersionRank(EffectiveVersion(s.last.value))
  {
    TailIsDigest(c, START, Lines(file));
    hide Lines, RawLines, Fold, Select, StartsRetained;
    EmptyFolds(c, cutoff, Fold(c, true, None, START, Lines(head)), NOTHING_YET);
  }

  /** The output replays as the checkpoint followed by the retained records, unless
      its first line is too long for any verifier. */
  lemma OutputReplays(c: Codec, file: bytes, cutoff: int) returns (head: bytes, body: bytes)
    requires c.Lawful() && Accepted(c, file)
    requires var s := Select(c, cutoff, NOTHING_YET, RawLines(file)); s.Selecting? && s.removed > 0
    ensures Shape(c, cutoff, file, head, body) && file == head + body
    ensures var s, total, cut := Select(c, cutoff, NOTHING_YET, RawLines(file)), Replay(c, true, None, file), Fold(c, true, None, START, Lines(head));
            && s.last.Some?
            && var text := CheckpointText(c, file, s, cutoff);
               && (text.Some? ==>
                     Replay(c, true, None, text.value + [LF] + body) ==
                     if |text.value| > MAX_RECORD_BYTES then Failed
                     else Running(total.prev, total.rank, total.recs[|cut.recs|..], Some(CheckpointFor(s, cutoff, Tail(c, file)))))
               && total.Running? && (if s.kept.Some? then s.kept.value else []) == body
  {
    head, body := WholeSelection(c, cutoff, file);
    CheckpointIsValid(c, cutoff, file, head, body);
    hide Lines, RawLines, Select, FirstLF, StartsRetained, CutAt;
    var s := Select(c, cutoff, NOTHING_YET, RawLines(file));
    var cp := CheckpointFor(s, cutoff, Tail(c, file));
    if c.marshalCheckpoint(cp).Some? {
      var m := c.marshalCheckpoint(cp).value;
      assert c.EncodesCheckpoint(m, cp);
      CheckpointLine(c, m, cp, body);
    }
    SameContinuation(c, Fold(c, true, None, START, Lines(head)), Running(cp.body.lastRemovedHash, VersionRank(cp.body.boundaryVersion).value, [], Some(cp)), Lines(body));
    FailureSticks(c, true, None, Lines(body));
  }

  lemma OutputCloses(c: Codec, file: bytes, cutoff: int, head: bytes, body: bytes)
    requires Shape(c, cutoff, file, head, body)
    requires Select(c, cutoff, NOTHING_YET, RawLines(file)).last.Some?
    ensures var s, total, cut := Select(c, cutoff, NOTHING_YET, RawLines(file)), Replay(c, true, None, file), Fold(c, true, None, START, Lines(head));
            var cp := CheckpointFor(s, cutoff, Tail(c, file));
            cp.body.retainedCount == |total.recs[|cut.recs|..]| && cp.body.retainedTail == total.prev
  {
    hide Lines, RawLines, Select, Fold, StartsRetained, Replay, InStep;
    EmptyFolds(c, cutoff, Fold(c, true, None, START, Lines(head)), NOTHING_YET);
    NothingKept(c, cutoff, head, body);
  }

  lemma NothingKept(c: Codec, cutoff: int, head: bytes, body: bytes)
    requires CutAt(c, cutoff, START, NOTHING_YET, head, body)
    ensures Select(c, cutoff, NOTHING_YET, RawLines(head)).Selecting? && Fold(c, true, None, START, Lines(head)).Running?
  {
    hide Lines, RawLines, Select, Fold, StartsRetained;
  }

  predicate FitsLine(text: Option<bytes>) {
    text.Some? && |text.value| <= MAX_RECORD_BYTES
  }

  /** pruneFile's check of its own output fails for one reason only: a checkpoint
      line longer than any record may be. */
  lemma OutputIsAcceptedUnlessTooLong(c: Codec, file: bytes, cutoff: int)
    requires c.Lawful() && Accepted(c, file)
    requires var s := Select(c, cutoff, NOTHING_YET, RawLines(file)); s.Selecting? && s.removed > 0 && s.last.Some?
    ensures var s := Select(c, cutoff, NOTHING_YET, RawLines(file));
            (PruneLog(c, file, cutoff).Pruned? <==> FitsLine(CheckpointText(c, file, s, cutoff)))
            && (PruneLog(c, file, cutoff).Pruned? || PruneLog(c, file, cutoff).Refused?)
  {
    hide Lines, RawLines, Select, Fold, FirstLF, Shape, Accepted, CheckpointText, PruneLog, Replay, Codec.Lawful;
    var s := Select(c, cutoff, NOTHING_YET, RawLines(file));
    var head, body := OutputReplays(c, file, cutoff);
    OutputCloses(c, file, cutoff, head, body);
    PruneCase(c, file, cutoff, s, body);
    var text := CheckpointText(c, file, s, cutoff);
    if text.Some? {
      AcceptedWhen(c, text.value + [LF] + body);
    }
  }

  lemma PruneCase(c: Codec, file: bytes, cutoff: int, s: Selection, body: bytes)
    requires Accepted(c, file) && s == Select(c, cutoff, NOTHING_YET, RawLines(file)) && s.Selecting? && s.removed > 0 && s.last.Some?
    requires body == if s.kept.Some? then s.kept.value else []
    ensures var text := CheckpointText(c, file, s, cutoff);
            PruneLog(c, file, cutoff) ==
            if text.Some? && Accepted(c, text.value + [LF] + body) then Pruned(text.value + [LF] + body) else Refused
  {
    hide Accepted, CheckpointText, Select, RawLines;
  }

  lemma AcceptedWhen(c: Codec, out: bytes)
    ensures var r := Replay(c, true, None, out);
            && (r.Failed? ==> !Accepted(c, out))
            && (r.Running? && r.cp.Some? ==>
                  (Accepted(c, out) <==> |r.recs| == r.cp.value.body.retainedCount && r.prev == r.cp.value.body.retainedTail))
  {
    hide Replay;
  }

  /** Pruning gives a log the pruned-chain verifier accepts, that ends in the same
      tail hash, and whose bytes after the checkpoint line are a suffix of the
      input. */
  lemma PrunedLogVerifies(c: Codec, file: bytes, cutoff: int) returns (head: bytes, body: bytes)
    requires c.Lawful() && PruneLog(c, file, cutoff).Pruned?
    ensures var out := PruneLog(c, file, cutoff).output;
            && Accepted(c, out) && Tail(c, out) == Tail(c, file) && Replay(c, true, None, out).cp.Some?
            && file == head + body
            && var text := c.marshalCheckpoint(Replay(c, true, None, out).cp.value); text.Some? && out == text.value + [LF] + body
    ensures Shape(c, cutoff, file, head, body)
    ensures var total, cut := Replay(c, true, None, file), Fold(c, true, None, START, Lines(head));
            && Select(c, cutoff, NOTHING_YET, RawLines(file)).Selecting? && Select(c, cutoff, NOTHING_YET, RawLines(file)).last.Some?
            && Replay(c, true, None, PruneLog(c, file, cutoff).output) ==
               Running(total.prev, total.rank, total.recs[|cut.recs|..], Some(CheckpointFor(Select(c, cutoff, NOTHING_YET, RawLines(file)), cutoff, Tail(c, file))))
  {
    hide Shape, Select, RawLines, Lines, Fold, CheckpointFor, Replay, Codec.Lawful;
    head, body := OutputReplays(c, file, cutoff);
  }

  lemma CheckpointLine(c: Codec, m: bytes, cp: StoredCheckpoint, body: bytes)
    requires c.EncodesCheckpoint(m, cp) && ValidCheckpoint(cp)
    ensures Replay(c, true, None, m + [LF] + body) ==
            Fold(c, true, None, if |m| > MAX_RECORD_BYTES then Failed else Running(cp.body.lastRemovedHash, VersionRank(cp.body.boundaryVersion).value, [], Some(cp)), Lines(body))
  {
    assert Unbroken(m) && DropCR(m) == m;
    LineThenRest(m, body);
    hide Lines;
    FoldFirst(c, START, m, Lines(body));
  }

  // ----- pruning twice -----

  lemma {:induction false} KeptStays(c: Codec, cutoff: int, s: Selection, raws: seq<bytes>)
    requires s.Selecting? && s.kept.Some? && Select(c, cutoff, s, raws).Selecting?
    ensures Select(c, cutoff, s, raws).kept.Some?
    decreases |raws|
  {
    if raws != [] {
      RejectedStays(c, cutoff, raws[1..]);
      KeptStays(c, cutoff, SelectOne(c, cutoff, s, raws[0]), raws[1..]);
    }
  }

  /** What one cutoff removes throughout, a later cutoff removes as well. */
  lemma {:induction false} LaterCutoff(c: Codec, c1: int, c2: int, s: Selection, raws: seq<bytes>)
    requires c1 <= c2 && s.Selecting?
    requires Select(c, c1, s, raws).Selecting? && Select(c, c1, s, raws).kept.None?
    ensures Select(c, c2, s, raws) == Select(c, c1, s, raws)
    decreases |raws|
  {
    if raws != [] {
      var s1 := SelectOne(c, c1, s, raws[0]);
      RejectedStays(c, c1, raws[1..]);
      if s1.kept.Some? {
        KeptStays(c, c1, s1, raws[1..]);
      }
      LaterCutoff(c, c1, c2, s1, raws[1..]);
    }
  }

  /** Selections that agree on everything but what was removed before. */
  predicate SameButHistory(a: Selection, b: Selection, before: nat, newest: Option<Trace>) {
    if b.Rejected? then a.Rejected?
    else
      && a == b.(removed := b.removed + before, last := if b.removed > 0 then b.last else newest)
      && (b.removed > 0 <==> b.last.Some?)
  }

  lemma {:induction false} HistoryIsIrrelevant(c: Codec, cutoff: int, a: Selection, b: Selection, raws: seq<bytes>, before: nat, newest: Option<Trace>)
    requires SameButHistory(a, b, before, newest)
    ensures SameButHistory(Select(c, cutoff, a, raws), Select(c, cutoff, b, raws), before, newest)
    decreases |raws|
  {
    if raws != [] {
      HistoryIsIrrelevant(c, cutoff, SelectOne(c, cutoff, a, raws[0]), SelectOne(c, cutoff, b, raws[0]), raws[1..], before, newest);
    }
  }

  lemma CutIsExpired(c: Codec, file: bytes, cutoff: int, head: bytes, body: bytes)
    requires Shape(c, cutoff, file, head, body) && Select(c, cutoff, NOTHING_YET, RawLines(file)).removed > 0
    requires Select(c, cutoff, NOTHING_YET, RawLines(file)).last.Some?
    ensures var total, cut, s := Replay(c, true, None, file), Fold(c, true, None, START, Lines(head)), Select(c, cutoff, NOTHING_YET, RawLines(file));
            && cut.Running? && 0 < |cut.recs| <= |total.recs| && (forall k :: 0 <= k < |cut.recs| ==> Expired(total.recs[k], cutoff))
            && (|cut.recs| < |total.recs| ==> !Expired(total.recs[|cut.recs|], cutoff))
            && CheckpointFor(s, cutoff, Tail(c, file)).body.removedCount ==
               |cut.recs| + (if total.cp.Some? then total.cp.value.body.removedCount else 0)
  {
    hide Lines, RawLines, Fold, Select, StartsRetained, Codec.Lawful, Tail, Replay;
    EmptyFolds(c, cutoff, Fold(c, true, None, START, Lines(head)), NOTHING_YET);
  }

  /** pruneFile removes the longest expired prefix: every record it removes is
      older than the cutoff, the first record it retains is not, and when there
      is nothing to retain every record was expired. */
  lemma RemovesTheExpiredPrefix(c: Codec, file: bytes, cutoff: int) returns (n: nat)
    requires c.Lawful() && PruneLog(c, file, cutoff).Pruned?
    ensures var recs := Replay(c, true, None, file).recs;
            && 0 < n <= |recs| && (forall k :: 0 <= k < n ==> Expired(recs[k], cutoff))
            && (n < |recs| ==> !Expired(recs[n], cutoff))
            && var out := PruneLog(c, file, cutoff).output;
               && Replay(c, true, None, out).Running? && Replay(c, true, None, out).recs == recs[n..]
               && Replay(c, true, None, out).cp.Some?
               && Replay(c, true, None, out).cp.value.body.removedCount ==
                  n + (if Replay(c, true, None, file).cp.Some? then Replay(c, true, None, file).cp.value.body.removedCount else 0)
  {
    var head, body := PrunedLogVerifies(c, file, cutoff);
    CheckpointIsValid(c, cutoff, file, head, body);
    CutIsExpired(c, file, cutoff, head, body);
    hide *;
    n := |Fold(c, true, None, START, Lines(head)).recs|;
  }

  // ----- when it prunes -----

  predicate Dated(t: Trace) {
    t.core.timestamp.Some?
  }

  function PriorCount(scan: Scan): int {
    if scan.Running? && scan.cp.Some? then scan.cp.value.body.removedCount else 0
  }

  /** Nothing in the records of the verified log stops the selection. */
  predicate Selectable(scan: Scan) {
    && scan.Running? && (forall k :: 0 <= k < |scan.recs| ==> Dated(scan.recs[k]))
    && PriorCount(scan) + |scan.recs| <= MAX_COUNT
  }

  lemma {:induction false} LinkedStays(c: Codec, scan: Scan, lines: seq<bytes>)
    requires scan.Running? && Fold(c, true, None, scan, lines).Running?
    ensures var r := Fold(c, true, None, scan, lines);
            IsPrefix(scan.recs, r.recs) && (Linking(scan) ==> r.cp == scan.cp)
    decreases |lines|
  {
    if lines != [] {
      FailureSticks(c, true, None, lines[1..]);
      var scan1 := Step(c, true, None, scan, lines[0]);
      LinkedStays(c, scan1, lines[1..]);
      PrefixTransitive(scan.recs, scan1.recs, Fold(c, true, None, scan, lines).recs);
    }
  }

  /** A line the verifier accepts, the selection can read. */
  lemma OneSelectable(c: Codec, cutoff: int, scan: Scan, s: Selection, raw: bytes, line: bytes, total: Scan)
    requires scan.Running? && s.Selecting? && (s.kept.None? ==> InStep(cutoff, scan, s))
    requires c.unmarshal(raw) == c.unmarshal(line) && c.isCheckpoint(raw) == c.isCheckpoint(line) && c.decodeCheckpoint(raw) == c.decodeCheckpoint(line)
    requires (line == [] ==> Blank(raw)) && Step(c, true, None, scan, line).Running?
    requires Selectable(total) && IsPrefix(Step(c, true, None, scan, line).recs, total.recs)
    requires Linking(Step(c, true, None, scan, line)) ==> total.cp == Step(c, true, None, scan, line).cp
    ensures SelectOne(c, cutoff, s, raw).Selecting?
  {
    var scan1 := Step(c, true, None, scan, line);
    if |scan1.recs| > |scan.recs| {
      assert scan1.recs[|scan.recs|] == total.recs[|scan.recs|];
      assert Dated(total.recs[|scan.recs|]);
    }
  }

  lemma {:induction false} NeverRejects(c: Codec, cutoff: int, scan: Scan, s: Selection, rest: bytes)
    requires c.Lawful() && scan.Running? && s.Selecting?
    requires Selectable(Fold(c, true, None, scan, Lines(rest)))
    requires if s.kept.None? then InStep(cutoff, scan, s) else Linking(scan)
    ensures Select(c, cutoff, s, RawLines(rest)).Selecting?
    decreases |rest|
  {
    if rest != [] {
      hide *;
      hide Linking;
      var raw, line, more := FirstRaw(c, rest);
      FoldFirst(c, scan, line, Lines(more));
      SelectFirst(c, cutoff, s, raw, RawLines(more));
      NextSelectable(c, cutoff, scan, s, raw, line, Lines(more));
      NeverRejects(c, cutoff, Step(c, true, None, scan, line), SelectOne(c, cutoff, s, raw), more);
    }
  }

  lemma NextSelectable(c: Codec, cutoff: int, scan: Scan, s: Selection, raw: bytes, line: bytes, more: seq<bytes>)
    requires scan.Running? && s.Selecting? && (if s.kept.None? then InStep(cutoff, scan, s) else Linking(scan))
    requires c.unmarshal(raw) == c.unmarshal(line) && c.isCheckpoint(raw) == c.isCheckpoint(line) && c.decodeCheckpoint(raw) == c.decodeCheckpoint(line)
    requires (line == [] ==> Blank(raw)) && (Blank(raw) ==> line == [] || c.isCheckpoint(line) == None)
    requires Selectable(Fold(c, true, None, Step(c, true, None, scan, line), more))
    ensures var scan1, s1 := Step(c, true, None, scan, line), SelectOne(c, cutoff, s, raw);
            && scan1.Running? && s1.Selecting? && (if s1.kept.None? then InStep(cutoff, scan1, s1) else Linking(scan1))
  {
    hide Fold, InStep, SelectOne, Step, Selectable;
    var scan1 := Step(c, true, None, scan, line);
    var total := Fold(c, true, None, scan1, more);
    StillRunning(c, scan1, more);
    LinkedStays(c, scan1, more);
    OneSelectable(c, cutoff, scan, s, raw, line, total);
    if s.kept.None? {
      OneInStep(c, cutoff, scan, s, raw, line);
      RetainsLinks(cutoff, scan, scan1);
    } else {
      OneKept(c, cutoff, scan, s, raw, line);
    }
  }

  lemma StillRunning(c: Codec, scan: Scan, more: seq<bytes>)
    requires Selectable(Fold(c, true, None, scan, more))
    ensures scan.Running? && Fold(c, true, None, scan, more).Running?
  {
    FailureSticks(c, true, None, more);
  }

  lemma RetainsLinks(cutoff: int, scan: Scan, scan1: Scan)
    ensures Retains(cutoff, scan, scan1) ==> Linking(scan1)
  {
  }

  /** A log that verifies, whose records are dated and few enough to count, is left
      alone if and only if its first record is not expired; otherwise it is pruned,
      as long as the checkpoint fits on a line. */
  lemma PrunesExactlyWhenFirstIsExpired(c: Codec, file: bytes, cutoff: int)
    requires c.Lawful() && Accepted(c, file) && Selectable(Replay(c, true, None, file))
    ensures var recs, s := Replay(c, true, None, file).recs, Select(c, cutoff, NOTHING_YET, RawLines(file));
            && s.Selecting? && (recs != [] && Expired(recs[0], cutoff) ==> s.last.Some?)
            && (PruneLog(c, file, cutoff).NothingToRemove? <==> recs == [] || !Expired(recs[0], cutoff))
            && (PruneLog(c, file, cutoff).Pruned? <==>
                recs != [] && Expired(recs[0], cutoff) && FitsLine(CheckpointText(c, file, s, cutoff)))
  {
    NothingStarted(cutoff);
    NeverRejects(c, cutoff, START, NOTHING_YET, file);
    StillSelecting(c, cutoff, file);
    var head, body := WholeSelection(c, cutoff, file);
    ShapeDecides(c, cutoff, file, head, body);
    hide Accepted, Tail, Select, Selectable, CheckpointFor, Shape, RawLines, Replay, CheckpointText, Codec.Lawful;
    if Select(c, cutoff, NOTHING_YET, RawLines(file)).removed > 0 {
      OutputIsAcceptedUnlessTooLong(c, file, cutoff);
    }
  }

  lemma StillSelecting(c: Codec, cutoff: int, file: bytes)
    requires Accepted(c, file)
    ensures Replay(c, true, None, file).Running?
  {
    hide Fold, Lines;
  }

  /** The first record decides whether anything was removed. */
  lemma ShapeDecides(c: Codec, cutoff: int, file: bytes, head: bytes, body: bytes)
    requires Shape(c, cutoff, file, head, body)
    ensures var s, recs := Select(c, cutoff, NOTHING_YET, RawLines(file)), Replay(c, true, None, file).recs;
            && s.Selecting? && (s.last.None? <==> s.removed == 0)
            && (s.removed > 0 <==> recs != [] && Expired(recs[0], cutoff))
  {
    EmptyFolds(c, cutoff, Fold(c, true, None, START, Lines(head)), NOTHING_YET);
    hide Lines, RawLines, Fold, Select, StartsRetained, Codec.Lawful, Replay;
    var cut, total := Fold(c, true, None, START, Lines(head)), Replay(c, true, None, file);
    assert cut.recs != [] ==> total.recs[0] == cut.recs[0];
  }

  lemma NothingStarted(cutoff: int)
    ensures InStep(cutoff, START, NOTHING_YET)
  {
  }

  lemma SelectCheckpoint(c: Codec, cutoff: int, m: bytes, cp: StoredCheckpoint, body: bytes)
    requires c.Lawful() && Some(m) == c.marshalCheckpoint(cp) && ValidCheckpoint(cp)
    ensures Select(c, cutoff, NOTHING_YET, RawLines(m + [LF] + body)) ==
            Select(c, cutoff, NOTHING_YET.(count := cp.body.removedCount), RawLines(body))
  {
    assert c.EncodesCheckpoint(m, cp);
    assert Unbroken(m);
    RawSplit(m, body);
    var raw := m + [LF];
    assert raw[0] == m[0] && m[0] != CR && m[0] != LF;
    assert !Blank(raw);
    SelectFirst(c, cutoff, NOTHING_YET, raw, RawLines(body));
  }

  /** Pruning at c1 and then at c2 >= c1 writes, byte for byte, the file that
      pruning once at c2 writes, whenever the second prune removes a record. */
  lemma PruneTwiceIsPruneOnce(c: Codec, file: bytes, c1: int, c2: int)
    requires c.Lawful() && c1 <= c2 && PruneLog(c, file, c1).Pruned?
    requires PruneLog(c, PruneLog(c, file, c1).output, c2).Pruned?
    ensures PruneLog(c, file, c2) == PruneLog(c, PruneLog(c, file, c1).output, c2)
  {
    var once := PruneLog(c, file, c1).output;
    var head, body := PrunedLogVerifies(c, file, c1);
    CheckpointIsValid(c, c1, file, head, body);
    var s1 := Select(c, c1, NOTHING_YET, RawLines(file));
    var cp := CheckpointFor(s1, c1, Tail(c, file));
    hide Lines, RawLines, Select, Fold, FirstLF, StartsRetained, Codec.Lawful;
    var sh := Select(c, c1, NOTHING_YET, RawLines(head));
    LaterCutoff(c, c1, c2, NOTHING_YET, RawLines(head));
    SelectConcat(c, c2, NOTHING_YET, RawLines(head), RawLines(body));
    SelectCheckpoint(c, c2, c.marshalCheckpoint(cp).value, cp, body);
    HistoryIsIrrelevant(c, c2, sh, NOTHING_YET.(count := cp.body.removedCount), RawLines(body), sh.removed, sh.last);
    SameOutput(c, file, once, c2, sh.removed, sh.last);
  }

  lemma SameOutput(c: Codec, file: bytes, once: bytes, cutoff: int, before: nat, newest: Option<Trace>)
    requires Accepted(c, file) && Accepted(c, once) && Tail(c, file) == Tail(c, once)
    requires SameButHistory(Select(c, cutoff, NOTHING_YET, RawLines(file)), Select(c, cutoff, NOTHING_YET, RawLines(once)), before, newest)
    requires PruneLog(c, once, cutoff).Pruned?
    ensures PruneLog(c, file, cutoff) == PruneLog(c, once, cutoff)
  {
    hide Accepted, Tail, Select, RawLines;
  }

  lemma SliceOfSlice(file: bytes, offset: nat, n: nat)
    requires offset + n <= |file|
    ensures file[offset..][..n] == file[offset..offset + n] && file[offset..][n..] == file[offset + n..]
  {
  }

  /** The next raw line of a file that has been read up to `offset`. */
  lemma NextRaw(file: bytes, offset: nat, raw: bytes)
    requires offset < |file| && raw == file[offset..][..RawLength(file[offset..])]
    ensures 0 < |raw| <= |file| - offset && raw == file[offset..offset + |raw|]
    ensures RawLines(file[offset..]) == [raw] + RawLines(file[offset + |raw|..])
  {
    hide RawLength;
    var rest := file[offset..];
    SliceOfSlice(file, offset, RawLength(rest));
  }

  lemma Glue(file: bytes, from: nat, mid: nat, to: nat)
    requires from <= mid <= to <= |file|
    ensures file[from..mid] + file[mid..to] == file[from..to]
  {
  }

  /** One pass of the selection loop. */
  method SelectRecord(c: Codec, cutoff: int, raw: bytes, count0: int, removed0: nat, last0: Option<Trace>, retained0: nat, retaining0: bool,
                      ghost kept: Option<bytes>)
    returns (ok: bool, count: int, removed: nat, last: Option<Trace>, retained: nat, retaining: bool)
    requires retaining0 <==> kept.Some?
    ensures retaining0 && ok ==> retaining
    ensures var next := SelectOne(c, cutoff, Selecting(count0, removed0, last0, retained0, kept), raw);
            if !ok then next.Rejected?
            else next == Selecting(count, removed, last, retained, if retaining then Some((if kept.Some? then kept.value else []) + raw) else None)
  {
    ok, count, removed, last, retained, retaining := true, count0, removed0, last0, retained0, retaining0;
    match Read(c, raw)
    case Unreadable =>
      ok := false;
    case Skipped =>
    case Prior(prior) =>
      count := prior;
    case Record(t) =>
      if !retaining && t.core.timestamp.value < cutoff {
        if count == MAX_COUNT {
          ok := false;
        } else {
          removed, count, last := removed + 1, count + 1, Some(t);
        }
      } else {
        retaining := true;
        retained := retained + 1;
      }
  }

  /** The selection after the bytes before `offset`, of which those from `from` on
      are kept. */
  ghost predicate Tracks(c: Codec, cutoff: int, file: bytes, offset: nat, from: nat, s: Selection) {
    && from <= offset <= |file| && s.Selecting?
    && (s.kept.Some? ==> s.kept.value == file[from..offset])
    && Select(c, cutoff, NOTHING_YET, RawLines(file)) == Select(c, cutoff, s, RawLines(file[offset..]))
  }

  lemma Advance(c: Codec, cutoff: int, file: bytes, offset: nat, from: nat, s: Selection, raw: bytes)
    requires Tracks(c, cutoff, file, offset, from, s) && offset < |file|
    requires raw == file[offset..][..RawLength(file[offset..])]
    ensures 0 < |raw| <= |file| - offset
    ensures var next := SelectOne(c, cutoff, s, raw);
            if next.Rejected? then Select(c, cutoff, NOTHING_YET, RawLines(file)).Rejected?
            else Tracks(c, cutoff, file, offset + |raw|, if s.kept.Some? || next.kept.None? then from else offset, next)
  {
    hide RawLines, RawLength, Select, Read, FirstLF;
    NextRaw(file, offset, raw);
    SelectFirst(c, cutoff, s, raw, RawLines(file[offset + |raw|..]));
    RejectedStays(c, cutoff, RawLines(file[offset + |raw|..]));
    Glue(file, if s.kept.Some? then from else offset, offset, offset + |raw|);
    assert [] + raw == raw;
  }

  lemma Finish(c: Codec, cutoff: int, file: bytes, from: nat, s: Selection)
    requires Tracks(c, cutoff, file, |file|, from, s)
    ensures Select(c, cutoff, NOTHING_YET, RawLines(file)) == s
    ensures s.kept.Some? ==> file[from..] == s.kept.value
    ensures file[|file|..] == []
  {
    hide RawLines, Select;
    assert file[|file|..] == [] && file[from..|file|] == file[from..];
    EmptyFolds(c, cutoff, START, s);
  }

  /** The selection loop: one pass over the raw lines. */
  method SelectRecords(c: Codec, file: bytes, cutoff: int)
    returns (ok: bool, count: int, removed: nat, last: Option<Trace>, retained: nat, retainOffset: nat)
    ensures retainOffset <= |file|
    ensures var s := Select(c, cutoff, NOTHING_YET, RawLines(file));
            if s.Rejected? then !ok
            else ok && s == Selecting(count, removed, last, retained, s.kept)
                 && file[retainOffset..] == (if s.kept.Some? then s.kept.value else [])
  {
    ghost var s := NOTHING_YET;
    assert s == Selecting(0, 0, None, 0, None) && file[0..] == file;
    assert Tracks(c, cutoff, file, 0, 0, s);
    hide *;
    ok, count, removed, last, retained, retainOffset := true, 0, 0, None, 0, 0;
    var offset: nat, retaining := 0, false;
    while offset < |file|
      invariant 0 <= retainOffset <= offset <= |file|
      invariant s.Selecting? && s == Selecting(count, removed, last, retained, s.kept) && (retaining <==> s.kept.Some?)
      invariant Tracks(c, cutoff, file, offset, retainOffset, s)
    {
      var raw := file[offset..][..RawLength(file[offset..])];
      Advance(c, cutoff, file, offset, retainOffset, s, raw);
      var begun := retaining;
      ok, count, removed, last, retained, retaining := SelectRecord(c, cutoff, raw, count, removed, last, retained, retaining, s.kept);
      s := SelectOne(c, cutoff, s, raw);
      if !ok {
        return;
      }
      if retaining && !begun {
        retainOffset := offset;
      }
      offset := offset + |raw|;
    }
    Finish(c, cutoff, file, retainOffset, s);
    if !retaining {
      retainOffset := offset;
    }
  }

  /** pruneFile: verify, select, put the checkpoint before the untouched bytes from
      the first retained record on, and verify the result. */
  method PruneFile(c: Codec, file: bytes, cutoff: int) returns (o: Outcome)
    ensures o == PruneLog(c, file, cutoff)
  {
    hide Lines, RawLines, Select, Fold, FirstLF, SelectOne;
    var report := VerifyChain(c, file, true, None);
    if !report.intact {
      return Refused;
    }
    var ok, count, removed, last, retained, retainOffset := SelectRecords(c, file, cutoff);
    if !ok {
      return Refused;
    }
    if removed == 0 || last.None? {
      return NothingToRemove;
    }
    var cp := CheckpointFor(Selecting(count, removed, last, retained, None), cutoff, report.tail);
    var text := c.marshalCheckpoint(cp);
    if text.None? {
      return Refused;
    }
    var output := text.value + [LF] + file[retainOffset..];
    var verified := VerifyChain(c, output, true, None);
    if !verified.intact {
      return Refused;
    }
    return Pruned(output);
  }
}
