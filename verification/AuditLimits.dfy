/** What startup refuses, and the places where its promises stop, each with the
    exact condition. */
module AuditLimits {
  import opened Bytes
  import opened Traces
  import opened ChainVerifier
  import opened ChainTheory
  import opened LogStream
  import opened AuditDisk
  import opened AuditWriter
  import opened AuditSafety
  import opened AuditRecovery
  import opened AuditSystem

  // ----- startup after a torn record -----

  function AfterBytes(d: Disk, chunk: bytes, j: nat): Disk
    requires d.active.Some? && j <= |chunk|
  {
    WithActive(d, Clean(d.active.value.data + chunk[..j]))
  }

  /** A crash that left exactly j bytes of an append: startup refuses if and only
      if the record itself was torn, and otherwise resumes without it or with it
      depending on whether any of its bytes are there. */
  lemma RefusesExactlyTorn(cfg: Config, w: Writer, t: Trace, j: nat)
    requires cfg.codec.Lawful() && Healthy(cfg.codec, w) && Readable(cfg.codec, w.disk) && Reaches(cfg, w, t)
    requires j <= |Chunk(cfg, w, t)|
    ensures var c, left := cfg.codec, AfterBytes(w.disk, Chunk(cfg, w, t), j);
            var torn := |Separator(w)| < j < |Chunk(cfg, w, t)| - 1;
            && (Open(c, left).Opened? <==> !torn)
            && (!torn ==> History(c, Stream(left)) == History(c, Stream(w.disk)) + (if j <= |Separator(w)| then [] else [Stamped(cfg, w.lastHash, t)]))
  {
    hide Codec.Lawful, Genesis, ScanFile, Lines, Stamped, TraceHash, RotatedData, Reaches;
    var c := cfg.codec;
    var raw := RawEncodes(cfg, w, t);
    var chunk, sep, s := Chunk(cfg, w, t), Separator(w), Stream(w.disk);
    var left := AfterBytes(w.disk, chunk, j);
    SeparatorFits(w);
    ActiveSeparator(w.disk, w.needsSeparator);
    ScanCut(c, w.disk.active.value.data, sep, raw, Stamped(cfg, w.lastHash, t), j);
    assert Stream(left) == s + chunk[..j];
    if |sep| < j < |chunk| - 1 {
      UnreadableActive(c, left);
    } else {
      CutHistory(cfg, w, t, j);
      OpenAccepts(c, left);
    }
  }

  lemma UnreadableActive(c: Codec, d: Disk)
    requires d.active.Some? && ScanFile(c, Lines(d.active.value.data)).None?
    ensures Open(c, d).Refused?
  {
  }

  lemma CutHistory(cfg: Config, w: Writer, t: Trace, j: nat)
    requires cfg.codec.Lawful() && Healthy(cfg.codec, w) && Reaches(cfg, w, t)
    requires j <= |Chunk(cfg, w, t)| && !(|Separator(w)| < j < |Chunk(cfg, w, t)| - 1)
    ensures var c, x := cfg.codec, Stream(w.disk) + Chunk(cfg, w, t)[..j];
            && Intact(c, x)
            && History(c, x) == History(c, Stream(w.disk)) + (if j <= |Separator(w)| then [] else [Stamped(cfg, w.lastHash, t)])
  {
    hide Codec.Lawful, Genesis, Stamped, TraceHash, RotatedData, Reaches, Follows;
    var c := cfg.codec;
    var raw := RawEncodes(cfg, w, t);
    var sep, s, record := Separator(w), Stream(w.disk), Stamped(cfg, w.lastHash, t);
    SeparatorFits(w);
    StampedFollows(cfg, w, t, History(c, s));
    AppendRecord(c, s, sep, raw, record);
    var x := s + Chunk(cfg, w, t)[..j];
    if j <= |sep| {
      assert j == 0 ==> x == s;
      assert j == |sep| ==> x == s + sep;
    } else {
      assert x == s + sep + raw || x == s + sep + raw + [LF];
      HistoryOf(c, x, History(c, s) + [record]);
    }
  }

  // ----- white space that shares a line with the next record -----

  /** Carriage returns and nothing else. */
  predicate Returns(p: bytes) {
    forall k :: 0 <= k < |p| ==> p[k] == CR
  }

  lemma {:induction false} ReturnsAreNoJSON(c: Codec, p: bytes)
    requires c.Lawful() && Returns(p)
    ensures c.unmarshal(p) == None && c.isCheckpoint(p) == None
    decreases |p|
  {
    if p != [] {
      ReturnsAreNoJSON(c, p[1..]);
      assert p == [CR] + p[1..];
    }
  }

  lemma {:induction false} PaddedRecord(c: Codec, p: bytes, m: bytes, t: Trace)
    requires c.Lawful() && Returns(p) && c.Encodes(m, t)
    ensures c.unmarshal(p + m) == Some(t) && c.isCheckpoint(p + m) == Some(false)
    decreases |p|
  {
    if p == [] {
      assert p + m == m;
    } else {
      PaddedRecord(c, p[1..], m, t);
      assert p + m == [CR] + (p[1..] + m);
    }
  }

  lemma StepPadded(c: Codec, s: Scan, h: seq<Trace>, p: bytes, m: bytes, t: Trace)
    requires c.Lawful() && Returns(p) && c.Encodes(m, t) && (s == Failed || (s == ScanOf(h) && IsChain(h) && Follows(h, t)))
    ensures Step(c, false, None, s, p + m) == if s.Running? && |p| + |m| <= MAX_RECORD_BYTES then ScanOf(h + [t]) else Failed
  {
    PaddedRecord(c, p, m, t);
    if s.Running? {
      ChainSnoc(h, t);
      StepOnChain(h, t);
    }
  }

  /** A record written after carriage returns, on the same line. */
  lemma SharedLine(c: Codec, a: bytes, p: bytes, m: bytes, t: Trace)
    requires c.Lawful() && Terminated(a) && Returns(p) && c.Encodes(m, t) && Follows(History(c, a), t)
    ensures Genesis(c, a + p + m + [LF]) ==
            if Intact(c, a) && |p| + |m| <= MAX_RECORD_BYTES then ScanOf(History(c, a) + [t]) else Failed
  {
    var line := p + m;
    assert line != [] && line[|line| - 1] == m[|m| - 1] && m[|m| - 1] in m;
    assert DropCR(line) == line && Unbroken(line);
    if Intact(c, a) {
      IntactScan(c, a);
    }
    StepPadded(c, Genesis(c, a), History(c, a), p, m, t);
    hide *;
    assert a + p + m == a + line;
    GenesisClose(c, a + p + m);
    GenesisFragment(c, a, line);
  }

  /** Two carriage returns before a line feed: a line that is no record. */
  predicate DoubleCR(s: bytes) {
    exists k :: 0 <= k < |s| - 2 && s[k] == CR && s[k + 1] == CR && s[k + 2] == LF
  }

  lemma DoubleCRLast(a: bytes, p: bytes)
    requires Terminated(a) && Returns(p)
    ensures DoubleCR(a + p + [LF]) <==> DoubleCR(a) || |p| >= 2
  {
    var s := a + p + [LF];
    if DoubleCR(a) {
      var k :| 0 <= k < |a| - 2 && a[k] == CR && a[k + 1] == CR && a[k + 2] == LF;
      assert s[k] == CR && s[k + 1] == CR && s[k + 2] == LF;
    } else if |p| >= 2 {
      var k := |a| + |p| - 2;
      assert s[k] == p[|p| - 2] && s[k + 1] == p[|p| - 1] && s[k + 2] == LF;
    }
    if DoubleCR(s) {
      var k :| 0 <= k < |s| - 2 && s[k] == CR && s[k + 1] == CR && s[k + 2] == LF;
      DoubleCRAt(a, p, k);
    }
  }

  lemma DoubleCRAt(a: bytes, p: bytes, k: nat)
    requires Terminated(a) && Returns(p)
    requires var s := a + p + [LF]; k < |s| - 2 && s[k] == CR && s[k + 1] == CR && s[k + 2] == LF
    ensures DoubleCR(a) || |p| >= 2
  {
    var s := a + p + [LF];
    if k + 2 < |a| {
      assert a[k] == CR && a[k + 1] == CR && a[k + 2] == LF;
    } else {
      assert forall j :: 0 <= j < |p| ==> s[|a| + j] == p[j];
      assert a != [] ==> s[|a| - 1] == LF;
    }
  }

  /** White space is an accepted stream exactly when each of its lines is blank. */
  lemma {:induction false} WhiteIntact(c: Codec, s: bytes)
    requires c.Lawful() && White(s) && Terminated(s)
    ensures Intact(c, s) <==> !DoubleCR(s)
    ensures Intact(c, s) ==> History(c, s) == []
    decreases |s|
  {
    hide Codec.Lawful, Genesis, Lines, TailStart;
    if s != [] {
      var b := s[..|s| - 1];
      var i := TailStart(b);
      var a, p := b[..i], b[i..];
      assert b == a + p && s == b + [LF];
      assert forall k :: 0 <= k < |p| ==> p[k] == s[i + k];
      WhiteIntact(c, a);
      DoubleCRLast(a, p);
      GenesisClose(c, b);
      GenesisFragment(c, a, p);
      if p != [] {
        BlankLine(c, Genesis(c, a), p);
      }
    } else {
      LineFeedsAreIntact(c, s);
    }
  }

  lemma BlankLine(c: Codec, s: Scan, p: bytes)
    requires c.Lawful() && Returns(p) && p != []
    ensures Step(c, false, None, s, DropCR(p)) == if |p| == 1 then s else Failed
  {
    assert Returns(DropCR(p)) && |DropCR(p)| == |p| - 1;
    ReturnsAreNoJSON(c, DropCR(p));
  }

  /** What follows the last line feed of white space. */
  lemma WhiteTail(x: bytes, w: bytes)
    requires White(w) && (x == [] || LF in w)
    ensures Returns((x + w)[TailStart(x + w)..])
  {
    hide TailStart;
    var s := x + w;
    var i := TailStart(s);
    assert forall k :: 0 <= k < |w| ==> s[|x| + k] == w[k];
    assert forall k :: 0 <= k < |w| && i <= |x| + k ==> s[i..][|x| + k - i] == w[k];
  }

  /** An opened log that needs no separator ends in white space, after a chain
      that startup has verified or, when there is no record, after blank lines. */
  lemma OpenedTail(c: Codec, d: Disk)
    requires c.Lawful() && Open(c, d).Opened? && !Open(c, d).writer.needsSeparator
    ensures var s := Stream(d);
            var a, p := s[..TailStart(s)], s[TailStart(s)..];
            && Returns(p) && Terminated(a)
            && (Intact(c, a) <==> (RecoverTail(c, d).NoRecords? ==> !DoubleCR(s)))
            && (Intact(c, a) ==> History(c, a) == History(c, s))
  {
    hide Codec.Lawful, Genesis, Lines, TailStart, Stream, DoubleCR;
    var front, line, w := StreamEnds(c, d);
    var s := Stream(d);
    var i := TailStart(s);
    var a, p := s[..i], s[i..];
    WhiteTail(front + line, w);
    assert s == a + p;
    if RecoverTail(c, d).LastRecord? {
      TrailingWhite(c, a, p);
    } else {
      assert s == w;
      WhiteIntact(c, a);
      BlankTail(c, a, p);
      if Intact(c, s) {
        assert [] + s == s;
        TrailingWhite(c, [], s);
        TrailingWhite(c, a, p);
      }
    }
  }

  lemma BlankTail(c: Codec, a: bytes, p: bytes)
    requires Terminated(a) && Returns(p)
    ensures DoubleCR(a + p) <==> DoubleCR(a)
  {
    var s := a + p;
    if DoubleCR(s) {
      var k :| 0 <= k < |s| - 2 && s[k] == CR && s[k + 1] == CR && s[k + 2] == LF;
      assert forall j :: 0 <= j < |p| ==> s[|a| + j] == p[j];
      assert a[k] == CR && a[k + 1] == CR && a[k + 2] == LF;
    }
    if DoubleCR(a) {
      var k :| 0 <= k < |a| - 2 && a[k] == CR && a[k + 1] == CR && a[k + 2] == LF;
      assert s[k] == CR && s[k + 1] == CR && s[k + 2] == LF;
    }
  }

  /** Over everything startup accepts: the next record leaves a stream that
      verifies if and only if a separator is written, or no line without a record
      holds two carriage returns and the record fits its line together with the
      white space the files end in. */
  lemma NextRecordFits(c: Codec, d: Disk, m: bytes, t: Trace)
    requires c.Lawful() && Open(c, d).Opened? && c.Encodes(m, t) && |m| <= MAX_RECORD_BYTES && Follows(History(c, Stream(d)), t)
    ensures var w, s := Open(c, d).writer, Stream(d);
            var next := s + Separator(w) + m + [LF];
            && (Intact(c, next) <==>
                  || w.needsSeparator
                  || ((RecoverTail(c, d).NoRecords? ==> !DoubleCR(s)) && |s| - TailStart(s) + |m| <= MAX_RECORD_BYTES))
            && (Intact(c, next) ==> History(c, next) == History(c, s) + [t])
  {
    hide Codec.Lawful, Genesis, Lines, TailStart, Stream, DoubleCR, Follows;
    var w, s := Open(c, d).writer, Stream(d);
    if w.needsSeparator {
      AppendRecord(c, s, [LF], m, t);
      HistoryOf(c, s + [LF] + m + [LF], History(c, s) + [t]);
    } else {
      OpenedTail(c, d);
      var a, p := s[..TailStart(s)], s[TailStart(s)..];
      assert s == a + p && s + [] == s;
      if Intact(c, a) {
        SharedLine(c, a, p, m, t);
        HistoryIf(c, a + p + m + [LF], History(c, a) + [t]);
      } else {
        NeverIntact(c, a, p + m + [LF]);
        assert a + (p + m + [LF]) == a + p + m + [LF];
      }
    }
  }

  lemma HistoryIf(c: Codec, s: bytes, h: seq<Trace>)
    ensures Genesis(c, s) == ScanOf(h) ==> Intact(c, s) && History(c, s) == h
    ensures Genesis(c, s) == Failed ==> !Intact(c, s)
  {
  }

  lemma NeverIntact(c: Codec, a: bytes, b: bytes)
    requires Terminated(a) && !Intact(c, a)
    ensures !Intact(c, a + b)
  {
    GenesisSplit(c, a, b);
    FailureSticks(c, false, None, Lines(b));
  }

  /** A rotated file and an active file that hold no records. */
  function Blank(rotated: bytes, active: bytes): Disk {
    Disk(Some(Clean(active)), map[1 := rotated], [])
  }

  lemma OneRotated(a: bytes, b: bytes)
    ensures Stream(Blank(a, b)) == a + b
  {
    RotatedAdd(map[], 1, a);
    assert map[][1 := a] == Blank(a, b).rotated;
    assert RotatedData(map[]) == [];
  }

  lemma ScanBlank(c: Codec, s: bytes)
    requires s == [CR] || s == [CR, LF]
    ensures ScanFile(c, Lines(s)) == Some(None)
  {
    LastLine([CR]);
    var none: bytes := [];
    assert DropCR([CR]) == none;
    assert [none][..0] == [];
    assert [CR] + [LF] == [CR, LF];
    ScanClosed(c, [CR]);
  }

  /** Startup verifies nothing when it finds no record: it accepts a carriage
      return in one file and a blank line in the next, which together are a line
      that no later stream can contain and verify. */
  lemma UnverifiedStart(c: Codec, more: bytes)
    requires c.Lawful()
    ensures var d := Blank([CR], [CR, LF]);
            && Open(c, d).Opened? && !Open(c, d).writer.needsSeparator
            && !Intact(c, Stream(d) + more)
  {
    hide Genesis, ScanFile, Lines, Codec.Lawful, DoubleCR;
    var d := Blank([CR], [CR, LF]);
    ScanBlank(c, [CR]);
    ScanBlank(c, [CR, LF]);
    OneRotated([CR], [CR, LF]);
    RecoverBlank(c, [CR], [CR, LF]);
    var s := [CR] + [CR, LF];
    assert s[0] == CR && s[1] == CR && s[2] == LF;
    DoubledIsDoubleCR(s);
    WhiteIntact(c, s);
    NeverIntact(c, s, more);
  }

  lemma DoubledIsDoubleCR(s: bytes)
    requires |s| == 3 && s[0] == CR && s[1] == CR && s[2] == LF
    ensures DoubleCR(s)
  {
  }

  lemma RecoverBlank(c: Codec, a: bytes, b: bytes)
    requires ScanFile(c, Lines(a)) == Some(None) && ScanFile(c, Lines(b)) == Some(None)
    ensures RecoverTail(c, Blank(a, b)).NoRecords?
  {
    var d := Blank(a, b);
    assert 1 in d.rotated.Keys;
    assert MaxOf(d.rotated.Keys) == 1;
    assert (d.rotated - {1}).Keys == {};
    assert RecoverRotated(c, d.rotated - {1}).NoRecords?;
    assert RecoverRotated(c, d.rotated).NoRecords?;
  }

  /** A verified stream may end in a carriage return alone in the newest file; no
      separator is then due, and the next record must be shorter than the ceiling. */
  lemma StrayCarriageReturn(c: Codec, a: bytes, m: bytes, t: Trace)
    requires c.Lawful() && Intact(c, a) && ScanFile(c, Lines(a)).Some? && Terminated(a)
    requires c.Encodes(m, t) && |m| <= MAX_RECORD_BYTES && Follows(History(c, a), t)
    ensures var d := Blank(a, [CR]);
            && Stream(d) == a + [CR] && Intact(c, Stream(d)) && Open(c, d).Opened? && !Open(c, d).writer.needsSeparator
            && (Intact(c, a + [CR] + m + [LF]) <==> |m| < MAX_RECORD_BYTES)
  {
    hide Genesis, ScanFile, Lines, Codec.Lawful, Open;
    var d := Blank(a, [CR]);
    OneRotated(a, [CR]);
    assert Unbroken([CR]);
    GenesisFragment(c, a, [CR]);
    BlankLine(c, Genesis(c, a), [CR]);
    ScanBlank(c, [CR]);
    OpenAccepts(c, d);
    NewestIsOlder(c, a);
    SharedLine(c, a, [CR], m, t);
    HistoryIf(c, a + [CR] + m + [LF], History(c, a) + [t]);
  }

  lemma NewestIsOlder(c: Codec, a: bytes)
    requires Terminated(a) && ScanFile(c, Lines([CR])) == Some(None) && Open(c, Blank(a, [CR])).Opened?
    ensures !Open(c, Blank(a, [CR])).writer.needsSeparator
  {
    var d := Blank(a, [CR]);
    assert 1 in d.rotated.Keys;
    assert MaxOf(d.rotated.Keys) == 1;
    assert (d.rotated - {1}).Keys == {};
    assert RecoverFile(c, [CR]).NoRecords?;
    assert RecoverTail(c, d) == RecoverRotated(c, d.rotated);
    assert RecoverRotated(c, d.rotated - {1}).NoRecords?;
    assert RecoverRotated(c, d.rotated) == RecoverFile(c, a);
  }

  // ----- rotation numbers -----

  /** A rotation keeps the numbering 1..k if and only if the Stat of the first free
      index did not fail in some other way than finding nothing there. */
  lemma NumberingNeedsStat(d: Disk, f: RotationFaults)
    requires Settled(d)
    ensures var synced := WithActive(d, Clean(d.active.value.data));
            Numbered(Renamed(synced, NextIndex(d, f)).rotated.Keys) <==> StatAnswers(d, f)
  {
    var keys, idx := d.rotated.Keys, NextIndex(d, f);
    NumberedGrows(keys);
    assert Renamed(WithActive(d, Clean(d.active.value.data)), idx).rotated.Keys == keys + {idx};
    assert idx !in keys + f.skipped;
    assert |keys + {idx}| == |keys| + 1;
    if idx != FirstFree(keys) {
      assert idx in keys + {idx} && !(1 <= idx <= |keys| + 1);
    }
  }

  /** Renaming into a gap puts the newest file before older ones. */
  lemma RotationIntoGap(rotated: map<int, bytes>, full: bytes) returns (newest: int)
    requires !Contiguous(rotated.Keys) && rotated.Keys != {}
    ensures newest in rotated && newest > FirstFree(rotated.Keys)
    ensures IsMax(newest, rotated[FirstFree(rotated.Keys) := full].Keys)
  {
    FirstFreeIsNewest(rotated.Keys);
    var idx := FirstFree(rotated.Keys);
    var x :| x in rotated && x >= idx;
    newest := MaxOf(rotated.Keys);
    assert x <= newest;
  }

  /** Every system call of a rotation succeeds, except the Stat of the indices in
      f.skipped, and an index is free. */
  predicate CleanRotation(cfg: Config, d: Disk, f: RotationFaults) {
    && cfg.rotationConfigured && f.syncOk && f.closeOk && f.renameOk && f.openOk && f.newSyncOk && f.dirSyncOk
    && NextIndex(d, f) <= MAX_ROTATIONS
  }

  /** The store after a rotation and b, written to the new active file. */
  function RotatedThen(cfg: Config, d: Disk, f: RotationFaults, b: bytes): Disk
    requires d.active.Some?
  {
    var d1 := Rotate(cfg, d, f).disk;
    if d1.active.Some? then WithActive(d1, Write(d1.active.value, b)) else d1
  }

  lemma SkippedThen(cfg: Config, d: Disk, f: RotationFaults, b: bytes)
    requires Settled(d) && CleanRotation(cfg, d, f) && FirstFree(d.rotated.Keys) in f.skipped
    ensures var d2, idx := RotatedThen(cfg, d, f, b), NextIndex(d, f);
            && d2.active == Some(Write(EMPTY_FILE, b)) && d2.rotated == d.rotated[idx := d.active.value.data]
            && idx > |d.rotated.Keys| + 1 && FirstFree(d2.rotated.Keys) == |d.rotated.Keys| + 1
  {
    hide RotatedData;
    var keys, idx := d.rotated.Keys, NextIndex(d, f);
    NumberedGrows(keys);
    assert d.rotated[idx := d.active.value.data].Keys == keys + {idx};
    FreeBelow(keys, f.skipped, idx);
    FirstFreeIs(keys + {idx}, |keys| + 1);
  }

  lemma FreeBelow(keys: set<int>, skipped: set<int>, idx: int)
    requires Numbered(keys) && idx == FirstFree(keys + skipped) && |keys| + 1 in skipped
    ensures idx > |keys| + 1
  {
    assert idx !in keys && idx !in skipped && 1 <= idx;
  }

  lemma FirstFreeIs(keys: set<int>, i: int)
    requires 1 <= i && i !in keys && forall j :: 1 <= j < i ==> j in keys
    ensures FirstFree(keys) == i
  {
    assert FirstFree(keys) > i ==> i in keys;
  }

  /** The next rotation that skips nothing renames into the gap: what was written
      after the first one now comes before it. */
  lemma SkippedIndexSwapsFiles(cfg: Config, d: Disk, f: RotationFaults, b: bytes, f2: RotationFaults)
    requires Settled(d) && CleanRotation(cfg, d, f) && FirstFree(d.rotated.Keys) in f.skipped
    requires var d2 := RotatedThen(cfg, d, f, b); CleanRotation(cfg, d2, f2) && StatAnswers(d2, f2)
    ensures var d2 := RotatedThen(cfg, d, f, b);
            && d2.active.Some? && Stream(d2) == Stream(d) + b
            && Rotate(cfg, d2, f2).status == Rotated && Rotate(cfg, d2, f2).disk.active == Some(EMPTY_FILE)
            && Stream(Rotate(cfg, d2, f2).disk) == RotatedData(d.rotated) + b + d.active.value.data
  {
    hide *;
    SkippedThen(cfg, d, f, b);
    KeptNumbers(d);
    StreamParts(d);
    var d2, k, idx, a := RotatedThen(cfg, d, f, b), |d.rotated.Keys| + 1, NextIndex(d, f), d.active.value.data;
    StreamParts(d2);
    assert Write(EMPTY_FILE, b).data == b by {
      EmptyWrite(b);
    }
    SecondRename(cfg, d2, f2);
    SwappedRename(d.rotated, k, idx, a, b);
  }

  lemma KeptNumbers(d: Disk)
    requires Settled(d)
    ensures d.active.Some? && Numbered(d.rotated.Keys)
  {
  }

  lemma EmptyWrite(b: bytes)
    ensures Write(EMPTY_FILE, b).data == b
  {
  }

  lemma SecondRename(cfg: Config, d: Disk, f: RotationFaults)
    requires d.active.Some? && CleanRotation(cfg, d, f) && StatAnswers(d, f)
    ensures var r := Rotate(cfg, d, f);
            && r.status == Rotated && r.disk.active == Some(EMPTY_FILE)
            && r.disk.rotated == d.rotated[FirstFree(d.rotated.Keys) := d.active.value.data]
            && Stream(r.disk) == RotatedData(r.disk.rotated)
  {
    hide RotatedData;
    var r := Rotate(cfg, d, f);
    assert RotatedData(r.disk.rotated) + [] == RotatedData(r.disk.rotated);
  }

  lemma SwappedRename(rotated: map<int, bytes>, k: int, idx: int, a: bytes, b: bytes)
    requires Numbered(rotated.Keys) && k == |rotated.Keys| + 1 < idx
    ensures RotatedData(rotated[idx := a]) == RotatedData(rotated) + a
    ensures RotatedData(rotated[idx := a][k := b]) == RotatedData(rotated) + b + a
  {
    AllBelow(rotated, k);
    hide *;
    RotatedAdd(rotated, idx, a);
    RotatedAdd(rotated, k, b);
    RotatedAdd(rotated[k := b], idx, a);
    UpdatesCommute(rotated, k, idx, a, b);
  }

  lemma UpdatesCommute(rotated: map<int, bytes>, k: int, idx: int, a: bytes, b: bytes)
    requires k != idx
    ensures rotated[idx := a][k := b] == rotated[k := b][idx := a]
  {
  }

  lemma AllBelow(rotated: map<int, bytes>, k: int)
    requires Numbered(rotated.Keys) && k == |rotated.Keys| + 1
    ensures forall x :: x in rotated ==> x < k
  {
    hide RotatedData;
    assert forall x :: x in rotated ==> x in rotated.Keys;
  }

  lemma HistoryIsParse(c: Codec, s: bytes)
    requires Intact(c, s)
    ensures Parse(c, Lines(s)) == Some(History(c, s)) && IsChain(History(c, s))
  {
    AcceptedIffChain(c, s);
  }

  lemma ThreeParts(c: Codec, r: bytes, a: bytes, b: bytes)
    requires Terminated(r) && Terminated(a)
    ensures Lines(r + a + b) == Lines(r) + Lines(a) + Lines(b) && Lines(r + a) == Lines(r) + Lines(a)
  {
    hide Lines;
    LinesSplit(r, a);
    assert a == [] ==> r + a == r;
    assert Terminated(r + a);
    LinesSplit(r + a, b);
  }

  /** Files in the wrong order do not verify. */
  lemma SwappedIsNotIntact(c: Codec, r: bytes, a: bytes, b: bytes)
    requires Terminated(r) && Terminated(a) && Terminated(b) && Intact(c, r + a + b)
    requires |History(c, r)| < |History(c, r + a)| < |History(c, r + a + b)|
    ensures !Intact(c, r + b + a)
  {
    hide Lines, Genesis, Intact, History, IsChain;
    assert Terminated(r + a);
    TerminatedKeeps(c, r + a, r + a + b);
    TerminatedKeeps(c, r, r + a);
    HistoryIsParse(c, r);
    HistoryIsParse(c, r + a);
    HistoryIsParse(c, r + a + b);
    ThreeParts(c, r, a, b);
    ThreeParts(c, r, b, a);
    ParseConcat(c, Lines(r), Lines(a));
    ParseConcat(c, Lines(r) + Lines(a), Lines(b));
    ParseConcat(c, Lines(r), Lines(b));
    ParseConcat(c, Lines(r) + Lines(b), Lines(a));
    PartsDoNotSwap(Parse(c, Lines(r)).value, Parse(c, Lines(a)).value, Parse(c, Lines(b)).value);
    if Intact(c, r + b + a) {
      HistoryIsParse(c, r + b + a);
    }
  }

  /** A rotation whose Stat of the first free index failed, then records, then a
      rotation with no fault at all: the log no longer verifies, and the next start
      refuses it. */
  lemma SkippedIndexBreaksTheLog(cfg: Config, d: Disk, f: RotationFaults, b: bytes, f2: RotationFaults)
    requires cfg.codec.Lawful() && Settled(d) && CleanRotation(cfg, d, f) && FirstFree(d.rotated.Keys) in f.skipped
    requires var d2 := RotatedThen(cfg, d, f, b); CleanRotation(cfg, d2, f2) && StatAnswers(d2, f2)
    requires Terminated(RotatedData(d.rotated)) && Terminated(d.active.value.data) && Terminated(b) && CR !in Stream(d) + b
    requires Intact(cfg.codec, Stream(d) + b)
    requires |History(cfg.codec, RotatedData(d.rotated))| < |History(cfg.codec, Stream(d))| < |History(cfg.codec, Stream(d) + b)|
    ensures var d2 := RotatedThen(cfg, d, f, b);
            d2.active.Some? && var d3 := Rotate(cfg, d2, f2).disk;
            !Intact(cfg.codec, Stream(d3)) && Open(cfg.codec, d3).Refused?
  {
    SkippedIndexSwapsFiles(cfg, d, f, b, f2);
    var r, a := RotatedData(d.rotated), d.active.value.data;
    assert Stream(d) == r + a;
    SwappedIsNotIntact(cfg.codec, r, a, b);
    hide Codec.Lawful, Genesis, Rotate, RotatedData, RotatedThen, CleanRotation, StatAnswers, Open;
    var d3 := Rotate(cfg, RotatedThen(cfg, d, f, b), f2).disk;
    if Open(cfg.codec, d3).Opened? {
      OpenResumesVerifiedTail(cfg.codec, d3);
      assert forall x :: x in r + b + a ==> x in r + a + b;
      LineFeedsAreIntact(cfg.codec, Stream(d3));
    }
  }
}
