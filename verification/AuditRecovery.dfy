/** Startup: recoverAuditTail, verifyFullAuditChain and openAuditLog, for any
    files whatever, and what they make of the leavings of a crash. */
module AuditRecovery {
  import opened Bytes
  import opened Traces
  import opened ChainVerifier
  import opened ChainTheory
  import opened LogStream
  import opened AuditDisk
  import opened AuditWriter
  import opened AuditSafety

  datatype Recovered = Unreadable | NoRecords | LastRecord(t: Trace, needsSeparator: bool)

  /** NeedsRecordSeparator. */
  function NeedsRecordSeparator(data: bytes): bool {
    !Terminated(data)
  }

  function RecoverFile(c: Codec, data: bytes): Recovered {
    match ScanFile(c, Lines(data))
    case None => Unreadable
    case Some(None) => NoRecords
    case Some(Some(t)) => LastRecord(t, NeedsRecordSeparator(data))
  }

  /** The siblings newest first, down to the first that holds a record. */
  ghost function RecoverRotated(c: Codec, rotated: map<int, bytes>): Recovered
    decreases |rotated|
  {
    if rotated.Keys == {} then NoRecords
    else
      var m := MaxOf(rotated.Keys);
      var r := RecoverFile(c, rotated[m]);
      if r.NoRecords? then RecoverRotated(c, rotated - {m}) else r
  }

  /** recoverAuditTail: the active file first. */
  ghost function RecoverTail(c: Codec, d: Disk): Recovered {
    var r := if d.active.Some? then RecoverFile(c, d.active.value.data) else NoRecords;
    if r.NoRecords? then RecoverRotated(c, d.rotated) else r
  }

  datatype OpenResult = Refused | Opened(writer: Writer)

  /** openAuditLog, once the directory could be read and the active file opened. A
      missing active file is created; nothing syncs its directory entry. */
  ghost function Open(c: Codec, d: Disk): OpenResult {
    var disk := Created(d);
    match RecoverTail(c, d)
    case Unreadable => Refused
    case NoRecords => Opened(Writer(disk, OnActive, NoHash, false, false, 0))
    case LastRecord(t, sep) =>
      if TraceHash(t) != Some(t.hash) then Refused
      else if !Intact(c, Stream(d)) then Refused
      else Opened(Writer(disk, OnActive, t.hash, false, sep, 0))
  }

  // ----- files that hold no records are white space -----

  /** The last line that is not empty, or -1. */
  predicate IsLastText(lines: seq<bytes>, k: int) {
    -1 <= k < |lines| && (k >= 0 ==> lines[k] != []) && forall i :: k < i < |lines| ==> lines[i] == []
  }

  predicate LineReads(c: Codec, l: bytes) {
    |l| <= 4_194_304 && (l != [] ==> c.unmarshal(l).Some?)
  }

  lemma {:induction false} ScanMeans(c: Codec, lines: seq<bytes>, k: int)
    requires IsLastText(lines, k)
    ensures ScanFile(c, lines).Some? <==> forall i :: 0 <= i < |lines| ==> LineReads(c, lines[i])
    ensures ScanFile(c, lines).Some? ==> ScanFile(c, lines).value == if k < 0 then None else c.unmarshal(lines[k])
    decreases |lines|
  {
    if lines != [] {
      var n := |lines| - 1;
      var k' := if k < n then k else LastText(lines[..n]);
      ScanMeans(c, lines[..n], k');
      assert forall i :: 0 <= i < n ==> lines[..n][i] == lines[i];
    }
  }

  function LastText(lines: seq<bytes>): (k: int)
    ensures IsLastText(lines, k)
  {
    if lines == [] then -1
    else if lines[|lines| - 1] != [] then |lines| - 1
    else LastText(lines[..|lines| - 1])
  }

  /** What is recovered from one file: nothing usable exactly when a line is longer
      than a record may be or does not parse, no record when all lines are empty, and
      otherwise the last one that is not, with a separator due unless the file ends
      in a line feed. */
  lemma RecoverMeans(c: Codec, data: bytes, k: int)
    requires IsLastText(Lines(data), k)
    ensures var lines, r := Lines(data), RecoverFile(c, data);
            && (r.Unreadable? <==> exists i :: 0 <= i < |lines| && !LineReads(c, lines[i]))
            && (!r.Unreadable? ==> if k < 0 then r.NoRecords? else r.LastRecord? && Some(r.t) == c.unmarshal(lines[k]))
            && (r.LastRecord? ==> (r.needsSeparator <==> data != [] && data[|data| - 1] != 10))
  {
    hide Lines, ScanFile, LineReads, FirstLF;
    ScanMeans(c, Lines(data), k);
    if k >= 0 && ScanFile(c, Lines(data)).Some? {
      RecoveredReads(c, data, k);
    }
  }

  lemma RecoveredReads(c: Codec, data: bytes, k: int)
    requires IsLastText(Lines(data), k) && k >= 0 && ScanFile(c, Lines(data)).Some?
    ensures c.unmarshal(Lines(data)[k]).Some?
  {
    hide Lines, ScanFile, FirstLF;
    ScanMeans(c, Lines(data), k);
    assert LineReads(c, Lines(data)[k]);
  }

  predicate White(s: bytes) {
    forall k :: 0 <= k < |s| ==> s[k] == CR || s[k] == LF
  }

  lemma ScanFragment(c: Codec, a: bytes, p: bytes)
    requires Terminated(a) && Unbroken(p)
    ensures ScanFile(c, Lines(a + p)).Some? ==>
            ScanFile(c, Lines(a)).Some? && (DropCR(p) == [] || c.unmarshal(DropCR(p)).Some?)
    ensures ScanFile(c, Lines(a + p)).Some? ==>
            ScanFile(c, Lines(a + p)).value == (if DropCR(p) == [] then ScanFile(c, Lines(a)).value else c.unmarshal(DropCR(p)))
  {
    LinesSplit(a, p);
    LastLine(p);
    var lines := Lines(a) + [DropCR(p)];
    assert lines[..|lines| - 1] == Lines(a);
    if p == [] {
      assert a + p == a;
    }
  }

  /** A readable file is its last record's line, somewhere, followed by white
      space that begins with a line feed. */
  lemma {:induction false} LastRecordLine(c: Codec, data: bytes) returns (front: bytes, line: bytes, rest: bytes)
    requires c.Lawful() && ScanFile(c, Lines(data)).Some?
    ensures data == front + line + rest && White(rest)
    ensures ScanFile(c, Lines(data)) == Some(None) ==> front == [] && line == []
    ensures ScanFile(c, Lines(data)).value.Some? ==>
            && Unbroken(line) && c.unmarshal(line) == ScanFile(c, Lines(data)).value
            && (rest == [] || rest[0] == LF)
    decreases |data|
  {
    hide Lines, ScanFile, FirstLF, TailStart, Codec.Lawful;
    var i := TailStart(data);
    var a, p := data[..i], data[i..];
    assert data == a + p;
    ScanFragment(c, a, p);
    ScanNothing(c);
    c.DropCRIsIgnored(p);
    if DropCR(p) != [] {
      front, line, rest := a, p, [];
    } else if a == [] {
      front, line, rest := [], [], p;
    } else {
      var b := a[..|a| - 1];
      assert a == b + [LF];
      ScanClosed(c, b);
      front, line, rest := LastRecordLine(c, b);
      rest := rest + [LF] + p;
    }
  }

  // ----- white space at the end changes nothing -----

  lemma StepCR(c: Codec, s: Scan, f: bytes)
    requires c.Lawful() && Step(c, false, None, s, DropCR(f + [CR])).Running?
    ensures f == [] || Step(c, false, None, s, DropCR(f)) == Step(c, false, None, s, DropCR(f + [CR]))
    ensures f == [] ==> Step(c, false, None, s, DropCR(f + [CR])) == s
  {
    assert (f + [CR])[..|f|] == f;
    c.DropCRIsIgnored(f);
    assert [CR] == [] + [CR];
    assert c.unmarshal([CR]) == None;
  }

  lemma TrailingCR(c: Codec, s: bytes)
    requires c.Lawful() && Intact(c, s + [CR])
    ensures Genesis(c, s) == Genesis(c, s + [CR])
  {
    var i := TailStart(s);
    var a, f := s[..i], s[i..];
    assert s == a + f && s + [CR] == a + (f + [CR]);
    GenesisFragment(c, a, f);
    GenesisFragment(c, a, f + [CR]);
    StepCR(c, Genesis(c, a), f);
  }

  lemma {:induction false} TrailingWhite(c: Codec, s: bytes, w: bytes)
    requires c.Lawful() && White(w) && Intact(c, s + w)
    ensures Genesis(c, s) == Genesis(c, s + w)
    decreases |w|
  {
    if w == [] {
      assert s + w == s;
    } else {
      var v := w[..|w| - 1];
      assert s + w == s + v + [w[|w| - 1]];
      if w[|w| - 1] == LF {
        GenesisClose(c, s + v);
      } else {
        TrailingCR(c, s + v);
      }
      TrailingWhite(c, s, v);
    }
  }

  /** In an accepted stream, the last thing that parses as a record on its own is
      the last record of the chain: its hash is the verified tail. */
  lemma LastRecordIsTail(c: Codec, front: bytes, line: bytes, w: bytes, t: Trace)
    requires c.Lawful() && Intact(c, front + line + w) && White(w)
    requires Unbroken(line) && c.unmarshal(line) == Some(t)
    ensures var h := History(c, front + line + w);
            h != [] && h[|h| - 1] == t
  {
    hide Lines, Fold, FirstLF, Project;
    TrailingWhite(c, front + line, w);
    var i := TailStart(front);
    var a, f := front[..i], front[i..];
    assert front + line == a + (f + line);
    GenesisFragment(c, a, f + line);
    c.DropCRIsIgnored(f + line);
    assert line != [] && line != [CR] by {
      assert [CR] == [] + [CR];
    }
    assert f + line != [] && f + line != [CR];
    assert DropCR(f + line) != [];
    assert c.unmarshal(f + line).Some?;
  }

  // ----- the whole rotation set -----

  /** The stream seen from its newest record. */
  ghost predicate EndsWith(c: Codec, s: bytes, r: Recovered, front: bytes, line: bytes, w: bytes) {
    && s == front + line + w && White(w)
    && (r.NoRecords? ==> front == [] && line == [])
    && (r.LastRecord? ==>
          && Unbroken(line) && c.unmarshal(line) == Some(r.t)
          && (!r.needsSeparator ==> w != [] && LF in w))
  }

  lemma FileEnds(c: Codec, data: bytes) returns (front: bytes, line: bytes, w: bytes)
    requires c.Lawful() && !RecoverFile(c, data).Unreadable?
    ensures EndsWith(c, data, RecoverFile(c, data), front, line, w)
  {
    front, line, w := LastRecordLine(c, data);
    if RecoverFile(c, data).LastRecord? && w == [] {
      assert data == front + line;
      assert line != [];
      assert data[|data| - 1] == line[|line| - 1];
    }
  }

  lemma EndsPrepended(c: Codec, older: bytes, s: bytes, r: Recovered, front: bytes, line: bytes, w: bytes)
    requires EndsWith(c, s, r, front, line, w) && r.LastRecord?
    ensures EndsWith(c, older + s, r, older + front, line, w)
  {
    assert older + s == (older + front) + line + w;
  }

  lemma EndsExtended(c: Codec, s: bytes, r: Recovered, front: bytes, line: bytes, w: bytes, more: bytes)
    requires EndsWith(c, s, r, front, line, w) && White(more)
    ensures EndsWith(c, s + more, r, front, line, w + more)
  {
    assert s + more == front + line + (w + more);
  }

  lemma {:induction false} RotatedEnds(c: Codec, rotated: map<int, bytes>) returns (front: bytes, line: bytes, w: bytes)
    requires c.Lawful() && !RecoverRotated(c, rotated).Unreadable?
    ensures EndsWith(c, RotatedData(rotated), RecoverRotated(c, rotated), front, line, w)
    decreases |rotated|
  {
    if rotated.Keys == {} {
      front, line, w := [], [], [];
    } else {
      var m := MaxOf(rotated.Keys);
      var older := RotatedData(rotated - {m});
      var f, l, v := FileEnds(c, rotated[m]);
      var r := RecoverFile(c, rotated[m]);
      if r.NoRecords? {
        front, line, w := RotatedEnds(c, rotated - {m});
        EndsExtended(c, older, RecoverRotated(c, rotated), front, line, w, rotated[m]);
        w := w + rotated[m];
      } else {
        EndsPrepended(c, older, rotated[m], r, f, l, v);
        front, line, w := older + f, l, v;
      }
    }
  }

  lemma StreamEnds(c: Codec, d: Disk) returns (front: bytes, line: bytes, w: bytes)
    requires c.Lawful() && !RecoverTail(c, d).Unreadable?
    ensures EndsWith(c, Stream(d), RecoverTail(c, d), front, line, w)
  {
    var data := if d.active.Some? then d.active.value.data else [];
    var older := RotatedData(d.rotated);
    var r := if d.active.Some? then RecoverFile(c, d.active.value.data) else NoRecords;
    if r.NoRecords? {
      front, line, w := RotatedEnds(c, d.rotated);
      if d.active.Some? {
        var f, l, v := FileEnds(c, data);
      }
      EndsExtended(c, older, RecoverTail(c, d), front, line, w, data);
      w := w + data;
    } else {
      var f, l, v := FileEnds(c, data);
      EndsPrepended(c, older, data, r, f, l, v);
      front, line, w := older + f, l, v;
    }
  }

  /** A stream whose last line is a stray carriage return and nothing else. */
  predicate StrayCR(s: bytes) {
    s != [] && s[|s| - 1] == CR
  }

  /** Whatever files startup finds: it refuses, or it resumes from the tail the
      full verifier reports for them; the one exception to the stream being
      accepted is a set of files holding no record at all. */
  lemma OpenResumesVerifiedTail(c: Codec, d: Disk)
    requires c.Lawful() && Open(c, d).Opened?
    ensures var w := Open(c, d).writer;
            && Stream(w.disk) == Stream(d)
            && w.lastHash == TailOf(History(c, Stream(d)))
            && (Intact(c, Stream(d)) || (RecoverTail(c, d).NoRecords? && White(Stream(d))))
            && (w.needsSeparator || Terminated(Stream(d)) || StrayCR(Stream(d)))
  {
    OpenedOn(c, d);
    var front, line, w := StreamEnds(c, d);
    hide Open, RecoverTail, Stream, Genesis, Codec.Lawful;
    var r, s := RecoverTail(c, d), Stream(d);
    if r.LastRecord? {
      LastRecordIsTail(c, front, line, w, r.t);
    } else {
      assert s == w;
      assert [] + w == w;
      if Intact(c, s) {
        TrailingWhite(c, [], w);
        NoHistory(c);
      }
    }
  }

  /** What a start that is not refused takes from the last record it finds. */
  lemma OpenedOn(c: Codec, d: Disk)
    requires Open(c, d).Opened?
    ensures var w, r := Open(c, d).writer, RecoverTail(c, d);
            && Stream(w.disk) == Stream(d) && !r.Unreadable?
            && (r.NoRecords? ==> w.lastHash == NoHash && !w.needsSeparator)
            && (r.LastRecord? ==> Intact(c, Stream(d)) && w.lastHash == r.t.hash && w.needsSeparator == r.needsSeparator)
  {
    CreatedReads(d);
    hide RecoverTail, Stream, Genesis, Created, TraceHash;
  }

  lemma CreatedReads(d: Disk)
    ensures Stream(Created(d)) == Stream(d)
  {
    hide RotatedData;
    assert RotatedData(d.rotated) + [] == RotatedData(d.rotated);
  }

  lemma NoHistory(c: Codec)
    ensures History(c, []) == []
  {
  }

  // ----- startup accepts whatever verifies -----

  ghost predicate Readable(c: Codec, d: Disk) {
    && (d.active.Some? ==> ScanFile(c, Lines(d.active.value.data)).Some?)
    && forall k :: k in d.rotated ==> ScanFile(c, Lines(d.rotated[k])).Some?
  }

  lemma {:induction false} RotatedReadable(c: Codec, rotated: map<int, bytes>)
    requires forall k :: k in rotated ==> ScanFile(c, Lines(rotated[k])).Some?
    ensures !RecoverRotated(c, rotated).Unreadable?
    decreases |rotated|
  {
    if rotated.Keys != {} {
      RotatedReadable(c, rotated - {MaxOf(rotated.Keys)});
    }
  }

  /** Startup accepts every readable set of files whose stream verifies. */
  lemma OpenAccepts(c: Codec, d: Disk)
    requires c.Lawful() && Intact(c, Stream(d)) && Readable(c, d)
    ensures Open(c, d).Opened?
  {
    RotatedReadable(c, d.rotated);
    var r := RecoverTail(c, d);
    if r.LastRecord? {
      var front, line, w := StreamEnds(c, d);
      LastRecordIsTail(c, front, line, w, r.t);
      IntactScan(c, Stream(d));
    }
  }
}
