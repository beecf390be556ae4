/** What every append keeps, over all faults: the chain, the delimiter, the
    rotation numbers, the file sizes, and bounds on what a crash can leave. */
module AuditSafety {
  import opened Bytes
  import opened Traces
  import opened ChainVerifier
  import opened ChainTheory
  import opened LogStream
  import opened AuditDisk
  import opened AuditWriter

  // ----- what holds of contents -----

  /** b's last line is closed in every longer stream up to hi. */
  predicate Anchored(b: bytes, hi: bytes) {
    Terminated(b) || b == hi || IsPrefix(b + [LF], hi)
  }

  /** s is an accepted stream that goes on from lo. */
  ghost predicate Stands(c: Codec, lo: bytes, s: bytes) {
    IsPrefix(lo, s) && Intact(c, s) && Anchored(lo, s) && CR !in s
  }

  /** After a line feed at the front there is one line, closed or not. */
  predicate AtMostOneLine(data: bytes) {
    var s := if data != [] && data[0] == LF then data[1..] else data;
    FirstLF(s) + 1 >= |s|
  }

  /** Below the rotation size, or a single line. */
  predicate Sized(cfg: Config, data: bytes) {
    cfg.rotateBytes > 0 ==> |data| < cfg.rotateBytes || AtMostOneLine(data)
  }

  /** A file as startup wants to find it: each line is a record. */
  predicate FileOk(cfg: Config, data: bytes) {
    Sized(cfg, data) && ScanFile(cfg.codec, Lines(data)).Some?
  }

  predicate FilesOk(cfg: Config, rotated: map<int, bytes>) {
    forall k :: k in rotated ==> FileOk(cfg, rotated[k])
  }

  /** p is part of a file r that would continue the accepted stream `base`. */
  ghost predicate IsRoof(cfg: Config, lo: bytes, base: bytes, p: bytes, r: bytes) {
    IsPrefix(p, r) && Stands(cfg.codec, lo, base + r) && Sized(cfg, r)
  }

  ghost predicate Roofed(cfg: Config, lo: bytes, base: bytes, p: bytes) {
    exists r :: IsRoof(cfg, lo, base, p, r)
  }

  /** Whatever a crash leaves of f after `base` contains lo, and is part of a file
      that would continue an accepted stream. */
  ghost predicate FileFit(cfg: Config, lo: bytes, base: bytes, f: File) {
    && IsPrefix(f.durable, f.data) && IsPrefix(lo, base + f.durable)
    && forall i :: 0 <= i < |Tops(f)| ==> IsPrefix(f.durable, Tops(f)[i]) && Roofed(cfg, lo, base, Tops(f)[i])
  }

  /** A directory that a crash may bring back: complete, and accepted. */
  ghost predicate LayoutFit(cfg: Config, lo: bytes, l: Layout) {
    && Numbered(l.rotated.Keys) && FilesOk(cfg, l.rotated)
    && (l.active.Some? ==> FileOk(cfg, l.active.value))
    && Stands(cfg.codec, lo, LayoutStream(l))
  }

  ghost predicate OlderFit(cfg: Config, floor: bytes, older: seq<Layout>, base: bytes) {
    forall i :: 0 <= i < |older| ==> LayoutFit(cfg, floor, older[i]) && IsPrefix(LayoutStream(older[i]), base)
  }

  /** Every crash keeps `floor`, and keeps `lo` when the directory is not set back. */
  ghost predicate StoreFit(cfg: Config, floor: bytes, lo: bytes, d: Disk) {
    && Numbered(d.rotated.Keys) && FilesOk(cfg, d.rotated)
    && OlderFit(cfg, floor, d.older, RotatedData(d.rotated))
    && Stands(cfg.codec, floor, lo) && Intact(cfg.codec, floor)
    && (match d.active
        case None => Stands(cfg.codec, lo, RotatedData(d.rotated))
        case Some(f) => FileFit(cfg, lo, RotatedData(d.rotated), f))
  }

  /** The store between two appends of a healthy writer. */
  ghost predicate Settled(d: Disk) {
    d.active.Some? && Numbered(d.rotated.Keys) && IsPrefix(d.active.value.durable, d.active.value.data)
  }

  /** The invariant of an unpoisoned writer: the whole rotation set verifies, its
      tail is the hash the next record links to, and a record may follow. */
  ghost predicate Healthy(c: Codec, w: Writer) {
    && !w.poisoned && w.handle == OnActive && Settled(w.disk)
    && Intact(c, Stream(w.disk))
    && w.lastHash == TailOf(History(c, Stream(w.disk)))
    && (w.needsSeparator || Terminated(Stream(w.disk)))
  }

  /** A healthy writer on a store whose crashes are bounded. */
  ghost predicate Ready(cfg: Config, floor: bytes, lo: bytes, w: Writer) {
    && Healthy(cfg.codec, w) && StoreFit(cfg, floor, lo, w.disk)
    && Stands(cfg.codec, lo, Stream(w.disk)) && FileOk(cfg, w.disk.active.value.data)
  }

  ghost predicate AllFit(cfg: Config, floor: bytes, lo: bytes, steps: seq<Disk>, from: bytes, to: bytes) {
    forall i :: 0 <= i < |steps| ==>
      StoreFit(cfg, floor, lo, steps[i]) && IsPrefix(from, Stream(steps[i])) && IsPrefix(Stream(steps[i]), to)
  }

  // ----- small facts -----

  lemma PrefixIntro<T>(a: seq<T>, b: seq<T>)
    ensures IsPrefix(a, a + b) && IsPrefix(a, a)
  {
  }

  lemma StandsItself(c: Codec, s: bytes)
    requires Intact(c, s) && CR !in s
    ensures Stands(c, s, s)
  {
  }

  lemma AnchoredTransitive(a: bytes, b: bytes, s: bytes)
    requires IsPrefix(a, b) && IsPrefix(b, s) && Anchored(a, b) && Anchored(b, s)
    ensures Anchored(a, s)
  {
    if !Terminated(a) && a != b {
      PrefixTransitive(a + [LF], b, s);
    }
  }

  lemma StandsTransitive(c: Codec, a: bytes, b: bytes, s: bytes)
    requires Stands(c, a, b) && Stands(c, b, s)
    ensures Stands(c, a, s)
  {
    hide Intact, Anchored;
    PrefixTransitive(a, b, s);
    AnchoredTransitive(a, b, s);
  }

  lemma {:induction false} FirstLFOfPrefix(p: bytes, s: bytes)
    requires IsPrefix(p, s)
    ensures FirstLF(p) == if FirstLF(s) < |p| then FirstLF(s) else |p|
    decreases |p|
  {
    if p != [] && p[0] != LF {
      FirstLFOfPrefix(p[1..], s[1..]);
    }
  }

  lemma SizedPrefix(cfg: Config, p: bytes, r: bytes)
    requires IsPrefix(p, r) && Sized(cfg, r)
    ensures Sized(cfg, p)
  {
    if AtMostOneLine(r) {
      if p != [] && p[0] == LF {
        FirstLFOfPrefix(p[1..], r[1..]);
      } else if p != [] {
        FirstLFOfPrefix(p, r);
      }
    }
  }

  lemma RoofOfPart(cfg: Config, lo: bytes, base: bytes, p: bytes, q: bytes)
    requires IsPrefix(p, q) && Roofed(cfg, lo, base, q)
    ensures Roofed(cfg, lo, base, p)
  {
    hide Stands, Sized;
    var r :| IsRoof(cfg, lo, base, q, r);
    PrefixTransitive(p, q, r);
    assert IsRoof(cfg, lo, base, p, r);
  }

  // ----- lowering what is kept -----

  lemma RoofLower(cfg: Config, lo: bytes, lo2: bytes, base: bytes, p: bytes)
    requires Stands(cfg.codec, lo, lo2) && Roofed(cfg, lo2, base, p)
    ensures Roofed(cfg, lo, base, p)
  {
    var r :| IsRoof(cfg, lo2, base, p, r);
    StandsTransitive(cfg.codec, lo, lo2, base + r);
    assert IsRoof(cfg, lo, base, p, r);
  }

  /** A store that keeps more also keeps less. */
  lemma StoreLower(cfg: Config, floor: bytes, floor2: bytes, lo: bytes, lo2: bytes, d: Disk)
    requires StoreFit(cfg, floor2, lo2, d) && Stands(cfg.codec, floor, floor2) && Stands(cfg.codec, lo, lo2)
    requires Stands(cfg.codec, floor, lo) && Intact(cfg.codec, floor)
    ensures StoreFit(cfg, floor, lo, d)
  {
    hide Stands, Roofed, Intact, RotatedData, FileOk, LayoutStream;
    var c := cfg.codec;
    forall i | 0 <= i < |d.older|
      ensures LayoutFit(cfg, floor, d.older[i])
    {
      StandsTransitive(c, floor, floor2, LayoutStream(d.older[i]));
    }
    match d.active
    case None => StandsTransitive(c, lo, lo2, RotatedData(d.rotated));
    case Some(f) =>
      StandsIsPrefix(c, lo, lo2);
      PrefixTransitive(lo, lo2, RotatedData(d.rotated) + f.durable);
      forall i | 0 <= i < |Tops(f)|
        ensures Roofed(cfg, lo, RotatedData(d.rotated), Tops(f)[i])
      {
        RoofLower(cfg, lo, lo2, RotatedData(d.rotated), Tops(f)[i]);
      }
  }

  lemma StandsIsPrefix(c: Codec, lo: bytes, s: bytes)
    requires Stands(c, lo, s)
    ensures IsPrefix(lo, s) && Intact(c, s)
  {
  }

  // ----- the bytes of one append -----

  /** The bytes an append adds when it succeeds. */
  function Chunk(cfg: Config, w: Writer, t: Trace): bytes {
    match cfg.codec.MarshalRecord(Stamped(cfg, w.lastHash, t))
    case None => []
    case Some(raw) => Separator(w) + raw + [LF]
  }

  predicate Reaches(cfg: Config, w: Writer, t: Trace) {
    && !w.poisoned && !(Unstamped(t) && cfg.provenance.None?)
    && TraceHash(Stamped(cfg, w.lastHash, t)).Some?
    && cfg.codec.MarshalRecord(Stamped(cfg, w.lastHash, t)).Some?
  }

  ghost predicate CanWrite(cfg: Config, w: Writer, t: Trace) {
    Settled(w.disk) && !w.poisoned && cfg.codec.MarshalRecord(Stamped(cfg, w.lastHash, t)).Some?
  }

  function Written(cfg: Config, w: Writer, t: Trace, forceDurable: bool, f: Faults): AppendOut
    requires w.disk.active.Some? && cfg.codec.MarshalRecord(Stamped(cfg, w.lastHash, t)).Some?
  {
    var record := Stamped(cfg, w.lastHash, t);
    WriteRecord(cfg, w, record, cfg.codec.MarshalRecord(record).value, forceDurable, f)
  }

  lemma SameRequest(cfg: Config, w: Writer, d: Disk, t: Trace)
    ensures Chunk(cfg, w.(disk := d), t) == Chunk(cfg, w, t)
    ensures Reaches(cfg, w.(disk := d), t) <==> Reaches(cfg, w, t)
    ensures Reaches(cfg, w, t) && Settled(w.disk) ==> CanWrite(cfg, w, t)
    ensures Reaches(cfg, w, t) && Settled(d) ==> CanWrite(cfg, w.(disk := d), t)
  {
  }

  /** The bytes of one append carry the chain one record further. */
  lemma ChunkExtends(cfg: Config, w: Writer, t: Trace)
    requires cfg.codec.Lawful() && Reaches(cfg, w, t)
    requires Intact(cfg.codec, Stream(w.disk)) && w.lastHash == TailOf(History(cfg.codec, Stream(w.disk)))
    requires w.needsSeparator || Terminated(Stream(w.disk))
    ensures var s, record := Stream(w.disk), Stamped(cfg, w.lastHash, t);
            var longer := s + Chunk(cfg, w, t);
            && Intact(cfg.codec, longer) && Terminated(longer)
            && History(cfg.codec, longer) == History(cfg.codec, s) + [record]
            && TailOf(History(cfg.codec, longer)) == record.hash
  {
    hide *;
    var c, s, record := cfg.codec, Stream(w.disk), Stamped(cfg, w.lastHash, t);
    var raw := RawEncodes(cfg, w, t);
    StampedFollows(cfg, w, t, History(c, s));
    SeparatorFits(w);
    AppendRecord(c, s, Separator(w), raw, record);
    assert s + Separator(w) + raw + [LF] == s + Chunk(cfg, w, t);
    HistoryOf(c, s + Chunk(cfg, w, t), History(c, s) + [record]);
    EndsInLF(s, Separator(w) + raw);
  }

  lemma SeparatorFits(w: Writer)
    ensures Separator(w) == [LF] || (Separator(w) == [] && !w.needsSeparator)
  {
  }

  lemma HistoryOf(c: Codec, s: bytes, h: seq<Trace>)
    requires Genesis(c, s) == ScanOf(h)
    ensures Intact(c, s) && History(c, s) == h
    ensures h != [] ==> TailOf(h) == h[|h| - 1].hash
  {
  }

  lemma EndsInLF(s: bytes, x: bytes)
    ensures Terminated(s + (x + [LF]))
  {
  }

  lemma RawEncodes(cfg: Config, w: Writer, t: Trace) returns (raw: bytes)
    requires cfg.codec.Lawful() && Reaches(cfg, w, t)
    ensures cfg.codec.Encodes(raw, Stamped(cfg, w.lastHash, t)) && |raw| <= MAX_RECORD_BYTES
    ensures Chunk(cfg, w, t) == Separator(w) + raw + [LF]
  {
    hide Stamped, TraceHash;
    raw := cfg.codec.marshal(Stamped(cfg, w.lastHash, t)).value;
  }

  lemma StampedFollows(cfg: Config, w: Writer, t: Trace, h: seq<Trace>)
    requires Reaches(cfg, w, t) && w.lastHash == TailOf(h)
    ensures Follows(h, Stamped(cfg, w.lastHash, t))
  {
  }

  lemma ChunkHasNoCR(cfg: Config, w: Writer, t: Trace)
    requires cfg.codec.Lawful()
    ensures CR !in Chunk(cfg, w, t)
  {
    hide Stamped, TraceHash;
    var record := Stamped(cfg, w.lastHash, t);
    if cfg.codec.MarshalRecord(record).Some? {
      assert cfg.codec.Encodes(cfg.codec.marshal(record).value, record);
    }
  }

  lemma AnchorMoves(lo: bytes, s: bytes, chunk: bytes)
    requires Anchored(lo, s) && IsPrefix(lo, s) && (Terminated(s) || (chunk != [] && chunk[0] == LF))
    ensures Anchored(lo, s + chunk) && IsPrefix(lo, s + chunk)
  {
    PrefixIntro(s, chunk);
    if lo == s && !Terminated(s) {
      assert (s + chunk)[..|s| + 1] == s + [LF];
    } else if !Terminated(lo) {
      PrefixTransitive(lo + [LF], s, s + chunk);
    }
    PrefixTransitive(lo, s, s + chunk);
  }

  /** The stream with the record stands where the stream stood. */
  lemma ChunkStands(cfg: Config, lo: bytes, w: Writer, t: Trace)
    requires cfg.codec.Lawful() && Healthy(cfg.codec, w) && Reaches(cfg, w, t) && Stands(cfg.codec, lo, Stream(w.disk))
    ensures Stands(cfg.codec, lo, Stream(w.disk) + Chunk(cfg, w, t))
    ensures History(cfg.codec, Stream(w.disk) + Chunk(cfg, w, t)) == History(cfg.codec, Stream(w.disk)) + [Stamped(cfg, w.lastHash, t)]
  {
    hide Stamped, TraceHash, Genesis, RotatedData, Codec.Lawful, Anchored;
    ChunkHasNoCR(cfg, w, t);
    ChunkExtends(cfg, w, t);
    var raw := RawEncodes(cfg, w, t);
    SeparatorFits(w);
    AnchorMoves(lo, Stream(w.disk), Chunk(cfg, w, t));
  }

  // ----- write, barrier, rollback -----

  /** The active file during one write and its rollback, before a barrier succeeds. */
  ghost predicate Within(f: File, a: File, chunk: bytes) {
    && IsPrefix(a.data, f.data) && IsPrefix(f.data, a.data + chunk) && f.durable == a.durable
    && forall i :: 0 <= i < |f.past| ==> f.past[i] in a.past || (IsPrefix(a.data, f.past[i]) && IsPrefix(f.past[i], a.data + chunk))
  }

  lemma WithinWrite(a: File, chunk: bytes, n: nat)
    requires n <= |chunk|
    ensures Within(Write(a, chunk[..n]), a, chunk)
  {
    assert (a.data + chunk)[..|a.data| + n] == a.data + chunk[..n];
  }

  lemma WithinTruncate(f: File, a: File, chunk: bytes, newLen: nat)
    requires Within(f, a, chunk)
    ensures Within(Truncate(f, |a.data|, newLen), a, chunk)
  {
    var cut := Truncate(f, |a.data|, newLen);
    assert cut.data == f.data[..|cut.data|];
  }

  /** What f's contents may come back as continues the accepted stream. */
  lemma WithinFit(cfg: Config, lo: bytes, base: bytes, f: File, a: File, chunk: bytes)
    requires FileFit(cfg, lo, base, a) && Within(f, a, chunk) && IsRoof(cfg, lo, base, a.data + chunk, a.data + chunk)
    ensures FileFit(cfg, lo, base, f) && FileFit(cfg, lo, base, Clean(f.data))
  {
    hide Stands, Sized;
    var full := a.data + chunk;
    assert Roofed(cfg, lo, base, full);
    PrefixTransitive(a.durable, a.data, f.data);
    RoofOfPart(cfg, lo, base, f.data, full);
    forall i | 0 <= i < |Tops(f)|
      ensures IsPrefix(f.durable, Tops(f)[i]) && Roofed(cfg, lo, base, Tops(f)[i])
    {
      TopFit(cfg, lo, base, f, a, chunk, i);
    }
    PrefixConcat(base, a.durable, f.data);
    PrefixTransitive(lo, base + a.durable, base + f.data);
    assert Tops(Clean(f.data)) == [f.data];
  }

  lemma TopFit(cfg: Config, lo: bytes, base: bytes, f: File, a: File, chunk: bytes, i: nat)
    requires FileFit(cfg, lo, base, a) && Within(f, a, chunk) && Roofed(cfg, lo, base, a.data + chunk) && i < |Tops(f)|
    ensures IsPrefix(f.durable, Tops(f)[i]) && Roofed(cfg, lo, base, Tops(f)[i])
  {
    hide Roofed;
    var p := Tops(f)[i];
    if i < |f.past| && p in a.past {
      var j :| 0 <= j < |a.past| && a.past[j] == p;
      assert Tops(a)[j] == p;
    } else {
      PrefixTransitive(a.durable, a.data, p);
      RoofOfPart(cfg, lo, base, p, a.data + chunk);
    }
  }

  lemma ActiveFit(cfg: Config, floor: bytes, lo: bytes, d: Disk, f: File)
    requires StoreFit(cfg, floor, lo, d) && FileFit(cfg, lo, RotatedData(d.rotated), f)
    ensures StoreFit(cfg, floor, lo, WithActive(d, f))
  {
    hide FileFit, OlderFit, Stands, FilesOk;
  }

  /** A state of the store during one write. */
  lemma MidWrite(cfg: Config, floor: bytes, lo: bytes, d: Disk, f: File, a: File, chunk: bytes)
    requires StoreFit(cfg, floor, lo, d) && d.active == Some(a) && Within(f, a, chunk)
    requires IsRoof(cfg, lo, RotatedData(d.rotated), a.data + chunk, a.data + chunk)
    ensures AllFit(cfg, floor, lo, [WithActive(d, f)], Stream(d), Stream(d) + chunk)
    ensures AllFit(cfg, floor, lo, [WithActive(d, Clean(f.data))], Stream(d), Stream(d) + chunk)
  {
    hide Stands, Sized, OlderFit, FilesOk, Roofed;
    var base := RotatedData(d.rotated);
    WithinFit(cfg, lo, base, f, a, chunk);
    ActiveFit(cfg, floor, lo, d, f);
    ActiveFit(cfg, floor, lo, d, Clean(f.data));
    PrefixConcat(base, a.data, f.data);
    PrefixConcat(base, f.data, a.data + chunk);
    assert base + (a.data + chunk) == Stream(d) + chunk;
  }

  lemma RollbackFit(cfg: Config, floor: bytes, lo: bytes, d: Disk, f: File, a: File, chunk: bytes, rf: RollbackFaults)
    requires StoreFit(cfg, floor, lo, d) && d.active == Some(a) && Within(f, a, chunk)
    requires IsRoof(cfg, lo, RotatedData(d.rotated), a.data + chunk, a.data + chunk)
    ensures var rb := Rollback(WithActive(d, f), |a.data|, rf);
            && AllFit(cfg, floor, lo, rb.steps, Stream(d), Stream(d) + chunk)
            && rb.steps != [] && rb.disk == rb.steps[|rb.steps| - 1]
            && (rb.ok ==> rb.disk == WithActive(d, Clean(a.data)))
  {
    hide StoreFit, IsRoof, Stream;
    var cut := Truncate(f, |a.data|, rf.newLen);
    WithinTruncate(f, a, chunk, rf.newLen);
    MidWrite(cfg, floor, lo, d, cut, a, chunk);
    AllFitOne(cfg, floor, lo, WithActive(d, cut), Stream(d), Stream(d) + chunk);
    AllFitOne(cfg, floor, lo, WithActive(d, SyncFile(cut, rf.syncOk)), Stream(d), Stream(d) + chunk);
  }

  lemma AllFitOne(cfg: Config, floor: bytes, lo: bytes, d: Disk, from: bytes, to: bytes)
    ensures AllFit(cfg, floor, lo, [d], from, to) <==> StoreFit(cfg, floor, lo, d) && IsPrefix(from, Stream(d)) && IsPrefix(Stream(d), to)
  {
    assert [d][0] == d;
  }

  lemma AllFitConcat(cfg: Config, floor: bytes, lo: bytes, a: seq<Disk>, b: seq<Disk>, from: bytes, to: bytes)
    ensures AllFit(cfg, floor, lo, a, from, to) && AllFit(cfg, floor, lo, b, from, to) ==> AllFit(cfg, floor, lo, a + b, from, to)
    ensures AllFit(cfg, floor, lo, [], from, to)
  {
    hide StoreFit, Stream;
  }

  /** The system-call sequences a write can go through. */
  lemma WriteShapes(cfg: Config, w: Writer, t: Trace, forceDurable: bool, f: Faults)
    requires CanWrite(cfg, w, t)
    ensures var out := Written(cfg, w, t, forceDurable, f);
            var a := w.disk.active.value;
            var chunk := Chunk(cfg, w, t);
            var d1 := WithActive(w.disk, Write(a, chunk[..Clamp(f.written, 0, |chunk|)]));
            var d2 := WithActive(w.disk, SyncFile(d1.active.value, f.syncOk));
            var rb := Rollback(d1, |a.data|, f.rollback);
            var rolledBack := out.result.WriteRolledBack? || out.result.SyncRolledBack?;
            || (out.steps == [d1] && out.writer.disk == d1 && !rolledBack && !out.writer.poisoned)
            || (out.steps == [d1] + [d2] && out.writer.disk == d2 && !rolledBack && !out.writer.poisoned)
            || (out.steps == [d1] + rb.steps && out.writer.disk == rb.disk && (rolledBack ==> rb.ok && out.writer == w.(disk := rb.disk)))
            || (out.steps == [d1] + [d1] + rb.steps && out.writer.disk == rb.disk && (rolledBack ==> rb.ok && out.writer == w.(disk := rb.disk)))
  {
    hide Rollback, Clamp, Write;
  }

  /** At every step of a write, its barrier and its rollback the store stays fit,
      and its stream between the old one and the one with the record. */
  lemma WriteStepsFit(cfg: Config, floor: bytes, lo: bytes, w: Writer, t: Trace, forceDurable: bool, f: Faults)
    requires CanWrite(cfg, w, t) && StoreFit(cfg, floor, lo, w.disk)
    requires var full := w.disk.active.value.data + Chunk(cfg, w, t); IsRoof(cfg, lo, RotatedData(w.disk.rotated), full, full)
    ensures var out := Written(cfg, w, t, forceDurable, f);
            && out.steps != [] && out.writer.disk == out.steps[|out.steps| - 1]
            && AllFit(cfg, floor, lo, out.steps, Stream(w.disk), Stream(w.disk) + Chunk(cfg, w, t))
            && (out.result.WriteRolledBack? || out.result.SyncRolledBack? ==>
                  out.writer == w.(disk := WithActive(w.disk, Clean(w.disk.active.value.data))))
  {
    hide WriteRecord, Barrier, StoreFit, IsRoof, Stream, RotatedData, Chunk, Rollback, Stamped;
    var d, a, chunk := w.disk, w.disk.active.value, Chunk(cfg, w, t);
    var from, to := Stream(d), Stream(d) + chunk;
    var n := Clamp(f.written, 0, |chunk|);
    var written := Write(a, chunk[..n]);
    WriteShapes(cfg, w, t, forceDurable, f);
    WithinWrite(a, chunk, n);
    MidWrite(cfg, floor, lo, d, written, a, chunk);
    RollbackFit(cfg, floor, lo, d, written, a, chunk, f.rollback);
    var d1 := WithActive(d, written);
    var d2 := WithActive(d, SyncFile(written, f.syncOk));
    var rb := Rollback(d1, |a.data|, f.rollback);
    hide *;
    AllFitConcat(cfg, floor, lo, [d1], [d2], from, to);
    AllFitConcat(cfg, floor, lo, [d1], rb.steps, from, to);
    AllFitConcat(cfg, floor, lo, [d1], [d1], from, to);
    AllFitConcat(cfg, floor, lo, [d1] + [d1], rb.steps, from, to);
  }

  lemma WriteOutcomes(cfg: Config, w: Writer, t: Trace, forceDurable: bool, f: Faults)
    requires CanWrite(cfg, w, t)
    ensures var out := Written(cfg, w, t, forceDurable, f);
            var full := Write(w.disk.active.value, Chunk(cfg, w, t));
            && (out.writer.poisoned <==> out.result.Indeterminate?)
            && (out.result.Appended? || out.result.WriteRolledBack? || out.result.SyncRolledBack? || out.result.Indeterminate?)
            && (out.result.Appended? ==>
                  var after := if MustSync(cfg, w.appendSeq + 1, forceDurable) then Clean(full.data) else full;
                  out.writer == w.(disk := WithActive(w.disk, after), needsSeparator := false,
                                   lastHash := Stamped(cfg, w.lastHash, t).hash, appendSeq := w.appendSeq + 1))
            && (out.result.WriteRolledBack? || out.result.SyncRolledBack? ==>
                  out.writer == w.(disk := WithActive(w.disk, Clean(w.disk.active.value.data))))
  {
    var chunk := Chunk(cfg, w, t);
    assert chunk[..|chunk|] == chunk;
    var d1 := WithActive(w.disk, Write(w.disk.active.value, chunk[..Clamp(f.written, 0, |chunk|)]));
    RollbackRestores(d1, w.disk.active.value, chunk, f);
    hide Rollback;
  }

  lemma RollbackRestores(d: Disk, a: File, chunk: bytes, f: Faults)
    requires d.active == Some(Write(a, chunk[..Clamp(f.written, 0, |chunk|)]))
    ensures var rb := Rollback(d, |a.data|, f.rollback);
            rb.ok ==> rb.disk == WithActive(d, Clean(a.data))
  {
    var data := a.data + chunk[..Clamp(f.written, 0, |chunk|)];
    assert data[..|a.data|] == a.data;
  }

  /** One write, over all faults: it extends the stream by exactly its record, or
      leaves the stream as it was and durable, or poisons the writer. */
  lemma WriteRecordKeeps(cfg: Config, w: Writer, t: Trace, forceDurable: bool, f: Faults)
    requires CanWrite(cfg, w, t)
    ensures var out := Written(cfg, w, t, forceDurable, f);
            var d := w.disk;
            && (out.result.Appended? ==>
                  && Settled(out.writer.disk) && Stream(out.writer.disk) == Stream(d) + Chunk(cfg, w, t)
                  && IsPrefix(DurableStream(d), DurableStream(out.writer.disk))
                  && (MustSync(cfg, w.appendSeq + 1, forceDurable) ==> DurableStream(out.writer.disk) == Stream(out.writer.disk)))
            && (out.result.WriteRolledBack? || out.result.SyncRolledBack? ==>
                  && Settled(out.writer.disk) && Stream(out.writer.disk) == Stream(d) == DurableStream(out.writer.disk)
                  && out.writer == w.(disk := out.writer.disk))
            && (out.result.Indeterminate? <==> out.writer.poisoned)
  {
    WriteOutcomes(cfg, w, t, forceDurable, f);
    hide WriteRecord, Barrier, Stamped, MustSync, RotatedData, Chunk;
    var a, chunk, base := w.disk.active.value, Chunk(cfg, w, t), RotatedData(w.disk.rotated);
    PrefixIntro(a.data, chunk);
    PrefixTransitive(a.durable, a.data, a.data + chunk);
    PrefixConcat(base, a.durable, a.data + chunk);
    PrefixConcat(base, a.durable, a.data);
    PrefixIntro(base + a.durable, []);
    assert base + (a.data + chunk) == Stream(w.disk) + chunk;
  }

  // ----- rotation -----

  /** The Stat of the first free index answers that nothing is there. */
  predicate StatAnswers(d: Disk, f: RotationFaults) {
    NextIndex(d, f) == FirstFree(d.rotated.Keys)
  }

  lemma RotatedSettled(d: Disk, idx: int)
    requires Settled(d) && SyncedActive(d) && idx == FirstFree(d.rotated.Keys)
    ensures var d2 := Renamed(d, idx);
            && Numbered(d2.rotated.Keys) && RotatedData(d2.rotated) == Stream(d)
  {
    NumberedGrows(d.rotated.Keys);
    RotatedAdd(d.rotated, idx, d.active.value.data);
    assert d.rotated[idx := d.active.value.data].Keys == d.rotated.Keys + {idx};
  }

  /** A rotation never changes the stream; when it succeeds everything is durable
      and no other directory can come back. */
  lemma RotationKeepsStream(cfg: Config, d: Disk, f: RotationFaults)
    requires Settled(d) && StatAnswers(d, f)
    ensures var r := Rotate(cfg, d, f);
            && (forall i :: 0 <= i < |r.steps| ==> Stream(r.steps[i]) == Stream(d))
            && (r.steps != [] ==> r.disk == r.steps[|r.steps| - 1]) && (r.steps == [] ==> r.disk == d)
            && (r.status != Uncertain ==> Settled(r.disk) && r.handle == OnActive && IsPrefix(DurableStream(d), DurableStream(r.disk)))
            && (r.status == NotRotated ==> r.disk == d || r.disk == WithActive(d, Clean(d.active.value.data)))
            && (r.status == Rotated ==> r.disk.active == Some(EMPTY_FILE) && r.disk.older == [] && DurableStream(r.disk) == Stream(d))
  {
    var a := d.active.value;
    PrefixConcat(RotatedData(d.rotated), a.durable, a.data);
    PrefixIntro(DurableStream(d), []);
    if f.syncOk {
      var d1 := WithActive(d, Clean(a.data));
      RotatedSettled(d1, FirstFree(d.rotated.Keys));
      assert Stream(d) + [] == Stream(d);
    }
  }

  // ----- the whole append -----

  /** The five ways an append can go. */
  lemma AppendShapes(cfg: Config, w: Writer, t: Trace, forceDurable: bool, f: Faults)
    requires Settled(w.disk) && !w.poisoned && StatAnswers(w.disk, f.rotation)
    ensures var out := Append(cfg, w, t, forceDurable, f);
            var r := Rotate(cfg, w.disk, f.rotation);
            var w1 := w.(disk := r.disk);
            || (out.writer == w && out.steps == [] && (out.result.ProvenanceFailed? || out.result.HashFailed? || out.result.MarshalFailed? || out.result.StatFailed?))
            || (Reaches(cfg, w, t) && r.status == Uncertain && out.steps == r.steps && r.steps != [] && out.writer.poisoned && out.writer.disk == r.disk && out.result.PoisonedWriter?)
            || (Reaches(cfg, w, t) && r.status != Uncertain && out.steps == r.steps && out.writer == w1 && (out.result.RotationFailed? || out.result.StatFailed?))
            || (Reaches(cfg, w, t) && r.status == Rotated && out == Written(cfg, w1, t, forceDurable, f).(steps := r.steps + Written(cfg, w1, t, forceDurable, f).steps))
            || (Reaches(cfg, w, t) && !RotationDue(cfg, w, |Chunk(cfg, w, t)|) && out == Written(cfg, w, t, forceDurable, f))
  {
    if !Reaches(cfg, w, t) || !f.statOk {
      EndsEarly(cfg, w, t, forceDurable, f);
    } else if RotationDue(cfg, w, |Chunk(cfg, w, t)|) {
      RotatesFirst(cfg, w, t, forceDurable, f);
    } else {
      WritesAtOnce(cfg, w, t, forceDurable, f);
    }
  }

  lemma EndsEarly(cfg: Config, w: Writer, t: Trace, forceDurable: bool, f: Faults)
    requires w.disk.active.Some? && !w.poisoned && (!Reaches(cfg, w, t) || !f.statOk)
    ensures var out := Append(cfg, w, t, forceDurable, f);
            && out.writer == w && out.steps == []
            && (out.result.ProvenanceFailed? || out.result.HashFailed? || out.result.MarshalFailed? || out.result.StatFailed?)
  {
    hide Rotate, WriteRecord, Stamped, TraceHash;
  }

  lemma WritesAtOnce(cfg: Config, w: Writer, t: Trace, forceDurable: bool, f: Faults)
    requires w.disk.active.Some? && Reaches(cfg, w, t) && f.statOk && !RotationDue(cfg, w, |Chunk(cfg, w, t)|)
    ensures Append(cfg, w, t, forceDurable, f) == Written(cfg, w, t, forceDurable, f)
  {
    hide Rotate, WriteRecord, Stamped, TraceHash;
  }

  lemma RotatesFirst(cfg: Config, w: Writer, t: Trace, forceDurable: bool, f: Faults)
    requires Settled(w.disk) && Reaches(cfg, w, t) && f.statOk && RotationDue(cfg, w, |Chunk(cfg, w, t)|)
    requires StatAnswers(w.disk, f.rotation)
    ensures var out := Append(cfg, w, t, forceDurable, f);
            var r := Rotate(cfg, w.disk, f.rotation);
            var w1 := w.(disk := r.disk);
            || (r.status == Uncertain && out.steps == r.steps && r.steps != [] && out.writer.poisoned && out.writer.disk == r.disk && out.result.PoisonedWriter?)
            || (r.status != Uncertain && out.steps == r.steps && out.writer == w1 && (out.result.RotationFailed? || out.result.StatFailed?))
            || (r.status == Rotated && out == Written(cfg, w1, t, forceDurable, f).(steps := r.steps + Written(cfg, w1, t, forceDurable, f).steps))
  {
    RotationKeepsStream(cfg, w.disk, f.rotation);
    RotationTookSteps(cfg, w.disk, f.rotation);
    hide Rotate, WriteRecord, Stream, DurableStream, Settled, Stamped, TraceHash;
  }

  lemma RotationTookSteps(cfg: Config, d: Disk, f: RotationFaults)
    requires d.active.Some?
    ensures Rotate(cfg, d, f).status != NotRotated ==> Rotate(cfg, d, f).steps != []
  {
  }

  predicate SameDirectory(d: Disk, d2: Disk) {
    d2.older == d.older && d2.rotated == d.rotated
  }

  /** What one step of the log does for a caller. */
  ghost predicate Outcome(cfg: Config, w: Writer, t: Trace, forceDurable: bool, out: AppendOut) {
    var w', c := out.writer, cfg.codec;
    && out.record == Stamped(cfg, w.lastHash, t)
    && (w'.poisoned <==> out.result.PoisonedWriter? || out.result.Indeterminate?)
    && (!w'.poisoned ==> Healthy(c, w') && IsPrefix(DurableStream(w.disk), DurableStream(w'.disk)))
    && (out.result.Appended? ==>
          && Stream(w'.disk) == Stream(w.disk) + Chunk(cfg, w, t)
          && History(c, Stream(w'.disk)) == History(c, Stream(w.disk)) + [Stamped(cfg, w.lastHash, t)]
          && w'.appendSeq == w.appendSeq + 1
          && Reaches(cfg, w, t)
          && (MustSync(cfg, w'.appendSeq, forceDurable) ==> DurableStream(w'.disk) == Stream(w'.disk) && SyncedActive(w'.disk)))
    && (!w'.poisoned ==> SameDirectory(w.disk, w'.disk) || w'.disk.older == [])
    && (!out.result.Appended? && !w'.poisoned ==>
          && Stream(w'.disk) == Stream(w.disk)
          && w' == w.(disk := w'.disk))
  }

  lemma RecordIsStamped(cfg: Config, w: Writer, t: Trace, forceDurable: bool, f: Faults)
    requires !w.poisoned ==> w.disk.active.Some?
    ensures Append(cfg, w, t, forceDurable, f).record == Stamped(cfg, w.lastHash, t)
  {
    hide Rotate, Rollback, Stamped, Clamp;
  }

  lemma WriteHealthy(cfg: Config, w: Writer, t: Trace, forceDurable: bool, f: Faults)
    requires cfg.codec.Lawful() && Healthy(cfg.codec, w) && Reaches(cfg, w, t)
    ensures Outcome(cfg, w, t, forceDurable, Written(cfg, w, t, forceDurable, f))
  {
    hide WriteRecord, Genesis, Stream, DurableStream, RotatedData, Chunk, Stamped, MustSync, Codec.Lawful;
    SameRequest(cfg, w, w.disk, t);
    ChunkExtends(cfg, w, t);
    WriteOutcomes(cfg, w, t, forceDurable, f);
    WrittenIsStamped(cfg, w, t, forceDurable, f);
    WriteRecordKeeps(cfg, w, t, forceDurable, f);
    DurableIsPrefix(w.disk);
  }

  lemma WrittenIsStamped(cfg: Config, w: Writer, t: Trace, forceDurable: bool, f: Faults)
    requires CanWrite(cfg, w, t)
    ensures Written(cfg, w, t, forceDurable, f).record == Stamped(cfg, w.lastHash, t)
  {
    hide WriteRecord, Stamped;
  }

  /** A rotation that completes, or is refused before anything happened, leaves a
      healthy writer on the same stream. */
  lemma RotationHealthy(cfg: Config, w: Writer, f: RotationFaults)
    requires Healthy(cfg.codec, w) && StatAnswers(w.disk, f) && Rotate(cfg, w.disk, f).status != Uncertain
    ensures var r := Rotate(cfg, w.disk, f);
            && (SameDirectory(w.disk, r.disk) || r.disk.older == [])
            && Healthy(cfg.codec, w.(disk := r.disk)) && Stream(r.disk) == Stream(w.disk)
            && IsPrefix(DurableStream(w.disk), DurableStream(r.disk))
  {
    RotationKeepsStream(cfg, w.disk, f);
  }

  /** Every append of a healthy writer, over all faults: it acknowledges and has
      extended the verified chain by exactly its record; or it fails and has
      changed neither the stream nor the chain state; or it poisons the writer. */
  lemma AppendKeepsHealthy(cfg: Config, w: Writer, t: Trace, forceDurable: bool, f: Faults)
    requires cfg.codec.Lawful() && Healthy(cfg.codec, w) && StatAnswers(w.disk, f.rotation)
    ensures Outcome(cfg, w, t, forceDurable, Append(cfg, w, t, forceDurable, f))
  {
    hide Append, Rotate, WriteRecord, Outcome, Stream, DurableStream, RotatedData, Stamped, Chunk, Genesis;
    AppendShapes(cfg, w, t, forceDurable, f);
    RecordIsStamped(cfg, w, t, forceDurable, f);
    var r := Rotate(cfg, w.disk, f.rotation);
    var w1 := w.(disk := r.disk);
    SameRequest(cfg, w, r.disk, t);
    if Reaches(cfg, w, t) {
      WriteHealthy(cfg, w, t, forceDurable, f);
    }
    if r.status != Uncertain {
      RotationHealthy(cfg, w, f.rotation);
      if Reaches(cfg, w1, t) {
        WriteHealthy(cfg, w1, t, forceDurable, f);
        OutcomeAfterRotation(cfg, w, r.disk, t, forceDurable, Written(cfg, w1, t, forceDurable, f), r.steps + Written(cfg, w1, t, forceDurable, f).steps);
      }
    }
    OutcomeWithoutWrite(cfg, w, r.disk, t, forceDurable, Append(cfg, w, t, forceDurable, f));
  }

  lemma OutcomeAfterRotation(cfg: Config, w: Writer, d: Disk, t: Trace, forceDurable: bool, out: AppendOut, steps: seq<Disk>)
    requires Healthy(cfg.codec, w) && Healthy(cfg.codec, w.(disk := d)) && Stream(d) == Stream(w.disk)
    requires IsPrefix(DurableStream(w.disk), DurableStream(d)) && (SameDirectory(w.disk, d) || d.older == [])
    requires Outcome(cfg, w.(disk := d), t, forceDurable, out)
    ensures Outcome(cfg, w, t, forceDurable, out.(steps := steps))
  {
    hide Stream, DurableStream, Stamped, Genesis, RotatedData, Settled;
    if !out.writer.poisoned {
      PrefixTransitive(DurableStream(w.disk), DurableStream(d), DurableStream(out.writer.disk));
    }
  }

  lemma OutcomeWithoutWrite(cfg: Config, w: Writer, d: Disk, t: Trace, forceDurable: bool, out: AppendOut)
    requires Healthy(cfg.codec, w) && out.record == Stamped(cfg, w.lastHash, t)
    ensures out.writer.poisoned && out.result.PoisonedWriter? ==> Outcome(cfg, w, t, forceDurable, out)
    ensures (out.result.ProvenanceFailed? || out.result.HashFailed? || out.result.MarshalFailed? || out.result.StatFailed? || out.result.RotationFailed?)
            && (out.writer == w || (out.writer == w.(disk := d) && Healthy(cfg.codec, w.(disk := d)) && Stream(d) == Stream(w.disk)
                                    && (SameDirectory(w.disk, d) || d.older == []) && IsPrefix(DurableStream(w.disk), DurableStream(d)))) ==>
            Outcome(cfg, w, t, forceDurable, out)
  {
    hide Stream, DurableStream, Stamped, Genesis, RotatedData, Settled;
    PrefixIntro(DurableStream(w.disk), []);
  }

  lemma DurableIsPrefix(d: Disk)
    requires Settled(d)
    ensures IsPrefix(DurableStream(d), Stream(d))
  {
    PrefixConcat(RotatedData(d.rotated), d.active.value.durable, d.active.value.data);
  }


  // ----- crashes stay bounded -----

  /** A complete file is its own roof. */
  lemma CleanFit(cfg: Config, lo: bytes, base: bytes, data: bytes)
    requires Stands(cfg.codec, lo, base + data) && Sized(cfg, data)
    ensures FileFit(cfg, lo, base, Clean(data)) && IsRoof(cfg, lo, base, data, data)
  {
    hide Stands, Sized;
    StandsIsPrefix(cfg.codec, lo, base + data);
    assert IsRoof(cfg, lo, base, data, data);
    assert Tops(Clean(data)) == [data];
  }

  lemma OlderGrows(cfg: Config, floor: bytes, older: seq<Layout>, base: bytes, l: Layout, base2: bytes)
    requires OlderFit(cfg, floor, older, base) && IsPrefix(base, base2)
    requires LayoutFit(cfg, floor, l) && IsPrefix(LayoutStream(l), base2)
    ensures OlderFit(cfg, floor, older + [l], base2) && OlderFit(cfg, floor, older, base2) && OlderFit(cfg, floor, [], base2)
  {
    hide LayoutFit, LayoutStream;
    forall i | 0 <= i < |older|
      ensures IsPrefix(LayoutStream(older[i]), base2)
    {
      PrefixTransitive(LayoutStream(older[i]), base, base2);
    }
  }

  /** The directory as it is now, complete. */
  lemma NowFit(cfg: Config, floor: bytes, lo: bytes, d: Disk)
    requires StoreFit(cfg, floor, lo, d) && Stands(cfg.codec, lo, Stream(d)) && (d.active.Some? ==> FileOk(cfg, d.active.value.data))
    ensures LayoutFit(cfg, floor, Layout(if d.active.Some? then Some(d.active.value.data) else None, d.rotated))
  {
    hide Stands, FileOk, OlderFit, FileFit, RotatedData;
    StandsTransitive(cfg.codec, floor, lo, Stream(d));
  }

  lemma RenamedFit(cfg: Config, floor: bytes, lo: bytes, d: Disk, idx: int)
    requires StoreFit(cfg, floor, lo, d) && Settled(d) && SyncedActive(d) && idx == FirstFree(d.rotated.Keys)
    requires Stands(cfg.codec, lo, Stream(d)) && FileOk(cfg, d.active.value.data)
    ensures StoreFit(cfg, floor, lo, Renamed(d, idx)) && Stream(Renamed(d, idx)) == Stream(d)
  {
    NowFit(cfg, floor, lo, d);
    RotatedSettled(d, idx);
    hide Stands, FileOk, FileFit, RotatedData, Numbered, LayoutFit;
    var data := d.active.value.data;
    var l, d2 := Layout(Some(data), d.rotated), Renamed(d, idx);
    PrefixIntro(RotatedData(d.rotated), data);
    PrefixIntro(Stream(d), []);
    assert LayoutStream(l) == Stream(d);
    OlderGrows(cfg, floor, d.older, RotatedData(d.rotated), l, Stream(d));
    assert Stream(d2) == RotatedData(d2.rotated) + [] == RotatedData(d2.rotated);
  }

  lemma CreatedFit(cfg: Config, floor: bytes, lo: bytes, d: Disk)
    requires StoreFit(cfg, floor, lo, d) && Stands(cfg.codec, lo, Stream(d))
    ensures StoreFit(cfg, floor, lo, Created(d)) && Stream(Created(d)) == Stream(d)
  {
    if d.active.None? {
      NowFit(cfg, floor, lo, d);
      EmptyIsSized(cfg);
      hide Stands, FileOk, RotatedData, Numbered, LayoutFit, FileFit, FilesOk;
      var base := RotatedData(d.rotated);
      assert base + [] == base;
      PrefixIntro(base, []);
      OlderGrows(cfg, floor, d.older, base, Layout(None, d.rotated), base);
      CleanFit(cfg, lo, base, []);
    }
  }

  lemma EmptyIsSized(cfg: Config)
    ensures FileOk(cfg, [])
  {
    ScanNothing(cfg.codec);
  }

  /** No directory can come back: what the files guarantee is guaranteed. */
  lemma ConfirmedFit(cfg: Config, floor: bytes, lo: bytes, d: Disk)
    requires StoreFit(cfg, floor, lo, d) && CR !in lo
    ensures StoreFit(cfg, lo, lo, d.(older := []))
  {
    hide RotatedData, FileFit, FilesOk;
  }

  /** Everything in the file is synced: the whole stream is guaranteed by it. */
  lemma SyncedFit(cfg: Config, floor: bytes, lo: bytes, d: Disk)
    requires StoreFit(cfg, floor, lo, d) && Stands(cfg.codec, lo, Stream(d)) && SyncedActive(d) && FileOk(cfg, d.active.value.data)
    ensures StoreFit(cfg, floor, Stream(d), d) && Stands(cfg.codec, Stream(d), Stream(d))
  {
    hide RotatedData, FilesOk, Intact, Anchored, OlderFit, Stream;
    var s := Stream(d);
    SelfStands(cfg.codec, lo, s);
    StandsTransitive(cfg.codec, floor, lo, s);
    StreamParts(d);
    hide Stands;
    CleanFit(cfg, s, RotatedData(d.rotated), d.active.value.data);
  }

  lemma StreamParts(d: Disk)
    requires d.active.Some?
    ensures Stream(d) == RotatedData(d.rotated) + d.active.value.data
  {
  }

  lemma SelfStands(c: Codec, lo: bytes, s: bytes)
    requires Stands(c, lo, s)
    ensures Stands(c, s, s)
  {
  }

  lemma SyncFit(cfg: Config, floor: bytes, lo: bytes, d: Disk)
    requires StoreFit(cfg, floor, lo, d) && Settled(d) && Stands(cfg.codec, lo, Stream(d)) && FileOk(cfg, d.active.value.data)
    ensures StoreFit(cfg, floor, lo, WithActive(d, Clean(d.active.value.data)))
  {
    hide RotatedData, FilesOk, OlderFit, Stands, FileFit;
    StreamParts(d);
    CleanFit(cfg, lo, RotatedData(d.rotated), d.active.value.data);
  }

  /** Every step of a rotation leaves a fit store with the same stream. */
  lemma RotateFit(cfg: Config, floor: bytes, lo: bytes, w: Writer, f: RotationFaults)
    requires Ready(cfg, floor, lo, w) && StatAnswers(w.disk, f)
    ensures var r, s := Rotate(cfg, w.disk, f), Stream(w.disk);
            && AllFit(cfg, floor, lo, r.steps, s, s)
            && (r.status == NotRotated ==> Ready(cfg, floor, lo, w.(disk := r.disk)))
            && (r.status == Rotated ==> Ready(cfg, s, s, w.(disk := r.disk)))
  {
    hide Stream, RotatedData, FileFit, FilesOk, OlderFit, Stands, FileOk, Intact, Numbered;
    var d, s := w.disk, Stream(w.disk);
    var d1 := WithActive(d, SyncFile(d.active.value, f.syncOk));
    PrefixIntro(s, []);
    SyncFit(cfg, floor, lo, d);
    StreamParts(d);
    StreamParts(d1);
    if f.syncOk {
      var idx := FirstFree(d.rotated.Keys);
      RenamedFit(cfg, floor, lo, d1, idx);
      var d2 := Renamed(d1, idx);
      CreatedFit(cfg, floor, lo, d2);
      var d3 := Created(d2);
      StreamOfOlder(d3);
      RotatedReady(cfg, floor, lo, w, d3);
    }
  }

  lemma StreamOfOlder(d: Disk)
    ensures Stream(d.(older := [])) == Stream(d)
  {
  }

  lemma RotatedReady(cfg: Config, floor: bytes, lo: bytes, w: Writer, d3: Disk)
    requires Ready(cfg, floor, lo, w) && StoreFit(cfg, floor, lo, d3) && d3.active == Some(EMPTY_FILE) && Stream(d3) == Stream(w.disk)
    ensures var s, d4 := Stream(w.disk), d3.(older := []);
            StoreFit(cfg, floor, lo, d4) && Ready(cfg, s, s, w.(disk := d4))
  {
    EmptyIsSized(cfg);
    StreamOfOlder(d3);
    hide Stream, RotatedData, FilesOk, Intact, FileFit, FileOk;
    var s, d4 := Stream(w.disk), d3.(older := []);
    SyncedFit(cfg, floor, lo, d3);
    ConfirmedFit(cfg, floor, s, d3);
  }

  lemma LoneChunk(sep: bytes, raw: bytes)
    requires (sep == [] || sep == [LF]) && raw != [] && LF !in raw
    ensures AtMostOneLine(sep + raw + [LF])
  {
    var data := sep + raw + [LF];
    var s := raw + [LF];
    if sep == [LF] {
      assert data[1..] == s;
    } else {
      assert data == s && data[0] == raw[0];
    }
    LineThenRest(raw, []);
    assert raw + [LF] + [] == s;
  }

  lemma ActiveSeparator(d: Disk, needsSeparator: bool)
    requires d.active.Some? && (needsSeparator || Terminated(Stream(d)))
    ensures needsSeparator || Terminated(d.active.value.data)
  {
    var data := d.active.value.data;
    if data != [] {
      assert Stream(d)[|Stream(d)| - 1] == data[|data| - 1];
    }
  }

  /** An append that needs no rotation leaves a file of the right size, each line
      of which is a record. */
  lemma ActiveGrows(cfg: Config, w: Writer, t: Trace)
    requires cfg.codec.Lawful() && Healthy(cfg.codec, w) && Reaches(cfg, w, t)
    requires FileOk(cfg, w.disk.active.value.data) && !RotationDue(cfg, w, |Chunk(cfg, w, t)|)
    ensures FileOk(cfg, w.disk.active.value.data + Chunk(cfg, w, t))
  {
    hide Codec.Lawful, Genesis, ScanFile, Lines, Stamped, TraceHash, RotatedData, Reaches, AtMostOneLine;
    var c := cfg.codec;
    var raw := RawEncodes(cfg, w, t);
    var chunk, sep, data := Chunk(cfg, w, t), Separator(w), w.disk.active.value.data;
    SeparatorFits(w);
    ActiveSeparator(w.disk, w.needsSeparator);
    ScanCut(c, data, sep, raw, Stamped(cfg, w.lastHash, t), |chunk|);
    assert chunk[..|chunk|] == chunk;
    LoneChunk(sep, raw);
    assert data == [] ==> data + chunk == chunk;
  }

  lemma ChunkRoof(cfg: Config, floor: bytes, lo: bytes, w: Writer, t: Trace)
    requires cfg.codec.Lawful() && Ready(cfg, floor, lo, w) && Reaches(cfg, w, t) && !RotationDue(cfg, w, |Chunk(cfg, w, t)|)
    ensures var full := w.disk.active.value.data + Chunk(cfg, w, t);
            && IsRoof(cfg, lo, RotatedData(w.disk.rotated), full, full) && FileOk(cfg, full)
            && Stands(cfg.codec, lo, Stream(w.disk) + Chunk(cfg, w, t))
  {
    hide Codec.Lawful, Stands, RotatedData, Stamped, Chunk, StoreFit, ScanFile, Sized, Genesis, History, Stream, TraceHash;
    ChunkStands(cfg, lo, w, t);
    ActiveGrows(cfg, w, t);
    StreamParts(w.disk);
    var base, data, chunk := RotatedData(w.disk.rotated), w.disk.active.value.data, Chunk(cfg, w, t);
    assert base + (data + chunk) == Stream(w.disk) + chunk;
    PrefixIntro(data + chunk, []);
  }

  /** One write, with everything a crash may leave on the way. */
  lemma WriteFit(cfg: Config, floor: bytes, lo: bytes, w: Writer, t: Trace, forceDurable: bool, f: Faults)
    requires cfg.codec.Lawful() && Ready(cfg, floor, lo, w) && Reaches(cfg, w, t) && !RotationDue(cfg, w, |Chunk(cfg, w, t)|)
    ensures var out := Written(cfg, w, t, forceDurable, f);
            && out.steps != [] && out.writer.disk == out.steps[|out.steps| - 1]
            && AllFit(cfg, floor, lo, out.steps, Stream(w.disk), Stream(w.disk) + Chunk(cfg, w, t))
            && (!out.writer.poisoned ==> Ready(cfg, floor, lo, out.writer))
  {
    hide Codec.Lawful, Stands, RotatedData, Stamped, Chunk, WriteRecord, StoreFit, IsRoof, FileOk, Genesis, Stream,
         DurableStream;
    ChunkRoof(cfg, floor, lo, w, t);
    SameRequest(cfg, w, w.disk, t);
    WriteStepsFit(cfg, floor, lo, w, t, forceDurable, f);
    WriteHealthy(cfg, w, t, forceDurable, f);
    WriteOutcomes(cfg, w, t, forceDurable, f);
    var out := Written(cfg, w, t, forceDurable, f);
    if !out.writer.poisoned {
      LastStep(cfg, floor, lo, out, Stream(w.disk), Stream(w.disk) + Chunk(cfg, w, t));
    }
  }

  lemma LastStep(cfg: Config, floor: bytes, lo: bytes, out: AppendOut, from: bytes, to: bytes)
    requires out.steps != [] && out.writer.disk == out.steps[|out.steps| - 1] && AllFit(cfg, floor, lo, out.steps, from, to)
    ensures StoreFit(cfg, floor, lo, out.writer.disk)
  {
    hide StoreFit, Stream;
  }

  lemma AllFitWiden(cfg: Config, floor: bytes, floor2: bytes, lo: bytes, lo2: bytes, steps: seq<Disk>, from: bytes, to: bytes, to2: bytes)
    requires AllFit(cfg, floor2, lo2, steps, from, to) && IsPrefix(to, to2)
    requires Stands(cfg.codec, floor, floor2) && Stands(cfg.codec, lo, lo2) && Stands(cfg.codec, floor, lo) && Intact(cfg.codec, floor)
    ensures AllFit(cfg, floor, lo, steps, from, to2)
  {
    hide StoreFit, Stands, Stream;
    forall i | 0 <= i < |steps|
      ensures StoreFit(cfg, floor, lo, steps[i]) && IsPrefix(Stream(steps[i]), to2)
    {
      StoreLower(cfg, floor, floor2, lo, lo2, steps[i]);
      PrefixTransitive(Stream(steps[i]), to, to2);
    }
  }

  lemma ReadyLower(cfg: Config, floor: bytes, floor2: bytes, lo: bytes, lo2: bytes, w: Writer)
    requires Ready(cfg, floor2, lo2, w)
    requires Stands(cfg.codec, floor, floor2) && Stands(cfg.codec, lo, lo2) && Stands(cfg.codec, floor, lo) && Intact(cfg.codec, floor)
    ensures Ready(cfg, floor, lo, w)
  {
    hide StoreFit, Stands, Stream, FileOk, Genesis;
    StoreLower(cfg, floor, floor2, lo, lo2, w.disk);
    StandsTransitive(cfg.codec, lo, lo2, Stream(w.disk));
  }

  lemma ReadyStands(cfg: Config, floor: bytes, lo: bytes, w: Writer)
    requires Ready(cfg, floor, lo, w)
    ensures Stands(cfg.codec, floor, lo) && Stands(cfg.codec, lo, Stream(w.disk)) && Stands(cfg.codec, floor, Stream(w.disk))
    ensures Intact(cfg.codec, floor)
  {
    StandsTransitive(cfg.codec, floor, lo, Stream(w.disk));
  }

  /** Every append of a writer on a fit store, over all faults: at each of its
      steps, and at the end, every crash is bounded; and unless it poisons, the
      writer is ready again. */
  lemma AppendFit(cfg: Config, floor: bytes, lo: bytes, w: Writer, t: Trace, forceDurable: bool, f: Faults)
    requires cfg.codec.Lawful() && Ready(cfg, floor, lo, w) && StatAnswers(w.disk, f.rotation)
    ensures var out := Append(cfg, w, t, forceDurable, f);
            && AllFit(cfg, floor, lo, out.steps, Stream(w.disk), Stream(w.disk) + Chunk(cfg, w, t))
            && (if out.steps == [] then out.writer.disk == w.disk else out.writer.disk == out.steps[|out.steps| - 1])
            && (out.steps != [] ==> Reaches(cfg, w, t)) && (out.writer.poisoned ==> out.steps != [])
            && (!out.writer.poisoned ==> Ready(cfg, floor, lo, out.writer))
  {
    hide Append, Rotate, WriteRecord, Ready, AllFit, Stream, Stamped, Chunk, Stands, Codec.Lawful, StatAnswers;
    ReadySettled(cfg, floor, lo, w);
    AppendShapes(cfg, w, t, forceDurable, f);
    var r, s, to := Rotate(cfg, w.disk, f.rotation), Stream(w.disk), Stream(w.disk) + Chunk(cfg, w, t);
    var w1 := w.(disk := r.disk);
    RotateFit(cfg, floor, lo, w, f.rotation);
    RotationKeepsStream(cfg, w.disk, f.rotation);
    SameRequest(cfg, w, r.disk, t);
    PrefixIntro(s, Chunk(cfg, w, t));
    AllFitWider(cfg, floor, lo, r.steps, s, s, to);
    AllFitConcat(cfg, floor, lo, [], [], s, to);
    if r.status == Rotated {
      ReadyStands(cfg, floor, lo, w);
      ReadyLower(cfg, floor, s, lo, s, w1);
    }
    if Reaches(cfg, w, t) && !RotationDue(cfg, w, |Chunk(cfg, w, t)|) {
      WriteFit(cfg, floor, lo, w, t, forceDurable, f);
    }
    if Reaches(cfg, w, t) && r.status == Rotated {
      AfterRotation(cfg, floor, lo, w, t, forceDurable, f);
    }
  }

  lemma AllFitWider(cfg: Config, floor: bytes, lo: bytes, steps: seq<Disk>, from: bytes, to: bytes, to2: bytes)
    requires AllFit(cfg, floor, lo, steps, from, to) && IsPrefix(to, to2)
    ensures AllFit(cfg, floor, lo, steps, from, to2)
  {
    hide StoreFit, Stream;
    forall i | 0 <= i < |steps|
      ensures IsPrefix(Stream(steps[i]), to2)
    {
      PrefixTransitive(Stream(steps[i]), to, to2);
    }
  }

  /** The write after a rotation, seen from before it. */
  lemma AfterRotation(cfg: Config, floor: bytes, lo: bytes, w: Writer, t: Trace, forceDurable: bool, f: Faults)
    requires cfg.codec.Lawful() && Ready(cfg, floor, lo, w) && StatAnswers(w.disk, f.rotation) && Reaches(cfg, w, t)
    requires Rotate(cfg, w.disk, f.rotation).status == Rotated
    ensures var r := Rotate(cfg, w.disk, f.rotation);
            var w1 := w.(disk := r.disk);
            Settled(r.disk) && Reaches(cfg, w1, t) &&
            var out := Written(cfg, w1, t, forceDurable, f);
            var steps := r.steps + out.steps;
            && AllFit(cfg, floor, lo, steps, Stream(w.disk), Stream(w.disk) + Chunk(cfg, w, t))
            && out.steps != [] && out.writer.disk == steps[|steps| - 1]
            && (!out.writer.poisoned ==> Ready(cfg, floor, lo, out.writer))
  {
    hide Rotate, WriteRecord, AllFit, Stream, Stamped, Chunk, Stands, Codec.Lawful, StatAnswers, StoreFit, Genesis,
         FileOk;
    var r, s := Rotate(cfg, w.disk, f.rotation), Stream(w.disk);
    var w1, to := w.(disk := r.disk), s + Chunk(cfg, w, t);
    ReadyStands(cfg, floor, lo, w);
    RotateFit(cfg, floor, lo, w, f.rotation);
    RotationKeepsStream(cfg, w.disk, f.rotation);
    SameRequest(cfg, w, r.disk, t);
    WriteFit(cfg, s, s, w1, t, forceDurable, f);
    var out := Written(cfg, w1, t, forceDurable, f);
    PrefixIntro(s, Chunk(cfg, w, t));
    PrefixIntro(to, []);
    AllFitWider(cfg, floor, lo, r.steps, s, s, to);
    AllFitWiden(cfg, floor, s, lo, s, out.steps, s, to, to);
    AllFitConcat(cfg, floor, lo, r.steps, out.steps, s, to);
    if !out.writer.poisoned {
      ReadyLower(cfg, floor, s, lo, s, out.writer);
    }
  }

  lemma ReadySettled(cfg: Config, floor: bytes, lo: bytes, w: Writer)
    requires Ready(cfg, floor, lo, w)
    ensures Settled(w.disk) && !w.poisoned && Healthy(cfg.codec, w)
  {
  }
}
