/** The bound that interval mode documents on unsynced records, over a whole
    process: exactly when it holds, and how a restart breaks it. */
module AuditInterval {
  import opened Bytes
  import opened Traces
  import opened ChainVerifier
  import opened ChainTheory
  import opened LogStream
  import opened AuditDisk
  import opened AuditWriter
  import opened AuditSafety
  import opened AuditRecovery
  import opened AuditSystem
  import opened AuditDurability

  // ----- records that fit into the active file -----

  /** The next record goes into the active file without a rotation before it. */
  predicate Room(cfg: Config, w: Writer, t: Trace) {
    Reaches(cfg, w, t) && !RotationDue(cfg, w, |Chunk(cfg, w, t)|)
  }

  /** The writer after t was written and not synced. */
  function Filled(cfg: Config, w: Writer, t: Trace): (w2: Writer)
    requires w.disk.active.Some?
    ensures w2.disk.active.Some?
  {
    w.(disk := WithActive(w.disk, Write(w.disk.active.value, Chunk(cfg, w, t))), needsSeparator := false,
       lastHash := Stamped(cfg, w.lastHash, t).hash, appendSeq := w.appendSeq + 1)
  }

  function FilledBy(cfg: Config, w: Writer, ts: seq<Trace>): (w2: Writer)
    requires w.disk.active.Some?
    ensures w2.disk.active.Some?
  {
    if ts == [] then w else Filled(cfg, FilledBy(cfg, w, ts[..|ts| - 1]), ts[|ts| - 1])
  }

  /** One after the other, with no rotation before any of them. */
  predicate Fits(cfg: Config, w: Writer, ts: seq<Trace>)
    requires w.disk.active.Some?
  {
    ts == [] || (Fits(cfg, w, ts[..|ts| - 1]) && Room(cfg, FilledBy(cfg, w, ts[..|ts| - 1]), ts[|ts| - 1]))
  }

  lemma FitsOneMore(cfg: Config, w: Writer, ts: seq<Trace>, t: Trace)
    requires w.disk.active.Some? && Fits(cfg, w, ts) && Room(cfg, FilledBy(cfg, w, ts), t)
    ensures Fits(cfg, w, ts + [t]) && FilledBy(cfg, w, ts + [t]) == Filled(cfg, FilledBy(cfg, w, ts), t)
  {
    hide Room, Filled;
    assert (ts + [t])[..|ts|] == ts;
  }

  // ----- filling it, one unsynced record after the other -----

  const ALL_WELL := Faults(true, RotationFaults(true, true, {}, true, false, true, true, true, true), true, MAX_RECORD_BYTES + 2, false, true,
                           RollbackFaults(true, 0, true, true))

  lemma AllWell(cfg: Config, w: Writer, t: Trace)
    requires cfg.codec.Lawful() && Reaches(cfg, w, t)
    ensures NoFaults(cfg, w, t, ALL_WELL) && StatAnswers(w.disk, ALL_WELL.rotation)
  {
    hide Stamped, TraceHash;
    var raw := RawEncodes(cfg, w, t);
    assert w.disk.rotated.Keys + {} == w.disk.rotated.Keys;
  }

  /** The active file after more bytes were written and not synced. */
  ghost predicate Grown(d: Disk, d2: Disk) {
    && d.active.Some? && d2.active.Some? && d2.rotated == d.rotated && d2.older == d.older
    && d2.active.value.durable == d.active.value.durable && d2.active.value.past == d.active.value.past
    && IsPrefix(d.active.value.data, d2.active.value.data)
  }

  lemma GrownLoses(d: Disk, d2: Disk, left: Disk)
    requires Grown(d, d2) && FileCrash(d, left)
    ensures FileCrash(d2, left)
  {
    var f, f2, x := d.active.value, d2.active.value, left.active.value.data;
    var p :| p in Tops(f) && IsPrefix(x, p);
    if p == f.data {
      PrefixTransitive(x, f.data, f2.data);
      assert Tops(f2)[|f2.past|] == f2.data;
    } else {
      assert p in f2.past;
    }
  }

  lemma UnsyncedAppend(cfg: Config, floor: bytes, lo: bytes, w: Writer, t: Trace)
    requires cfg.codec.Lawful() && Ready(cfg, floor, lo, w) && Room(cfg, w, t)
    requires cfg.mode == Interval && cfg.syncEvery > 0 && (w.appendSeq + 1) % cfg.syncEvery != 0
    ensures var w2 := Filled(cfg, w, t);
            && Ready(cfg, floor, lo, w2) && Continues(cfg, w, Call(t, false, ALL_WELL), w2) && Grown(w.disk, w2.disk)
            && |History(cfg.codec, Stream(w2.disk))| == |History(cfg.codec, Stream(w.disk))| + 1
  {
    hide Codec.Lawful, Genesis, RotatedData, Append, Stamped, TraceHash, Chunk, Reaches, WriteRecord, Stream,
         StatAnswers, Outcome, StoreFit, FileOk, Stands, NoFaults;
    ReadySettled(cfg, floor, lo, w);
    AllWell(cfg, w, t);
    CleanAppendSucceeds(cfg, w, t, false, ALL_WELL);
    AppendFit(cfg, floor, lo, w, t, false, ALL_WELL);
    SameRequest(cfg, w, w.disk, t);
    WriteOutcomes(cfg, w, t, false, ALL_WELL);
    AppendedGrows(cfg, w, t, Append(cfg, w, t, false, ALL_WELL));
    PrefixIntro(w.disk.active.value.data, Chunk(cfg, w, t));
  }

  lemma AppendedGrows(cfg: Config, w: Writer, t: Trace, out: AppendOut)
    requires Outcome(cfg, w, t, false, out) && out.result.Appended?
    ensures !out.writer.poisoned && |History(cfg.codec, Stream(out.writer.disk))| == |History(cfg.codec, Stream(w.disk))| + 1
  {
    hide Stream, History, Stamped, MustSync, DurableStream;
  }

  lemma SmallRemainder(n: nat, every: nat)
    requires n < every
    ensures n % every == n
  {
  }

  /** w2 is w after the records of ts, none of them synced. */
  ghost predicate Unsynced(cfg: Config, floor: bytes, lo: bytes, w: Writer, ts: seq<Trace>, w2: Writer) {
    && w.disk.active.Some? && w2 == FilledBy(cfg, w, ts) && w2.appendSeq == |ts|
    && Ready(cfg, floor, lo, w2) && Grown(w.disk, w2.disk)
    && |History(cfg.codec, Stream(w2.disk))| == |History(cfg.codec, Stream(w.disk))| + |ts|
  }

  lemma UnsyncedNone(cfg: Config, floor: bytes, lo: bytes, w: Writer)
    requires Ready(cfg, floor, lo, w) && w.appendSeq == 0
    ensures Unsynced(cfg, floor, lo, w, [], w) && Healthy(cfg.codec, w) && CR !in Stream(w.disk)
  {
    hide Genesis, RotatedData, StoreFit, FileOk, Stream, History, Stands;
    ReadySettled(cfg, floor, lo, w);
    StandsHasNoCR(cfg.codec, lo, Stream(w.disk));
    PrefixIntro(w.disk.active.value.data, []);
  }

  lemma UnsyncedOneMore(cfg: Config, floor: bytes, lo: bytes, w: Writer, ts: seq<Trace>, t: Trace, w2: Writer)
    requires cfg.codec.Lawful() && cfg.mode == Interval && |ts| + 1 < cfg.syncEvery
    requires Unsynced(cfg, floor, lo, w, ts, w2) && Fits(cfg, w, ts) && Room(cfg, w2, t)
    ensures w2.disk.active.Some? && Unsynced(cfg, floor, lo, w, ts + [t], Filled(cfg, w2, t))
    ensures Continues(cfg, w2, Call(t, false, ALL_WELL), Filled(cfg, w2, t))
  {
    hide Codec.Lawful, Ready, Room, Continues, Stream, History, Fits;
    SmallRemainder(|ts| + 1, cfg.syncEvery);
    UnsyncedAppend(cfg, floor, lo, w2, t);
    FitsOneMore(cfg, w, ts, t);
    PrefixTransitive(w.disk.active.value.data, w2.disk.active.value.data, Filled(cfg, w2, t).disk.active.value.data);
  }

  /** Fewer records than the interval that fit: none of them is synced. */
  lemma {:induction false} Burst(cfg: Config, floor: bytes, lo: bytes, w: Writer, ts: seq<Trace>)
    returns (ws: seq<Writer>, calls: seq<Call>)
    requires cfg.codec.Lawful() && Ready(cfg, floor, lo, w) && cfg.mode == Interval && w.appendSeq == 0
    requires |ts| < cfg.syncEvery && w.disk.active.Some? && Fits(cfg, w, ts)
    ensures Lifetime(cfg, ws, calls) && ws[0] == w && |calls| == |ts| && Unsynced(cfg, floor, lo, w, ts, ws[|ts|])
    decreases |ts|
  {
    hide Codec.Lawful, Ready, Room, Continues, Stream, History, Healthy, Filled, Grown;
    UnsyncedNone(cfg, floor, lo, w);
    if ts == [] {
      ws, calls := [w], [];
    } else {
      var n := |ts| - 1;
      ws, calls := Burst(cfg, floor, lo, w, ts[..n]);
      UnsyncedOneMore(cfg, floor, lo, w, ts[..n], ts[n], ws[n]);
      assert ts[..n] + [ts[n]] == ts;
      ws, calls := ws + [Filled(cfg, ws[n], ts[n])], calls + [Call(ts[n], false, ALL_WELL)];
    }
  }

  // ----- when the bound holds -----

  /** At most auditSyncEvery - 1 records are unsynced at any time of the process. */
  ghost predicate BoundHolds(cfg: Config, w: Writer) {
    forall ws: seq<Writer>, calls: seq<Call>, i: nat :: Lifetime(cfg, ws, calls) && ws[0] == w && i < |ws| ==>
      LosesAtMost(cfg.codec, ws[i].disk, cfg.syncEvery - 1)
  }

  /** What is unsynced at the start, and the records that can join it before a
      barrier or a rotation syncs them all, stay within the interval. */
  ghost predicate StartsWithin(cfg: Config, w: Writer)
    requires w.disk.active.Some?
  {
    forall ts: seq<Trace> :: |ts| < cfg.syncEvery && Fits(cfg, w, ts) ==> LosesAtMost(cfg.codec, w.disk, cfg.syncEvery - 1 - |ts|)
  }

  /** The documented bound, for every configuration and every start. */
  lemma BoundHoldsExactly(cfg: Config, floor: bytes, lo: bytes, w: Writer)
    requires cfg.codec.Lawful() && Ready(cfg, floor, lo, w) && cfg.mode == Interval && cfg.syncEvery > 0 && w.appendSeq == 0
    ensures w.disk.active.Some? && (BoundHolds(cfg, w) <==> StartsWithin(cfg, w))
  {
    hide BoundHolds, StartsWithin, Codec.Lawful, StoreFit, Healthy, LosesAtMost, Fits, FileOk, Stands, Stream;
    ReadySettled(cfg, floor, lo, w);
    if StartsWithin(cfg, w) {
      BoundFromWithin(cfg, w);
    } else {
      var ts := Overfull(cfg, w);
      BoundBroken(cfg, floor, lo, w, ts);
    }
  }

  lemma Overfull(cfg: Config, w: Writer) returns (ts: seq<Trace>)
    requires w.disk.active.Some? && !StartsWithin(cfg, w)
    ensures |ts| < cfg.syncEvery && Fits(cfg, w, ts) && !LosesAtMost(cfg.codec, w.disk, cfg.syncEvery - 1 - |ts|)
  {
    hide Fits, LosesAtMost;
    ts :| |ts| < cfg.syncEvery && Fits(cfg, w, ts) && !LosesAtMost(cfg.codec, w.disk, cfg.syncEvery - 1 - |ts|);
  }

  /** Filling the file breaks the bound. */
  lemma BoundBroken(cfg: Config, floor: bytes, lo: bytes, w: Writer, ts: seq<Trace>)
    requires cfg.codec.Lawful() && Ready(cfg, floor, lo, w) && cfg.mode == Interval && w.appendSeq == 0 && w.disk.active.Some?
    requires |ts| < cfg.syncEvery && Fits(cfg, w, ts) && !LosesAtMost(cfg.codec, w.disk, cfg.syncEvery - 1 - |ts|)
    ensures !BoundHolds(cfg, w)
  {
    hide Codec.Lawful, Ready, Fits, Continues, Healthy, Open, FileCrash, Stream, History, Grown;
    var k := cfg.syncEvery - 1 - |ts|;
    var left :| FileCrash(w.disk, left) && Open(cfg.codec, left).Opened? && |History(cfg.codec, Stream(left))| + k < |History(cfg.codec, Stream(w.disk))|;
    var ws, calls := Burst(cfg, floor, lo, w, ts);
    GrownLoses(w.disk, ws[|ts|].disk, left);
    assert !LosesAtMost(cfg.codec, ws[|ts|].disk, cfg.syncEvery - 1);
  }

  /** Every k that bounds the loss at d, bounds it at d2 with m more. */
  ghost predicate Lags(c: Codec, d: Disk, d2: Disk, m: nat) {
    forall k: nat :: LosesAtMost(c, d, k) ==> LosesAtMost(c, d2, k + m)
  }

  /** As far into an active file, and on the same tail. */
  predicate SamePlace(w: Writer, w2: Writer) {
    && w.disk.active.Some? && w2.disk.active.Some? && |w.disk.active.value.data| == |w2.disk.active.value.data|
    && w.lastHash == w2.lastHash && w.needsSeparator == w2.needsSeparator && w.poisoned == w2.poisoned
  }

  lemma SamePlaceGoesOn(cfg: Config, w: Writer, w2: Writer, t: Trace)
    requires SamePlace(w, w2) && Room(cfg, w2, t)
    ensures Room(cfg, w, t) && SamePlace(Filled(cfg, w, t), Filled(cfg, w2, t))
  {
    hide Stamped, TraceHash;
  }

  /** Where a process that began at w0 can be: past a barrier or a rotation, with
      no more unsynced than its count says; or ts are all it has logged, and went
      into the file it began with. */
  ghost predicate Behind(cfg: Config, w0: Writer, ts: seq<Trace>, w: Writer)
    requires w0.disk.active.Some? && cfg.syncEvery > 0
  {
    || LosesAtMost(cfg.codec, w.disk, w.appendSeq % cfg.syncEvery)
    || (|ts| == w.appendSeq < cfg.syncEvery && Fits(cfg, w0, ts) && SamePlace(FilledBy(cfg, w0, ts), w) && Lags(cfg.codec, w0.disk, w.disk, |ts|))
  }

  /** What an append that does not poison can do to the unsynced records: nothing,
      sync them, rotate and leave one, or add one to them. */
  ghost predicate Adds(cfg: Config, w: Writer, call: Call, w2: Writer) {
    || w2 == w
    || (LosesAtMost(cfg.codec, w2.disk, 0) && w.appendSeq <= w2.appendSeq)
    || (LosesAtMost(cfg.codec, w2.disk, 1) && w2.appendSeq == w.appendSeq + 1 && !MustSync(cfg, w2.appendSeq, call.forceDurable))
    || (w.disk.active.Some? && Room(cfg, w, call.t) && w2 == Filled(cfg, w, call.t) && !MustSync(cfg, w2.appendSeq, call.forceDurable))
  }

  lemma WriteAdds(cfg: Config, w: Writer, call: Call)
    requires cfg.codec.Lawful() && Healthy(cfg.codec, w) && CR !in Stream(w.disk) && CanWrite(cfg, w, call.t) && Reaches(cfg, w, call.t)
    requires !Written(cfg, w, call.t, call.forceDurable, call.faults).writer.poisoned
    ensures var w2 := Written(cfg, w, call.t, call.forceDurable, call.faults).writer;
            || (LosesAtMost(cfg.codec, w2.disk, 0) && w.appendSeq <= w2.appendSeq)
            || (w2 == Filled(cfg, w, call.t) && !MustSync(cfg, w2.appendSeq, call.forceDurable))
  {
    hide Codec.Lawful, Genesis, RotatedData, WriteRecord, Stamped, Chunk, LosesAtMost, MustSync, Stream, Reaches;
    WriteOutcomes(cfg, w, call.t, call.forceDurable, call.faults);
    var a := w.disk.active.value;
    SyncedLosesNothing(cfg.codec, WithActive(w.disk, Clean(a.data)));
    SyncedLosesNothing(cfg.codec, WithActive(w.disk, Clean(a.data + Chunk(cfg, w, call.t))));
  }

  lemma AppendAdds(cfg: Config, w: Writer, call: Call, w2: Writer)
    requires cfg.codec.Lawful() && Healthy(cfg.codec, w) && CR !in Stream(w.disk) && Continues(cfg, w, call, w2)
    ensures Adds(cfg, w, call, w2)
  {
    hide Codec.Lawful, Genesis, RotatedData, Append, Stamped, Chunk, Reaches, LosesAtMost, Rotate, WriteRecord,
         Stream, MustSync, StatAnswers;
    var Call(t, force, f) := call;
    HealthySettled(cfg.codec, w);
    AppendShapes(cfg, w, t, force, f);
    RotationKeepsStream(cfg, w.disk, f.rotation);
    var r := Rotate(cfg, w.disk, f.rotation);
    var w1 := w.(disk := r.disk);
    SameRequest(cfg, w, w.disk, t);
    SameRequest(cfg, w, r.disk, t);
    if r.status != Uncertain && r.disk != w.disk {
      SyncedLosesNothing(cfg.codec, r.disk);
    }
    if Reaches(cfg, w, t) && !RotationDue(cfg, w, |Chunk(cfg, w, t)|) && w2 == Written(cfg, w, t, force, f).writer {
      WriteAdds(cfg, w, call);
    } else if Reaches(cfg, w, t) && r.status == Rotated && w2 == Written(cfg, w1, t, force, f).writer {
      SyncedLosesNothing(cfg.codec, r.disk);
      RotationHealthy(cfg, w, f.rotation);
      WriteAdds(cfg, w1, call);
      UnsyncedLosesOneMore(cfg, w1, t, Filled(cfg, w1, t).disk, 0);
    }
  }

  lemma StaysBehind(cfg: Config, w0: Writer, ts: seq<Trace>, w: Writer, call: Call, w2: Writer) returns (ts2: seq<Trace>)
    requires cfg.codec.Lawful() && cfg.mode == Interval && cfg.syncEvery > 0 && w0.disk.active.Some?
    requires Healthy(cfg.codec, w) && CR !in Stream(w.disk) && Continues(cfg, w, call, w2) && Behind(cfg, w0, ts, w)
    ensures Behind(cfg, w0, ts2, w2)
  {
    hide Codec.Lawful, Healthy, Stream, Continues, LosesAtMost, Room, Filled, Fits, FilledBy, MustSync, SamePlace;
    var c, n, n2 := cfg.codec, w.appendSeq, w2.appendSeq;
    AppendAdds(cfg, w, call, w2);
    if w2 == w {
      return ts;
    }
    IntervalArithmetic(cfg, n, call.forceDurable);
    if LosesAtMost(c, w2.disk, 0) {
      LosesMore(c, w2.disk, 0, n2 % cfg.syncEvery);
      return ts;
    }
    if LosesAtMost(c, w2.disk, 1) && n2 == n + 1 && !MustSync(cfg, n2, call.forceDurable) {
      LosesMore(c, w2.disk, 1, n2 % cfg.syncEvery);
      return ts;
    }
    AddsOne(cfg, w, call, w2);
    if LosesAtMost(c, w.disk, n % cfg.syncEvery) {
      LifetimeStep(cfg, w, call, w2, n % cfg.syncEvery);
      return ts;
    }
    ts2 := ts + [call.t];
    SamePlaceGoesOn(cfg, FilledBy(cfg, w0, ts), w, call.t);
    FitsOneMore(cfg, w0, ts, call.t);
    LagsOneMore(cfg, w0, |ts|, w, call, w2);
    SmallerRemainder(n + 1, cfg.syncEvery);
  }

  lemma AddsOne(cfg: Config, w: Writer, call: Call, w2: Writer)
    requires w.disk.active.Some? && w2 == Filled(cfg, w, call.t)
    ensures w2.appendSeq == w.appendSeq + 1
  {
  }

  /** A count that is not at a multiple is short of the first one. */
  lemma SmallerRemainder(n: nat, every: nat)
    requires every > 0 && n <= every
    ensures n % every != 0 ==> n < every
  {
  }

  lemma LagsOneMore(cfg: Config, w0: Writer, m: nat, w: Writer, call: Call, w2: Writer)
    requires cfg.codec.Lawful() && Healthy(cfg.codec, w) && CR !in Stream(w.disk) && Continues(cfg, w, call, w2)
    requires Lags(cfg.codec, w0.disk, w.disk, m) && w2.appendSeq == w.appendSeq + 1 && !MustSync(cfg, w2.appendSeq, call.forceDurable)
    ensures Lags(cfg.codec, w0.disk, w2.disk, m + 1)
  {
    hide Codec.Lawful, Healthy, Stream, Continues, LosesAtMost, MustSync;
    forall k: nat | LosesAtMost(cfg.codec, w0.disk, k)
      ensures LosesAtMost(cfg.codec, w2.disk, k + (m + 1))
    {
      LifetimeStep(cfg, w, call, w2, k + m);
    }
  }

  lemma {:induction false} LifetimeBehind(cfg: Config, ws: seq<Writer>, calls: seq<Call>, i: nat) returns (ts: seq<Trace>)
    requires cfg.codec.Lawful() && Lifetime(cfg, ws, calls) && cfg.mode == Interval && cfg.syncEvery > 0 && i < |ws|
    requires ws[0].appendSeq == 0 && ws[0].disk.active.Some?
    ensures Healthy(cfg.codec, ws[i]) && CR !in Stream(ws[i].disk) && Behind(cfg, ws[0], ts, ws[i])
    decreases i
  {
    hide Codec.Lawful, Healthy, Stream, Continues, LosesAtMost, Behind;
    if i == 0 {
      ts := [];
      StartsBehind(cfg, ws[0]);
    } else {
      ts := LifetimeBehind(cfg, ws, calls, i - 1);
      ts := StaysBehind(cfg, ws[0], ts, ws[i - 1], calls[i - 1], ws[i]);
      StaysHealthy(cfg, ws[i - 1], calls[i - 1], ws[i]);
    }
  }

  lemma StartsBehind(cfg: Config, w: Writer)
    requires w.disk.active.Some? && w.appendSeq == 0 && cfg.syncEvery > 0
    ensures Behind(cfg, w, [], w)
  {
    hide LosesAtMost;
  }

  lemma StaysHealthy(cfg: Config, w: Writer, call: Call, w2: Writer)
    requires cfg.codec.Lawful() && Healthy(cfg.codec, w) && CR !in Stream(w.disk) && Continues(cfg, w, call, w2)
    ensures Healthy(cfg.codec, w2) && CR !in Stream(w2.disk)
  {
    hide Codec.Lawful, Healthy, Append, Stream, Chunk, StatAnswers, Outcome;
    AppendKeepsHealthy(cfg, w, call.t, call.forceDurable, call.faults);
    ChunkHasNoCR(cfg, w, call.t);
    StepOutcome(cfg, w, call.t, call.forceDurable, Append(cfg, w, call.t, call.forceDurable, call.faults));
  }

  lemma BoundFromWithin(cfg: Config, w: Writer)
    requires cfg.codec.Lawful() && cfg.mode == Interval && cfg.syncEvery > 0 && w.appendSeq == 0
    requires w.disk.active.Some? && StartsWithin(cfg, w)
    ensures BoundHolds(cfg, w)
  {
    hide Codec.Lawful, Continues, Healthy, Stream, LosesAtMost, Fits, FilledBy;
    forall ws: seq<Writer>, calls: seq<Call>, i: nat | Lifetime(cfg, ws, calls) && ws[0] == w && i < |ws|
      ensures LosesAtMost(cfg.codec, ws[i].disk, cfg.syncEvery - 1)
    {
      var ts := LifetimeBehind(cfg, ws, calls, i);
      if LosesAtMost(cfg.codec, ws[i].disk, ws[i].appendSeq % cfg.syncEvery) {
        LosesMore(cfg.codec, ws[i].disk, ws[i].appendSeq % cfg.syncEvery, cfg.syncEvery - 1);
      } else {
        var k: nat := cfg.syncEvery - 1 - |ts|;
        assert LosesAtMost(cfg.codec, w.disk, k);
      }
    }
  }

  // ----- by the room in the active file -----

  /** t can be logged after any record, in no more than m bytes. */
  ghost predicate Loggable(cfg: Config, t: Trace, m: nat) {
    && !(Unstamped(t) && cfg.provenance.None?)
    && forall h: Hash ::
         && TraceHash(Stamped(cfg, h, t)).Some? && cfg.codec.MarshalRecord(Stamped(cfg, h, t)).Some?
         && |cfg.codec.MarshalRecord(Stamped(cfg, h, t)).value| <= m
  }

  /** n more records of m bytes, each with a separator and a line feed, keep the
      active file below the rotation size. */
  predicate RoomFor(cfg: Config, d: Disk, m: nat, n: nat) {
    cfg.rotateBytes <= 0 || ActiveSize(d) + n * (m + 2) < cfg.rotateBytes
  }

  /** The active file is so full that any record makes a rotation due. */
  predicate Full(cfg: Config, d: Disk) {
    0 < ActiveSize(d) && 0 < cfg.rotateBytes <= ActiveSize(d) + 2
  }

  lemma RoomForOne(cfg: Config, w: Writer, t: Trace, m: nat)
    requires w.disk.active.Some? && !w.poisoned && Loggable(cfg, t, m) && RoomFor(cfg, w.disk, m, 1)
    ensures Room(cfg, w, t) && ActiveSize(Filled(cfg, w, t).disk) <= ActiveSize(w.disk) + (m + 2) && !Filled(cfg, w, t).poisoned
  {
    hide Stamped, TraceHash;
  }

  lemma {:induction false} RoomForAll(cfg: Config, w: Writer, t: Trace, m: nat, n: nat) returns (ts: seq<Trace>)
    requires w.disk.active.Some? && !w.poisoned && Loggable(cfg, t, m) && RoomFor(cfg, w.disk, m, n)
    ensures |ts| == n && Fits(cfg, w, ts)
    ensures var w2 := FilledBy(cfg, w, ts); !w2.poisoned && ActiveSize(w2.disk) <= ActiveSize(w.disk) + n * (m + 2)
    decreases n
  {
    hide Loggable, Room, Filled;
    if n == 0 {
      ts := [];
    } else {
      assert n * (m + 2) == (n - 1) * (m + 2) + (m + 2);
      ts := RoomForAll(cfg, w, t, m, n - 1);
      var w2 := FilledBy(cfg, w, ts);
      RoomForOne(cfg, w2, t, m);
      FitsOneMore(cfg, w, ts, t);
      ts := ts + [t];
    }
  }

  lemma FullHasNoRoom(cfg: Config, w: Writer, t: Trace)
    requires cfg.codec.Lawful() && Full(cfg, w.disk)
    ensures !Room(cfg, w, t)
  {
    hide Stamped, TraceHash;
    if Reaches(cfg, w, t) {
      var raw := RawEncodes(cfg, w, t);
    }
  }

  lemma {:induction false} NothingFits(cfg: Config, w: Writer, ts: seq<Trace>)
    requires cfg.codec.Lawful() && w.disk.active.Some? && Full(cfg, w.disk) && Fits(cfg, w, ts)
    ensures ts == []
    decreases |ts|
  {
    hide Codec.Lawful, Room, Filled, Full;
    if ts != [] {
      NothingFits(cfg, w, ts[..|ts| - 1]);
      FullHasNoRoom(cfg, w, ts[|ts| - 1]);
    }
  }

  /** With room for auditSyncEvery - 1 records before the next rotation, the bound
      holds throughout the process exactly when nothing is unsynced at its start. */
  lemma BoundHoldsExactlyFromSynced(cfg: Config, floor: bytes, lo: bytes, w: Writer, t: Trace, m: nat)
    requires cfg.codec.Lawful() && Ready(cfg, floor, lo, w) && cfg.mode == Interval && cfg.syncEvery > 0 && w.appendSeq == 0
    requires Loggable(cfg, t, m) && RoomFor(cfg, w.disk, m, cfg.syncEvery - 1)
    ensures BoundHolds(cfg, w) <==> LosesAtMost(cfg.codec, w.disk, 0)
  {
    hide Codec.Lawful, Healthy, StoreFit, FileOk, Stands, Stream, BoundHolds, LosesAtMost, Loggable, Fits, FilledBy;
    ReadySettled(cfg, floor, lo, w);
    BoundHoldsExactly(cfg, floor, lo, w);
    var ts := RoomForAll(cfg, w, t, m, cfg.syncEvery - 1);
    if LosesAtMost(cfg.codec, w.disk, 0) {
      LosesLess(cfg, w);
    }
  }

  lemma LosesLess(cfg: Config, w: Writer)
    requires w.disk.active.Some? && LosesAtMost(cfg.codec, w.disk, 0)
    ensures StartsWithin(cfg, w)
  {
    hide Fits, LosesAtMost;
    forall ts: seq<Trace> | |ts| < cfg.syncEvery && Fits(cfg, w, ts)
      ensures LosesAtMost(cfg.codec, w.disk, cfg.syncEvery - 1 - |ts|)
    {
      LosesMore(cfg.codec, w.disk, 0, cfg.syncEvery - 1 - |ts|);
    }
  }

  /** When a rotation comes before any record, it syncs what was left over: the
      bound holds exactly when that is within it. */
  lemma BoundHoldsWhenFull(cfg: Config, floor: bytes, lo: bytes, w: Writer)
    requires cfg.codec.Lawful() && Ready(cfg, floor, lo, w) && cfg.mode == Interval && cfg.syncEvery > 0 && w.appendSeq == 0
    requires Full(cfg, w.disk)
    ensures BoundHolds(cfg, w) <==> LosesAtMost(cfg.codec, w.disk, cfg.syncEvery - 1)
  {
    hide Codec.Lawful, Healthy, StoreFit, FileOk, Stands, Stream, BoundHolds, LosesAtMost, FilledBy, Full;
    ReadySettled(cfg, floor, lo, w);
    BoundHoldsExactly(cfg, floor, lo, w);
    forall ts: seq<Trace> | Fits(cfg, w, ts)
      ensures ts == []
    {
      NothingFits(cfg, w, ts);
    }
    assert Fits(cfg, w, []);
  }

  // ----- a restart -----

  /** Nothing is unsynced at the start of a process on what a crash left, or on a
      directory without an active file. */
  lemma StartsSynced(c: Codec, d: Disk)
    requires Open(c, d).Opened? && (d.active.None? || exists before :: CrashTo(before, d))
    ensures LosesAtMost(c, Open(c, d).writer.disk, 0)
  {
    hide RotatedData, Intact, Leaves, LosesAtMost;
    SyncedLosesNothing(c, Open(c, d).writer.disk);
  }

  /** A restart brings that about: after auditSyncEvery - 1 unsynced records, the
      next process starts counting anew, and its bound is broken. */
  lemma RestartBreaksTheBound(cfg: Config, floor: bytes, lo: bytes, w: Writer, t: Trace, m: nat)
    returns (ws: seq<Writer>, calls: seq<Call>)
    requires cfg.codec.Lawful() && Ready(cfg, floor, lo, w) && Intact(cfg.codec, lo)
    requires cfg.mode == Interval && cfg.syncEvery > 1 && w.appendSeq == 0 && LosesAtMost(cfg.codec, w.disk, 0)
    requires Loggable(cfg, t, m) && RoomFor(cfg, w.disk, m, cfg.syncEvery)
    ensures Lifetime(cfg, ws, calls) && ws[0] == w && BoundHolds(cfg, w)
    ensures var d := ws[|ws| - 1].disk;
            && Open(cfg.codec, d).Opened? && !BoundHolds(cfg, Open(cfg.codec, d).writer)
  {
    hide Codec.Lawful, Loggable, Continues, Open, Stream, History, BoundHolds, LosesAtMost, StoreFit, Genesis, FileOk,
         Healthy, Stands, Fits, FilledBy, Grown;
    ReadySettled(cfg, floor, lo, w);
    LosesLess(cfg, w);
    BoundHoldsExactly(cfg, floor, lo, w);
    var n := cfg.syncEvery - 1;
    assert (n + 1) * (m + 2) == n * (m + 2) + (m + 2);
    var ts := RoomForAll(cfg, w, t, m, n);
    ws, calls := Burst(cfg, floor, lo, w, ts);
    LosesTheBurst(cfg, floor, lo, w, ws[n].disk, n);
    ReopenedIsBroken(cfg, floor, lo, ws[n], t, m);
  }

  /** A process that begins with auditSyncEvery - 1 records unsynced, and has room
      for another one, exceeds the bound. */
  lemma ReopenedIsBroken(cfg: Config, floor: bytes, lo: bytes, w: Writer, t: Trace, m: nat)
    requires cfg.codec.Lawful() && Ready(cfg, floor, lo, w) && Intact(cfg.codec, lo)
    requires cfg.mode == Interval && cfg.syncEvery > 1 && !LosesAtMost(cfg.codec, w.disk, cfg.syncEvery - 2)
    requires Loggable(cfg, t, m) && RoomFor(cfg, w.disk, m, 1)
    ensures Open(cfg.codec, w.disk).Opened? && !BoundHolds(cfg, Open(cfg.codec, w.disk).writer)
  {
    hide Codec.Lawful, Loggable, Open, Stream, BoundHolds, LosesAtMost, StoreFit, Genesis, FileOk, Healthy, Stands;
    ReadyIsAccepted(cfg, floor, lo, w);
    OpenFit(cfg, floor, lo, w.disk);
    ReopenedAs(cfg.codec, w.disk);
    var w2 := Open(cfg.codec, w.disk).writer;
    ReadySettled(cfg, floor, lo, w2);
    RoomForOne(cfg, w2, t, m);
    FitsOneMore(cfg, w2, [], t);
    assert [] + [t] == [t];
    BoundBroken(cfg, floor, lo, w2, [t]);
  }

  lemma ReadyIsAccepted(cfg: Config, floor: bytes, lo: bytes, w: Writer)
    requires cfg.codec.Lawful() && Ready(cfg, floor, lo, w)
    ensures Open(cfg.codec, w.disk).Opened? && w.disk.active.Some? && StoreFit(cfg, floor, lo, w.disk)
    ensures Open(cfg.codec, Disk(Some(Clean(w.disk.active.value.data)), w.disk.rotated, [])).Opened?
  {
    hide Codec.Lawful, Genesis, RotatedData, Open, ScanFile, OlderFit, FileFit, Stands;
    var left := Disk(Some(Clean(w.disk.active.value.data)), w.disk.rotated, []);
    assert Stream(left) == Stream(w.disk);
    OpenAccepts(cfg.codec, w.disk);
    OpenAccepts(cfg.codec, left);
  }

  lemma ReopenedAs(c: Codec, d: Disk)
    requires Open(c, d).Opened? && d.active.Some?
    ensures Open(c, d).writer.disk == d && Open(c, d).writer.appendSeq == 0
  {
    hide Intact, RotatedData;
  }

  lemma LosesTheBurst(cfg: Config, floor: bytes, lo: bytes, w: Writer, d: Disk, n: nat)
    requires cfg.codec.Lawful() && Ready(cfg, floor, lo, w) && Grown(w.disk, d)
    requires |History(cfg.codec, Stream(d))| == |History(cfg.codec, Stream(w.disk))| + n
    ensures !LosesAtMost(cfg.codec, d, n - 1)
  {
    hide Codec.Lawful, Genesis, RotatedData, Open, StoreFit, FileOk, Stands;
    var f := w.disk.active.value;
    var left := Disk(Some(Clean(f.data)), w.disk.rotated, []);
    ReadyIsAccepted(cfg, floor, lo, w);
    assert Stream(left) == Stream(w.disk);
    assert Tops(f)[|f.past|] == f.data;
    PrefixIntro(f.data, []);
    GrownLoses(w.disk, d, left);
  }
}
