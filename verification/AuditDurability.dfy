/** Which acknowledgements survive which crashes, how much may be unsynced in each
    mode, and where these promises end, each with the exact condition. */
module AuditDurability {
  import opened Bytes
  import opened Traces
  import opened ChainVerifier
  import opened ChainTheory
  import opened LogStream
  import opened AuditDisk
  import opened AuditWriter
  import opened AuditSafety
  import opened AuditRecovery
  import opened AuditSystem

  // ----- what an unconfirmed directory costs -----

  /** The oldest directory that may come back stays the same until none may. */
  predicate OldestKept(d: Disk, d2: Disk) {
    d2.older == [] || d.older == [] || d2.older[0] == d.older[0]
  }

  lemma RollbackKeepsOldest(d: Disk, size: nat, f: RollbackFaults)
    requires d.active.Some?
    ensures forall i :: 0 <= i < |Rollback(d, size, f).steps| ==> Rollback(d, size, f).steps[i].older == d.older
    ensures Rollback(d, size, f).disk.older == d.older
  {
  }

  lemma WriteKeepsOldest(cfg: Config, w: Writer, t: Trace, forceDurable: bool, f: Faults)
    requires CanWrite(cfg, w, t)
    ensures var out := Written(cfg, w, t, forceDurable, f);
            forall i :: 0 <= i < |out.steps| ==> out.steps[i].older == w.disk.older
  {
    hide WriteRecord, Rollback, Stamped;
    WriteShapes(cfg, w, t, forceDurable, f);
    var a, chunk := w.disk.active.value, Chunk(cfg, w, t);
    RollbackKeepsOldest(WithActive(w.disk, Write(a, chunk[..Clamp(f.written, 0, |chunk|)])), |a.data|, f.rollback);
  }

  lemma RotationKeepsOldest(cfg: Config, d: Disk, f: RotationFaults)
    requires d.active.Some?
    ensures var r := Rotate(cfg, d, f);
            && (forall i :: 0 <= i < |r.steps| ==> OldestKept(d, r.steps[i]))
            && (r.status == Rotated ==> r.disk.older == [])
  {
  }

  lemma AppendKeepsOldest(cfg: Config, w: Writer, t: Trace, forceDurable: bool, f: Faults)
    requires Settled(w.disk) && !w.poisoned && StatAnswers(w.disk, f.rotation)
    ensures var out := Append(cfg, w, t, forceDurable, f);
            forall i :: 0 <= i < |out.steps| ==> OldestKept(w.disk, out.steps[i])
  {
    hide Append, Rotate, WriteRecord, Stamped, RotatedData, StatAnswers;
    AppendShapes(cfg, w, t, forceDurable, f);
    RotationKeepsOldest(cfg, w.disk, f.rotation);
    RotationKeepsStream(cfg, w.disk, f.rotation);
    var r := Rotate(cfg, w.disk, f.rotation);
    SameRequest(cfg, w, r.disk, t);
    if Reaches(cfg, w, t) {
      WriteKeepsOldest(cfg, w, t, forceDurable, f);
      if r.status == Rotated {
        WriteKeepsOldest(cfg, w.(disk := r.disk), t, forceDurable, f);
      }
    }
  }

  /** What was acknowledged while the directory was unconfirmed is not in the
      oldest directory that may come back. */
  ghost predicate ExposedInv(c: Codec, s: System) {
    forall i :: 0 <= i < |s.exposed| ==> s.disk.older != [] && s.exposed[i] !in History(c, LayoutStream(s.disk.older[0]))
  }

  lemma NewRecordIsNew(cfg: Config, s: System, out: AppendOut)
    requires cfg.codec.Lawful() && SystemInv(cfg, s) && Up(s) && s.disk.older != []
    requires Intact(cfg.codec, Stream(out.writer.disk))
    requires History(cfg.codec, Stream(out.writer.disk)) == History(cfg.codec, Stream(s.disk)) + [out.record]
    ensures out.record !in History(cfg.codec, LayoutStream(s.disk.older[0]))
  {
    hide Genesis, RotatedData, FileFit, FilesOk, FileOk, IsSubsequence, IsChain, Codec.Lawful;
    var c := cfg.codec;
    var l := s.disk.older[0];
    var h, hs, hl := History(c, Stream(out.writer.disk)), History(c, Stream(s.disk)), History(c, LayoutStream(l));
    IntactScan(c, Stream(out.writer.disk));
    PrefixIntro(RotatedData(s.disk.rotated), s.disk.active.value.data);
    PrefixTransitive(LayoutStream(l), RotatedData(s.disk.rotated), Stream(s.disk));
    CutStream(c, LayoutStream(l), Stream(s.disk));
    forall i | 0 <= i < |hl|
      ensures hl[i] != out.record
    {
      assert h[i] == hs[i] == hl[i] && h[|hs|] == out.record;
      ChainIsDistinct(h, i, |hs|);
    }
  }

  lemma {:induction false} RunKeepsExposed(cfg: Config, states: seq<System>, actions: seq<LogAction>, i: nat)
    requires cfg.codec.Lawful() && IsRun(cfg, states, actions) && i < |states|
    ensures ExposedInv(cfg.codec, states[i])
  {
    hide Codec.Lawful, Next, Enabled, ExposedInv, SystemInv;
    if i == 0 {
      NothingExposed(cfg.codec, states[0]);
    } else {
      RunKeepsExposed(cfg, states, actions, i - 1);
      RunKeepsInv(cfg, states, actions, i - 1);
      StepKeepsExposed(cfg, states[i - 1], actions[i - 1]);
    }
  }

  lemma NothingExposed(c: Codec, s: System)
    ensures s.exposed == [] ==> ExposedInv(c, s)
  {
  }

  lemma StepKeepsExposed(cfg: Config, s: System, a: LogAction)
    requires cfg.codec.Lawful() && SystemInv(cfg, s) && Enabled(cfg, s, a) && ExposedInv(cfg.codec, s)
    ensures ExposedInv(cfg.codec, Next(cfg, s, a))
  {
    hide Codec.Lawful, SystemInv, ExposedInv, Append, StatAnswers, Open, CrashTo, Stream, MustSync;
    match a
    case Start =>
      OpenKeepsOldest(cfg.codec, s.disk);
      StartExposed(cfg, s);
    case DoAppend(t, force, f) => AppendExposed(cfg, s, t, force, f);
    case Die => DeadExposed(cfg.codec, s, s.disk);
    case DieInAppend(t, force, f, at) =>
      UpIsSettled(cfg, s);
      AppendKeepsOldest(cfg, s.proc.value, t, force, f);
      DeadExposed(cfg.codec, s, AppendBy(cfg, s, t, force, f).steps[at]);
    case Crash(left) => NothingExposed(cfg.codec, Next(cfg, s, a));
    case CrashInAppend(_, _, _, _, left) => NothingExposed(cfg.codec, Next(cfg, s, a));
  }

  lemma UpIsSettled(cfg: Config, s: System)
    requires SystemInv(cfg, s) && Up(s)
    ensures Settled(s.proc.value.disk) && s.proc.value.disk == s.disk && !s.proc.value.poisoned
    ensures Ready(cfg, s.floor, s.synced, s.proc.value) && Healthy(cfg.codec, s.proc.value) && CR !in Stream(s.disk)
    ensures s.said == Stream(s.disk) && Confirmed(s)
  {
  }

  lemma OpenKeepsOldest(c: Codec, d: Disk)
    requires Open(c, d).Opened?
    ensures OldestKept(d, Open(c, d).writer.disk)
    ensures d.older != [] ==> Open(c, d).writer.disk.older != []
  {
    hide Intact, RotatedData;
  }

  lemma StartExposed(cfg: Config, s: System)
    requires SystemInv(cfg, s) && Enabled(cfg, s, Start) && ExposedInv(cfg.codec, s) && OldestKept(s.disk, Open(cfg.codec, s.disk).writer.disk)
    requires s.disk.older != [] ==> Open(cfg.codec, s.disk).writer.disk.older != []
    ensures ExposedInv(cfg.codec, Next(cfg, s, Start))
  {
    hide Open, StoreFit, Ready, Ledgered, SaidPlusOne, Stream, LayoutStream;
  }

  lemma DeadExposed(c: Codec, s: System, d: Disk)
    requires ExposedInv(c, s) && OldestKept(s.disk, d)
    ensures ExposedInv(c, Dead(s, d))
  {
    hide LayoutStream, History;
  }

  lemma AppendExposed(cfg: Config, s: System, t: Trace, forceDurable: bool, f: Faults)
    requires cfg.codec.Lawful() && SystemInv(cfg, s) && Enabled(cfg, s, DoAppend(t, forceDurable, f)) && ExposedInv(cfg.codec, s)
    ensures ExposedInv(cfg.codec, Next(cfg, s, DoAppend(t, forceDurable, f)))
  {
    hide Codec.Lawful, SystemInv, Append, StatAnswers, Stream, MustSync, History, LayoutStream, Outcome, ExposedInv,
         Confirm, Acknowledge, Ready, Healthy;
    if Poisoned(s) {
      PoisonedStep(cfg, s, DoAppend(t, forceDurable, f));
    } else {
      var out := AppendBy(cfg, s, t, forceDurable, f);
      UpIsSettled(cfg, s);
      AppendKeepsOldest(cfg, s.proc.value, t, forceDurable, f);
      AppendFit(cfg, s.floor, s.synced, s.proc.value, t, forceDurable, f);
      if out.result.Appended? && out.writer.disk.older != [] {
        AppendKeepsHealthy(cfg, s.proc.value, t, forceDurable, f);
        AppendedInDirectory(cfg, s.proc.value, t, forceDurable, out);
        NewRecordIsNew(cfg, s, out);
      }
      AckExposed(cfg, s, out, forceDurable);
    }
  }

  lemma AckExposed(cfg: Config, s: System, out: AppendOut, forceDurable: bool)
    requires ExposedInv(cfg.codec, s) && OldestKept(s.disk, out.writer.disk)
    requires out.result.Appended? && out.writer.disk.older != [] ==>
               out.writer.disk.older == s.disk.older && out.record !in History(cfg.codec, LayoutStream(s.disk.older[0]))
    ensures ExposedInv(cfg.codec, Confirm(Acknowledge(cfg, s, out, forceDurable)))
  {
    hide Stream, MustSync, History, LayoutStream;
  }

  /** An acknowledged append that left a directory unconfirmed did not rotate. */
  lemma AppendedInDirectory(cfg: Config, w: Writer, t: Trace, forceDurable: bool, out: AppendOut)
    requires Outcome(cfg, w, t, forceDurable, out) && out.result.Appended? && out.writer.disk.older != []
    ensures !out.writer.poisoned && SameDirectory(w.disk, out.writer.disk) && Intact(cfg.codec, Stream(out.writer.disk))
    ensures History(cfg.codec, Stream(out.writer.disk)) == History(cfg.codec, Stream(w.disk)) + [out.record]
  {
    hide Stream, History, Stamped, MustSync, DurableStream;
  }

  /** Every record acknowledged behind a barrier is found by a start after any crash. */
  ghost predicate NothingCanBeLost(cfg: Config, s: System) {
    forall left, t :: CrashTo(s.disk, left) && Open(cfg.codec, left).Opened? && t in s.acked + s.exposed ==> t in History(cfg.codec, Stream(left))
  }

  /** Over every run: all that was acknowledged behind a barrier survives every
      crash if and only if none of it was acknowledged while a directory entry was
      unconfirmed, that is, since the last rename or creation of the active file
      without a directory barrier after it. */
  lemma AcksSurviveExactlyWhenConfirmed(cfg: Config, states: seq<System>, actions: seq<LogAction>, i: nat)
    requires cfg.codec.Lawful() && IsRun(cfg, states, actions) && i < |states|
    ensures NothingCanBeLost(cfg, states[i]) <==> states[i].exposed == []
    ensures states[i].disk.older == [] ==> states[i].exposed == []
  {
    hide Codec.Lawful, IsRun, SystemInv, CrashTo, Open, Stream, History;
    var s := states[i];
    RunKeepsInv(cfg, states, actions, i);
    RunKeepsExposed(cfg, states, actions, i);
    InvIsConfirmed(cfg, s);
    if s.exposed == [] {
      forall left, t | CrashTo(s.disk, left) && Open(cfg.codec, left).Opened? && t in s.acked + s.exposed
        ensures t in History(cfg.codec, Stream(left))
      {
        assert s.acked + s.exposed == s.acked;
        var k :| 0 <= k < |s.acked| && s.acked[k] == t;
        AckedAfterCrash(cfg, s, left, k);
      }
    } else {
      OldestComesBack(cfg, s);
      assert s.exposed[0] in s.acked + s.exposed;
    }
  }

  lemma OldestComesBack(cfg: Config, s: System)
    requires cfg.codec.Lawful() && SystemInv(cfg, s) && ExposedInv(cfg.codec, s) && s.exposed != []
    ensures s.disk.older != []
    ensures var left := Restored(s.disk.older[0]);
            && CrashTo(s.disk, left) && Open(cfg.codec, left).Opened? && s.exposed[0] !in History(cfg.codec, Stream(left))
  {
    hide SystemInv, Open, CrashTo, Stream, LayoutStream, History;
    var e := s.exposed[0];
    assert s.disk.older != [];
    OldestIsAccepted(cfg, s);
  }

  // ----- appends without faults -----

  /** Every system call this append makes succeeds. */
  ghost predicate NoFaults(cfg: Config, w: Writer, t: Trace, f: Faults) {
    && f.statOk && f.statAfterRotationOk && !f.writeErr && f.written >= |Chunk(cfg, w, t)| && f.syncOk
    && f.rotation.syncOk && f.rotation.closeOk && f.rotation.renameOk && f.rotation.openOk && f.rotation.newSyncOk && f.rotation.dirSyncOk
  }

  /** Without faults an append of a record that can be written is acknowledged,
      rotation included, as long as a rotation index is free. */
  lemma CleanAppendSucceeds(cfg: Config, w: Writer, t: Trace, forceDurable: bool, f: Faults)
    requires cfg.codec.Lawful() && Healthy(cfg.codec, w) && Reaches(cfg, w, t) && NoFaults(cfg, w, t, f) && StatAnswers(w.disk, f.rotation)
    requires RotationDue(cfg, w, |Chunk(cfg, w, t)|) ==> cfg.rotationConfigured && FirstFree(w.disk.rotated.Keys) <= MAX_ROTATIONS
    ensures var out := Append(cfg, w, t, forceDurable, f);
            && out.result.Appended? && out.writer.lastHash == out.record.hash && Outcome(cfg, w, t, forceDurable, out)
            && (RotationDue(cfg, w, |Chunk(cfg, w, t)|) ==> out.writer.disk.older == [])
            && (!RotationDue(cfg, w, |Chunk(cfg, w, t)|) ==> out == Written(cfg, w, t, forceDurable, f))
  {
    hide Codec.Lawful, Genesis, Stamped, TraceHash, RotatedData, WriteRecord, Rotate, Append, Stream, DurableStream,
         Healthy, Chunk, Reaches, MustSync, StatAnswers, Outcome;
    AppendKeepsHealthy(cfg, w, t, forceDurable, f);
    HealthySettled(cfg.codec, w);
    if RotationDue(cfg, w, |Chunk(cfg, w, t)|) {
      CleanRotation(cfg, w, f);
      CleanAfterRotation(cfg, w, t, forceDurable, f);
    } else {
      CleanDirect(cfg, w, t, forceDurable, f);
    }
  }

  lemma HealthySettled(c: Codec, w: Writer)
    requires Healthy(c, w)
    ensures Settled(w.disk) && !w.poisoned
  {
  }

  lemma CleanRotation(cfg: Config, w: Writer, f: Faults)
    requires Settled(w.disk) && f.rotation.syncOk && f.rotation.closeOk && f.rotation.renameOk && f.rotation.openOk
    requires f.rotation.newSyncOk && f.rotation.dirSyncOk && StatAnswers(w.disk, f.rotation)
    requires cfg.rotationConfigured && FirstFree(w.disk.rotated.Keys) <= MAX_ROTATIONS
    ensures var r := Rotate(cfg, w.disk, f.rotation); r.status == Rotated && r.disk.active.Some? && r.disk.older == []
  {
  }

  lemma CleanWrite(cfg: Config, w: Writer, t: Trace, forceDurable: bool, f: Faults)
    requires CanWrite(cfg, w, t) && NoFaults(cfg, w, t, f)
    ensures var out := Written(cfg, w, t, forceDurable, f);
            out.result.Appended? && out.writer.lastHash == out.record.hash && out.writer.disk.older == w.disk.older
  {
    hide Stamped, TraceHash, Rollback, MustSync, RotatedData;
  }

  lemma CleanDirect(cfg: Config, w: Writer, t: Trace, forceDurable: bool, f: Faults)
    requires Settled(w.disk) && Reaches(cfg, w, t) && NoFaults(cfg, w, t, f) && !RotationDue(cfg, w, |Chunk(cfg, w, t)|)
    ensures var out := Append(cfg, w, t, forceDurable, f);
            out == Written(cfg, w, t, forceDurable, f) && out.result.Appended? && out.writer.lastHash == out.record.hash
  {
    SameRequest(cfg, w, w.disk, t);
    CleanWrite(cfg, w, t, forceDurable, f);
    hide WriteRecord, Rotate, Stamped, TraceHash;
  }

  lemma CleanAfterRotation(cfg: Config, w: Writer, t: Trace, forceDurable: bool, f: Faults)
    requires Settled(w.disk) && Reaches(cfg, w, t) && NoFaults(cfg, w, t, f) && RotationDue(cfg, w, |Chunk(cfg, w, t)|)
    requires StatAnswers(w.disk, f.rotation)
    requires var r := Rotate(cfg, w.disk, f.rotation); r.status == Rotated && r.disk.active.Some? && r.disk.older == []
    ensures var out := Append(cfg, w, t, forceDurable, f);
            out.result.Appended? && out.writer.lastHash == out.record.hash && out.writer.disk.older == []
  {
    var w1 := w.(disk := Rotate(cfg, w.disk, f.rotation).disk);
    RotationKeepsStream(cfg, w.disk, f.rotation);
    hide WriteRecord, Rotate, Stamped, TraceHash, RotatedData, Numbered;
    SameRequest(cfg, w, w1.disk, t);
    CleanWrite(cfg, w1, t, forceDurable, f);
  }

  // ----- a file created at startup -----

  /** A crash after the rename of a rotation can leave no active file; its records
      are all in the siblings. */
  lemma RotationCrashLeavesNoActive(cfg: Config, s: System, t: Trace, forceDurable: bool, f: Faults)
    requires cfg.codec.Lawful() && SystemInv(cfg, s) && Up(s) && StatAnswers(s.disk, f.rotation)
    requires 1 < |AppendBy(cfg, s, t, forceDurable, f).steps| && AppendBy(cfg, s, t, forceDurable, f).steps[1].active.None?
    ensures var d2 := AppendBy(cfg, s, t, forceDurable, f).steps[1];
            var left := Disk(None, d2.rotated, []);
            && Enabled(cfg, s, CrashInAppend(t, forceDurable, f, 1, left)) && Stream(left) == Stream(s.disk)
  {
    hide Codec.Lawful, Append, StoreFit, Stream, RotatedData, Stamped, Chunk, StatAnswers;
    UpIsSettled(cfg, s);
    var d2 := AppendBy(cfg, s, t, forceDurable, f).steps[1];
    NoActiveIsRotated(cfg, s.proc.value, t, forceDurable, f);
    SameStream(d2, Disk(None, d2.rotated, []));
  }

  lemma SameStream(d: Disk, d2: Disk)
    requires d.active.None? && d2.active.None? && d.rotated == d2.rotated
    ensures Stream(d) == Stream(d2)
  {
  }

  lemma NoActiveIsRotated(cfg: Config, w: Writer, t: Trace, forceDurable: bool, f: Faults)
    requires Settled(w.disk) && !w.poisoned && StatAnswers(w.disk, f.rotation)
    requires 1 < |Append(cfg, w, t, forceDurable, f).steps| && Append(cfg, w, t, forceDurable, f).steps[1].active.None?
    ensures Stream(Append(cfg, w, t, forceDurable, f).steps[1]) == Stream(w.disk)
  {
    hide Append, Rotate, WriteRecord, Stamped, RotatedData, StatAnswers, Stream;
    AppendShapes(cfg, w, t, forceDurable, f);
    RotationKeepsStream(cfg, w.disk, f.rotation);
    var r := Rotate(cfg, w.disk, f.rotation);
    SameRequest(cfg, w, r.disk, t);
    if Reaches(cfg, w, t) {
      WriteKeepsActive(cfg, w, t, forceDurable, f);
      if r.status == Rotated {
        WriteKeepsActive(cfg, w.(disk := r.disk), t, forceDurable, f);
      }
    }
  }

  lemma WriteKeepsActive(cfg: Config, w: Writer, t: Trace, forceDurable: bool, f: Faults)
    requires CanWrite(cfg, w, t)
    ensures var out := Written(cfg, w, t, forceDurable, f);
            forall i :: 0 <= i < |out.steps| ==> out.steps[i].active.Some?
  {
    hide WriteRecord, Stamped, Clamp, Truncate, Write;
    WriteShapes(cfg, w, t, forceDurable, f);
  }

  /** An append that can be written, meets no fault and needs no rotation. */
  ghost predicate NextIsClean(cfg: Config, w: Writer, t: Trace, f: Faults) {
    Reaches(cfg, w, t) && NoFaults(cfg, w, t, f) && StatAnswers(w.disk, f.rotation) && !RotationDue(cfg, w, |Chunk(cfg, w, t)|)
  }

  /** Some crash leaves a log that startup accepts, without this record. */
  ghost predicate CanLose(cfg: Config, d: Disk, record: Trace) {
    exists left :: CrashTo(d, left) && Open(cfg.codec, left).Opened? && record !in History(cfg.codec, Stream(left))
  }

  /** While an older directory may come back, the next record, acknowledged behind
      its barrier without any fault, is gone after the crash that brings it back,
      and startup accepts what is left. */
  lemma UnconfirmedLosesAcks(cfg: Config, s: System, t: Trace, f: Faults)
    requires cfg.codec.Lawful() && SystemInv(cfg, s) && Up(s) && s.disk.older != []
    requires NextIsClean(cfg, s.proc.value, t, f)
    ensures Enabled(cfg, s, DoAppend(t, true, f))
    ensures var out, s2 := AppendBy(cfg, s, t, true, f), Next(cfg, s, DoAppend(t, true, f));
            out.result.Appended? && DurableStream(s2.disk) == Stream(s2.disk) && CanLose(cfg, s2.disk, out.record)
  {
    hide Codec.Lawful, SystemInv, Next, Enabled, CrashTo, Append, Open, Stream, History, LayoutStream, DurableStream,
         NextIsClean, CanLose, MustSync;
    UnconfirmedAck(cfg, s, t, f);
    AppendedDisk(cfg, s, t, true, f);
    StepKeepsInv(cfg, s, DoAppend(t, true, f));
    var s2, record := Next(cfg, s, DoAppend(t, true, f)), AppendBy(cfg, s, t, true, f).record;
    OldestIsAccepted(cfg, s2);
    LostWhen(cfg, s2.disk, Restored(s2.disk.older[0]), record);
  }

  lemma LostWhen(cfg: Config, d: Disk, left: Disk, record: Trace)
    requires CrashTo(d, left) && Open(cfg.codec, left).Opened? && record !in History(cfg.codec, Stream(left))
    ensures CanLose(cfg, d, record)
  {
  }

  lemma UnconfirmedAck(cfg: Config, s: System, t: Trace, f: Faults)
    requires cfg.codec.Lawful() && SystemInv(cfg, s) && Up(s) && s.disk.older != []
    requires NextIsClean(cfg, s.proc.value, t, f)
    ensures Enabled(cfg, s, DoAppend(t, true, f))
    ensures var out := AppendBy(cfg, s, t, true, f);
            && out.result.Appended? && DurableStream(out.writer.disk) == Stream(out.writer.disk) && out.writer.disk.older == s.disk.older
            && out.record !in History(cfg.codec, LayoutStream(s.disk.older[0]))
  {
    hide Codec.Lawful, SystemInv, NoFaults, RotationDue, Healthy, Ready, Append, StatAnswers, Open, Stream,
         DurableStream, LayoutStream, Outcome, Stamped, Chunk, Reaches, WriteRecord;
    UpIsSettled(cfg, s);
    var w := s.proc.value;
    CleanAppendSucceeds(cfg, w, t, true, f);
    var out := Append(cfg, w, t, true, f);
    SameRequest(cfg, w, w.disk, t);
    CleanWrite(cfg, w, t, true, f);
    AppendedInDirectory(cfg, w, t, true, out);
    NewRecordIsNew(cfg, s, out);
    DurableOutcome(cfg, w, t, out);
  }

  lemma AppendedDisk(cfg: Config, s: System, t: Trace, forceDurable: bool, f: Faults)
    requires Enabled(cfg, s, DoAppend(t, forceDurable, f))
    ensures var s2, out := Next(cfg, s, DoAppend(t, forceDurable, f)), AppendBy(cfg, s, t, forceDurable, f);
            s2.disk == out.writer.disk && s2.proc == Some(out.writer)
  {
    hide Append, Stream;
  }

  /** Startup leaves an unconfirmed directory unconfirmed, and makes one more when
      it has to create the active file: in both cases the next durable
      acknowledgement can be lost. */
  lemma RestartLosesAcks(cfg: Config, s: System, t: Trace, f: Faults)
    requires cfg.codec.Lawful() && SystemInv(cfg, s) && Enabled(cfg, s, Start) && (s.disk.active.None? || s.disk.older != [])
    requires NextIsClean(cfg, Next(cfg, s, Start).proc.value, t, f)
    ensures var s1 := Next(cfg, s, Start);
            && Enabled(cfg, s1, DoAppend(t, true, f))
            && var out, s2 := AppendBy(cfg, s1, t, true, f), Next(cfg, s1, DoAppend(t, true, f));
               out.result.Appended? && DurableStream(s2.disk) == Stream(s2.disk) && CanLose(cfg, s2.disk, out.record)
  {
    hide Codec.Lawful, Genesis, RotatedData, Ready, SaidPlusOne, Ledgered, Append, StatAnswers, Open, Stream,
         DurableStream, NextIsClean, StoreFit, Created, CanLose;
    var s1 := Next(cfg, s, Start);
    StartKeepsInv(cfg, s);
    if s.disk.active.None? {
      CreatedIsEmpty(cfg.codec, s.disk);
    }
    OpenKeepsOldest(cfg.codec, s.disk);
    UnconfirmedLosesAcks(cfg, s1, t, f);
  }

  /** An append that has to rotate, and does, up to the directory barrier. */
  ghost predicate OnlyDirSyncFails(cfg: Config, w: Writer, t: Trace, f: Faults) {
    && Reaches(cfg, w, t) && RotationDue(cfg, w, |Chunk(cfg, w, t)|) && f.statOk
    && cfg.rotationConfigured && FirstFree(w.disk.rotated.Keys) <= MAX_ROTATIONS
    && f.rotation.syncOk && f.rotation.closeOk && f.rotation.renameOk && f.rotation.openOk && f.rotation.newSyncOk && !f.rotation.dirSyncOk
  }

  /** A rotation whose directory barrier fails ends the process's log and leaves
      such a store, which startup accepts. */
  lemma FailedBarrierIsUnconfirmed(cfg: Config, s: System, t: Trace, forceDurable: bool, f: Faults)
    requires cfg.codec.Lawful() && SystemInv(cfg, s) && Up(s) && StatAnswers(s.proc.value.disk, f.rotation)
    requires OnlyDirSyncFails(cfg, s.proc.value, t, f)
    ensures Enabled(cfg, s, DoAppend(t, forceDurable, f))
    ensures var s1 := Next(cfg, s, DoAppend(t, forceDurable, f));
            Poisoned(s1) && s1.disk.older != [] && Stream(s1.disk) == Stream(s.disk) && Enabled(cfg, Dead(s1, s1.disk), Start)
  {
    hide Codec.Lawful, SystemInv, Next, Healthy, Ready, Rotate, Append, StatAnswers, Open, Stream, DurableStream, OnlyDirSyncFails, FirstFreeFrom,
         Dead, Numbered, MustSync;
    UpIsSettled(cfg, s);
    RotationKeepsStream(cfg, s.disk, f.rotation);
    BarrierFails(cfg, s.proc.value, t, forceDurable, f);
    AppendedDisk(cfg, s, t, forceDurable, f);
    RotatedIsAccepted(cfg, s, Rotate(cfg, s.disk, f.rotation).disk);
    DeadStarts(cfg, Next(cfg, s, DoAppend(t, forceDurable, f)));
  }

  lemma DeadStarts(cfg: Config, s: System)
    requires Open(cfg.codec, s.disk).Opened?
    ensures Enabled(cfg, Dead(s, s.disk), Start)
  {
    hide Open;
  }

  lemma BarrierFails(cfg: Config, w: Writer, t: Trace, forceDurable: bool, f: Faults)
    requires Settled(w.disk) && StatAnswers(w.disk, f.rotation) && OnlyDirSyncFails(cfg, w, t, f)
    ensures var out, r := Append(cfg, w, t, forceDurable, f), Rotate(cfg, w.disk, f.rotation);
            && r.status == Uncertain && r.disk.older != [] && r.disk.active == Some(EMPTY_FILE) && !out.result.Appended?
            && out.writer.poisoned && out.writer.disk == r.disk
            && r.disk.rotated == w.disk.rotated[FirstFree(w.disk.rotated.Keys) := w.disk.active.value.data]
  {
    hide Stamped, TraceHash, RotatedData, WriteRecord;
  }

  lemma RotatedIsAccepted(cfg: Config, s: System, d: Disk)
    requires cfg.codec.Lawful() && SystemInv(cfg, s) && Up(s) && d.active == Some(EMPTY_FILE) && Stream(d) == Stream(s.disk)
    requires d.rotated == s.disk.rotated[FirstFree(s.disk.rotated.Keys) := s.disk.active.value.data]
    ensures Open(cfg.codec, d).Opened?
  {
    hide Codec.Lawful, Genesis, RotatedData, SaidPlusOne, Ledgered, Open, Stream, ScanFile, Sized, OlderFit, FileFit;
    EmptyIsSized(cfg);
    OpenAccepts(cfg.codec, d);
  }

  lemma DurableOutcome(cfg: Config, w: Writer, t: Trace, out: AppendOut)
    requires Outcome(cfg, w, t, true, out) && out.result.Appended?
    ensures DurableStream(out.writer.disk) == Stream(out.writer.disk)
  {
    hide Stream, History, Stamped, DurableStream;
  }

  lemma CreatedIsEmpty(c: Codec, d: Disk)
    requires Open(c, d).Opened? && d.active.None?
    ensures var w := Open(c, d).writer; w.disk.active == Some(EMPTY_FILE) && w.disk.older != []
  {
    hide Intact, RotatedData;
  }

  lemma OldestIsAccepted(cfg: Config, s: System)
    requires cfg.codec.Lawful() && SystemInv(cfg, s) && s.disk.older != []
    ensures var left := Restored(s.disk.older[0]);
            CrashTo(s.disk, left) && Open(cfg.codec, left).Opened? && Stream(left) == LayoutStream(s.disk.older[0])
  {
    hide Codec.Lawful, Genesis, RotatedData, Ready, SaidPlusOne, Ledgered, FileFit, ScanFile, Sized, Open;
    OpenAccepts(cfg.codec, Restored(s.disk.older[0]));
  }

  // ----- a crash in the middle of an append -----

  /** Whatever a crash leaves of d is a part of hi. */
  ghost predicate Below(d: Disk, hi: bytes) {
    && (forall i :: 0 <= i < |d.older| ==> IsPrefix(LayoutStream(d.older[i]), hi))
    && (match d.active
        case None => IsPrefix(RotatedData(d.rotated), hi)
        case Some(f) => forall i :: 0 <= i < |Tops(f)| ==> IsPrefix(RotatedData(d.rotated) + Tops(f)[i], hi))
  }

  ghost predicate AllBelow(steps: seq<Disk>, hi: bytes) {
    forall i :: 0 <= i < |steps| ==> Below(steps[i], hi)
  }

  lemma CrashBelow(d: Disk, left: Disk, hi: bytes)
    requires Below(d, hi) && CrashTo(d, left)
    ensures IsPrefix(Stream(left), hi)
  {
    hide RotatedData;
    if i :| 0 <= i < |d.older| && left == Restored(d.older[i]) {
      assert Stream(left) == LayoutStream(d.older[i]);
    } else if d.active.Some? {
      var i := TopOf(d.active.value, left.active.value.data);
      PrefixConcat(RotatedData(d.rotated), left.active.value.data, Tops(d.active.value)[i]);
      PrefixTransitive(Stream(left), RotatedData(d.rotated) + Tops(d.active.value)[i], hi);
    } else {
      assert RotatedData(left.rotated) + [] == RotatedData(d.rotated);
    }
  }

  lemma WithinBelow(d: Disk, f: File, a: File, chunk: bytes, hi: bytes)
    requires Below(d, hi) && d.active == Some(a) && Within(f, a, chunk) && IsPrefix(RotatedData(d.rotated) + (a.data + chunk), hi)
    ensures Below(WithActive(d, f), hi) && Below(WithActive(d, Clean(f.data)), hi)
  {
    hide RotatedData, LayoutStream;
    var base := RotatedData(d.rotated);
    forall p | p in Tops(f)
      ensures IsPrefix(base + p, hi)
    {
      if p in a.past {
        var j :| 0 <= j < |a.past| && a.past[j] == p;
        assert Tops(a)[j] == p;
      } else {
        PrefixConcat(base, p, a.data + chunk);
        PrefixTransitive(base + p, base + (a.data + chunk), hi);
      }
    }
    assert f.data == Tops(f)[|f.past|] && Tops(Clean(f.data)) == [f.data];
  }

  lemma WriteBelow(cfg: Config, w: Writer, t: Trace, forceDurable: bool, f: Faults, hi: bytes)
    requires CanWrite(cfg, w, t) && Below(w.disk, hi) && IsPrefix(Stream(w.disk) + Chunk(cfg, w, t), hi)
    ensures AllBelow(Written(cfg, w, t, forceDurable, f).steps, hi)
  {
    hide WriteRecord, Barrier, RotatedData, Chunk, Stamped, Below;
    var d, a, chunk := w.disk, w.disk.active.value, Chunk(cfg, w, t);
    var written := Write(a, chunk[..Clamp(f.written, 0, |chunk|)]);
    var cut := Truncate(written, |a.data|, f.rollback.newLen);
    assert RotatedData(d.rotated) + (a.data + chunk) == Stream(d) + chunk;
    WriteShapes(cfg, w, t, forceDurable, f);
    WithinWrite(a, chunk, Clamp(f.written, 0, |chunk|));
    WithinTruncate(written, a, chunk, f.rollback.newLen);
    WithinBelow(d, written, a, chunk, hi);
    WithinBelow(d, cut, a, chunk, hi);
    hide Write, Truncate, Clamp, Within, Stream;
  }

  lemma RotationBelow(cfg: Config, d: Disk, f: RotationFaults, hi: bytes)
    requires Settled(d) && StatAnswers(d, f) && Below(d, hi) && IsPrefix(Stream(d), hi)
    ensures AllBelow(Rotate(cfg, d, f).steps, hi)
    ensures Rotate(cfg, d, f).status == Rotated ==> Below(Rotate(cfg, d, f).disk, hi)
  {
    hide RotatedData, Numbered;
    var d1 := WithActive(d, Clean(d.active.value.data));
    assert Tops(Clean(d.active.value.data)) == [d.active.value.data];
    var idx := FirstFree(d.rotated.Keys);
    RotatedSettled(d1, idx);
    var r := RotatedData(Renamed(d1, idx).rotated);
    assert r == Stream(d) && r + [] == r;
    assert Tops(EMPTY_FILE) == [[]];
  }

  /** Of an append with nothing cut off before it, no step lets a crash leave more
      than the old stream with the record. */
  lemma AppendBelow(cfg: Config, w: Writer, t: Trace, forceDurable: bool, f: Faults)
    requires Settled(w.disk) && !w.poisoned && StatAnswers(w.disk, f.rotation)
    requires Below(w.disk, Stream(w.disk))
    ensures AllBelow(Append(cfg, w, t, forceDurable, f).steps, Stream(w.disk) + Chunk(cfg, w, t))
  {
    hide Append, Rotate, WriteRecord, Stamped, StatAnswers, Below, Stream, Chunk, Reaches;
    var hi := Stream(w.disk) + Chunk(cfg, w, t);
    PrefixIntro(Stream(w.disk), Chunk(cfg, w, t));
    PrefixIntro(hi, []);
    BelowMore(w.disk, Stream(w.disk), hi);
    AppendShapes(cfg, w, t, forceDurable, f);
    RotationBelow(cfg, w.disk, f.rotation, hi);
    RotationKeepsStream(cfg, w.disk, f.rotation);
    var r := Rotate(cfg, w.disk, f.rotation);
    SameRequest(cfg, w, r.disk, t);
    SameRequest(cfg, w, w.disk, t);
    if Reaches(cfg, w, t) {
      WriteBelow(cfg, w, t, forceDurable, f, hi);
      if r.status == Rotated {
        WriteBelow(cfg, w.(disk := r.disk), t, forceDurable, f, hi);
      }
    }
  }

  lemma BelowMore(d: Disk, lo: bytes, hi: bytes)
    requires Below(d, lo) && IsPrefix(lo, hi)
    ensures Below(d, hi)
  {
    hide RotatedData, LayoutStream;
    forall x | IsPrefix(x, lo)
      ensures IsPrefix(x, hi)
    {
      PrefixTransitive(x, lo, hi);
    }
  }

  lemma UpIsBelow(cfg: Config, s: System)
    requires SystemInv(cfg, s) && Up(s) && s.disk.active.value.past == []
    ensures Below(s.disk, Stream(s.disk))
  {
    hide RotatedData, FileFit, FilesOk, LayoutFit, Healthy, Ready, Ledgered, SaidPlusOne;
    var base, data := RotatedData(s.disk.rotated), s.disk.active.value.data;
    PrefixIntro(base, data);
    PrefixIntro(base + data, []);
    assert Tops(s.disk.active.value) == [data];
    forall i | 0 <= i < |s.disk.older|
      ensures IsPrefix(LayoutStream(s.disk.older[i]), Stream(s.disk))
    {
      OlderIsPrefix(cfg, s, i);
      PrefixTransitive(LayoutStream(s.disk.older[i]), base, Stream(s.disk));
    }
  }

  lemma OlderIsPrefix(cfg: Config, s: System, i: nat)
    requires SystemInv(cfg, s) && i < |s.disk.older|
    ensures IsPrefix(LayoutStream(s.disk.older[i]), RotatedData(s.disk.rotated))
  {
    hide RotatedData, LayoutStream, FileFit, FilesOk, LayoutFit, Ready, Ledgered, SaidPlusOne, Stands;
  }

  /** After a crash at any step of an append, a start that is accepted resumes on
      everything confirmed, on everything synced too when the directory was not
      set back, and, unless contents cut off earlier were still unsynced, on at
      most the old history with the record in flight. */
  lemma CrashDuringAppend(cfg: Config, s: System, w: Writer, t: Trace, forceDurable: bool, f: Faults, d: Disk, left: Disk)
    requires cfg.codec.Lawful() && SystemInv(cfg, s) && Up(s) && s.proc == Some(w) && StatAnswers(w.disk, f.rotation)
    requires d in Append(cfg, w, t, forceDurable, f).steps && CrashTo(d, left) && Open(cfg.codec, left).Opened?
    ensures var c, h := cfg.codec, History(cfg.codec, Stream(left));
            && IsPrefix(History(c, s.floor), h)
            && ((forall i :: 0 <= i < |d.older| ==> left != Restored(d.older[i])) ==> IsPrefix(History(c, s.synced), h))
            && (w.disk.active.value.past == [] ==> IsPrefix(h, History(c, Stream(w.disk)) + [Stamped(cfg, w.lastHash, t)]))
  {
    hide Codec.Lawful, SystemInv, Append, StoreFit, Stream, Open, CrashTo, Stamped, Chunk, StatAnswers, Genesis,
         RotatedData, Stands, Below, Reaches, Ready, Healthy, History;
    UpIsSettled(cfg, s);
    MidAppend(cfg, s, t, forceDurable, f, d);
    CrashFit(cfg, s.floor, s.synced, d, left);
    FitKeeps(cfg, s.floor, left);
    if StoreFit(cfg, s.synced, s.synced, left) {
      FitKeeps(cfg, s.synced, left);
    }
    if w.disk.active.value.past == [] {
      UpIsBelow(cfg, s);
      AppendBelow(cfg, w, t, forceDurable, f);
      CrashBelow(d, left, Stream(w.disk) + Chunk(cfg, w, t));
      AtMostTheRecord(cfg, w, t, left);
    }
  }

  lemma FitKeeps(cfg: Config, lo: bytes, d: Disk)
    requires cfg.codec.Lawful() && StoreFit(cfg, lo, lo, d) && Open(cfg.codec, d).Opened?
    ensures IsPrefix(History(cfg.codec, lo), History(cfg.codec, Stream(d)))
  {
    hide Codec.Lawful, Genesis, RotatedData, Open, Stream;
    FitIsIntact(cfg, lo, d);
    OpenFit(cfg, lo, lo, d);
    ReadyStands(cfg, lo, lo, Open(cfg.codec, d).writer);
    StandsHistory(cfg.codec, lo, Stream(d));
  }

  lemma FitIsIntact(cfg: Config, lo: bytes, d: Disk)
    requires StoreFit(cfg, lo, lo, d)
    ensures Intact(cfg.codec, lo)
  {
  }

  lemma AtMostTheRecord(cfg: Config, w: Writer, t: Trace, left: Disk)
    requires cfg.codec.Lawful() && Healthy(cfg.codec, w) && Reaches(cfg, w, t) && CR !in Stream(w.disk)
    requires IsPrefix(Stream(left), Stream(w.disk) + Chunk(cfg, w, t)) && Open(cfg.codec, left).Opened?
    ensures IsPrefix(History(cfg.codec, Stream(left)), History(cfg.codec, Stream(w.disk)) + [Stamped(cfg, w.lastHash, t)])
  {
    hide Codec.Lawful, Genesis, RotatedData, Stamped, Chunk, Stream, Open, Stands, Reaches, History;
    var hi := Stream(w.disk) + Chunk(cfg, w, t);
    HealthyIntact(cfg.codec, w);
    StandsItself(cfg.codec, Stream(w.disk));
    ChunkStands(cfg, Stream(w.disk), w, t);
    StandsHasNoCR(cfg.codec, Stream(w.disk), hi);
    OpenedIsIntact(cfg.codec, left, hi);
    CutStream(cfg.codec, Stream(left), hi);
  }

  lemma HealthyIntact(c: Codec, w: Writer)
    requires Healthy(c, w)
    ensures Intact(c, Stream(w.disk))
  {
  }

  // ----- how much may be unsynced -----

  /** A crash that leaves the directory as it is. */
  ghost predicate FileCrash(d: Disk, left: Disk) {
    && left.rotated == d.rotated && left.older == [] && d.active.Some? && left.active.Some?
    && left.active.value == Clean(left.active.value.data) && Leaves(d.active.value, left.active.value.data)
  }

  /** No such crash from which the log resumes costs more than k records. */
  ghost predicate LosesAtMost(c: Codec, d: Disk, k: int) {
    forall left :: FileCrash(d, left) && Open(c, left).Opened? ==> |History(c, Stream(left))| + k >= |History(c, Stream(d))|
  }

  lemma SyncedLosesNothing(c: Codec, d: Disk)
    requires SyncedActive(d)
    ensures LosesAtMost(c, d, 0)
  {
    hide RotatedData, Open, History;
    forall left | FileCrash(d, left)
      ensures Stream(left) == Stream(d)
    {
      var f, x := d.active.value, left.active.value.data;
      var p :| p in Tops(f) && IsPrefix(x, p);
      assert p == f.data;
    }
  }

  /** One record written and not synced may be lost with the rest. */
  lemma UnsyncedLosesOneMore(cfg: Config, w: Writer, t: Trace, d2: Disk, k: int)
    requires cfg.codec.Lawful() && Healthy(cfg.codec, w) && Reaches(cfg, w, t) && CR !in Stream(w.disk)
    requires d2 == WithActive(w.disk, Write(w.disk.active.value, Chunk(cfg, w, t))) && LosesAtMost(cfg.codec, w.disk, k) && k >= 0
    ensures LosesAtMost(cfg.codec, d2, k + 1)
  {
    hide Codec.Lawful, Genesis, RotatedData, Open, Stamped, Chunk, Reaches, Stands, History;
    var c, d, chunk := cfg.codec, w.disk, Chunk(cfg, w, t);
    StandsItself(c, Stream(d));
    ChunkStands(cfg, Stream(d), w, t);
    StreamParts(d);
    StreamParts(d2);
    assert RotatedData(d.rotated) + (d.active.value.data + chunk) == Stream(d) + chunk;
    forall left | FileCrash(d2, left) && Open(c, left).Opened?
      ensures |History(c, Stream(left))| + (k + 1) >= |History(c, Stream(d2))|
    {
      LeftBehind(cfg, w, t, d2, left);
      if FileCrash(d, left) {
      } else {
        StreamParts(left);
        OpenedBeyond(cfg, w, t, left);
      }
    }
  }

  lemma LeftBehind(cfg: Config, w: Writer, t: Trace, d2: Disk, left: Disk)
    requires Settled(w.disk) && d2 == WithActive(w.disk, Write(w.disk.active.value, Chunk(cfg, w, t))) && FileCrash(d2, left)
    ensures FileCrash(w.disk, left)
            || (IsPrefix(w.disk.active.value.data, left.active.value.data)
                && IsPrefix(left.active.value.data, w.disk.active.value.data + Chunk(cfg, w, t)))
  {
    hide Chunk;
    var a, x := w.disk.active.value, left.active.value.data;
    var p :| p in Tops(d2.active.value) && IsPrefix(x, p);
    if p in a.past {
      assert p in Tops(a);
    } else {
      assert p == a.data + Chunk(cfg, w, t);
      if |x| <= |a.data| {
        assert x == a.data[..|x|];
        assert a.data in Tops(a) by {
          assert Tops(a)[|a.past|] == a.data;
        }
      } else {
        assert a.data == x[..|a.data|];
      }
    }
  }

  lemma OpenedBeyond(cfg: Config, w: Writer, t: Trace, left: Disk)
    requires cfg.codec.Lawful() && Healthy(cfg.codec, w) && Open(cfg.codec, left).Opened?
    requires left.active.Some? && left.rotated == w.disk.rotated
    requires IsPrefix(w.disk.active.value.data, left.active.value.data)
    requires IsPrefix(left.active.value.data, w.disk.active.value.data + Chunk(cfg, w, t))
    requires Stands(cfg.codec, Stream(w.disk), Stream(w.disk) + Chunk(cfg, w, t))
    ensures |History(cfg.codec, Stream(left))| >= |History(cfg.codec, Stream(w.disk))|
  {
    hide Codec.Lawful, Genesis, RotatedData, Stamped, Chunk, Stream, Open, History;
    var c, base, a, x := cfg.codec, RotatedData(w.disk.rotated), w.disk.active.value.data, left.active.value.data;
    var roof := Stream(w.disk) + Chunk(cfg, w, t);
    StreamParts(w.disk);
    StreamParts(left);
    PrefixConcat(base, a, x);
    PrefixConcat(base, x, a + Chunk(cfg, w, t));
    assert base + (a + Chunk(cfg, w, t)) == roof;
    OpenedIsIntact(c, left, roof);
    StandsBetween(c, Stream(w.disk), Stream(left), roof);
  }

  lemma OpenedIsIntact(c: Codec, d: Disk, roof: bytes)
    requires c.Lawful() && Open(c, d).Opened? && IsPrefix(Stream(d), roof) && CR !in roof
    ensures Intact(c, Stream(d))
  {
    hide Codec.Lawful, Genesis, RotatedData, Open, Stream;
    OpenResumesVerifiedTail(c, d);
    assert forall i :: 0 <= i < |Stream(d)| ==> Stream(d)[i] == roof[i];
    if White(Stream(d)) {
      LineFeedsAreIntact(c, Stream(d));
    }
  }

  /** One append, with what becomes of its system calls. */
  datatype Call = Call(t: Trace, forceDurable: bool, faults: Faults)

  /** The appends of one process, none of which poisons. */
  ghost predicate Lifetime(cfg: Config, ws: seq<Writer>, calls: seq<Call>) {
    && |ws| == |calls| + 1 && Healthy(cfg.codec, ws[0]) && CR !in Stream(ws[0].disk)
    && forall i :: 0 <= i < |calls| ==> Continues(cfg, ws[i], calls[i], ws[i + 1])
  }

  ghost predicate Continues(cfg: Config, w: Writer, call: Call, w2: Writer) {
    && !w.poisoned && w.disk.active.Some? && StatAnswers(w.disk, call.faults.rotation)
    && w2 == Append(cfg, w, call.t, call.forceDurable, call.faults).writer && !w2.poisoned
  }

  lemma LifetimeStep(cfg: Config, w: Writer, call: Call, w2: Writer, k: int)
    requires cfg.codec.Lawful() && Healthy(cfg.codec, w) && CR !in Stream(w.disk) && Continues(cfg, w, call, w2)
    requires LosesAtMost(cfg.codec, w.disk, k) && k >= 0
    ensures Healthy(cfg.codec, w2) && CR !in Stream(w2.disk)
    ensures w2.appendSeq == w.appendSeq ==> LosesAtMost(cfg.codec, w2.disk, k)
    ensures w2.appendSeq == w.appendSeq || w2.appendSeq == w.appendSeq + 1
    ensures w2.appendSeq == w.appendSeq + 1 ==>
              if MustSync(cfg, w2.appendSeq, call.forceDurable) then LosesAtMost(cfg.codec, w2.disk, 0) else LosesAtMost(cfg.codec, w2.disk, k + 1)
  {
    hide Codec.Lawful, Genesis, RotatedData, Append, Stamped, Chunk, Reaches, LosesAtMost, Rotate, WriteRecord,
         Stream, MustSync, StatAnswers, Outcome;
    var Call(t, force, f) := call;
    var out := Append(cfg, w, t, force, f);
    AppendKeepsHealthy(cfg, w, t, force, f);
    ChunkHasNoCR(cfg, w, t);
    StepOutcome(cfg, w, t, force, out);
    HealthySettled(cfg.codec, w);
    AppendShapes(cfg, w, t, force, f);
    RotationKeepsStream(cfg, w.disk, f.rotation);
    var r := Rotate(cfg, w.disk, f.rotation);
    var w1 := w.(disk := r.disk);
    SameRequest(cfg, w, r.disk, t);
    if r.status != Uncertain {
      RotationLoses(cfg, w, f.rotation, k);
      RotationHealthy(cfg, w, f.rotation);
    }
    if Reaches(cfg, w, t) {
      WriteLoses(cfg, w, t, force, f, k);
      if r.status == Rotated {
        WriteLoses(cfg, w1, t, force, f, k);
      }
    }
  }

  lemma StepOutcome(cfg: Config, w: Writer, t: Trace, forceDurable: bool, out: AppendOut)
    requires Outcome(cfg, w, t, forceDurable, out) && !out.writer.poisoned && CR !in Stream(w.disk) && CR !in Chunk(cfg, w, t)
    ensures Healthy(cfg.codec, out.writer) && CR !in Stream(out.writer.disk)
    ensures out.writer.appendSeq == if out.result.Appended? then w.appendSeq + 1 else w.appendSeq
  {
    hide Stream, History, Stamped, MustSync, DurableStream, Chunk, Healthy;
  }

  lemma LosesMore(c: Codec, d: Disk, k: int, k2: int)
    requires LosesAtMost(c, d, k) && k <= k2
    ensures LosesAtMost(c, d, k2)
  {
    hide Open, Stream, History, FileCrash;
  }

  lemma RotationLoses(cfg: Config, w: Writer, f: RotationFaults, k: int)
    requires Healthy(cfg.codec, w) && StatAnswers(w.disk, f) && Rotate(cfg, w.disk, f).status != Uncertain && LosesAtMost(cfg.codec, w.disk, k) && k >= 0
    ensures LosesAtMost(cfg.codec, Rotate(cfg, w.disk, f).disk, k)
  {
    hide Genesis, RotatedData, LosesAtMost, StatAnswers, Rotate, Stream;
    HealthySettled(cfg.codec, w);
    RotationKeepsStream(cfg, w.disk, f);
    var d2 := Rotate(cfg, w.disk, f).disk;
    if d2 != w.disk {
      SyncedLosesNothing(cfg.codec, d2);
      LosesMore(cfg.codec, d2, 0, k);
    }
  }

  lemma WriteLoses(cfg: Config, w: Writer, t: Trace, forceDurable: bool, f: Faults, k: int)
    requires cfg.codec.Lawful() && Healthy(cfg.codec, w) && CR !in Stream(w.disk) && Reaches(cfg, w, t) && LosesAtMost(cfg.codec, w.disk, k) && k >= 0
    ensures Settled(w.disk)
    ensures var out := Written(cfg, w, t, forceDurable, f);
            && (out.result.Appended? ==>
                  if MustSync(cfg, out.writer.appendSeq, forceDurable) then LosesAtMost(cfg.codec, out.writer.disk, 0)
                  else LosesAtMost(cfg.codec, out.writer.disk, k + 1))
            && (!out.result.Appended? && !out.writer.poisoned ==> LosesAtMost(cfg.codec, out.writer.disk, k))
  {
    hide Codec.Lawful, Genesis, RotatedData, WriteRecord, Stamped, Chunk, LosesAtMost, MustSync, Stream;
    HealthySettled(cfg.codec, w);
    SameRequest(cfg, w, w.disk, t);
    WriteOutcomes(cfg, w, t, forceDurable, f);
    var a := w.disk.active.value;
    var d0, d1, d2 := WithActive(w.disk, Clean(a.data)), WithActive(w.disk, Write(a, Chunk(cfg, w, t))), WithActive(w.disk, Clean(a.data + Chunk(cfg, w, t)));
    UnsyncedLosesOneMore(cfg, w, t, d1, k);
    SyncedLosesNothing(cfg.codec, d0);
    SyncedLosesNothing(cfg.codec, d2);
    LosesMore(cfg.codec, d0, 0, k);
  }

  lemma CountsUp(n: nat, every: nat)
    requires every > 0 && (n + 1) % every != 0
    ensures (n + 1) % every == n % every + 1
  {
    var q, r, q2, r2 := n / every, n % every, (n + 1) / every, (n + 1) % every;
    QuotientUnique(every, q, r + 1, q2, r2);
  }

  /** Two ways of writing a number, the remainders at most one period apart. */
  lemma QuotientUnique(m: int, q: int, r: nat, q2: int, r2: nat)
    requires m > 0 && r <= m && 0 < r2 < m && q * m + r == q2 * m + r2
    ensures r == r2
  {
    var e := q - q2;
    assert e * m == r2 - r;
    assert e >= 1 ==> e * m >= m;
    assert e <= -2 ==> e * m <= -2 * m;
    assert e == -1 ==> e * m == -m;
  }

  /** Interval mode, over a whole process lifetime: at any time at most
      auditSyncEvery - 1 of its acknowledged records can be lost with the directory
      intact, besides `base`, what could be lost when it started. */
  lemma {:induction false} LifetimeBound(cfg: Config, ws: seq<Writer>, calls: seq<Call>, base: int, i: nat)
    requires cfg.codec.Lawful() && Lifetime(cfg, ws, calls) && cfg.mode == Interval && cfg.syncEvery > 0 && i < |ws|
    requires ws[0].appendSeq == 0 && base >= 0 && LosesAtMost(cfg.codec, ws[0].disk, base)
    ensures Healthy(cfg.codec, ws[i]) && CR !in Stream(ws[i].disk)
    ensures LosesAtMost(cfg.codec, ws[i].disk, base + ws[i].appendSeq % cfg.syncEvery)
    ensures LosesAtMost(cfg.codec, ws[i].disk, base + cfg.syncEvery - 1)
    decreases i
  {
    hide Codec.Lawful, Genesis, RotatedData, LosesAtMost, Stream, Continues, Healthy;
    if i > 0 {
      LifetimeBound(cfg, ws, calls, base, i - 1);
      LifetimeStep(cfg, ws[i - 1], calls[i - 1], ws[i], base + ws[i - 1].appendSeq % cfg.syncEvery);
      IntervalArithmetic(cfg, ws[i - 1].appendSeq, calls[i - 1].forceDurable);
      if MustSync(cfg, ws[i].appendSeq, calls[i - 1].forceDurable) && ws[i].appendSeq == ws[i - 1].appendSeq + 1 {
        LosesMore(cfg.codec, ws[i].disk, 0, base + ws[i].appendSeq % cfg.syncEvery);
      }
    }
    LosesMore(cfg.codec, ws[i].disk, base + ws[i].appendSeq % cfg.syncEvery, base + cfg.syncEvery - 1);
  }

  lemma IntervalArithmetic(cfg: Config, n: nat, forceDurable: bool)
    requires cfg.mode == Interval && cfg.syncEvery > 0
    ensures !MustSync(cfg, n + 1, forceDurable) ==> (n + 1) % cfg.syncEvery == n % cfg.syncEvery + 1
  {
    if !MustSync(cfg, n + 1, forceDurable) {
      CountsUp(n, cfg.syncEvery);
    }
  }

  /** Mode "every": nothing acknowledged can be lost with the directory intact, at
      any time of a process that started with nothing unsynced. */
  lemma {:induction false} EveryModeLosesNothing(cfg: Config, ws: seq<Writer>, calls: seq<Call>, i: nat)
    requires cfg.codec.Lawful() && Lifetime(cfg, ws, calls) && cfg.mode == Every && i < |ws| && LosesAtMost(cfg.codec, ws[0].disk, 0)
    ensures Healthy(cfg.codec, ws[i]) && CR !in Stream(ws[i].disk) && LosesAtMost(cfg.codec, ws[i].disk, 0)
    decreases i
  {
    hide Codec.Lawful, Genesis, RotatedData, LosesAtMost, Stream, Continues, Healthy;
    if i > 0 {
      EveryModeLosesNothing(cfg, ws, calls, i - 1);
      LifetimeStep(cfg, ws[i - 1], calls[i - 1], ws[i], 0);
    }
  }
}
