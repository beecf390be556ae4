/** What an append of the proxy puts on record, where it puts it, when it makes it
    durable and what it answers, in terms of its inputs alone. */
module AuditRecord {
  import opened Bytes
  import opened Traces
  import opened ChainVerifier
  import opened ChainTheory
  import opened LogStream
  import opened AuditDisk
  import opened AuditWriter
  import opened AuditSafety

  // ----- what the record says -----

  /** The record is the caller's trace: the call, its outcome and what is not hashed
      as they are, linked to the tail, in version 2, and with the provenance of the
      process when it came without any. */
  lemma RecordSays(cfg: Config, w: Writer, t: Trace, forceDurable: bool, f: Faults)
    requires !w.poisoned ==> w.disk.active.Some?
    ensures var r := Append(cfg, w, t, forceDurable, f).record;
            && r.core == t.core && r.applied == t.applied && r.unhashed == t.unhashed
            && r.prev == w.lastHash && r.canonicalVersion == "v2"
            && (TraceHash(r).Some? ==> TraceHash(r) == Some(r.hash))
            && if t.engineVersion == "" && t.policySetHash == "" && t.schemaVersion == "" && cfg.provenance.Some? then
                 && r.engineVersion == cfg.provenance.value.engineVersion
                 && r.policySetHash == cfg.provenance.value.policySetHash && r.schemaVersion == "v2"
               else r.engineVersion == t.engineVersion && r.policySetHash == t.policySetHash && r.schemaVersion == t.schemaVersion
  {
    RecordIsStamped(cfg, w, t, forceDurable, f);
    hide Append;
  }

  /** An acknowledged append adds that record to the history, and nothing else. */
  lemma AcknowledgedIsLast(cfg: Config, w: Writer, t: Trace, forceDurable: bool, f: Faults)
    requires cfg.codec.Lawful() && Healthy(cfg.codec, w) && StatAnswers(w.disk, f.rotation)
    requires Append(cfg, w, t, forceDurable, f).result.Appended?
    ensures var out := Append(cfg, w, t, forceDurable, f);
            var h, h' := History(cfg.codec, Stream(w.disk)), History(cfg.codec, Stream(out.writer.disk));
            && h' == h + [out.record] && out.writer.lastHash == out.record.hash
            && out.record.prev == (if h == [] then NoHash else h[|h| - 1].hash)
  {
    AppendKeepsHealthy(cfg, w, t, forceDurable, f);
    RecordSays(cfg, w, t, forceDurable, f);
    hide Codec.Lawful, Genesis, Append, Stream, Stamped, Settled, Intact, DurableStream, TraceHash, StatAnswers;
  }

  // ----- what it answers -----

  /** Before anything is written: which failure is answered, and that nothing has
      changed. */
  lemma AnswersBefore(cfg: Config, w: Writer, t: Trace, forceDurable: bool, f: Faults)
    requires !w.poisoned ==> w.disk.active.Some?
    ensures var out := Append(cfg, w, t, forceDurable, f);
            var unstamped := t.engineVersion == "" && t.policySetHash == "" && t.schemaVersion == "";
            var raw := cfg.codec.marshal(out.record);
            if unstamped && cfg.provenance.None? then out.result == ProvenanceFailed && out.writer == w && out.steps == []
            else if w.poisoned then out.result == PoisonedWriter && out.writer == w && out.steps == []
            else if TraceHash(out.record).None? then out.result == HashFailed && out.writer == w && out.steps == []
            else if raw.None? || |raw.value| > 4_194_304 then out.result == MarshalFailed && out.writer == w && out.steps == []
            else !f.statOk ==> out.result == StatFailed && out.writer == w && out.steps == []
  {
    RecordIsStamped(cfg, w, t, forceDurable, f);
    hide Rotate, WriteRecord, Stamped, TraceHash;
  }

  /** The record makes the active file, when it holds anything, reach the size. */
  predicate Reached(cfg: Config, w: Writer, raw: bytes) {
    && 0 < cfg.rotateBytes && w.disk.active.Some? && w.disk.active.value.data != []
    && cfg.rotateBytes <= |w.disk.active.value.data| + |raw| + (if w.needsSeparator then 2 else 1)
  }

  /** The count after this append, the mode or the caller asks for a barrier. */
  predicate BarrierDue(cfg: Config, w: Writer, forceDurable: bool) {
    forceDurable || cfg.mode == Every || (cfg.mode == Interval && cfg.syncEvery > 0 && (w.appendSeq + 1) % cfg.syncEvery == 0)
  }

  /** Truncation, barrier and Stat succeed, and all that was written is gone. */
  predicate RollsBack(f: Faults, size: nat, chunk: nat) {
    f.rollback.truncateOk && f.rollback.syncOk && f.rollback.statOk && (f.rollback.newLen <= size || f.written == 0 || chunk == 0)
  }

  /** What the write of a chunk behind `file` answers. */
  function WriteAnswer(cfg: Config, w: Writer, forceDurable: bool, f: Faults, size: nat, chunk: nat): Result {
    var whole := !f.writeErr && f.written >= chunk;
    if whole && (!BarrierDue(cfg, w, forceDurable) || f.syncOk) then Appended
    else if RollsBack(f, size, chunk) then if whole then SyncRolledBack else WriteRolledBack
    else Indeterminate(f.written >= chunk)
  }

  predicate RotationWorks(cfg: Config, d: Disk, f: RotationFaults) {
    && cfg.rotationConfigured && f.syncOk && f.closeOk && NextIndex(d, f) <= 1_048_576
    && f.renameOk && f.openOk && f.newSyncOk && f.dirSyncOk
  }

  // ----- the write -----

  /** The active file after a chunk was written and, when it is due, synced. */
  function Longer(file: File, chunk: bytes, synced: bool): File {
    if synced then File(file.data + chunk, file.data + chunk, []) else File(file.data + chunk, file.durable, file.past)
  }

  lemma BarrierIsDue(cfg: Config, w: Writer, forceDurable: bool)
    ensures MustSync(cfg, w.appendSeq + 1, forceDurable) == BarrierDue(cfg, w, forceDurable)
  {
  }

  lemma RollbackOk(d: Disk, a: File, chunk: bytes, f: Faults, n: nat)
    requires n == Clamp(f.written, 0, |chunk|) && d.active == Some(File(a.data + chunk[..n], a.durable, a.past))
    ensures Rollback(d, |a.data|, f.rollback).ok == RollsBack(f, |a.data|, |chunk|)
  {
  }

  lemma RollbackOkSynced(d: Disk, a: File, chunk: bytes, f: Faults)
    requires f.written >= |chunk| && d.active.Some? && d.active.value.data == a.data + chunk
    ensures Rollback(d, |a.data|, f.rollback).ok == RollsBack(f, |a.data|, |chunk|)
  {
  }

  /** One write, whatever fails: its answer, and where the bytes are when it is
      acknowledged. */
  lemma WriteAnswers(cfg: Config, w: Writer, t: Trace, raw: bytes, forceDurable: bool, f: Faults)
    requires w.disk.active.Some?
    ensures var a, chunk := w.disk.active.value, (if w.needsSeparator then [10] else []) + raw + [10];
            var out := WriteRecord(cfg, w, t, raw, forceDurable, f);
            && out.result == WriteAnswer(cfg, w, forceDurable, f, |a.data|, |chunk|)
            && out.writer.poisoned == (w.poisoned || out.result.Indeterminate?)
            && (out.result.Appended? ==>
                  out.writer == w.(disk := WithActive(w.disk, Longer(a, chunk, BarrierDue(cfg, w, forceDurable))),
                                   needsSeparator := false, lastHash := t.hash, appendSeq := w.appendSeq + 1))
  {
    var a, chunk := w.disk.active.value, Separator(w) + raw + [LF];
    assert chunk == (if w.needsSeparator then [10] else []) + raw + [10];
    var n := Clamp(f.written, 0, |chunk|);
    var d1 := WithActive(w.disk, Write(a, chunk[..n]));
    assert chunk[..|chunk|] == chunk;
    BarrierIsDue(cfg, w, forceDurable);
    RollbackOk(d1, a, chunk, f, n);
    if f.written >= |chunk| {
      RollbackOkSynced(WithActive(d1, SyncFile(d1.active.value, f.syncOk)), a, chunk, f);
    }
    hide Rollback, MustSync, BarrierDue, RollsBack;
  }

  // ----- the whole append -----

  /** After the Stat, whatever fails: what is answered, and where the record is when
      it is acknowledged. */
  lemma AnswersAfter(cfg: Config, w: Writer, t: Trace, forceDurable: bool, f: Faults)
    requires w.disk.active.Some? && Reaches(cfg, w, t) && f.statOk
    ensures var out := Append(cfg, w, t, forceDurable, f);
            var raw, a := cfg.codec.marshal(out.record), w.disk.active.value;
            && raw.Some?
            && var chunk := (if w.needsSeparator then [10] else []) + raw.value + [10];
               && (if !Reached(cfg, w, raw.value) then
                     && out.result == WriteAnswer(cfg, w, forceDurable, f, |a.data|, |chunk|)
                     && (out.result.Appended? ==> out.writer.disk == WithActive(w.disk, Longer(a, chunk, BarrierDue(cfg, w, forceDurable))))
                   else if !cfg.rotationConfigured || !f.rotation.syncOk then out.result == RotationFailed && !out.writer.poisoned
                   else if !RotationWorks(cfg, w.disk, f.rotation) then out.result == PoisonedWriter && out.writer.poisoned
                   else if !f.statAfterRotationOk then out.result == StatFailed && !out.writer.poisoned
                   else
                     && out.result == WriteAnswer(cfg, w, forceDurable, f, 0, |chunk|)
                     && (out.result.Appended? ==>
                           out.writer.disk == Disk(Some(Longer(File([], [], []), chunk, BarrierDue(cfg, w, forceDurable))),
                                                   w.disk.rotated[NextIndex(w.disk, f.rotation) := a.data], [])))
               && (out.result.Indeterminate? ==> out.writer.poisoned)
               && (out.result.Appended? ==>
                     !out.writer.poisoned && out.writer.lastHash == out.record.hash && out.writer.appendSeq == w.appendSeq + 1)
  {
    RecordIsStamped(cfg, w, t, forceDurable, f);
    DueIsReached(cfg, w, t);
    RotationStatus(cfg, w.disk, f.rotation);
    var record := Stamped(cfg, w.lastHash, t);
    var raw, r := cfg.codec.marshal(record).value, Rotate(cfg, w.disk, f.rotation);
    WriteAnswers(cfg, w, record, raw, forceDurable, f);
    if r.disk.active.Some? {
      WriteAnswers(cfg, w.(disk := r.disk), record, raw, forceDurable, f);
    }
    hide Rotate, WriteRecord, Stamped, TraceHash, WriteAnswer, Reached, RotationDue, RotationWorks, BarrierDue;
  }

  lemma RotationStatus(cfg: Config, d: Disk, f: RotationFaults)
    requires d.active.Some?
    ensures var r := Rotate(cfg, d, f);
            && (r.status == NotRotated <==> !cfg.rotationConfigured || !f.syncOk)
            && (r.status == Rotated <==> RotationWorks(cfg, d, f))
            && (r.status == Rotated ==>
                  r.disk == Disk(Some(File([], [], [])), d.rotated[NextIndex(d, f) := d.active.value.data], []))
  {
    assert NextIndex(WithActive(d, SyncFile(d.active.value, f.syncOk)), f) == NextIndex(d, f);
  }

  lemma DueIsReached(cfg: Config, w: Writer, t: Trace)
    requires w.disk.active.Some? && Reaches(cfg, w, t)
    ensures var raw := cfg.codec.marshal(Stamped(cfg, w.lastHash, t));
            && raw.Some? && cfg.codec.MarshalRecord(Stamped(cfg, w.lastHash, t)) == raw
            && RotationDue(cfg, w, |raw.value| + 1 + |Separator(w)|) == Reached(cfg, w, raw.value)
  {
    hide Stamped, TraceHash;
  }
}
