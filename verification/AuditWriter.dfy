/** The proxy's audit writer (cmd/tg-proxy/audit_chain.go) as a transition
    function over the fault-injected store. Every outcome of every system call is
    an input, so a statement for all faults is a statement for all executions. */
module AuditWriter {
  import opened Bytes
  import opened Traces
  import opened AuditDisk

  datatype SyncMode = Every | Interval | Never

  datatype Provenance = Provenance(engineVersion: string, policySetHash: string)

  datatype Config = Config(codec: Codec, mode: SyncMode, syncEvery: nat, rotateBytes: int,
                           rotationConfigured: bool, provenance: Option<Provenance>)

  datatype Handle = OnActive | OnRotated(idx: int) | Closed

  /** The audit fields of the proxy, and the store they describe. */
  datatype Writer = Writer(disk: Disk, handle: Handle, lastHash: Hash, poisoned: bool,
                           needsSeparator: bool, appendSeq: nat)

  /** Poisoned and Indeterminate satisfy errors.Is(err, errAuditWriterPoisoned);
      Indeterminate also errAuditStateIndeterminate, and errAuditRecordCommitted
      when `complete`. */
  datatype Result =
    | Appended
    | ProvenanceFailed | HashFailed | MarshalFailed | StatFailed | RotationFailed
    | WriteRolledBack | SyncRolledBack
    | PoisonedWriter
    | Indeterminate(complete: bool)

  datatype RollbackFaults = RollbackFaults(truncateOk: bool, newLen: nat, syncOk: bool, statOk: bool)

  /** `skipped` are indices whose Stat fails without saying that nothing is there:
      the search passes over them as if they were taken. */
  datatype RotationFaults = RotationFaults(syncOk: bool, closeOk: bool, skipped: set<int>,
                                           renameOk: bool, renamedAnyway: bool, reopenOk: bool,
                                           openOk: bool, newSyncOk: bool, dirSyncOk: bool)

  datatype Faults = Faults(statOk: bool, rotation: RotationFaults, statAfterRotationOk: bool,
                           written: nat, writeErr: bool, syncOk: bool, rollback: RollbackFaults)

  /** A system-call sequence: where it ends, and every store state on the way. */
  datatype RollbackOut = RollbackOut(disk: Disk, ok: bool, steps: seq<Disk>)

  function WithActive(d: Disk, f: File): Disk {
    d.(active := Some(f))
  }

  /** rollbackAuditWriteLocked. */
  function Rollback(d: Disk, size: nat, f: RollbackFaults): RollbackOut
    requires d.active.Some?
  {
    var cut := Truncate(d.active.value, size, f.newLen);
    var d1 := WithActive(d, cut);
    if !f.truncateOk then RollbackOut(d1, false, [d1])
    else
      var d2 := WithActive(d1, SyncFile(cut, f.syncOk));
      RollbackOut(d2, f.syncOk && f.statOk && |cut.data| == size, [d1, d2])
  }

  datatype RotationStatus = Rotated | NotRotated | Uncertain

  datatype RotationOut = RotationOut(disk: Disk, handle: Handle, status: RotationStatus, steps: seq<Disk>)

  const MAX_ROTATIONS := 0x10_0000

  /** The entry of a new active file, which a crash may drop again until the
      directory is synced. */
  function Created(d: Disk): Disk {
    if d.active.Some? then d else Disk(Some(EMPTY_FILE), d.rotated, d.older + [Layout(None, d.rotated)])
  }

  /** All of the active file is on the device. */
  predicate SyncedActive(d: Disk) {
    d.active.Some? && d.active.value == Clean(d.active.value.data)
  }

  /** The active file renamed to idx. A rotated file is never synced again, so this
      may happen only once all of it is. */
  function Renamed(d: Disk, idx: int): Disk
    requires SyncedActive(d)
  {
    var data := d.active.value.data;
    Disk(None, d.rotated[idx := data], d.older + [Layout(Some(data), d.rotated)])
  }

  function NextIndex(d: Disk, f: RotationFaults): int {
    FirstFree(d.rotated.Keys + f.skipped)
  }

  /** rotateAuditLocked. */
  function Rotate(cfg: Config, d: Disk, f: RotationFaults): RotationOut
    requires d.active.Some?
  {
    if !cfg.rotationConfigured then RotationOut(d, OnActive, NotRotated, [])
    else
      var d1 := WithActive(d, SyncFile(d.active.value, f.syncOk));
      if !f.syncOk then RotationOut(d1, OnActive, NotRotated, [d1])
      else if !f.closeOk then RotationOut(d1, Closed, Uncertain, [d1])
      else
        var idx := NextIndex(d1, f);
        var reopened := if f.reopenOk then OnActive else Closed;
        if idx > MAX_ROTATIONS then RotationOut(d1, reopened, Uncertain, [d1])
        else
          var d2 := Renamed(d1, idx);
          var d3 := Created(d2);
          if !f.renameOk then
            if !f.renamedAnyway then RotationOut(d1, reopened, Uncertain, [d1])
            else if f.reopenOk then RotationOut(d3, OnActive, Uncertain, [d1, d2, d3])
            else RotationOut(d2, Closed, Uncertain, [d1, d2])
          else if !f.openOk then
            RotationOut(d2, if f.reopenOk then OnRotated(idx) else Closed, Uncertain, [d1, d2])
          else if !f.newSyncOk || !f.dirSyncOk then RotationOut(d3, OnActive, Uncertain, [d1, d2, d3])
          else
            var d4 := d3.(older := []);
            RotationOut(d4, OnActive, Rotated, [d1, d2, d3, d4])
  }

  datatype AppendOut = AppendOut(writer: Writer, result: Result, record: Trace, steps: seq<Disk>)

  /** What appendTraceWithDurability puts on a trace before it is hashed. */
  function Stamped(cfg: Config, lastHash: Hash, t: Trace): Trace {
    var t1 := if Unstamped(t) && cfg.provenance.Some? then
                t.(engineVersion := cfg.provenance.value.engineVersion,
                   policySetHash := cfg.provenance.value.policySetHash, schemaVersion := VERSION_2)
              else t;
    var t2 := t1.(canonicalVersion := VERSION_2, prev := lastHash);
    if TraceHash(t2).Some? then t2.(hash := TraceHash(t2).value) else t2
  }

  predicate Unstamped(t: Trace) {
    t.schemaVersion == "" && t.engineVersion == "" && t.policySetHash == ""
  }

  function Separator(w: Writer): bytes {
    if w.needsSeparator then [LF] else []
  }

  function ActiveSize(d: Disk): nat {
    if d.active.Some? then |d.active.value.data| else 0
  }

  predicate RotationDue(cfg: Config, w: Writer, recordBytes: nat) {
    cfg.rotateBytes > 0 && ActiveSize(w.disk) > 0 && ActiveSize(w.disk) + recordBytes >= cfg.rotateBytes
  }

  /** Whether this append must end in a durability barrier. */
  predicate MustSync(cfg: Config, seqAfter: nat, forceDurable: bool) {
    forceDurable || cfg.mode == Every || (cfg.mode == Interval && cfg.syncEvery > 0 && seqAfter % cfg.syncEvery == 0)
  }

  /** appendTraceWithDurability up to the write: provenance, poison check, hash,
      size limit, and rotation when it is due. */
  function Append(cfg: Config, w: Writer, t: Trace, forceDurable: bool, f: Faults): AppendOut
    requires !w.poisoned ==> w.disk.active.Some?
  {
    var record := Stamped(cfg, w.lastHash, t);
    if Unstamped(t) && cfg.provenance.None? then AppendOut(w, ProvenanceFailed, record, [])
    else if w.poisoned then AppendOut(w, PoisonedWriter, record, [])
    else if TraceHash(record).None? then AppendOut(w, HashFailed, record, [])
    else match cfg.codec.MarshalRecord(record)
      case None => AppendOut(w, MarshalFailed, record, [])
      case Some(raw) =>
        if !f.statOk then AppendOut(w, StatFailed, record, [])
        else if RotationDue(cfg, w, |raw| + 1 + |Separator(w)|) then
          var r := Rotate(cfg, w.disk, f.rotation);
          match r.status
          case Uncertain => AppendOut(w.(disk := r.disk, handle := r.handle, poisoned := true), PoisonedWriter, record, r.steps)
          case NotRotated => AppendOut(w.(disk := r.disk), RotationFailed, record, r.steps)
          case Rotated =>
            var w1 := w.(disk := r.disk);
            if !f.statAfterRotationOk then AppendOut(w1, StatFailed, record, r.steps)
            else
              var out := WriteRecord(cfg, w1, record, raw, forceDurable, f);
              out.(steps := r.steps + out.steps)
        else WriteRecord(cfg, w, record, raw, forceDurable, f)
  }

  /** The write itself, its barrier, and the exact rollback when either fails. */
  function WriteRecord(cfg: Config, w: Writer, record: Trace, raw: bytes, forceDurable: bool, f: Faults): (out: AppendOut)
    requires w.disk.active.Some?
    ensures out.record == record
  {
    var a := w.disk.active.value;
    var size := |a.data|;
    var chunk := Separator(w) + raw + [LF];
    var n := Clamp(f.written, 0, |chunk|);
    var d1 := WithActive(w.disk, Write(a, chunk[..n]));
    if f.writeErr || n != |chunk| then
      var rb := Rollback(d1, size, f.rollback);
      if !rb.ok then AppendOut(w.(disk := rb.disk, poisoned := true), Indeterminate(n == |chunk|), record, [d1] + rb.steps)
      else AppendOut(w.(disk := rb.disk), WriteRolledBack, record, [d1] + rb.steps)
    else Barrier(cfg, w, d1, record, forceDurable, f)
  }

  /** After a complete write from w's store to d1: the chain state moves on, and
      comes back if a barrier that is due fails. */
  function Barrier(cfg: Config, w: Writer, d1: Disk, record: Trace, forceDurable: bool, f: Faults): AppendOut
    requires w.disk.active.Some? && d1.active.Some?
  {
    var w1 := w.(disk := d1, appendSeq := w.appendSeq + 1, needsSeparator := false, lastHash := record.hash);
    if !MustSync(cfg, w1.appendSeq, forceDurable) then AppendOut(w1, Appended, record, [d1])
    else
      var d2 := WithActive(d1, SyncFile(d1.active.value, f.syncOk));
      if f.syncOk then AppendOut(w1.(disk := d2), Appended, record, [d1, d2])
      else
        var rb := Rollback(d2, |w.disk.active.value.data|, f.rollback);
        if !rb.ok then AppendOut(w1.(disk := rb.disk, poisoned := true), Indeterminate(true), record, [d1, d2] + rb.steps)
        else AppendOut(w.(disk := rb.disk), SyncRolledBack, record, [d1, d2] + rb.steps)
  }
}
