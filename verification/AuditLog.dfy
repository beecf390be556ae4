/** The audit writer as the proxy object runs it: fields updated step by step,
    each system call recorded, proved to follow the transition functions. */
module AuditLog {
  import opened Bytes
  import opened Traces
  import opened ChainVerifier
  import opened ChainTheory
  import opened LogStream
  import opened AuditDisk
  import opened AuditWriter
  import opened AuditSafety
  import opened AuditRecord
  import opened AuditRecovery

  lemma AppendedSays(cfg: Config, w: Writer, t: Trace, forceDurable: bool, f: Faults)
    requires !w.poisoned ==> w.disk.active.Some?
    ensures var out := Append(cfg, w, t, forceDurable, f);
            var r := out.record;
            && r == Stamped(cfg, w.lastHash, t) && r.core == t.core && r.applied == t.applied && r.unhashed == t.unhashed
            && r.prev == w.lastHash && r.canonicalVersion == "v2"
            && (out.result.Appended? ==> TraceHash(r) == Some(r.hash) && out.writer.lastHash == r.hash)
  {
    RecordSays(cfg, w, t, forceDurable, f);
    RecordIsStamped(cfg, w, t, forceDurable, f);
    AnswersBefore(cfg, w, t, forceDurable, f);
    if Reaches(cfg, w, t) && f.statOk {
      AnswersAfter(cfg, w, t, forceDurable, f);
    }
    hide Append, Stamped, TraceHash, WriteAnswer, RotationWorks, Longer;
  }

  class Proxy {
    const cfg: Config
    var disk: Disk
    var handle: Handle
    var lastHash: Hash
    var auditPoisoned: bool
    var auditNeedsSeparator: bool
    var auditAppendSeq: nat
    ghost var steps: seq<Disk>

    function State(): Writer
      reads this
    {
      Writer(disk, handle, lastHash, auditPoisoned, auditNeedsSeparator, auditAppendSeq)
    }

    constructor (cfg: Config, disk: Disk)
      ensures this.cfg == cfg && this.disk == disk && !auditPoisoned && steps == []
    {
      this.cfg, this.disk := cfg, disk;
      handle, lastHash := Closed, NoHash;
      auditPoisoned, auditNeedsSeparator, auditAppendSeq := false, false, 0;
      steps := [];
    }

    /** One system call took the store to d. */
    method Reach(d: Disk)
      modifies this`disk, this`steps
      ensures disk == d && steps == old(steps) + [d]
    {
      disk := d;
      steps := steps + [d];
    }

    method RollbackAuditWrite(size: nat, f: RollbackFaults) returns (ok: bool)
      requires disk.active.Some?
      modifies this`disk, this`steps
      ensures var rb := Rollback(old(disk), size, f);
              disk == rb.disk && ok == rb.ok && steps == old(steps) + rb.steps
    {
      Reach(WithActive(disk, Truncate(disk.active.value, size, f.newLen)));
      if !f.truncateOk {
        return false;
      }
      Reach(WithActive(disk, SyncFile(disk.active.value, f.syncOk)));
      if !f.syncOk {
        return false;
      }
      if !f.statOk {
        return false;
      }
      return |disk.active.value.data| == size;
    }

    method RotateAudit(f: RotationFaults) returns (status: RotationStatus)
      requires disk.active.Some? && handle == OnActive
      modifies this`disk, this`handle, this`steps
      ensures var r := Rotate(cfg, old(disk), f);
              disk == r.disk && handle == r.handle && status == r.status && steps == old(steps) + r.steps
      ensures status != Uncertain ==> handle == OnActive && disk.active.Some?
    {
      if !cfg.rotationConfigured {
        return NotRotated;
      }
      Reach(WithActive(disk, SyncFile(disk.active.value, f.syncOk)));
      if !f.syncOk {
        return NotRotated;
      }
      handle := Closed;
      if !f.closeOk {
        return Uncertain;
      }
      var idx := 1;
      while idx <= MAX_ROTATIONS && (idx in disk.rotated || idx in f.skipped)
        invariant 1 <= idx <= MAX_ROTATIONS + 1
        invariant NextIndex(disk, f) == FirstFreeFrom(disk.rotated.Keys + f.skipped, idx)
        decreases MAX_ROTATIONS + 1 - idx
      {
        idx := idx + 1;
      }
      if idx > MAX_ROTATIONS {
        if f.reopenOk {
          handle := OnActive;
        }
        return Uncertain;
      }
      if f.renameOk || f.renamedAnyway {
        Reach(Renamed(disk, idx));
      }
      if !f.renameOk {
        if f.reopenOk {
          handle := OnActive;
          if disk.active.None? {
            Reach(Created(disk));
          }
        }
        return Uncertain;
      }
      if !f.openOk {
        if f.reopenOk {
          handle := OnRotated(idx);
        }
        return Uncertain;
      }
      Reach(Created(disk));
      handle := OnActive;
      if !f.newSyncOk {
        return Uncertain;
      }
      if !f.dirSyncOk {
        return Uncertain;
      }
      Reach(disk.(older := []));
      return Rotated;
    }

    method AppendTrace(t: Trace, forceDurable: bool, f: Faults) returns (result: Result, record: Trace)
      requires !auditPoisoned ==> disk.active.Some? && handle == OnActive
      modifies this
      ensures var out := Append(cfg, old(State()), t, forceDurable, f);
              State() == out.writer && result == out.result && record == out.record && steps == out.steps
      ensures record.core == t.core && record.applied == t.applied && record.unhashed == t.unhashed
      ensures record.prev == old(lastHash) && record.canonicalVersion == "v2"
      ensures result.Appended? ==> lastHash == record.hash && TraceHash(record) == Some(record.hash)
    {
      hide WriteRecord, Rotate, Stamped, TraceHash;
      AppendedSays(cfg, State(), t, forceDurable, f);
      steps := [];
      record := Stamped(cfg, lastHash, t);
      if Unstamped(t) && cfg.provenance.None? {
        return ProvenanceFailed, record;
      }
      if auditPoisoned {
        return PoisonedWriter, record;
      }
      if TraceHash(record).None? {
        return HashFailed, record;
      }
      var marshalled := cfg.codec.MarshalRecord(record);
      if marshalled.None? {
        return MarshalFailed, record;
      }
      var raw := marshalled.value;
      if !f.statOk {
        return StatFailed, record;
      }
      if RotationDue(cfg, State(), |raw| + 1 + |Separator(State())|) {
        var status := RotateAudit(f.rotation);
        assert steps == Rotate(cfg, old(disk), f.rotation).steps;
        if status == Uncertain {
          auditPoisoned := true;
          return PoisonedWriter, record;
        }
        if status == NotRotated {
          return RotationFailed, record;
        }
        if !f.statAfterRotationOk {
          return StatFailed, record;
        }
      }
      ghost var more := WriteRecord(cfg, State(), record, raw, forceDurable, f).steps;
      result := Commit(record, raw, forceDurable, f);
      assert [] + more == more;
    }

    method Commit(record: Trace, raw: bytes, forceDurable: bool, f: Faults) returns (result: Result)
      requires disk.active.Some? && !auditPoisoned
      modifies this
      ensures var out := WriteRecord(cfg, old(State()), record, raw, forceDurable, f);
              State() == out.writer && result == out.result && steps == old(steps) + out.steps
    {
      hide Rollback, SyncFile, Clamp, Barrier;
      var size := |disk.active.value.data|;
      var chunk := if auditNeedsSeparator then [LF] + raw + [LF] else [] + raw + [LF];
      var n := Clamp(f.written, 0, |chunk|);
      ghost var before := State();
      Reach(WithActive(disk, Write(disk.active.value, chunk[..n])));
      if f.writeErr || n != |chunk| {
        var ok := RollbackAuditWrite(size, f.rollback);
        if !ok {
          auditPoisoned := true;
          return Indeterminate(n == |chunk|);
        }
        return WriteRolledBack;
      }
      result := SyncOrRestore(before, size, record, forceDurable, f);
    }

    /** Advances the chain state, then syncs when this append must; on a failed
        barrier everything is put back. */
    method SyncOrRestore(ghost before: Writer, size: nat, record: Trace, forceDurable: bool, f: Faults) returns (result: Result)
      requires disk.active.Some? && !auditPoisoned
      requires before.disk.active.Some? && size == |before.disk.active.value.data| && State() == before.(disk := disk)
      requires steps != [] && steps[|steps| - 1] == disk
      modifies this
      ensures var out := Barrier(cfg, before, old(disk), record, forceDurable, f);
              State() == out.writer && result == out.result && steps == old(steps[..|steps| - 1]) + out.steps
    {
      hide Rollback, SyncFile;
      var previousHash, previousSeq, previousSeparator := lastHash, auditAppendSeq, auditNeedsSeparator;
      assert steps == steps[..|steps| - 1] + [disk];
      auditAppendSeq := auditAppendSeq + 1;
      auditNeedsSeparator := false;
      lastHash := record.hash;
      if !MustSync(cfg, auditAppendSeq, forceDurable) {
        return Appended;
      }
      Reach(WithActive(disk, SyncFile(disk.active.value, f.syncOk)));
      if f.syncOk {
        return Appended;
      }
      var ok := RollbackAuditWrite(size, f.rollback);
      if !ok {
        auditPoisoned := true;
        return Indeterminate(true);
      }
      lastHash, auditAppendSeq, auditNeedsSeparator := previousHash, previousSeq, previousSeparator;
      return SyncRolledBack;
    }

    /** The scan of one file in recoverAuditTail. */
    method RecoverOne(data: bytes) returns (r: Recovered)
      ensures r == RecoverFile(cfg.codec, data)
    {
      hide FirstLF, Lines, Codec.Lawful;
      LinesOfNothing();
      var rest, last := data, None;
      ghost var all, line := Lines(data), 0;
      assert all[..0] == [];
      while rest != []
        invariant line <= |all| && Lines(rest) == all[line..]
        invariant ScanFile(cfg.codec, all[..line]) == Some(last)
        decreases |rest|
      {
        var i := FirstLF(rest);
        var l := DropCR(rest[..i]);
        NextLine(rest, all, line);
        assert all[..line + 1][..line] == all[..line];
        assert all[..line + 1][line] == l;
        rest := if i < |rest| then rest[i + 1..] else [];
        line := line + 1;
        if |l| > MAX_RECORD_BYTES {
          UnreadablePrefix(cfg.codec, all, line);
          return Unreadable;
        }
        if l != [] {
          var t := cfg.codec.unmarshal(l);
          if t.None? {
            UnreadablePrefix(cfg.codec, all, line);
            return Unreadable;
          }
          last := t;
        }
      }
      assert all[..line] == all;
      return if last.None? then NoRecords else LastRecord(last.value, NeedsRecordSeparator(data));
    }

    /** recoverAuditTail: files newest first. */
    method RecoverAuditTail() returns (r: Recovered)
      ensures r == RecoverTail(cfg.codec, disk)
    {
      r := NoRecords;
      if disk.active.Some? {
        r := RecoverOne(disk.active.value.data);
        if !r.NoRecords? {
          return;
        }
      }
      var order := SortSiblings(disk.rotated.Keys);
      var left := disk.rotated;
      assert order[..|order|] == order;
      var n := |order|;
      while n > 0
        invariant 0 <= n <= |order| && r.NoRecords?
        invariant forall x :: x in order[..n] <==> x in left
        invariant left.Keys <= disk.rotated.Keys && forall k :: k in left ==> left[k] == disk.rotated[k]
        invariant RecoverTail(cfg.codec, disk) == RecoverRotated(cfg.codec, left)
      {
        var m := order[n - 1];
        assert order[..n] == order[..n - 1] + [m];
        LastIsMax(left, order[..n - 1], m);
        r := RecoverOne(left[m]);
        if !r.NoRecords? {
          return;
        }
        left := left - {m};
        n := n - 1;
      }
      assert left.Keys == {} by {
        assert forall x :: x !in left.Keys;
      }
    }

    /** openAuditLog. Refused, it leaves no tail behind, and the handle and the
        append count as they were. */
    method OpenAuditLog() returns (ok: bool)
      modifies this
      ensures auditPoisoned == old(auditPoisoned) && auditAppendSeq == old(auditAppendSeq)
      ensures match Open(cfg.codec, old(disk))
              case Refused =>
                && !ok && disk == old(disk) && handle == old(handle)
                && lastHash == NoHash && !auditNeedsSeparator
              case Opened(w) =>
                ok && State() == w.(poisoned := old(auditPoisoned), appendSeq := old(auditAppendSeq))
    {
      lastHash, auditNeedsSeparator := NoHash, false;
      var r := RecoverAuditTail();
      if r.Unreadable? {
        return false;
      }
      if r.LastRecord? {
        var want := TraceHash(r.t);
        if want.None? || r.t.hash != want.value {
          return false;
        }
        var intact := VerifyFullAuditChain();
        RecordIsInFile(cfg.codec, disk);
        if !intact {
          return false;
        }
        lastHash, auditNeedsSeparator := r.t.hash, r.needsSeparator;
      }
      disk := Created(disk);
      handle := OnActive;
      return true;
    }

    /** verifyFullAuditChain: an empty set is an error of its own. */
    method VerifyFullAuditChain() returns (intact: bool)
      ensures intact <==> Intact(cfg.codec, Stream(disk)) && (disk.rotated.Keys != {} || disk.active.Some?)
    {
      var stream := ReadRotationSet();
      if stream.None? {
        return false;
      }
      var report := VerifyChain(cfg.codec, stream.value, false, None);
      AcceptedIffChain(cfg.codec, stream.value);
      return !report.pruned && report.intact;
    }

    /** The MultiReader over RotationSetOldestFirst. */
    method ReadRotationSet() returns (stream: Option<bytes>)
      ensures stream == if disk.rotated.Keys == {} && disk.active.None? then None else Some(Stream(disk))
    {
      var paths := RotationSetOldestFirst(disk.rotated.Keys, disk.active.Some?);
      if paths.None? {
        return None;
      }
      var read: bytes, n := [], 0;
      while n < |paths.value|
        invariant n <= |paths.value| && read == ConcatPaths(disk, paths.value[..n])
      {
        assert paths.value[..n + 1][..n] == paths.value[..n];
        read := read + FileData(disk, paths.value[n]);
        n := n + 1;
      }
      assert paths.value[..n] == paths.value;
      OrderReadsStream(disk, paths.value);
      return Some(read);
    }
  }

  lemma RecordIsInFile(c: Codec, d: Disk)
    requires RecoverTail(c, d).LastRecord?
    ensures d.rotated.Keys != {} || d.active.Some?
  {
  }

  lemma {:induction false} UnreadablePrefix(c: Codec, all: seq<bytes>, line: nat)
    requires line <= |all| && ScanFile(c, all[..line]).None?
    ensures ScanFile(c, all).None?
    decreases |all|
  {
    if line == |all| {
      assert all[..line] == all;
    } else {
      assert all[..|all| - 1][..line] == all[..line];
      UnreadablePrefix(c, all[..|all| - 1], line);
    }
  }
}
