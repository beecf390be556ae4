/** The hook's audit log (cmd/tg/hook_audit.go): any number of processes append
    to one file under an advisory lock the kernel releases when a holder dies. */
module HookLog {
  import opened Bytes
  import opened Traces
  import opened ChainVerifier
  import opened ChainTheory
  import opened LogStream

  type Pid = nat

  /** Where a process is inside its critical section. */
  datatype Phase =
    | Holding(t: Trace)
    | Verified(t: Trace, prev: Hash, needsSeparator: bool)
    | Complete(record: Trace)

  /** A missing file is an empty one. `owner` is the lock; `acked` the records of
      appends that returned success, a history variable. */
  datatype Hook = Hook(file: bytes, owner: Option<(Pid, Phase)>, acked: seq<Trace>)

  datatype Move =
    | Acquire(p: Pid, t: Trace)
    | Verify(p: Pid)
    | Write(p: Pid, written: nat, err: bool)
    | Sync(p: Pid, ok: bool)
    | Die(p: Pid)

  predicate Holds(s: Hook, p: Pid) {
    s.owner.Some? && s.owner.value.0 == p
  }

  predicate CanMove(s: Hook, m: Move) {
    match m
    case Acquire(p, t) => s.owner.None?
    case Verify(p) => Holds(s, p) && s.owner.value.1.Holding?
    case Write(p, _, _) => Holds(s, p) && s.owner.value.1.Verified?
    case Sync(p, _) => Holds(s, p) && s.owner.value.1.Complete?
    case Die(p) => Holds(s, p)
  }

  function Linked(t: Trace, prev: Hash): Trace {
    var t1 := t.(canonicalVersion := VERSION_2, prev := prev);
    if TraceHash(t1).Some? then t1.(hash := TraceHash(t1).value) else t1
  }

  /** The bytes to be written, unless hashing or marshalling fails. */
  function Buffer(c: Codec, t: Trace, prev: Hash, needsSeparator: bool): Option<bytes> {
    var record := Linked(t, prev);
    if TraceHash(record).None? then None
    else match c.MarshalRecord(record)
      case None => None
      case Some(raw) => Some((if needsSeparator then [LF] else []) + raw + [LF])
  }

  /** One move. Returning, for whatever reason, releases the lock. */
  function Next(c: Codec, s: Hook, m: Move): Hook
    requires CanMove(s, m)
  {
    match m
    case Acquire(p, t) => s.(owner := Some((p, Holding(t))))
    case Verify(p) =>
      if Intact(c, s.file)
      then s.(owner := Some((p, Verified(s.owner.value.1.t, Genesis(c, s.file).prev, !Terminated(s.file)))))
      else s.(owner := None)
    case Write(p, written, err) =>
      var v := s.owner.value.1;
      (match Buffer(c, v.t, v.prev, v.needsSeparator)
       case None => s.(owner := None)
       case Some(buffer) =>
         var n := if written <= |buffer| then written else |buffer|;
         var file := s.file + buffer[..n];
         if err || n < |buffer| then s.(file := file, owner := None)
         else s.(file := file, owner := Some((p, Complete(Linked(v.t, v.prev))))))
    case Sync(p, ok) =>
      if ok then s.(owner := None, acked := s.acked + [s.owner.value.1.record]) else s.(owner := None)
    case Die(p) => s.(owner := None)
  }

  /** An accepted chain followed by a fragment of one record. */
  ghost predicate Torn(c: Codec, file: bytes, base: bytes) {
    exists m: bytes, t: Trace, k: nat :: TornAt(c, file, base, m, t, k)
  }

  ghost predicate TornAt(c: Codec, file: bytes, base: bytes, m: bytes, t: Trace, k: nat) {
    && Intact(c, base) && Terminated(base)
    && c.Encodes(m, t) && 0 < k < |m|
    && file == base + m[..k]
  }

  ghost predicate Inv(c: Codec, s: Hook) {
    if Intact(c, s.file) then
      match s.owner
      case Some((_, Verified(_, prev, sep))) =>
        && prev == TailOf(History(c, s.file)) && (sep || Terminated(s.file))
        && IsSubsequence(s.acked, History(c, s.file))
      case Some((_, Complete(record))) =>
        && History(c, s.file) != [] && record == History(c, s.file)[|History(c, s.file)| - 1]
        && IsSubsequence(s.acked, History(c, s.file)[..|History(c, s.file)| - 1])
      case _ => IsSubsequence(s.acked, History(c, s.file))
    else
      && (s.owner.Some? ==> s.owner.value.1.Holding?)
      && exists base :: Torn(c, s.file, base) && IsSubsequence(s.acked, History(c, base))
  }

  lemma LinkedFollows(t: Trace, h: seq<Trace>)
    requires TraceHash(Linked(t, TailOf(h))).Some?
    ensures Follows(h, Linked(t, TailOf(h)))
  {
  }

  lemma BufferShape(c: Codec, t: Trace, h: seq<Trace>, sep: bool) returns (raw: bytes)
    requires c.Lawful() && Buffer(c, t, TailOf(h), sep).Some?
    ensures c.Encodes(raw, Linked(t, TailOf(h))) && |raw| <= MAX_RECORD_BYTES && Follows(h, Linked(t, TailOf(h)))
    ensures Buffer(c, t, TailOf(h), sep).value == (if sep then [LF] else []) + raw + [LF]
  {
    LinkedFollows(t, h);
    hide Linked, TraceHash, Follows;
    raw := c.marshal(Linked(t, TailOf(h))).value;
  }

  lemma TornIntro(c: Codec, file: bytes, base: bytes, m: bytes, t: Trace, k: nat)
    requires TornAt(c, file, base, m, t, k)
    ensures Torn(c, file, base)
  {
  }

  /** A write of the first n bytes: nothing yet, one record more, or a torn one. */
  lemma WrittenPart(c: Codec, s: bytes, t: Trace, sep: bool, n: nat)
    requires c.Lawful() && Intact(c, s) && (sep || Terminated(s))
    requires Buffer(c, t, TailOf(History(c, s)), sep).Some? && n <= |Buffer(c, t, TailOf(History(c, s)), sep).value|
    ensures var buffer := Buffer(c, t, TailOf(History(c, s)), sep).value;
            var file := s + buffer[..n];
            var h, record := History(c, s), Linked(t, TailOf(History(c, s)));
            || (n < |buffer| && Intact(c, file) && History(c, file) == h)
            || (Intact(c, file) && History(c, file) == h + [record])
            || (n < |buffer| && !Intact(c, file) && exists base :: Torn(c, file, base) && History(c, base) == h)
  {
    var h := History(c, s);
    var record := Linked(t, TailOf(h));
    hide Genesis, Linked, TraceHash, Lines, Follows, Codec.Lawful, Buffer, Torn;
    var lead := if sep then [LF] else [];
    var raw := BufferShape(c, t, h, sep);
    var buffer := lead + raw + [LF];
    AppendRecord(c, s, lead, raw, record);
    var base := s + lead;
    var file := s + buffer[..n];
    SameHistory(c, s, base);
    if n <= |lead| {
      assert file == s || file == base;
    } else if n < |lead| + |raw| {
      assert file == base + raw[..n - |lead|];
      TornRecordIsRejected(c, base, raw, record, n - |lead|);
      TornIntro(c, file, base, raw, record, n - |lead|);
    } else {
      assert file == base + raw || file == base + raw + [LF];
      ScanHistory(c, file, h + [record]);
    }
  }

  lemma SameHistory(c: Codec, a: bytes, b: bytes)
    requires Genesis(c, a) == Genesis(c, b)
    ensures Intact(c, a) <==> Intact(c, b)
    ensures History(c, a) == History(c, b)
  {
  }

  lemma ScanHistory(c: Codec, s: bytes, h: seq<Trace>)
    requires Genesis(c, s) == ScanOf(h)
    ensures Intact(c, s) && History(c, s) == h
  {
  }

  lemma VerifiedIs(c: Codec, s: Hook)
    requires Inv(c, s) && s.owner.Some? && s.owner.value.1.Verified?
    ensures var v := s.owner.value.1;
            && Intact(c, s.file) && v.prev == TailOf(History(c, s.file)) && (v.needsSeparator || Terminated(s.file))
            && IsSubsequence(s.acked, History(c, s.file))
  {
    hide Intact, History, Torn, IsSubsequence;
  }

  /** After a write of n bytes the lock is kept exactly when all went well. */
  lemma WriteNext(c: Codec, s: Hook, p: Pid, written: nat, err: bool)
    requires CanMove(s, Write(p, written, err))
    ensures var v, s' := s.owner.value.1, Next(c, s, Write(p, written, err));
            var buffer := Buffer(c, v.t, v.prev, v.needsSeparator);
            if buffer.None? then s' == s.(owner := None)
            else
              var n := if written <= |buffer.value| then written else |buffer.value|;
              && s'.file == s.file + buffer.value[..n] && s'.acked == s.acked
              && (s'.owner.None? || (n == |buffer.value| && s'.owner == Some((p, Complete(Linked(v.t, v.prev))))))
  {
    hide Buffer, Linked;
  }

  /** The three kinds of state a write can leave. */
  lemma WriteLeavesInv(c: Codec, s: Hook, h: seq<Trace>, record: Trace)
    requires IsSubsequence(s.acked, h) && (s.owner.Some? ==> s.owner.value.1 == Complete(record))
    requires || (s.owner.None? && Intact(c, s.file) && History(c, s.file) == h)
             || (Intact(c, s.file) && History(c, s.file) == h + [record])
             || (s.owner.None? && !Intact(c, s.file) && exists base :: Torn(c, s.file, base) && History(c, base) == h)
    ensures Inv(c, s)
  {
    hide Intact, History, Torn, IsSubsequence;
    var longer := h + [record];
    SubsequenceGrows(s.acked, h, longer);
    assert longer[..|longer| - 1] == h;
  }

  lemma WriteKeepsInv(c: Codec, s: Hook, p: Pid, written: nat, err: bool)
    requires c.Lawful() && Inv(c, s) && CanMove(s, Write(p, written, err))
    ensures Inv(c, Next(c, s, Write(p, written, err)))
  {
    VerifiedIs(c, s);
    WriteNext(c, s, p, written, err);
    hide Inv, Genesis, Buffer, Linked, Codec.Lawful, Torn, Intact, History, IsSubsequence, Terminated, Next;
    var v, h := s.owner.value.1, History(c, s.file);
    var buffer := Buffer(c, v.t, v.prev, v.needsSeparator);
    if buffer.Some? {
      WrittenPart(c, s.file, v.t, v.needsSeparator, if written <= |buffer.value| then written else |buffer.value|);
    }
    WriteLeavesInv(c, Next(c, s, Write(p, written, err)), h, Linked(v.t, v.prev));
  }

  /** Every interleaving of lock acquisitions, short writes, sync failures and
      deaths keeps the file an intact chain, or one followed by one torn record. */
  lemma MoveKeepsInv(c: Codec, s: Hook, m: Move)
    requires c.Lawful() && Inv(c, s) && CanMove(s, m)
    ensures Inv(c, Next(c, s, m))
  {
    match m
    case Acquire(p, t) =>
    case Verify(p) =>
      if Intact(c, s.file) {
        IntactScan(c, s.file);
      }
    case Write(p, written, err) => WriteKeepsInv(c, s, p, written, err);
    case Sync(p, ok) => CompleteIsAcked(c, s);
    case Die(p) => CompleteIsAcked(c, s);
  }

  lemma CompleteIsAcked(c: Codec, s: Hook)
    requires Inv(c, s)
    ensures Intact(c, s.file) && s.owner.Some? && s.owner.value.1.Complete? ==>
            && IsSubsequence(s.acked, History(c, s.file))
            && IsSubsequence(s.acked + [s.owner.value.1.record], History(c, s.file))
  {
    hide Genesis;
    if Intact(c, s.file) && s.owner.Some? && s.owner.value.1.Complete? {
      var h := History(c, s.file);
      var n := |h| - 1;
      assert h == h[..n] + [h[n]];
      SubsequenceSnoc(s.acked, h[..n], h[n]);
      SubsequenceGrows(s.acked, h[..n], h);
    }
  }

  /** Once a record is torn, no process ever writes to the file again. */
  lemma TornFileIsFrozen(c: Codec, s: Hook, m: Move)
    requires c.Lawful() && Inv(c, s) && CanMove(s, m) && !Intact(c, s.file)
    ensures Next(c, s, m).file == s.file && Next(c, s, m).acked == s.acked
  {
  }

  /** On any file whatever; the records of an accepted one count as acknowledged. */
  ghost predicate IsRun(c: Codec, states: seq<Hook>, moves: seq<Move>) {
    && |states| == |moves| + 1 && Starts(c, states[0])
    && forall i :: 0 <= i < |moves| ==> CanMove(states[i], moves[i]) && states[i + 1] == Next(c, states[i], moves[i])
  }

  predicate Starts(c: Codec, s: Hook) {
    s.owner == None && s.acked == if Intact(c, s.file) then History(c, s.file) else []
  }

  lemma {:induction false} SubsequenceOfItself<T>(a: seq<T>)
    ensures IsSubsequence(a, a)
    decreases |a|
  {
    if a != [] {
      SubsequenceOfItself(a[..|a| - 1]);
    }
  }

  lemma {:induction false} RunKeepsInv(c: Codec, states: seq<Hook>, moves: seq<Move>, i: nat)
    requires c.Lawful() && IsRun(c, states, moves) && Intact(c, states[0].file) && i < |states|
    ensures Inv(c, states[i])
  {
    hide Genesis, Codec.Lawful, Next, Inv;
    if i == 0 {
      StartsSafe(c, states[0]);
    } else {
      RunKeepsInv(c, states, moves, i - 1);
      MoveKeepsInv(c, states[i - 1], moves[i - 1]);
    }
  }

  lemma StartsSafe(c: Codec, s: Hook)
    requires Starts(c, s) && Intact(c, s.file)
    ensures Inv(c, s)
  {
    hide Genesis;
    SubsequenceOfItself(s.acked);
  }

  /** A file that does not verify when the first process comes is left as it is. */
  lemma {:induction false} RefusedFileIsFrozen(c: Codec, states: seq<Hook>, moves: seq<Move>, i: nat)
    requires IsRun(c, states, moves) && !Intact(c, states[0].file) && i < |states|
    ensures states[i].file == states[0].file && states[i].acked == []
    ensures states[i].owner.Some? ==> states[i].owner.value.1.Holding?
  {
    hide Genesis, Buffer, Linked, Intact;
    if i > 0 {
      RefusedFileIsFrozen(c, states, moves, i - 1);
    }
  }

  /** Over every run on an accepted file: it verifies and holds what it held, and
      every acknowledged record, in order, or it is frozen as such a chain followed
      by one torn record. */
  lemma EveryHookRunIsSafe(c: Codec, states: seq<Hook>, moves: seq<Move>, i: nat, j: nat)
    requires c.Lawful() && IsRun(c, states, moves) && Intact(c, states[0].file) && i <= j < |states|
    ensures Intact(c, states[i].file) ==> IsSubsequence(states[i].acked, History(c, states[i].file))
    ensures !Intact(c, states[i].file) ==>
            && (exists base :: Torn(c, states[i].file, base) && IsSubsequence(states[i].acked, History(c, base)))
            && states[j].file == states[i].file && states[j].acked == states[i].acked
    decreases j
  {
    hide Genesis, Codec.Lawful, Torn, History, Intact, Next;
    RunKeepsInv(c, states, moves, i);
    CompleteIsAcked(c, states[i]);
    if i < j {
      EveryHookRunIsSafe(c, states, moves, i, j - 1);
      if !Intact(c, states[i].file) {
        RunKeepsInv(c, states, moves, j - 1);
        TornFileIsFrozen(c, states[j - 1], moves[j - 1]);
      }
    }
  }

  /** The four moves of one pass of p. */
  function Pass(c: Codec, s: Hook, p: Pid, t: Trace, written: nat): Option<Hook>
    requires s.owner.None?
  {
    var s2 := Next(c, Next(c, s, Acquire(p, t)), Verify(p));
    if !CanMove(s2, Write(p, written, false)) then None
    else
      var s3 := Next(c, s2, Write(p, written, false));
      if CanMove(s3, Sync(p, true)) then Some(Next(c, s3, Sync(p, true))) else None
  }

  lemma PassIs(c: Codec, s: Hook, p: Pid, t: Trace, written: nat, buffer: bytes)
    requires s.owner.None? && Intact(c, s.file)
    requires Buffer(c, t, Genesis(c, s.file).prev, !Terminated(s.file)) == Some(buffer) && written >= |buffer|
    ensures Pass(c, s, p, t, written) == Some(Hook(s.file + buffer, None, s.acked + [Linked(t, Genesis(c, s.file).prev)]))
  {
    hide Genesis, Linked, Buffer, Intact, Terminated;
    assert buffer[..|buffer|] == buffer;
  }

  /** The record is about the call that t is about, with its outcome and provenance. */
  predicate Says(record: Trace, t: Trace) {
    && record.core == t.core && record.applied == t.applied && record.unhashed == t.unhashed
    && record.engineVersion == t.engineVersion && record.policySetHash == t.policySetHash && record.schemaVersion == t.schemaVersion
    && record.canonicalVersion == "v2"
  }

  lemma LinkedSays(t: Trace, prev: Hash)
    ensures var r := Linked(t, prev);
            && r.core == t.core && r.applied == t.applied && r.unhashed == t.unhashed
            && r.engineVersion == t.engineVersion && r.policySetHash == t.policySetHash && r.schemaVersion == t.schemaVersion
            && r.canonicalVersion == "v2" && r.prev == prev && (TraceHash(r).Some? ==> TraceHash(r) == Some(r.hash))
  {
  }

  /** The whole buffer adds one record, which says what t says. */
  lemma WrittenWhole(c: Codec, file: bytes, t: Trace, buffer: bytes)
    requires c.Lawful() && Intact(c, file) && Buffer(c, t, Genesis(c, file).prev, !Terminated(file)) == Some(buffer)
    ensures var h, h' := History(c, file), History(c, file + buffer);
            && Intact(c, file + buffer) && |h'| == |h| + 1 && h'[..|h|] == h
            && var record := h'[|h|];
               && record == Linked(t, Genesis(c, file).prev) && Says(record, t)
               && record.prev == (if h == [] then NoHash else h[|h| - 1].hash) && TraceHash(record) == Some(record.hash)
  {
    IntactScan(c, file);
    HashedBuffer(c, t, Genesis(c, file).prev, !Terminated(file));
    LinkedSays(t, Genesis(c, file).prev);
    hide Genesis, Intact, History, Linked, Codec.Lawful, Torn, Buffer, Terminated, TraceHash;
    WrittenPart(c, file, t, !Terminated(file), |buffer|);
    assert buffer[..|buffer|] == buffer;
  }

  lemma HashedBuffer(c: Codec, t: Trace, prev: Hash, sep: bool)
    requires Buffer(c, t, prev, sep).Some?
    ensures TraceHash(Linked(t, prev)).Some?
  {
  }

  /** A successful pass through the critical section, with no one else able to
      touch the file meanwhile, extends the chain by exactly its record. */
  lemma WholeAppend(c: Codec, s: Hook, p: Pid, t: Trace, written: nat)
    requires c.Lawful() && s.owner.None? && Intact(c, s.file)
    requires var b := Buffer(c, t, Genesis(c, s.file).prev, !Terminated(s.file)); b.Some? && written >= |b.value|
    ensures var done, h := Pass(c, s, p, t, written), History(c, s.file);
            && done.Some? && done.value.owner.None? && Intact(c, done.value.file)
            && |History(c, done.value.file)| == |h| + 1 && History(c, done.value.file)[..|h|] == h
            && var record := History(c, done.value.file)[|h|];
               && done.value.acked == s.acked + [record]
               && record.core == t.core && record.applied == t.applied && record.unhashed == t.unhashed
               && record.engineVersion == t.engineVersion && record.policySetHash == t.policySetHash
               && record.schemaVersion == t.schemaVersion && record.canonicalVersion == "v2"
               && record.prev == (if h == [] then NoHash else h[|h| - 1].hash) && TraceHash(record) == Some(record.hash)
  {
    var b := Buffer(c, t, Genesis(c, s.file).prev, !Terminated(s.file)).value;
    PassIs(c, s, p, t, written, b);
    hide Pass, Next, CanMove, Linked, Codec.Lawful, Torn, Buffer, Terminated, Genesis, Intact, History, TraceHash;
    WrittenWhole(c, s.file, t, b);
  }

  /** The file holds one record more, which says what t says and links to the rest. */
  ghost predicate Adds(c: Codec, file: bytes, after: bytes, t: Trace) {
    var h, h' := History(c, file), History(c, after);
    && Intact(c, after) && |h'| == |h| + 1 && h'[..|h|] == h
    && var record := h'[|h|];
       && record.core == t.core && record.applied == t.applied && record.unhashed == t.unhashed
       && record.engineVersion == t.engineVersion && record.policySetHash == t.policySetHash
       && record.schemaVersion == t.schemaVersion && record.canonicalVersion == "v2"
       && record.prev == (if h == [] then NoHash else h[|h| - 1].hash) && TraceHash(record) == Some(record.hash)
  }

  lemma BufferAdds(c: Codec, file: bytes, t: Trace, buffer: bytes)
    requires c.Lawful() && Intact(c, file) && Buffer(c, t, Genesis(c, file).prev, !Terminated(file)) == Some(buffer)
    ensures Adds(c, file, file + buffer, t)
  {
    hide Genesis, Intact, History, Linked, Codec.Lawful, Buffer, Terminated, TraceHash;
    WrittenWhole(c, file, t, buffer);
  }

  class HookFile {
    const c: Codec
    var contents: bytes

    constructor (c: Codec, contents: bytes)
      ensures this.c == c && this.contents == contents
    {
      this.c, this.contents := c, contents;
    }

    /** appendHookAudit after the lock was taken: verify, link, write, sync. The
        file afterwards is the one the moves of the same process lead to. */
    method AppendHookAudit(t: Trace, written: nat, writeErr: bool, syncOk: bool) returns (ok: bool)
      modifies this
      ensures ok ==> Intact(c, old(contents)) && syncOk
      ensures !Intact(c, old(contents)) ==> contents == old(contents)
      ensures Intact(c, old(contents)) ==>
              var b := Buffer(c, t, Genesis(c, old(contents)).prev, !Terminated(old(contents)));
              if b.None? then !ok && contents == old(contents)
              else
                var n := if written <= |b.value| then written else |b.value|;
                contents == old(contents) + b.value[..n] && ok == (n == |b.value| && !writeErr && syncOk)
      ensures c.Lawful() && ok ==> Adds(c, old(contents), contents, t)
    {
      hide Adds, Codec.Lawful;
      var report := VerifyChain(c, contents, false, None);
      AcceptedIffChain(c, contents);
      if report.pruned || !report.intact {
        return false;
      }
      var needsSeparator := contents != [] && contents[|contents| - 1] != LF;
      var record := Linked(t, report.tail);
      if TraceHash(record).None? {
        return false;
      }
      var raw := c.MarshalRecord(record);
      if raw.None? {
        return false;
      }
      var buffer := (if needsSeparator then [LF] else []) + raw.value + [LF];
      var n := if written <= |buffer| then written else |buffer|;
      if c.Lawful() {
        BufferAdds(c, contents, t, buffer);
      }
      contents := contents + buffer[..n];
      if writeErr || n != |buffer| {
        return false;
      }
      assert buffer[..n] == buffer;
      return syncOk;
    }
  }
}
