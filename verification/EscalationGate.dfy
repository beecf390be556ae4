/** Requests, approvers and the reaper, interleaved over one escalation store and
    one audit log, with every fault and crash of the log. */
module EscalationGate {
  import opened Bytes
  import opened Traces
  import opened AuditDisk
  import opened AuditWriter
  import Audit = AuditSystem
  import opened ChainTheory
  import opened LogStream
  import opened AuditSafety
  import opened AuditRecovery
  import opened EscalationStore

  /** Where a request is between reserve and the end of evaluate. */
  datatype Phase = Reserved | Recorded | Failed

  datatype Request = Request(id: string, phase: Phase)

  /** Why a record of the chain was appended; k identifies the reservation, so an
      id used again later is not confused with it. */
  datatype Event = Opening(k: nat) | Closing(k: nat, to: State) | Unrelated

  /** `trail` are the records of the chain, as long as the process lives, and
      `events` says of each why it is there; both are history variables. */
  datatype Gate = Gate(log: Audit.System, store: Store<nat>, requests: map<nat, Request>, next: nat,
                       events: seq<Event>, trail: seq<Trace>)

  datatype Step =
    | Reserve(env: Envelope, timeoutMinutes: int, now: int, victim: Option<string>)
    | Record(k: nat, t: Trace, f: Faults)
    | FailEarly(k: nat)
    | Publish(k: nat)
    | Discard(k: nat)
    | Resolve(id: string, approver: string, reason: string, approved: bool, now: int, traceID: string, at: int, f: Faults)
    | Reap(id: string, now: int, traceID: string, at: int, f: Faults)
    | AppendOther(t: Trace, force: bool, f: Faults)
    | LogStep(a: Audit.LogAction)

  datatype Env = Env(cfg: Config, describe: Describe)

  predicate Alive(log: Audit.System) {
    Audit.Up(log) || Audit.Poisoned(log)
  }

  /** The process is up, or poisoned, and can append with these faults. */
  predicate Running(s: Gate, f: Faults) {
    Alive(s.log) && (Audit.Up(s.log) ==> StatAnswers(s.log.proc.value.disk, f.rotation))
  }

  /** An append by whichever caller holds the log's mutex. */
  ghost function LogAppend(cfg: Config, log: Audit.System, t: Trace, force: bool, f: Faults): (Audit.System, AppendOut)
    requires Audit.Enabled(cfg, log, Audit.DoAppend(t, force, f))
  {
    (Audit.Next(cfg, log, Audit.DoAppend(t, force, f)), Audit.AppendBy(cfg, log, t, force, f))
  }

  ghost predicate Enabled(env: Env, s: Gate, a: Step) {
    match a
    case Reserve(_, _, _, victim) => Alive(s.log) && Evicts(s.store, victim)
    case Record(k, t, f) =>
      && Running(s, f) && k in s.requests && s.requests[k].phase == Reserved
      && t.core.envelopeID == s.requests[k].id && t.core.action == Escalated
    case FailEarly(k) => Alive(s.log) && k in s.requests && s.requests[k].phase == Reserved
    case Publish(k) => Alive(s.log) && k in s.requests && s.requests[k].phase == Recorded
    case Discard(k) => Alive(s.log) && k in s.requests && s.requests[k].phase == Failed
    case Resolve(_, _, _, _, _, _, _, f) => Running(s, f)
    case Reap(_, _, _, _, f) => Running(s, f)
    case AppendOther(_, _, f) => Running(s, f)
    case LogStep(a) => !a.DoAppend? && Audit.Enabled(env.cfg, s.log, a)
  }

  /** The chain has one more record when the append was acknowledged. */
  function Note(s: Gate, log: Audit.System, out: AppendOut, e: Event): Gate {
    if out.result.Appended? then s.(log := log, events := s.events + [e], trail := s.trail + [out.record]) else s.(log := log)
  }

  /** The part of resolve and reap that both have: append the record of the
      candidate, and settle. */
  ghost function Transition(env: Env, s: Gate, id: string, candidate: Entry, traceID: string, at: int, f: Faults): Gate
    requires Running(s, f) && id in s.store.entries
  {
    var slot := s.store.entries[id];
    var (log, out) := LogAppend(env.cfg, s.log, TransitionTrace(env.describe, candidate, traceID, at), true, f);
    Note(s, log, out, Closing(slot.ref, candidate.state)).(store := Put(s.store, id, Settle(slot.entry, candidate, out.record, out.result)))
  }

  /** Records of earlier processes: no entry of this one refers to them. */
  function Unexplained(n: nat): seq<Event> {
    seq(n, i => Unrelated)
  }

  ghost function Next(env: Env, s: Gate, a: Step): Gate
    requires Enabled(env, s, a)
  {
    match a
    case Reserve(e, timeoutMinutes, now, victim) =>
      (match EscalationStore.Reserve(s.store, s.next, e, timeoutMinutes, now, victim)
       case None => s
       case Some(store) => s.(store := store, requests := s.requests[s.next := Request(e.id, Reserved)], next := s.next + 1))
    case Record(k, t, f) =>
      var (log, out) := LogAppend(env.cfg, s.log, t, true, f);
      Note(s, log, out, Opening(k)).(requests := s.requests[k := s.requests[k].(phase := if out.result.Appended? then Recorded else Failed)])
    case FailEarly(k) => s.(requests := s.requests[k := s.requests[k].(phase := Failed)])
    case Publish(k) => s.(store := EscalationStore.Publish(s.store, k, s.requests[k].id), requests := s.requests - {k})
    case Discard(k) => s.(store := EscalationStore.Discard(s.store, k, s.requests[k].id), requests := s.requests - {k})
    case Resolve(id, approver, reason, approved, now, traceID, at, f) =>
      var attempt := PrepareResolution(s.store, id, approver, reason, approved, now);
      if attempt.Attempt? then Transition(env, s, id, attempt.candidate, traceID, at, f) else s
    case Reap(id, now, traceID, at, f) =>
      var attempt := PrepareExpiry(s.store, id, now);
      if attempt.Attempt? then Transition(env, s, id, attempt.candidate, traceID, at, f) else s
    case AppendOther(t, force, f) =>
      var (log, out) := LogAppend(env.cfg, s.log, t, force, f);
      Note(s, log, out, Unrelated)
    case LogStep(a) =>
      var log := Audit.Next(env.cfg, s.log, a);
      var trail := if a.Start? then History(env.cfg.codec, log.said) else [];
      Gate(log, s.store.(entries := map[]), map[], s.next, Unexplained(|trail|), trail)
  }

  // ----- the invariant -----

  /** The records of the chain and what they are there for. */
  datatype Ledger = Ledger(events: seq<Event>, records: seq<Trace>)

  function LedgerOf(s: Gate): Ledger {
    Ledger(s.events, s.trail)
  }

  /** The i-th record opened reservation k for id. */
  predicate Opens(l: Ledger, i: int, k: nat, id: string) {
    && 0 <= i < |l.events| && i < |l.records| && l.events[i] == Opening(k)
    && l.records[i].core.envelopeID == id && l.records[i].core.action == Escalated
  }

  /** The i-th record is that of the transition which took k to its state e. */
  ghost predicate Closes(env: Env, l: Ledger, i: int, k: nat, e: Entry) {
    && 0 <= i < |l.events| && i < |l.records| && l.events[i] == Closing(k, e.state)
    && l.records[i].core.timestamp.Some?
    && l.records[i].core == TransitionTrace(env.describe, e.(receipt := None), l.records[i].core.traceID, l.records[i].core.timestamp.value).core
    && e.receipt == (if e.state == Expired then None else ReceiptFor(l.records[i]))
  }

  ghost predicate WasOpened(l: Ledger, k: nat, id: string) {
    exists i :: Opens(l, i, k, id)
  }

  ghost predicate WasClosed(env: Env, l: Ledger, k: nat, e: Entry) {
    exists i :: Closes(env, l, i, k, e)
  }

  predicate NeverOpened(events: seq<Event>, k: nat) {
    forall i :: 0 <= i < |events| ==> events[i] != Opening(k)
  }

  predicate NeverClosed(events: seq<Event>, k: nat) {
    forall i :: 0 <= i < |events| ==> !(events[i].Closing? && events[i].k == k)
  }

  /** No reservation is opened twice, and none is closed twice. */
  ghost predicate AtMostOnce(events: seq<Event>, next: nat) {
    && (forall i :: 0 <= i < |events| && !events[i].Unrelated? ==> events[i].k < next)
    && (forall i, j :: 0 <= i < j < |events| && events[i].Opening? && events[j].Opening? ==> events[i].k != events[j].k)
    && (forall i, j :: 0 <= i < j < |events| && events[i].Closing? && events[j].Closing? ==> events[i].k != events[j].k)
  }

  /** The deadline divides human resolutions from expiries. */
  predicate Timely(e: Entry) {
    match e.state
    case Registering => e.resolvedAt.None? && e.receipt.None?
    case Pending => e.resolvedAt.None? && e.receipt.None?
    case Approved => e.resolvedAt.Some? && e.resolvedAt.value < e.expiresAt
    case Denied => e.resolvedAt.Some? && e.resolvedAt.value < e.expiresAt
    case Expired => e.resolvedAt.Some? && e.resolvedAt.value >= e.expiresAt
    case Indeterminate => e.resolvedAt.Some?
  }

  /** What the log must hold for an entry in its state. */
  ghost predicate Gated(env: Env, l: Ledger, poisoned: bool, requests: map<nat, Request>, slot: Slot<nat>) {
    var k, e := slot.ref, slot.entry;
    && Timely(e) && e.envelope.id == e.id
    && (e.state == Registering <==> k in requests)
    && (match e.state
        case Registering =>
          && requests[k].id == e.id && NeverClosed(l.events, k)
          && (if requests[k].phase == Recorded then WasOpened(l, k, e.id) else NeverOpened(l.events, k))
        case Pending => WasOpened(l, k, e.id) && NeverClosed(l.events, k)
        case Indeterminate => WasOpened(l, k, e.id) && NeverClosed(l.events, k) && poisoned
        case _ => WasOpened(l, k, e.id) && WasClosed(env, l, k, e))
  }

  ghost predicate AllGated(env: Env, s: Gate) {
    forall id :: id in s.store.entries ==>
      && s.store.entries[id].entry.id == id && s.store.entries[id].ref < s.next
      && Gated(env, LedgerOf(s), Audit.Poisoned(s.log), s.requests, s.store.entries[id])
  }

  /** Every request under way still owns its hidden reservation. */
  ghost predicate RequestsHold(s: Gate) {
    forall k :: k in s.requests ==> k < s.next && Holds(s.store, k, s.requests[k].id)
  }

  /** No two entries are the same object. */
  ghost predicate RefsDistinct(s: Store<nat>) {
    forall a, b :: a in s.entries && b in s.entries && s.entries[a].ref == s.entries[b].ref ==> a == b
  }

  predicate WithinCap(s: Store<nat>) {
    s.entries == map[] || |s.entries| <= s.maxEntries
  }

  /** The records acknowledged behind a barrier. */
  function Vault(log: Audit.System): seq<Trace> {
    log.acked + log.exposed
  }

  /** While the process lives, `trail` is the chain, and every record of a
      reservation was acknowledged behind a barrier. */
  ghost predicate Aligned(c: Codec, s: Gate) {
    && |s.events| == |s.trail| && (s.log.proc.Some? ==> s.trail == History(c, s.log.said))
    && forall i :: 0 <= i < |s.events| && !s.events[i].Unrelated? ==> s.trail[i] in Vault(s.log)
  }

  ghost predicate GateInv(env: Env, s: Gate) {
    && Audit.SystemInv(env.cfg, s.log)
    && Aligned(env.cfg.codec, s) && AtMostOnce(s.events, s.next)
    && (s.store.entries != map[] ==> s.log.proc.Some?)
    && WithinCap(s.store)
    && AllGated(env, s) && RequestsHold(s) && RefsDistinct(s.store)
  }

  // ----- one append under the log's mutex -----

  lemma LogAppendFacts(cfg: Config, log: Audit.System, t: Trace, force: bool, f: Faults)
    requires cfg.codec.Lawful() && Audit.SystemInv(cfg, log) && Audit.Enabled(cfg, log, Audit.DoAppend(t, force, f))
    ensures var (log', out) := LogAppend(cfg, log, t, force, f);
            && Audit.SystemInv(cfg, log') && Alive(log')
            && (Audit.Poisoned(log) ==> log' == log)
            && out.record.core == t.core
            && (out.result.Indeterminate? ==> Audit.Poisoned(log'))
            && History(cfg.codec, log'.said) == History(cfg.codec, log.said) + (if out.result.Appended? then [out.record] else [])
            && Vault(log') == Vault(log) + (if out.result.Appended? && MustSync(cfg, out.writer.appendSeq, force) then [out.record] else [])
  {
    hide Codec.Lawful, Audit.SystemInv, Append, Stamped, History, StatAnswers, MustSync;
    var a, out := Audit.DoAppend(t, force, f), Audit.AppendBy(cfg, log, t, force, f);
    Audit.StepKeepsInv(cfg, log, a);
    StillAlive(cfg, log, a);
    RecordIsStamped(cfg, log.proc.value, t, force, f);
    StampedKeepsCore(cfg, log.proc.value.lastHash, t);
    VaultAfter(cfg, log, t, force, f);
    if Audit.Poisoned(log) {
      Audit.PoisonedStep(cfg, log, a);
      PoisonRefuses(cfg, log.proc.value, t, force, f);
    } else {
      SaidAfter(cfg, log, t, force, f);
    }
  }

  /** The process lives on after an append, poisoned or not. */
  lemma StillAlive(cfg: Config, log: Audit.System, a: Audit.LogAction)
    requires a.DoAppend? && Audit.Enabled(cfg, log, a) && Audit.SystemInv(cfg, Audit.Next(cfg, log, a))
    ensures Alive(Audit.Next(cfg, log, a))
  {
    hide Append, StoreFit, Audit.Ledgered, Audit.SaidPlusOne, Ready;
  }

  lemma VaultAfter(cfg: Config, log: Audit.System, t: Trace, force: bool, f: Faults)
    requires Audit.Enabled(cfg, log, Audit.DoAppend(t, force, f))
    ensures var (log', out) := LogAppend(cfg, log, t, force, f);
            Vault(log') == Vault(log) + (if out.result.Appended? && MustSync(cfg, out.writer.appendSeq, force) then [out.record] else [])
  {
    hide Append, MustSync, StatAnswers;
    var out := Audit.AppendBy(cfg, log, t, force, f);
    assert log.acked + (log.exposed + [out.record]) == log.acked + log.exposed + [out.record];
  }

  lemma SaidAfter(cfg: Config, log: Audit.System, t: Trace, force: bool, f: Faults)
    requires cfg.codec.Lawful() && Audit.SystemInv(cfg, log) && Audit.Up(log) && Audit.Enabled(cfg, log, Audit.DoAppend(t, force, f))
    ensures var (log', out) := LogAppend(cfg, log, t, force, f);
            && (out.result.Indeterminate? ==> Audit.Poisoned(log'))
            && History(cfg.codec, log'.said) == History(cfg.codec, log.said) + (if out.result.Appended? then [out.record] else [])
  {
    hide Codec.Lawful, Append, MustSync, StatAnswers, StoreFit, Audit.Ledgered, Audit.SaidPlusOne, History, Stream,
         Genesis, Healthy, FileOk, Stands, Stamped;
    Audit.UpIsReady(cfg, log);
    AppendKeepsHealthy(cfg, log.proc.value, t, force, f);
  }

  lemma PoisonRefuses(cfg: Config, w: Writer, t: Trace, force: bool, f: Faults)
    requires w.poisoned
    ensures var out := Append(cfg, w, t, force, f);
            out.writer == w && (out.result.PoisonedWriter? || out.result.ProvenanceFailed?)
  {
  }

  lemma StampedKeepsCore(cfg: Config, last: Hash, t: Trace)
    ensures Stamped(cfg, last, t).core == t.core
  {
  }

  // ----- entries that a step does not touch -----

  /** The ledger only grows, and the new event is not about k. */
  ghost predicate Extends(l: Ledger, l': Ledger, k: nat) {
    && IsPrefix(l.events, l'.events) && IsPrefix(l.records, l'.records)
    && forall i :: |l.events| <= i < |l'.events| ==> l'.events[i].Unrelated? || l'.events[i].k != k
  }

  lemma StaysGated(env: Env, l: Ledger, l': Ledger, before: bool, after: bool, requests: map<nat, Request>, requests': map<nat, Request>, slot: Slot<nat>)
    requires Gated(env, l, before, requests, slot) && Extends(l, l', slot.ref) && (before ==> after)
    requires slot.ref in requests <==> slot.ref in requests'
    requires slot.ref in requests ==> requests[slot.ref] == requests'[slot.ref]
    ensures Gated(env, l', after, requests', slot)
  {
    var k, e := slot.ref, slot.entry;
    if WasOpened(l, k, e.id) {
      var i :| Opens(l, i, k, e.id);
      assert Opens(l', i, k, e.id);
    }
    if WasClosed(env, l, k, e) {
      var i :| Closes(env, l, i, k, e);
      assert Closes(env, l', i, k, e);
    }
    assert NeverClosed(l.events, k) ==> NeverClosed(l'.events, k);
    assert NeverOpened(l.events, k) ==> NeverOpened(l'.events, k);
  }

  /** Every entry of s' that is unchanged from s stays gated. */
  lemma OthersStayGated(env: Env, s: Gate, s': Gate, k: nat)
    requires AllGated(env, s) && (Audit.Poisoned(s.log) ==> Audit.Poisoned(s'.log)) && s.next <= s'.next
    requires forall j: nat :: j < s.next && j != k ==> Extends(LedgerOf(s), LedgerOf(s'), j)
    requires forall j: nat :: j < s.next && j != k ==> (j in s.requests <==> j in s'.requests) && (j in s.requests ==> s'.requests[j] == s.requests[j])
    ensures forall id :: id in s.store.entries && s.store.entries[id].ref != k ==>
              && s.store.entries[id].entry.id == id && s.store.entries[id].ref < s'.next
              && Gated(env, LedgerOf(s'), Audit.Poisoned(s'.log), s'.requests, s.store.entries[id])
  {
    hide Gated, Extends;
    forall id | id in s.store.entries && s.store.entries[id].ref != k
      ensures Gated(env, LedgerOf(s'), Audit.Poisoned(s'.log), s'.requests, s.store.entries[id])
    {
      StaysGated(env, LedgerOf(s), LedgerOf(s'), Audit.Poisoned(s.log), Audit.Poisoned(s'.log), s.requests, s'.requests, s.store.entries[id]);
    }
  }

  lemma LedgerUnchanged(l: Ledger)
    ensures forall j: nat :: Extends(l, l, j)
  {
  }

  predicate SameLog(s: Gate, s': Gate) {
    s'.log == s.log && s'.events == s.events && s'.trail == s.trail
  }

  lemma StaysAligned(c: Codec, s: Gate, s': Gate)
    requires Aligned(c, s) && SameLog(s, s')
    ensures Aligned(c, s')
  {
  }

  /** A step of the store alone. */
  lemma StoreStep(env: Env, s: Gate, s': Gate, k: nat)
    requires AllGated(env, s) && SameLog(s, s') && s.next <= s'.next
    requires forall j: nat :: j < s.next && j != k ==> (j in s.requests <==> j in s'.requests) && (j in s.requests ==> s'.requests[j] == s.requests[j])
    requires forall id :: id in s'.store.entries ==>
               (id in s.store.entries && s'.store.entries[id] == s.store.entries[id] && s.store.entries[id].ref != k)
               || (s'.store.entries[id].entry.id == id && s'.store.entries[id].ref < s'.next
                   && Gated(env, LedgerOf(s), Audit.Poisoned(s.log), s'.requests, s'.store.entries[id]))
    ensures AllGated(env, s')
  {
    hide Gated, Extends;
    LedgerUnchanged(LedgerOf(s));
    assert LedgerOf(s') == LedgerOf(s);
    OthersStayGated(env, s, s', k);
  }

  lemma RoomFor(s: Store<nat>, victim: Option<string>, id: string, slot: Slot<nat>)
    requires Evicts(s, victim) && WithinCap(s) && id !in s.entries
    ensures |s.entries| >= s.maxEntries && victim.Some? ==> |(s.entries - {victim.value})[id := slot]| <= s.maxEntries
    ensures |s.entries| < s.maxEntries ==> |s.entries[id := slot]| <= s.maxEntries
  {
    if |s.entries| >= s.maxEntries && victim.Some? {
      var room := s.entries - {victim.value};
      assert |room| == |room.Keys| && room.Keys == s.entries.Keys - {victim.value};
      assert |s.entries.Keys| == |s.entries|;
      Inserted(room, id, slot);
    }
    Inserted(s.entries, id, slot);
  }

  lemma Inserted(m: map<string, Slot<nat>>, id: string, slot: Slot<nat>)
    ensures |m[id := slot]| <= |m| + 1
  {
    assert m[id := slot].Keys == m.Keys + {id};
    assert |m[id := slot]| == |m[id := slot].Keys| && |m| == |m.Keys|;
  }

  lemma FreshIsUnknown(env: Env, events: seq<Event>, next: nat)
    requires AtMostOnce(events, next)
    ensures NeverOpened(events, next) && NeverClosed(events, next)
  {
  }

  lemma NewEntryGated(env: Env, l: Ledger, poisoned: bool, requests: map<nat, Request>, k: nat, e: Envelope, timeoutMinutes: int, now: int)
    requires NeverOpened(l.events, k) && NeverClosed(l.events, k) && k in requests && requests[k] == Request(e.id, Reserved)
    ensures Gated(env, l, poisoned, requests, Slot(k, NewEntry(e, timeoutMinutes, now)))
  {
  }

  lemma ReserveKeeps(env: Env, s: Gate, a: Step)
    requires GateInv(env, s) && a.Reserve? && Enabled(env, s, a)
    ensures GateInv(env, Next(env, s, a))
  {
    hide Audit.SystemInv, AtMostOnce, Aligned, NewEntry, Evicts, AllGated, RequestsHold, RefsDistinct,
         EscalationStore.Reserve;
    FreshMonotone(s.events, s.next);
    StaysAligned(env.cfg.codec, s, Next(env, s, a));
    ReserveGated(env, s, a);
    ReserveHolds(env, s, a);
  }

  lemma ReserveGated(env: Env, s: Gate, a: Step)
    requires GateInv(env, s) && a.Reserve? && Enabled(env, s, a)
    ensures AllGated(env, Next(env, s, a))
  {
    hide Audit.SystemInv, Audit.Up, AtMostOnce, NeverOpened, NeverClosed, Aligned, Audit.Poisoned, Gated, NewEntry,
         Evicts, RequestsHold, RefsDistinct;
    var s' := Next(env, s, a);
    if s' != s {
      FreshIsUnknown(env, s.events, s.next);
      NewEntryShape(a.env, a.timeoutMinutes, a.now);
      NewEntryGated(env, LedgerOf(s), Audit.Poisoned(s.log), s'.requests, s.next, a.env, a.timeoutMinutes, a.now);
      StoreStep(env, s, s', s.next);
    }
  }

  lemma ReserveHolds(env: Env, s: Gate, a: Step)
    requires GateInv(env, s) && a.Reserve? && Enabled(env, s, a)
    ensures RequestsHold(Next(env, s, a)) && RefsDistinct(Next(env, s, a).store) && WithinCap(Next(env, s, a).store)
  {
    hide Audit.SystemInv, Audit.Up, AtMostOnce, Aligned, Audit.Poisoned, Gated, NewEntry, Evicts,
         EscalationStore.Reserve, Holds, RefsDistinct;
    ReserveStore(s.store, s.next, a.env, a.timeoutMinutes, a.now, a.victim);
  }

  lemma ReserveStore(s: Store<nat>, next: nat, e: Envelope, timeoutMinutes: int, now: int, victim: Option<string>)
    requires RefsDistinct(s) && WithinCap(s) && Evicts(s, victim) && forall id :: id in s.entries ==> s.entries[id].ref < next
    ensures var s' := EscalationStore.Reserve(s, next, e, timeoutMinutes, now, victim);
            s'.Some? ==>
              && RefsDistinct(s'.value) && WithinCap(s'.value) && Holds(s'.value, next, e.id)
              && forall k: nat, id :: Holds(s, k, id) ==> Holds(s'.value, k, id)
  {
    EvictionSparesReservations(s, victim);
    NewEntryShape(e, timeoutMinutes, now);
    hide NewEntry, Evicts, RefsDistinct, Holds;
    if e.id !in s.entries && (|s.entries| < s.maxEntries || victim.Some?) {
      var slot := Slot(next, NewEntry(e, timeoutMinutes, now));
      RoomFor(s, victim, e.id, slot);
      var room := if |s.entries| >= s.maxEntries then s.entries - {victim.value} else s.entries;
      assert forall x :: x in s.entries && s.entries[x].entry.state == Registering ==> x in room;
      Enter(s, room, e.id, slot);
    }
  }

  lemma Enter(s: Store<nat>, room: map<string, Slot<nat>>, id: string, slot: Slot<nat>)
    requires RefsDistinct(s) && id !in s.entries && slot.entry.state == Registering
    requires forall x :: x in s.entries ==> s.entries[x].ref != slot.ref
    requires forall x :: x in room ==> x in s.entries && room[x] == s.entries[x]
    requires forall x :: x in s.entries && s.entries[x].entry.state == Registering ==> x in room
    ensures var s' := s.(entries := room[id := slot]);
            && RefsDistinct(s') && Holds(s', slot.ref, id)
            && forall k: nat, x :: Holds(s, k, x) ==> Holds(s', k, x)
  {
  }

  lemma NewEntryShape(e: Envelope, timeoutMinutes: int, now: int)
    ensures NewEntry(e, timeoutMinutes, now).id == e.id && NewEntry(e, timeoutMinutes, now).state == Registering
  {
  }

  lemma EvictionSparesReservations(s: Store<nat>, victim: Option<string>)
    requires Evicts(s, victim)
    ensures victim.Some? ==> victim.value in s.entries && s.entries[victim.value].entry.state != Registering
                             && s.entries[victim.value].entry.state != Pending
  {
  }

  lemma FreshMonotone(events: seq<Event>, next: nat)
    requires AtMostOnce(events, next)
    ensures AtMostOnce(events, next + 1)
  {
  }

  lemma FailEarlyKeeps(env: Env, s: Gate, a: Step)
    requires GateInv(env, s) && a.FailEarly? && Enabled(env, s, a)
    ensures GateInv(env, Next(env, s, a))
  {
    hide Audit.SystemInv, Audit.Up, AtMostOnce, NeverOpened, NeverClosed, Aligned, Audit.Poisoned;
    StaysAligned(env.cfg.codec, s, Next(env, s, a));
    StoreStep(env, s, Next(env, s, a), a.k);
  }

  lemma OtherRefs(s: Store<nat>, id: string)
    requires RefsDistinct(s) && id in s.entries
    ensures forall x :: x in s.entries && x != id ==> s.entries[x].ref != s.entries[id].ref
  {
  }

  /** Replacing one entry in place. */
  lemma PutStore(s: Store<nat>, id: string, e: Entry)
    requires RefsDistinct(s) && WithinCap(s) && id in s.entries
    ensures RefsDistinct(Put(s, id, e)) && WithinCap(Put(s, id, e))
    ensures forall j: nat, x :: Holds(s, j, x) && j != s.entries[id].ref ==> Holds(Put(s, id, e), j, x)
    ensures s.entries[id].entry.state != Registering ==> forall j: nat, x :: Holds(s, j, x) ==> Holds(Put(s, id, e), j, x)
  {
    assert Put(s, id, e).entries.Keys == s.entries.Keys;
  }

  /** publishReserved finds the reservation, whatever ran in between. */
  /** The state after request k has published its reservation. */
  function Published(s: Gate, k: nat): Gate
    requires k in s.requests && s.requests[k].id in s.store.entries
  {
    var id := s.requests[k].id;
    s.(store := Put(s.store, id, s.store.entries[id].entry.(state := Pending)), requests := s.requests - {k})
  }

  lemma PublishIs(env: Env, s: Gate, a: Step)
    requires RequestsHold(s) && a.Publish? && Enabled(env, s, a)
    ensures a.k in s.requests && s.requests[a.k].phase == Recorded && Holds(s.store, a.k, s.requests[a.k].id)
    ensures Next(env, s, a) == Published(s, a.k)
  {
  }

  lemma PublishedStore(s: Gate, k: nat)
    requires RequestsHold(s) && RefsDistinct(s.store) && WithinCap(s.store) && k in s.requests && Holds(s.store, k, s.requests[k].id)
    ensures var s' := Published(s, k); RequestsHold(s') && RefsDistinct(s'.store) && WithinCap(s'.store)
  {
    hide RefsDistinct, WithinCap;
    var id := s.requests[k].id;
    PutStore(s.store, id, s.store.entries[id].entry.(state := Pending));
  }

  lemma PublishedAllGated(env: Env, s: Gate, k: nat)
    requires AllGated(env, s) && RefsDistinct(s.store) && k in s.requests && s.requests[k].phase == Recorded && Holds(s.store, k, s.requests[k].id)
    ensures AllGated(env, Published(s, k))
  {
    hide Gated, RefsDistinct, LedgerOf, Audit.Poisoned;
    PublishedGated(env, s, k);
    OtherRefs(s.store, s.requests[k].id);
    StoreStep(env, s, Published(s, k), k);
  }

  lemma PublishKeeps(env: Env, s: Gate, a: Step)
    requires GateInv(env, s) && a.Publish? && Enabled(env, s, a)
    ensures GateInv(env, Next(env, s, a))
    ensures Holds(s.store, a.k, s.requests[a.k].id)
  {
    hide Audit.SystemInv, AtMostOnce, Aligned, AllGated, RequestsHold, RefsDistinct, WithinCap, Next, Enabled, Put, Holds;
    PublishIs(env, s, a);
    PublishedStore(s, a.k);
    PublishedAllGated(env, s, a.k);
    StaysAligned(env.cfg.codec, s, Published(s, a.k));
  }

  lemma PublishedGated(env: Env, s: Gate, k: nat)
    requires AllGated(env, s) && k in s.requests && s.requests[k].phase == Recorded && Holds(s.store, k, s.requests[k].id)
    ensures var slot := s.store.entries[s.requests[k].id];
            Gated(env, LedgerOf(s), Audit.Poisoned(s.log), s.requests - {k}, slot.(entry := slot.entry.(state := Pending)))
  {
    hide WasOpened, WasClosed, NeverOpened, NeverClosed, Aligned, Audit.Poisoned;
  }

  lemma DiscardKeeps(env: Env, s: Gate, a: Step)
    requires GateInv(env, s) && a.Discard? && Enabled(env, s, a)
    ensures GateInv(env, Next(env, s, a))
    ensures Holds(s.store, a.k, s.requests[a.k].id)
  {
    hide Audit.SystemInv, Audit.Up, Audit.Poisoned, AtMostOnce, Aligned, Gated, AllGated, RequestsHold, RefsDistinct,
         WithinCap, Holds, EscalationStore.Discard;
    StaysAligned(env.cfg.codec, s, Next(env, s, a));
    DiscardGated(env, s, a);
    DiscardHolds(s, a.k);
  }

  lemma DiscardGated(env: Env, s: Gate, a: Step)
    requires GateInv(env, s) && a.Discard? && Enabled(env, s, a)
    ensures AllGated(env, Next(env, s, a))
  {
    hide Audit.SystemInv, Audit.Up, Audit.Poisoned, AtMostOnce, Aligned, Gated;
    StoreStep(env, s, Next(env, s, a), a.k);
  }

  lemma DiscardHolds(s: Gate, k: nat)
    requires RequestsHold(s) && RefsDistinct(s.store) && WithinCap(s.store) && k in s.requests
    ensures var store := EscalationStore.Discard(s.store, k, s.requests[k].id);
            && Holds(s.store, k, s.requests[k].id) && RefsDistinct(store) && WithinCap(store)
            && RequestsHold(s.(store := store, requests := s.requests - {k}))
            && (store.entries != map[] ==> s.store.entries != map[])
  {
    Removed(s.store.entries, s.requests[k].id);
  }

  lemma Removed(m: map<string, Slot<nat>>, id: string)
    requires id in m
    ensures |m - {id}| == |m| - 1
  {
    assert (m - {id}).Keys == m.Keys - {id};
    assert |(m - {id}).Keys| == |m - {id}| && |m| == |m.Keys|;
  }

  // ----- steps that append -----

  /** Noting an event keeps every reservation opened and closed at most once. */
  lemma NoteOnce(events: seq<Event>, e: Event, next: nat)
    requires AtMostOnce(events, next) && (!e.Unrelated? ==> e.k < next)
    requires e.Opening? ==> NeverOpened(events, e.k)
    requires e.Closing? ==> NeverClosed(events, e.k)
    ensures AtMostOnce(events + [e], next)
  {
  }

  lemma NoteExtends(l: Ledger, e: Event, t: Trace)
    ensures forall j: nat :: e.Unrelated? || j != e.k ==> Extends(l, Ledger(l.events + [e], l.records + [t]), j)
    ensures forall j: nat :: Extends(l, l, j)
    ensures !e.Closing? ==> forall j: nat :: NeverClosed(l.events, j) ==> NeverClosed(l.events + [e], j)
  {
  }

  /** The common part of every append: the log keeps its invariant, the ledger
      stays aligned, and entries of other reservations stay gated. */
  lemma AppendKeeps(env: Env, s: Gate, s': Gate, t: Trace, force: bool, f: Faults, e: Event, k: nat)
    requires env.cfg.codec.Lawful() && GateInv(env, s) && Running(s, f) && (e.Unrelated? || force)
    requires var (log, out) := LogAppend(env.cfg, s.log, t, force, f);
             var noted := Note(s, log, out, e);
             s'.log == log && s'.events == noted.events && s'.trail == noted.trail && s'.next == s.next
    requires (e.Opening? ==> e.k == k && k < s.next && NeverOpened(s.events, k)) && (e.Closing? ==> e.k == k && k < s.next && NeverClosed(s.events, k))
    requires forall j: nat :: j < s.next && j != k ==> (j in s.requests <==> j in s'.requests) && (j in s.requests ==> s'.requests[j] == s.requests[j])
    ensures Audit.SystemInv(env.cfg, s'.log) && s'.log.proc.Some? && Aligned(env.cfg.codec, s') && AtMostOnce(s'.events, s'.next)
    ensures Audit.Poisoned(s.log) ==> Audit.Poisoned(s'.log)
    ensures forall id :: id in s.store.entries && s.store.entries[id].ref != k ==>
              && s.store.entries[id].entry.id == id && s.store.entries[id].ref < s'.next
              && Gated(env, LedgerOf(s'), Audit.Poisoned(s'.log), s'.requests, s.store.entries[id])
  {
    hide Audit.SystemInv, LogAppend, Gated, Extends, AtMostOnce, NeverOpened, NeverClosed, AllGated, RequestsHold,
         RefsDistinct, Codec.Lawful, History, Vault, MustSync, StatAnswers, Aligned;
    LogAppendFacts(env.cfg, s.log, t, force, f);
    var (log, out) := LogAppend(env.cfg, s.log, t, force, f);
    MustSyncForced(env.cfg, out.writer.appendSeq);
    NoteAligned(env.cfg, s, log, out, e, force);
    SameAlignment(env.cfg.codec, Note(s, log, out, e), s');
    LedgerLengths(env.cfg.codec, s);
    if out.result.Appended? {
      NoteExtends(LedgerOf(s), e, out.record);
      NoteOnce(s.events, e, s.next);
    } else {
      LedgerUnchanged(LedgerOf(s));
    }
    OthersStayGated(env, s, s', k);
  }

  lemma SameAlignment(c: Codec, s: Gate, s': Gate)
    requires SameLog(s, s')
    ensures Aligned(c, s) ==> Aligned(c, s')
  {
  }

  lemma LedgerLengths(c: Codec, s: Gate)
    requires Aligned(c, s)
    ensures |s.events| == |s.trail|
  {
  }

  lemma NoteAligned(cfg: Config, s: Gate, log: Audit.System, out: AppendOut, e: Event, force: bool)
    requires Aligned(cfg.codec, s) && s.log.proc.Some? && (e.Unrelated? || MustSync(cfg, out.writer.appendSeq, force))
    requires History(cfg.codec, log.said) == History(cfg.codec, s.log.said) + (if out.result.Appended? then [out.record] else [])
    requires Vault(log) == Vault(s.log) + (if out.result.Appended? && MustSync(cfg, out.writer.appendSeq, force) then [out.record] else [])
    ensures Aligned(cfg.codec, Note(s, log, out, e))
  {
    hide History, MustSync, Vault;
    var noted := Note(s, log, out, e);
    forall i | 0 <= i < |noted.events| && !noted.events[i].Unrelated?
      ensures noted.trail[i] in Vault(log)
    {
      if i < |s.events| {
        assert noted.events[i] == s.events[i] && noted.trail[i] == s.trail[i];
      }
    }
  }

  lemma MustSyncForced(cfg: Config, n: nat)
    ensures MustSync(cfg, n, true)
  {
  }

  lemma SameRequests(s: Gate, s': Gate)
    requires s'.store == s.store && s'.next == s.next && forall k :: k in s'.requests ==> k in s.requests && s'.requests[k].id == s.requests[k].id
    ensures RequestsHold(s) ==> RequestsHold(s')
  {
    hide Holds;
  }

  lemma ReservationOf(s: Gate, k: nat)
    requires RequestsHold(s) && RefsDistinct(s.store) && k in s.requests
    ensures k < s.next && s.requests[k].id in s.store.entries && s.store.entries[s.requests[k].id].ref == k
    ensures forall id :: id in s.store.entries && s.store.entries[id].ref == k ==> id == s.requests[k].id
  {
  }

  lemma AppendOtherKeeps(env: Env, s: Gate, a: Step)
    requires env.cfg.codec.Lawful() && GateInv(env, s) && a.AppendOther? && Enabled(env, s, a)
    ensures GateInv(env, Next(env, s, a))
  {
    hide Audit.SystemInv, Audit.Up, Audit.Poisoned, LogAppend, Aligned, Gated, AtMostOnce, NeverOpened, NeverClosed, Codec.Lawful,
         RequestsHold, RefsDistinct, WithinCap, StatAnswers;
    AppendKeeps(env, s, Next(env, s, a), a.t, a.force, a.f, Unrelated, s.next);
    SameRequests(s, Next(env, s, a));
  }

  lemma NowOpened(l: Ledger, k: nat, t: Trace, id: string)
    requires |l.events| == |l.records| && t.core.envelopeID == id && t.core.action == Escalated
    ensures WasOpened(Ledger(l.events + [Opening(k)], l.records + [t]), k, id)
  {
    assert Opens(Ledger(l.events + [Opening(k)], l.records + [t]), |l.events|, k, id);
  }

  lemma RecordedGated(env: Env, s: Gate, k: nat, t: Trace, f: Faults)
    requires env.cfg.codec.Lawful() && GateInv(env, s) && Enabled(env, s, Record(k, t, f))
    ensures var s', id := Next(env, s, Record(k, t, f)), s.requests[k].id;
            Gated(env, LedgerOf(s'), Audit.Poisoned(s'.log), s'.requests, s.store.entries[id])
  {
    hide Audit.SystemInv, Audit.Up, Audit.Poisoned, LogAppend, Aligned, AtMostOnce, NeverOpened, NeverClosed,
         WasOpened, WasClosed, Codec.Lawful;
    LogAppendFacts(env.cfg, s.log, t, true, f);
    var (log, out) := LogAppend(env.cfg, s.log, t, true, f);
    NoteExtends(LedgerOf(s), Opening(k), out.record);
    LedgerLengths(env.cfg.codec, s);
    if out.result.Appended? {
      NowOpened(LedgerOf(s), k, out.record, s.requests[k].id);
    }
  }

  lemma RecordKeeps(env: Env, s: Gate, a: Step)
    requires env.cfg.codec.Lawful() && GateInv(env, s) && a.Record? && Enabled(env, s, a)
    ensures GateInv(env, Next(env, s, a))
  {
    hide Audit.SystemInv, Audit.Up, Audit.Poisoned, LogAppend, Aligned, Gated, AtMostOnce, NeverOpened, NeverClosed, Codec.Lawful,
         RequestsHold, RefsDistinct, WithinCap, StatAnswers;
    var s' := Next(env, s, a);
    ReservationOf(s, a.k);
    SameRequests(s, s');
    NotYetOpened(env, s, a.k);
    AppendKeeps(env, s, s', a.t, true, a.f, Opening(a.k), a.k);
    RecordedGated(env, s, a.k, a.t, a.f);
  }

  lemma NotYetOpened(env: Env, s: Gate, k: nat)
    requires GateInv(env, s) && k in s.requests && s.requests[k].phase != Recorded
    ensures NeverOpened(s.events, k)
  {
    hide Audit.SystemInv, AtMostOnce, NeverOpened, NeverClosed, WasOpened, WasClosed, Timely;
  }

  // ----- resolutions and expiries -----

  /** What resolve and reap hand to the audit callback. */
  ghost predicate CandidateFor(s: Store<nat>, id: string, candidate: Entry) {
    && id in s.entries && s.entries[id].entry.state == Pending
    && candidate == s.entries[id].entry.(state := candidate.state, resolvedAt := candidate.resolvedAt,
                                         approver := candidate.approver, reason := candidate.reason)
    && (candidate.state == Approved || candidate.state == State.Denied || candidate.state == Expired)
    && Timely(candidate)
  }

  lemma CandidatesAreTimely(env: Env, s: Gate, id: string, approver: string, reason: string, approved: bool, now: int)
    requires AllGated(env, s)
    ensures var p := PrepareResolution(s.store, id, approver, reason, approved, now);
            p.Attempt? ==> CandidateFor(s.store, id, p.candidate)
    ensures var p := PrepareExpiry(s.store, id, now);
            p.Attempt? ==> CandidateFor(s.store, id, p.candidate)
  {
  }

  lemma NowClosed(env: Env, l: Ledger, k: nat, candidate: Entry, t: Trace, e: Entry, traceID: string, at: int)
    requires |l.events| == |l.records| && t.core == TransitionTrace(env.describe, candidate, traceID, at).core
    requires candidate.receipt.None? && e == candidate.(receipt := if candidate.state == Expired then None else ReceiptFor(t))
    ensures WasClosed(env, Ledger(l.events + [Closing(k, candidate.state)], l.records + [t]), k, e)
  {
    hide ReceiptFor;
    var l' := Ledger(l.events + [Closing(k, candidate.state)], l.records + [t]);
    assert e.(receipt := None) == candidate;
    assert Closes(env, l', |l.events|, k, e);
  }

  lemma OpenedStays(l: Ledger, k: nat, id: string, e: Event, t: Trace)
    requires WasOpened(l, k, id)
    ensures WasOpened(Ledger(l.events + [e], l.records + [t]), k, id)
  {
    var i :| Opens(l, i, k, id);
    assert Opens(Ledger(l.events + [e], l.records + [t]), i, k, id);
  }

  lemma SettledGated(env: Env, s: Gate, id: string, candidate: Entry, traceID: string, at: int, f: Faults)
    requires env.cfg.codec.Lawful() && GateInv(env, s) && Running(s, f) && CandidateFor(s.store, id, candidate)
    ensures var s' := Transition(env, s, id, candidate, traceID, at, f);
            && Gated(env, LedgerOf(s'), Audit.Poisoned(s'.log), s'.requests, s'.store.entries[id])
            && s'.store.entries[id].entry.id == id && s'.store.entries[id].ref == s.store.entries[id].ref
            && s'.store.entries[id].entry.state != Registering
  {
    hide Audit.SystemInv, Audit.Up, Audit.Poisoned, LogAppend, Aligned, AtMostOnce, NeverOpened, NeverClosed,
         WasOpened, WasClosed, Codec.Lawful, TransitionTrace, ReceiptFor, RequestsHold, RefsDistinct, WithinCap, Holds;
    var slot, t := s.store.entries[id], TransitionTrace(env.describe, candidate, traceID, at);
    LogAppendFacts(env.cfg, s.log, t, true, f);
    var (log, out) := LogAppend(env.cfg, s.log, t, true, f);
    var e := Closing(slot.ref, candidate.state);
    LedgerLengths(env.cfg.codec, s);
    if out.result.Appended? {
      OpenedStays(LedgerOf(s), slot.ref, id, e, out.record);
      NowClosed(env, LedgerOf(s), slot.ref, candidate, out.record, Settle(slot.entry, candidate, out.record, out.result), traceID, at);
    }
  }

  lemma TransitionKeeps(env: Env, s: Gate, id: string, candidate: Entry, traceID: string, at: int, f: Faults)
    requires env.cfg.codec.Lawful() && GateInv(env, s) && Running(s, f) && CandidateFor(s.store, id, candidate)
    ensures GateInv(env, Transition(env, s, id, candidate, traceID, at, f))
  {
    hide Audit.SystemInv, Audit.Up, Audit.Poisoned, LogAppend, Aligned, Gated, AtMostOnce, NeverOpened, NeverClosed,
         Codec.Lawful, TransitionTrace, Settle, RefsDistinct, WithinCap;
    var s' := Transition(env, s, id, candidate, traceID, at, f);
    var k := s.store.entries[id].ref;
    PendingIsOpen(env, s, id);
    AppendKeeps(env, s, s', TransitionTrace(env.describe, candidate, traceID, at), true, f, Closing(k, candidate.state), k);
    SettledGated(env, s, id, candidate, traceID, at, f);
    OtherRefs(s.store, id);
    assert s'.store == Put(s.store, id, s'.store.entries[id].entry);
    hide CandidateFor, Running, LedgerOf;
    PutHolds(s, s', id);
  }

  /** An entry that was no reservation is replaced: every request keeps its own. */
  lemma PutHolds(s: Gate, s': Gate, id: string)
    requires RequestsHold(s) && RefsDistinct(s.store) && WithinCap(s.store) && id in s.store.entries && s.store.entries[id].entry.state != Registering
    requires id in s'.store.entries && s'.store == Put(s.store, id, s'.store.entries[id].entry) && s'.requests == s.requests && s'.next == s.next
    ensures RequestsHold(s') && RefsDistinct(s'.store) && WithinCap(s'.store) && s.store.entries != map[]
  {
    hide RefsDistinct, WithinCap, Put, Holds;
    PutStore(s.store, id, s'.store.entries[id].entry);
  }

  lemma PendingIsOpen(env: Env, s: Gate, id: string)
    requires AllGated(env, s) && id in s.store.entries && s.store.entries[id].entry.state == Pending
    ensures NeverClosed(s.events, s.store.entries[id].ref) && s.store.entries[id].ref !in s.requests
  {
  }

  lemma LogStepKeeps(env: Env, s: Gate, a: Step)
    requires env.cfg.codec.Lawful() && GateInv(env, s) && a.LogStep? && Enabled(env, s, a)
    ensures GateInv(env, Next(env, s, a))
  {
    hide Audit.SystemInv, Audit.Poisoned, Audit.Up, Gated, Codec.Lawful, Audit.Enabled, Audit.Next, History;
    Audit.StepKeepsInv(env.cfg, s.log, a.a);
    if !a.a.Start? {
      EndsTheProcess(env.cfg, s.log, a.a);
    }
  }

  lemma EndsTheProcess(cfg: Config, log: Audit.System, a: Audit.LogAction)
    requires !a.DoAppend? && !a.Start? && Audit.Enabled(cfg, log, a)
    ensures Audit.Next(cfg, log, a).proc.None?
  {
    hide Append, CrashTo;
  }

  /** Every step of every interleaving keeps the gate. */
  lemma StepKeepsInv(env: Env, s: Gate, a: Step)
    requires env.cfg.codec.Lawful() && GateInv(env, s) && Enabled(env, s, a)
    ensures GateInv(env, Next(env, s, a))
  {
    hide GateInv, Enabled, Transition, PrepareResolution, PrepareExpiry, Codec.Lawful, CandidateFor, EscalationStore.Reserve,
         EscalationStore.Publish, EscalationStore.Discard, LogAppend;
    match a
    case Reserve(_, _, _, _) => ReserveKeeps(env, s, a);
    case Record(_, _, _) => RecordKeeps(env, s, a);
    case FailEarly(_) => FailEarlyKeeps(env, s, a);
    case Publish(_) => PublishKeeps(env, s, a);
    case Discard(_) => DiscardKeeps(env, s, a);
    case Resolve(id, approver, reason, approved, now, traceID, at, f) =>
      var p := PrepareResolution(s.store, id, approver, reason, approved, now);
      InvIsGated(env, s, a);
      CandidatesAreTimely(env, s, id, approver, reason, approved, now);
      if p.Attempt? {
        TransitionKeeps(env, s, id, p.candidate, traceID, at, f);
      }
    case Reap(id, now, traceID, at, f) =>
      var p := PrepareExpiry(s.store, id, now);
      InvIsGated(env, s, a);
      CandidatesAreTimely(env, s, id, "", "", true, now);
      if p.Attempt? {
        TransitionKeeps(env, s, id, p.candidate, traceID, at, f);
      }
    case AppendOther(_, _, _) => AppendOtherKeeps(env, s, a);
    case LogStep(_) => LogStepKeeps(env, s, a);
  }

  lemma InvIsGated(env: Env, s: Gate, a: Step)
    requires GateInv(env, s) && Enabled(env, s, a)
    ensures AllGated(env, s) && (a.Resolve? || a.Reap? ==> Running(s, a.f))
  {
    hide Audit.SystemInv, AllGated, RequestsHold, RefsDistinct, AtMostOnce, Running;
  }

  // ----- every run -----

  ghost function Initial(maxEntries: int, d: Disk): Gate {
    Gate(Audit.Begin(d), Store(map[], maxEntries), map[], 0, [], [])
  }

  ghost predicate IsRun(env: Env, maxEntries: int, states: seq<Gate>, steps: seq<Step>) {
    && |states| == |steps| + 1 && Audit.CleanStore(env.cfg, states[0].log.disk) && states[0] == Initial(maxEntries, states[0].log.disk)
    && forall i :: 0 <= i < |steps| ==> Enabled(env, states[i], steps[i]) && states[i + 1] == Next(env, states[i], steps[i])
  }

  lemma InitialInv(env: Env, maxEntries: int, d: Disk)
    requires Audit.CleanStore(env.cfg, d)
    ensures GateInv(env, Initial(maxEntries, d))
  {
    hide Audit.CleanStore, Audit.SystemInv;
    Audit.BeginInv(env.cfg, d);
  }

  /** Over every interleaving of evaluate, approve, deny, reap, death, crash and
      restart, with any audit faults, from any accepted log. */
  lemma {:induction false} EveryInterleavingIsGated(env: Env, maxEntries: int, states: seq<Gate>, steps: seq<Step>, i: nat)
    requires env.cfg.codec.Lawful() && IsRun(env, maxEntries, states, steps) && i < |states|
    ensures GateInv(env, states[i])
  {
    hide GateInv, Enabled, Next, Codec.Lawful;
    if i == 0 {
      InitialInv(env, maxEntries, states[0].log.disk);
    } else {
      EveryInterleavingIsGated(env, maxEntries, states, steps, i - 1);
      StepKeepsInv(env, states[i - 1], steps[i - 1]);
    }
  }

  // ----- what that means for a caller -----

  /** t is in the chain of every log that can ever be resumed from here, and of
      the one now if a writer is up. */
  ghost predicate Permanent(cfg: Config, log: Audit.System, t: Trace) {
    && (Audit.Up(log) ==> t in History(cfg.codec, Stream(log.disk)))
    && forall left :: CrashTo(log.disk, left) && Open(cfg.codec, left).Opened? ==> t in History(cfg.codec, Stream(left))
  }

  lemma AckedIsPermanent(cfg: Config, log: Audit.System, t: Trace)
    requires cfg.codec.Lawful() && Audit.SystemInv(cfg, log) && t in log.acked
    ensures Permanent(cfg, log, t)
  {
    hide Audit.SystemInv, CrashTo, Codec.Lawful, Open, Audit.Enabled, Stream, History;
    var i :| 0 <= i < |log.acked| && log.acked[i] == t;
    if Audit.Up(log) {
      Audit.AckedInChain(cfg, log, i);
    }
    forall left | CrashTo(log.disk, left) && Open(cfg.codec, left).Opened?
      ensures t in History(cfg.codec, Stream(left))
    {
      Audit.AckedAfterCrash(cfg, log, left, i);
    }
  }

  /** The i-th record of the chain was acknowledged behind a barrier; it is
      permanent unless the directory it was acknowledged in is still unconfirmed. */
  ghost predicate Audited(cfg: Config, s: Gate, i: nat) {
    && i < |s.trail| && s.trail[i] in Vault(s.log)
    && (s.trail[i] in s.log.acked || s.log.disk.older == [] ==> Permanent(cfg, s.log, s.trail[i]))
  }

  lemma ReservationIsAudited(env: Env, s: Gate, i: nat)
    requires env.cfg.codec.Lawful() && GateInv(env, s) && i < |s.events| && !s.events[i].Unrelated?
    ensures Audited(env.cfg, s, i)
  {
    hide Audit.SystemInv, Permanent, Codec.Lawful, AllGated, RequestsHold, RefsDistinct, AtMostOnce, WithinCap;
    Audit.InvIsConfirmed(env.cfg, s.log);
    if s.trail[i] in s.log.acked || s.log.disk.older == [] {
      assert s.log.exposed == [] ==> s.log.acked + s.log.exposed == s.log.acked;
      AckedIsPermanent(env.cfg, s.log, s.trail[i]);
    }
  }

  /** While a writer is up, `trail` is the chain in the files, no record twice. */
  lemma TrailIsTheChain(env: Env, s: Gate)
    requires GateInv(env, s) && Audit.Up(s.log)
    ensures s.trail == History(env.cfg.codec, Stream(s.log.disk)) && |s.events| == |s.trail|
    ensures forall i, j :: 0 <= i < j < |s.trail| ==> s.trail[i] != s.trail[j]
  {
    hide AllGated, RequestsHold, RefsDistinct, AtMostOnce, WithinCap, IsChain, Genesis, History, RotatedData;
    Audit.UpIsReady(env.cfg, s.log);
    IntactScan(env.cfg.codec, Stream(s.log.disk));
    forall i, j | 0 <= i < j < |s.trail|
      ensures s.trail[i] != s.trail[j]
    {
      ChainIsDistinct(s.trail, i, j);
    }
  }

  /** A visible pending entry has its escalated record in the chain; an approved,
      denied or expired one has also exactly one record of a terminal transition in
      the chain, which is that of its own state, approver and reason, on its side
      of the deadline; an indeterminate one means the writer is poisoned. */
  lemma VisibleIsAudited(env: Env, s: Gate, id: string)
    requires env.cfg.codec.Lawful() && GateInv(env, s) && id in s.store.entries && s.store.entries[id].entry.state != Registering
    ensures Audit.Up(s.log) ==> s.trail == History(env.cfg.codec, Stream(s.log.disk)) && |s.events| == |s.trail|
    ensures var k, e, l := s.store.entries[id].ref, s.store.entries[id].entry, LedgerOf(s);
            && (exists i: nat :: Opens(l, i, k, id) && Audited(env.cfg, s, i))
            && (e.state == Pending || e.state == State.Indeterminate ==> NeverClosed(s.events, k))
            && (e.state == State.Indeterminate ==> Audit.Poisoned(s.log))
            && (e.state == Approved || e.state == State.Denied || e.state == Expired ==>
                  exists i: nat :: Closes(env, l, i, k, e) && Audited(env.cfg, s, i)
                                   && s.trail[i].core.action == (if e.state == Approved then Allowed else Action.Denied)
                                   && s.trail[i].core.envelopeID == e.envelope.id
                                   && forall j: nat :: j < |s.events| && s.events[j].Closing? && s.events[j].k == k ==> j == i)
            && (e.state == Approved || e.state == State.Denied ==> e.resolvedAt.Some? && e.resolvedAt.value < e.expiresAt)
            && (e.state == Expired ==> e.resolvedAt.Some? && e.expiresAt <= e.resolvedAt.value)
  {
    hide Audit.SystemInv, Audit.Up, Audited, NeverClosed, Codec.Lawful, Opens, Closes, TransitionTrace, History,
         Aligned;
    var k, e, l := s.store.entries[id].ref, s.store.entries[id].entry, LedgerOf(s);
    if Audit.Up(s.log) {
      TrailIsTheChain(env, s);
    }
    var i :| Opens(l, i, k, e.id);
    OpensInRange(l, i, k, e.id);
    ReservationIsAudited(env, s, i);
    if e.state == Approved || e.state == State.Denied || e.state == Expired {
      var j :| Closes(env, l, j, k, e);
      ClosesInRange(env, l, j, k, e);
      ClosesSays(env, l, j, k, e);
      ReservationIsAudited(env, s, j);
      OnlyOneClosing(s.events, s.next, j);
    }
  }

  lemma ClosesSays(env: Env, l: Ledger, i: int, k: nat, e: Entry)
    requires Closes(env, l, i, k, e)
    ensures l.records[i].core.action == (if e.state == Approved then Allowed else Action.Denied)
    ensures l.records[i].core.envelopeID == e.envelope.id
  {
  }

  lemma OpensInRange(l: Ledger, i: int, k: nat, id: string)
    requires Opens(l, i, k, id)
    ensures 0 <= i < |l.records| && i < |l.events| && l.events[i] == Opening(k)
  {
  }

  lemma ClosesInRange(env: Env, l: Ledger, i: int, k: nat, e: Entry)
    requires Closes(env, l, i, k, e)
    ensures 0 <= i < |l.records| && i < |l.events| && l.events[i] == Closing(k, e.state)
  {
  }

  lemma OnlyOneClosing(events: seq<Event>, next: nat, i: int)
    requires AtMostOnce(events, next) && 0 <= i < |events| && events[i].Closing?
    ensures forall j: nat :: j < |events| && events[j].Closing? && events[j].k == events[i].k ==> j == i
  {
  }

  /** A resolved entry never changes again: a step leaves it as it is or evicts it. */
  lemma ResolvedIsFinal(env: Env, s: Gate, a: Step, id: string)
    requires GateInv(env, s) && Enabled(env, s, a) && id in s.store.entries && Evictable(s.store.entries[id].entry.state)
    ensures Final(s, Next(env, s, a), id)
  {
    hide *;
    if a.Reserve? {
      ReserveKeepsFinal(env, s, a, id);
    } else if a.Resolve? || a.Reap? {
      TransitionKeepsFinal(env, s, a, id);
    } else {
      RequestKeepsFinal(env, s, a, id);
    }
  }

  /** As long as it is the same entry, it is as it was. */
  ghost predicate Final(s: Gate, s': Gate, id: string)
    requires id in s.store.entries
  {
    id in s'.store.entries && s'.store.entries[id].ref == s.store.entries[id].ref ==> s'.store.entries[id] == s.store.entries[id]
  }

  lemma ReserveKeepsFinal(env: Env, s: Gate, a: Step, id: string)
    requires GateInv(env, s) && Enabled(env, s, a) && id in s.store.entries && Evictable(s.store.entries[id].entry.state) && a.Reserve?
    ensures Final(s, Next(env, s, a), id)
  {
    hide Audit.SystemInv, AtMostOnce, Aligned, Gated, RefsDistinct, RequestsHold, Audit.Enabled;
  }

  lemma TransitionKeepsFinal(env: Env, s: Gate, a: Step, id: string)
    requires GateInv(env, s) && Enabled(env, s, a) && id in s.store.entries && Evictable(s.store.entries[id].entry.state)
    requires a.Resolve? || a.Reap?
    ensures Final(s, Next(env, s, a), id)
  {
    hide Audit.SystemInv, AtMostOnce, Aligned, AllGated, RefsDistinct, RequestsHold, LogAppend, TransitionTrace, Settle;
  }

  lemma RequestKeepsFinal(env: Env, s: Gate, a: Step, id: string)
    requires GateInv(env, s) && Enabled(env, s, a) && id in s.store.entries && Evictable(s.store.entries[id].entry.state)
    requires !a.Reserve? && !a.Resolve? && !a.Reap?
    ensures Final(s, Next(env, s, a), id)
  {
    hide Audit.SystemInv, AtMostOnce, Aligned, AllGated, RefsDistinct, LogAppend, Audit.Enabled, Audit.Next;
  }

  /** Request k still holds its reservation, and no one changed it. */
  ghost predicate Untouched(s: Gate, s': Gate, k: nat)
    requires k in s.requests
  {
    var id := s.requests[k].id;
    && k in s'.requests && s'.requests[k].id == id
    && Holds(s.store, k, id) && id in s'.store.entries && s'.store.entries[id] == s.store.entries[id]
  }

  lemma ReserveSpares(env: Env, s: Gate, a: Step, k: nat)
    requires GateInv(env, s) && Enabled(env, s, a) && k in s.requests && a.Reserve?
    ensures Untouched(s, Next(env, s, a), k)
  {
    hide Audit.SystemInv, AtMostOnce, Aligned, AllGated, RefsDistinct, WithinCap, Victim;
    EvictionSparesReservations(s.store, a.victim);
  }

  lemma TransitionSpares(env: Env, s: Gate, a: Step, k: nat)
    requires GateInv(env, s) && Enabled(env, s, a) && k in s.requests && (a.Resolve? || a.Reap?)
    ensures Untouched(s, Next(env, s, a), k)
  {
    hide Audit.SystemInv, AtMostOnce, Aligned, AllGated, RefsDistinct, WithinCap, LogAppend, TransitionTrace, Settle;
  }

  lemma RequestSpares(env: Env, s: Gate, a: Step, k: nat)
    requires GateInv(env, s) && Enabled(env, s, a) && k in s.requests && !a.Reserve? && !a.Resolve? && !a.Reap? && !a.LogStep?
    requires a != Step.Publish(k) && a != Step.Discard(k)
    ensures Untouched(s, Next(env, s, a), k)
  {
    hide Audit.SystemInv, AtMostOnce, Aligned, AllGated, RefsDistinct, WithinCap, LogAppend;
  }

  /** Between reserve and its own publish or discard, no step of anyone else
      resolves, publishes, evicts or changes a reservation, except the end of the
      process. */
  lemma ReservationIsUntouched(env: Env, s: Gate, a: Step, k: nat)
    requires GateInv(env, s) && Enabled(env, s, a) && k in s.requests && !a.LogStep?
    requires a != Step.Publish(k) && a != Step.Discard(k)
    ensures Untouched(s, Next(env, s, a), k)
  {
    hide *;
    if a.Reserve? {
      ReserveSpares(env, s, a, k);
    } else if a.Resolve? || a.Reap? {
      TransitionSpares(env, s, a, k);
    } else {
      RequestSpares(env, s, a, k);
    }
  }

  /** After its record succeeded a request always publishes: its entry is then
      pending. */
  lemma PublishSucceeds(env: Env, s: Gate, k: nat)
    requires GateInv(env, s) && Enabled(env, s, Step.Publish(k))
    ensures var s', id := Next(env, s, Step.Publish(k)), s.requests[k].id;
            && Holds(s.store, k, id)
            && id in s'.store.entries && s'.store.entries[id] == s.store.entries[id].(entry := s.store.entries[id].entry.(state := Pending))
  {
    hide Audit.SystemInv, AtMostOnce, Gated, RefsDistinct;
  }
}
