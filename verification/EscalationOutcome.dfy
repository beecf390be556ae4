/** What each step of the escalation store does to an entry, in terms of what was
    asked of it and of how its audit append went. */
module EscalationOutcome {
  import opened Bytes
  import opened Traces
  import opened ChainTheory
  import opened LogStream
  import opened AuditWriter
  import opened AuditSafety
  import opened AuditRecord
  import opened EscalationStore
  import opened EscalationGate
  import Audit = AuditSystem

  // ----- a decision -----

  /** The candidate c of a transition, after its record was appended. */
  lemma SettledBy(env: Env, s: Gate, id: string, c: Entry, traceID: string, at: int, f: Faults) returns (t: Trace, result: Result)
    requires Running(s, f) && id in s.store.entries && (c.state == Approved || c.state == State.Denied || c.state == Expired)
    ensures t == TransitionTrace(env.describe, c, traceID, at) && Audit.Enabled(env.cfg, s.log, Audit.DoAppend(t, true, f))
    ensures t.core.action == (if c.state == Approved then Allowed else Action.Denied) && t.core.envelopeID == c.envelope.id
    ensures t.core.traceID == traceID && t.core.timestamp == Some(at)
    ensures result == Audit.AppendBy(env.cfg, s.log, t, true, f).result
    ensures var s', slot := Transition(env, s, id, c, traceID, at, f), s.store.entries[id];
            && s'.log == Audit.Next(env.cfg, s.log, Audit.DoAppend(t, true, f))
            && id in s'.store.entries && s'.store == Store(s.store.entries[id := Slot(slot.ref, s'.store.entries[id].entry)], s.store.maxEntries)
            && s'.requests == s.requests && s'.next == s.next
            && var e' := s'.store.entries[id].entry;
               if result.Appended? then
                 && |s'.trail| == |s.trail| + 1 && s'.trail[..|s.trail|] == s.trail && s'.trail[|s.trail|].core == t.core
                 && e' == c.(receipt := if c.state == Expired then slot.entry.receipt
                                        else if Named(traceID) then Some(s'.trail[|s.trail|].hash) else None)
               else s'.trail == s.trail && e' == if result.Indeterminate? then c.(state := State.Indeterminate) else slot.entry
  {
    t := TransitionTrace(env.describe, c, traceID, at);
    var out := Audit.AppendBy(env.cfg, s.log, t, true, f);
    result := out.result;
    RecordSays(env.cfg, s.log.proc.value, t, true, f);
    HashedWhenAppended(env.cfg, s.log.proc.value, t, f);
    hide Append, Audit.Next, TransitionTrace;
    if result.Appended? {
      ReceiptNames(out.record, traceID, at);
    }
  }

  lemma HashedWhenAppended(cfg: Config, w: Writer, t: Trace, f: Faults)
    requires !w.poisoned ==> w.disk.active.Some?
    ensures var out := Append(cfg, w, t, true, f); out.result.Appended? ==> TraceHash(out.record) == Some(out.record.hash)
  {
    RecordSays(cfg, w, t, true, f);
    AnswersBefore(cfg, w, t, true, f);
    hide Append, TraceHash;
  }

  /** A decision takes a pending entry, before its deadline, to what the approver
      said, under the approver's name and reason, once a record that says so is
      acknowledged; when that record may or may not be in the log the entry is
      indeterminate, and otherwise it stays as it was. */
  lemma ResolveMeans(env: Env, s: Gate, a: Step) returns (t: Trace, result: Result)
    requires a.Resolve? && Enabled(env, s, a) && a.id in s.store.entries
    requires s.store.entries[a.id].entry.state == Pending && a.now < s.store.entries[a.id].entry.expiresAt
    ensures Audit.Enabled(env.cfg, s.log, Audit.DoAppend(t, true, a.f)) && result == Audit.AppendBy(env.cfg, s.log, t, true, a.f).result
    ensures t.core.action == (if a.approved then Allowed else Action.Denied)
    ensures t.core.envelopeID == s.store.entries[a.id].entry.envelope.id && t.core.traceID == a.traceID && t.core.timestamp == Some(a.at)
    ensures var s', slot := Next(env, s, a), s.store.entries[a.id];
            && s'.log == Audit.Next(env.cfg, s.log, Audit.DoAppend(t, true, a.f))
            && a.id in s'.store.entries && s'.store == Store(s.store.entries[a.id := Slot(slot.ref, s'.store.entries[a.id].entry)], s.store.maxEntries)
            && s'.requests == s.requests && s'.next == s.next
            && var e, e' := slot.entry, s'.store.entries[a.id].entry;
               if result.Appended? then
                 && |s'.trail| == |s.trail| + 1 && s'.trail[..|s.trail|] == s.trail && s'.trail[|s.trail|].core == t.core
                 && e' == Entry(e.id, if a.approved then Approved else State.Denied, e.createdAt, e.expiresAt, Some(a.now), a.approver, a.reason,
                                e.envelope, if Named(a.traceID) then Some(s'.trail[|s.trail|].hash) else None)
               else
                 && s'.trail == s.trail
                 && e' == if result.Indeterminate? then
                            Entry(e.id, State.Indeterminate, e.createdAt, e.expiresAt, Some(a.now), a.approver, a.reason, e.envelope, e.receipt)
                          else e
  {
    var e := s.store.entries[a.id].entry;
    var c := Entry(e.id, if a.approved then Approved else State.Denied, e.createdAt, e.expiresAt, Some(a.now), a.approver, a.reason, e.envelope, e.receipt);
    assert PrepareResolution(s.store, a.id, a.approver, a.reason, a.approved, a.now) == Attempt(c);
    t, result := SettledBy(env, s, a.id, c, a.traceID, a.at, a.f);
    hide Transition, Named;
  }

  /** An unknown or hidden id, an entry that is resolved, and one that is due, are
      left alone, and nothing is recorded. */
  lemma ResolveRefuses(env: Env, s: Gate, a: Step)
    requires a.Resolve? && Enabled(env, s, a)
    requires a.id in s.store.entries ==>
               s.store.entries[a.id].entry.state != Pending || a.now >= s.store.entries[a.id].entry.expiresAt
    ensures Next(env, s, a) == s
  {
    hide Audit.Up, Audit.Poisoned, Transition;
  }

  /** The reaper takes a pending entry that is due to expired, under a record that
      denies, or leaves it pending, or indeterminate. */
  lemma ReapMeans(env: Env, s: Gate, a: Step) returns (t: Trace, result: Result)
    requires a.Reap? && Enabled(env, s, a) && a.id in s.store.entries
    requires s.store.entries[a.id].entry.state == Pending && s.store.entries[a.id].entry.expiresAt <= a.now
    ensures Audit.Enabled(env.cfg, s.log, Audit.DoAppend(t, true, a.f)) && result == Audit.AppendBy(env.cfg, s.log, t, true, a.f).result
    ensures t.core.action == Action.Denied && t.core.envelopeID == s.store.entries[a.id].entry.envelope.id
    ensures t.core.traceID == a.traceID && t.core.timestamp == Some(a.at)
    ensures var s', slot := Next(env, s, a), s.store.entries[a.id];
            && s'.log == Audit.Next(env.cfg, s.log, Audit.DoAppend(t, true, a.f))
            && a.id in s'.store.entries && s'.store == Store(s.store.entries[a.id := Slot(slot.ref, s'.store.entries[a.id].entry)], s.store.maxEntries)
            && s'.requests == s.requests && s'.next == s.next
            && var e, e' := slot.entry, s'.store.entries[a.id].entry;
               if result.Appended? then
                 && |s'.trail| == |s.trail| + 1 && s'.trail[..|s.trail|] == s.trail && s'.trail[|s.trail|].core == t.core
                 && e' == Entry(e.id, Expired, e.createdAt, e.expiresAt, Some(a.now), e.approver, e.reason, e.envelope, e.receipt)
               else
                 && s'.trail == s.trail
                 && e' == if result.Indeterminate? then
                            Entry(e.id, State.Indeterminate, e.createdAt, e.expiresAt, Some(a.now), e.approver, e.reason, e.envelope, e.receipt)
                          else e
  {
    var e := s.store.entries[a.id].entry;
    var c := Entry(e.id, Expired, e.createdAt, e.expiresAt, Some(a.now), e.approver, e.reason, e.envelope, e.receipt);
    assert PrepareExpiry(s.store, a.id, a.now) == Attempt(c);
    t, result := SettledBy(env, s, a.id, c, a.traceID, a.at, a.f);
    hide Transition, Named;
  }

  /** What is not pending, or not yet due, does not expire. */
  lemma ReapSpares(env: Env, s: Gate, a: Step)
    requires a.Reap? && Enabled(env, s, a)
    requires a.id in s.store.entries ==> s.store.entries[a.id].entry.state != Pending || a.now < s.store.entries[a.id].entry.expiresAt
    ensures Next(env, s, a) == s
  {
    hide Audit.Up, Audit.Poisoned, Transition;
  }

  // ----- a request -----

  /** A request reserves its id, hidden and with its deadline, unless the id is taken
      or the store is full of entries that still wait; a full store gives up a
      resolved entry for it, an oldest one, and nothing else. */
  lemma ReserveMeans(env: Env, s: Gate, a: Step)
    requires a.Reserve? && Enabled(env, s, a)
    ensures var s', entries, full := Next(env, s, a), s.store.entries, |s.store.entries| >= s.store.maxEntries;
            if a.env.id in entries || (full && NoneResolved(entries)) then s' == s
            else
              && (full ==> a.victim.Some? && OldestResolved(entries, a.victim.value))
              && s'.store == Store((if full then entries - {a.victim.value} else entries)[a.env.id := Slot(s.next,
                   Entry(a.env.id, Registering, a.now, a.now + (if a.timeoutMinutes < 1 then 15 else a.timeoutMinutes) * 60_000_000_000, None, "", "", a.env, None))],
                   s.store.maxEntries)
              && s'.requests == s.requests[s.next := Request(a.env.id, Reserved)] && s'.next == s.next + 1
              && s'.log == s.log && s'.trail == s.trail && s'.events == s.events
  {
    EvictsOldest(s.store, a.victim);
    hide Audit.Up, Audit.Poisoned, Evicts, OldestResolved, NoneResolved;
  }

  /** The record of a request goes into the log before anyone sees its entry. */
  lemma RecordMeans(env: Env, s: Gate, a: Step)
    requires a.Record? && Enabled(env, s, a)
    ensures Audit.Enabled(env.cfg, s.log, Audit.DoAppend(a.t, true, a.f))
    ensures var s', out := Next(env, s, a), Audit.AppendBy(env.cfg, s.log, a.t, true, a.f);
            && s'.store == s.store && s'.next == s.next && s'.log == Audit.Next(env.cfg, s.log, Audit.DoAppend(a.t, true, a.f))
            && s'.requests == s.requests[a.k := Request(s.requests[a.k].id, if out.result.Appended? then Recorded else Failed)]
            && if out.result.Appended? then
                 && |s'.trail| == |s.trail| + 1 && s'.trail[..|s.trail|] == s.trail && s'.trail[|s.trail|].core == a.t.core
                 && s'.events == s.events + [Opening(a.k)]
               else s'.trail == s.trail && s'.events == s.events
  {
    RecordSays(env.cfg, s.log.proc.value, a.t, true, a.f);
    hide Append, Audit.Next;
  }

  /** Publishing makes exactly this reservation pending. */
  lemma PublishMeans(env: Env, s: Gate, a: Step)
    requires a.Publish? && Enabled(env, s, a) && RequestsHold(s)
    ensures var id := s.requests[a.k].id;
            && id in s.store.entries && s.store.entries[id].ref == a.k && s.store.entries[id].entry.state == Registering
            && var e, s' := s.store.entries[id].entry, Next(env, s, a);
               && s'.requests == s.requests - {a.k} && s'.log == s.log && s'.trail == s.trail && s'.events == s.events && s'.next == s.next
               && s'.store == Store(s.store.entries[id := Slot(a.k, Entry(e.id, Pending, e.createdAt, e.expiresAt, e.resolvedAt, e.approver, e.reason,
                                                                         e.envelope, e.receipt))], s.store.maxEntries)
  {
    hide Audit.Up, Audit.Poisoned;
  }

  /** Discarding takes away exactly this reservation. */
  lemma DiscardMeans(env: Env, s: Gate, a: Step)
    requires a.Discard? && Enabled(env, s, a) && RequestsHold(s)
    ensures var id, s' := s.requests[a.k].id, Next(env, s, a);
            && id in s.store.entries && s.store.entries[id].ref == a.k && s.store.entries[id].entry.state == Registering
            && s'.requests == s.requests - {a.k} && s'.log == s.log && s'.trail == s.trail && s'.events == s.events && s'.next == s.next
            && s'.store == Store(s.store.entries - {id}, s.store.maxEntries)
  {
    hide Audit.Up, Audit.Poisoned;
  }
}
