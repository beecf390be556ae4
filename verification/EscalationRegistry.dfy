/** escalationStore as an object: a map of shared entries changed in place, each
    transition holding the store while the audit log is written. */
module EscalationRegistry {
  import opened Bytes
  import opened Traces
  import opened AuditDisk
  import opened AuditWriter
  import opened AuditLog
  import opened EscalationStore

  class Escalation {
    var id: string
    var state: State
    var createdAt: int
    var expiresAt: int
    var resolvedAt: Option<int>
    var approver: string
    var reason: string
    var envelope: Envelope
    var receipt: Option<Hash>

    function Snapshot(): Entry
      reads this
    {
      Entry(id, state, createdAt, expiresAt, resolvedAt, approver, reason, envelope, receipt)
    }

    constructor (env: Envelope, timeoutMinutes: int, now: int)
      ensures Snapshot() == NewEntry(env, timeoutMinutes, now)
    {
      id, state, createdAt, resolvedAt, approver, reason, envelope, receipt := env.id, Registering, now, None, "", "", env, None;
      expiresAt := now + (if timeoutMinutes < 1 then DEFAULT_TIMEOUT else timeoutMinutes) * MINUTE;
    }

    /** *e = candidate. */
    method Assign(e: Entry)
      modifies this
      ensures Snapshot() == e
    {
      id, state, createdAt, expiresAt := e.id, e.state, e.createdAt, e.expiresAt;
      resolvedAt, approver, reason, envelope, receipt := e.resolvedAt, e.approver, e.reason, e.envelope, e.receipt;
    }
  }

  datatype ResolveError = NoError | PastDueError | AuditFailed(result: Result)

  /** The parameters of one expiry record, and the faults its append meets. */
  datatype Call = Call(traceID: string, at: int, f: Faults)

  predicate Ready(w: Writer) {
    !w.poisoned ==> w.disk.active.Some? && w.handle == OnActive
  }

  lemma AppendStaysReady(cfg: Config, w: Writer, t: Trace, force: bool, f: Faults)
    requires Ready(w)
    ensures Ready(Append(cfg, w, t, force, f).writer)
  {
    hide Stamped, SyncFile, Truncate, FirstFree, Clamp;
  }

  /** A pass of the reaper so far. */
  datatype Reaped<R> = Reaped(store: Store<R>, writer: Writer, expired: seq<Entry>, failures: seq<(Entry, Result)>)

  function ReapOne<R>(cfg: Config, describe: Describe, calls: string -> Call, now: int, r: Reaped<R>, id: string): (r': Reaped<R>)
    requires Ready(r.writer)
    ensures Ready(r'.writer)
  {
    match PrepareExpiry(r.store, id, now)
    case Attempt(c) =>
      AppendStaysReady(cfg, r.writer, TransitionTrace(describe, c, calls(id).traceID, calls(id).at), true, calls(id).f);
      var out := Append(cfg, r.writer, TransitionTrace(describe, c, calls(id).traceID, calls(id).at), true, calls(id).f);
      var e := Settle(r.store.entries[id].entry, c, out.record, out.result);
      Reaped(Put(r.store, id, e), out.writer,
             if out.result.Appended? then r.expired + [e] else r.expired,
             if out.result.Appended? then r.failures else r.failures + [(e, out.result)])
    case _ => r
  }

  /** reapExpiredAudited visiting the entries in `order`. */
  function ReapAll<R>(cfg: Config, describe: Describe, calls: string -> Call, now: int, s: Store<R>, w: Writer, order: seq<string>): (r: Reaped<R>)
    requires Ready(w)
    ensures Ready(r.writer)
    decreases |order|
  {
    if order == [] then Reaped(s, w, [], [])
    else
      var n := |order| - 1;
      ReapOne(cfg, describe, calls, now, ReapAll(cfg, describe, calls, now, s, w, order[..n]), order[n])
  }

  /** The reaper on one entry: one that is pending and due expires once a record that
      denies it is acknowledged, and is reported as expired; otherwise the failure is. */
  lemma ReapOneMeans<R>(cfg: Config, describe: Describe, calls: string -> Call, now: int, r: Reaped<R>, id: string) returns (t: Trace)
    requires Ready(r.writer) && id in r.store.entries
    ensures var e, r' := r.store.entries[id].entry, ReapOne(cfg, describe, calls, now, r, id);
            if e.state != Pending || now < e.expiresAt then r' == r
            else
              var out := Append(cfg, r.writer, t, true, calls(id).f);
              && t.core.action == Action.Denied && t.core.envelopeID == e.envelope.id
              && t.core.traceID == calls(id).traceID && t.core.timestamp == Some(calls(id).at)
              && r'.writer == out.writer && id in r'.store.entries
              && r'.store == r.store.(entries := r.store.entries[id := Slot(r.store.entries[id].ref, r'.store.entries[id].entry)])
              && r'.store.entries[id].entry ==
                 (if out.result.Appended? then Entry(e.id, Expired, e.createdAt, e.expiresAt, Some(now), e.approver, e.reason, e.envelope, e.receipt)
                  else if out.result.Indeterminate? then
                    Entry(e.id, State.Indeterminate, e.createdAt, e.expiresAt, Some(now), e.approver, e.reason, e.envelope, e.receipt)
                  else e)
              && r'.expired == (if out.result.Appended? then r.expired + [r'.store.entries[id].entry] else r.expired)
              && r'.failures == (if out.result.Appended? then r.failures else r.failures + [(r'.store.entries[id].entry, out.result)])
  {
    var e := r.store.entries[id].entry;
    var c := e.(state := Expired, resolvedAt := Some(now));
    t := TransitionTrace(describe, c, calls(id).traceID, calls(id).at);
    TransitionSays(describe, c, calls(id).traceID, calls(id).at);
    hide Append, TransitionTrace, ReceiptFor;
  }

  /** After a pass, an entry that is still pending though due had its failure
      reported; every other visited entry that was due has left pending. */
  lemma {:induction false} NothingDueIsForgotten<R>(cfg: Config, describe: Describe, calls: string -> Call, now: int, s: Store<R>, w: Writer,
                                                    order: seq<string>, id: string)
    requires Ready(w) && id in s.entries && forall x :: x in s.entries ==> s.entries[x].entry.id == x
    ensures var r := ReapAll(cfg, describe, calls, now, s, w, order);
            && r.store.entries.Keys == s.entries.Keys && r.store.entries[id].entry.id == id
            && var e, e' := s.entries[id].entry, r.store.entries[id].entry;
               && (id in order && e'.state == Pending && now >= e'.expiresAt ==> exists i :: 0 <= i < |r.failures| && r.failures[i].0 == e)
               && (r.store.entries[id] == s.entries[id]
                   || (id in order && e.state == Pending && now >= e.expiresAt
                       && (e'.state == Expired || e'.state == State.Indeterminate)
                       && e' == Entry(e.id, e'.state, e.createdAt, e.expiresAt, Some(now), e.approver, e.reason, e.envelope, e.receipt)))
    decreases |order|
  {
    hide Append, TransitionTrace;
    if order != [] {
      var n := |order| - 1;
      assert order == order[..n] + [order[n]];
      NothingDueIsForgotten(cfg, describe, calls, now, s, w, order[..n], id);
      var before := ReapAll(cfg, describe, calls, now, s, w, order[..n]);
      var r := ReapAll(cfg, describe, calls, now, s, w, order);
      assert forall i :: 0 <= i < |before.failures| ==> r.failures[i] == before.failures[i];
      if order[n] == id && r.store.entries[id].entry.state == Pending && now >= r.store.entries[id].entry.expiresAt {
        assert r.failures[|r.failures| - 1].0 == s.entries[id].entry;
      }
    }
  }

  lemma SomeID(ids: set<string>)
    requires ids != {}
    ensures exists id :: id in ids
  {
    assert (forall id :: id !in ids) ==> ids == {};
  }

  lemma SameSize(a: map<string, Escalation>, b: map<string, Slot<Escalation>>)
    requires a.Keys == b.Keys
    ensures |a| == |b|
  {
    assert |a| == |a.Keys| && |b| == |b.Keys|;
  }

  lemma NoVictimNoRoom(s: Store<Escalation>, victim: Option<string>)
    requires Evicts(s, victim)
    ensures victim == None <==> |s.entries| < s.maxEntries || NoneEvictable(s)
  {
  }

  lemma PutSame(s: Store<Escalation>, id: string)
    requires id in s.entries
    ensures Put(s, id, s.entries[id].entry) == s
  {
    assert s.entries[id := s.entries[id]] == s.entries;
  }

  lemma ReserveEnters(s: Store<Escalation>, e: Escalation, env: Envelope, timeoutMinutes: int, now: int, victim: Option<string>)
    requires env.id !in s.entries && (|s.entries| >= s.maxEntries ==> victim.Some?)
    ensures var room := if |s.entries| >= s.maxEntries && victim.Some? then s.entries - {victim.value} else s.entries;
            EscalationStore.Reserve(s, e, env, timeoutMinutes, now, victim) ==
            Some(s.(entries := room[env.id := Slot(e, NewEntry(env, timeoutMinutes, now))]))
  {
    hide NewEntry;
  }

  class Registry {
    var entries: map<string, Escalation>
    const maxEntries: int

    /** Every entry is filed under its own id, so no object is filed twice. */
    ghost predicate Valid()
      reads this, entries.Values
    {
      forall id :: id in entries ==> entries[id].id == id
    }

    function View(): Store<Escalation>
      reads this, entries.Values
    {
      Store(map id | id in entries :: Slot(entries[id], entries[id].Snapshot()), maxEntries)
    }

    constructor (maxEntries: int)
      ensures Valid() && View() == Store(map[], maxEntries)
    {
      this.entries, this.maxEntries := map[], maxEntries;
    }

    /** evictOldestResolvedLocked. */
    method EvictOldestResolved() returns (evicted: bool, ghost victim: Option<string>)
      requires Valid()
      modifies this`entries
      ensures Valid()
      ensures if NoneEvictable(old(View())) then !evicted && victim == None && View() == old(View())
              else evicted && victim.Some? && Victim(old(View()), victim.value)
                   && View() == old(View()).(entries := old(View()).entries - {victim.value})
      ensures if NoneResolved(old(View()).entries) then !evicted && entries == old(entries)
              else evicted && victim.Some? && OldestResolved(old(View()).entries, victim.value) && entries == old(entries) - {victim.value}
    {
      VictimsAreOldest(View());
      hide OldestResolved, NoneResolved;
      var oldest: Option<string>, age := None, 0;
      var todo := entries.Keys;
      while todo != {}
        invariant entries == old(entries) && todo <= entries.Keys
        invariant oldest.None? ==> forall x :: x in entries.Keys - todo ==> !Evictable(entries[x].state)
        invariant oldest.Some? ==>
                    && oldest.value in entries && Evictable(entries[oldest.value].state) && age == Age(entries[oldest.value].Snapshot())
                    && forall x :: x in entries.Keys - todo && Evictable(entries[x].state) ==> age <= Age(entries[x].Snapshot())
      {
        SomeID(todo);
        var id :| id in todo;
        todo := todo - {id};
        var e := entries[id];
        if e.state != Pending && e.state != Registering {
          var t := if e.resolvedAt.Some? then e.resolvedAt.value else e.createdAt;
          if oldest.None? || t < age {
            oldest, age := Some(id), t;
          }
        }
      }
      victim := oldest;
      if oldest.None? {
        return false, None;
      }
      assert Evictable(View().entries[oldest.value].entry.state);
      entries := entries - {oldest.value};
      return true, oldest;
    }

    /** At the cap, room is made by evicting, or not at all. */
    method MakeRoom() returns (ok: bool, ghost victim: Option<string>)
      requires Valid()
      modifies this`entries
      ensures Valid() && Evicts(old(View()), victim)
      ensures ok <==> |old(View()).entries| < maxEntries || !NoneEvictable(old(View()))
      ensures View() == if |old(View()).entries| >= maxEntries && victim.Some? then old(View()).(entries := old(View()).entries - {victim.value}) else old(View())
      ensures entries == if |old(entries)| >= maxEntries && victim.Some? then old(entries) - {victim.value} else old(entries)
    {
      hide Victim, NoneEvictable, Evictable;
      SameSize(entries, View().entries);
      ok, victim := true, None;
      if |entries| >= maxEntries {
        ok, victim := EvictOldestResolved();
      }
    }

    method Reserve(env: Envelope, timeoutMinutes: int, now: int) returns (e: Escalation?, ghost victim: Option<string>)
      requires Valid()
      modifies this`entries
      ensures Valid()
      ensures env.id in old(entries) ==> victim == None
      ensures env.id !in old(entries) ==> Evicts(old(View()), victim)
      ensures e != null <==> CanReserve(old(View()), env.id)
      ensures if e == null then View() == old(View())
              else fresh(e) && EscalationStore.Reserve(old(View()), e, env, timeoutMinutes, now, victim) == Some(View())
      ensures e == null <==> env.id in old(entries) || (|old(entries)| >= maxEntries && NoneResolved(old(View()).entries))
      ensures e != null ==>
                && env.id in entries && entries[env.id] == e
                && e.Snapshot() == Entry(env.id, Registering, now, now + (if timeoutMinutes < 1 then 15 else timeoutMinutes) * 60_000_000_000,
                                         None, "", "", env, None)
                && (|old(entries)| >= maxEntries ==> victim.Some? && OldestResolved(old(View()).entries, victim.value))
                && entries == (if |old(entries)| >= maxEntries then old(entries) - {victim.value} else old(entries))[env.id := e]
    {
      NewEntryIs(env, timeoutMinutes, now);
      SameSize(entries, View().entries);
      ReservesWhen(View(), env.id);
      hide Evicts, NoneEvictable, OldestResolved, NoneResolved, NewEntry;
      ghost var before := View();
      victim := None;
      var made := new Escalation(env, timeoutMinutes, now);
      assert View() == before;
      if made.id in entries {
        return null, None;
      }
      var ok;
      ok, victim := MakeRoom();
      if !ok {
        NoVictimNoRoom(before, victim);
        return null, victim;
      }
      NoVictimNoRoom(before, victim);
      EvictsOldest(before, victim);
      assert made.id !in View().entries;
      ReserveEnters(before, made, env, timeoutMinutes, now, victim);
      hide EscalationStore.Reserve;
      Enter(made);
      return made, victim;
    }

    method Enter(made: Escalation)
      requires Valid() && made.id !in entries
      modifies this`entries
      ensures Valid()
      ensures View() == old(View()).(entries := old(View()).entries[made.id := Slot(made, made.Snapshot())])
      ensures entries == old(entries)[made.id := made]
    {
      entries := entries[made.id := made];
    }

    method PublishReserved(expected: Escalation?) returns (ok: bool)
      requires Valid()
      modifies if expected == null then {} else {expected}
      ensures Valid() && entries == old(entries)
      ensures if expected == null then !ok && View() == old(View())
              else ok == Holds(old(View()), expected, old(expected.id))
                   && View() == Publish(old(View()), expected, old(expected.id))
      ensures ok <==> expected != null && old(expected.id) in entries && entries[old(expected.id)] == expected && old(expected.state) == Registering
      ensures expected != null ==> expected.Snapshot() == if ok then old(expected.Snapshot()).(state := Pending) else old(expected.Snapshot())
    {
      if expected == null {
        return false;
      }
      if expected.id !in entries || entries[expected.id] != expected || expected.state != Registering {
        return false;
      }
      expected.state := Pending;
      return true;
    }

    method DiscardReserved(expected: Escalation?) returns (ok: bool)
      requires Valid()
      modifies this`entries
      ensures Valid()
      ensures if expected == null then !ok && View() == old(View())
              else ok == Holds(old(View()), expected, expected.id)
                   && View() == Discard(old(View()), expected, expected.id)
      ensures ok <==> expected != null && expected.id in old(entries) && old(entries)[expected.id] == expected && expected.state == Registering
      ensures entries == if ok then old(entries) - {expected.id} else old(entries)
    {
      if expected == null {
        return false;
      }
      if expected.id !in entries || entries[expected.id] != expected || expected.state != Registering {
        return false;
      }
      entries := entries - {expected.id};
      return true;
    }

    /** Reservations are invisible to pollers. */
    method Get(id: string) returns (e: Option<Entry>)
      requires Valid()
      ensures e == if id in entries && entries[id].state != Registering then Some(View().entries[id].entry) else None
    {
      if id in entries && entries[id].state != Registering {
        return Some(entries[id].Snapshot());
      }
      return None;
    }

    method Update(id: string, e: Entry)
      requires Valid() && id in entries && e.id == id
      modifies entries[id]
      ensures Valid() && View() == Put(old(View()), id, e) && entries[id].Snapshot() == e
    {
      entries[id].Assign(e);
    }

    /** resolveAudited with the callback of the approve and deny handlers. */
    method ResolveAudited(id: string, approver: string, reason: string, approved: bool, now: int,
                          p: Proxy, describe: Describe, traceID: string, at: int, f: Faults)
      returns (snapshot: Option<Entry>, ok: bool, error: ResolveError)
      requires Valid() && Ready(p.State())
      modifies entries.Values, p
      ensures Valid() && entries == old(entries)
      ensures match PrepareResolution(old(View()), id, approver, reason, approved, now)
              case NotFound => (snapshot, ok, error) == (None, false, NoError) && View() == old(View()) && p.State() == old(p.State())
              case AlreadyResolved =>
                && (snapshot, ok, error) == (Some(old(View()).entries[id].entry), false, NoError)
                && View() == old(View()) && p.State() == old(p.State())
              case PastDue =>
                && (snapshot, ok, error) == (Some(old(View()).entries[id].entry), false, PastDueError)
                && View() == old(View()) && p.State() == old(p.State())
              case Attempt(candidate) =>
                var out := Append(p.cfg, old(p.State()), TransitionTrace(describe, candidate, traceID, at), true, f);
                var e := Settle(old(View()).entries[id].entry, candidate, out.record, out.result);
                && p.State() == out.writer && View() == Put(old(View()), id, e)
                && (snapshot, ok, error) == (Some(e), out.result.Appended?, if out.result.Appended? then NoError else AuditFailed(out.result))
      // In plain terms: an unknown or hidden id, an entry that is resolved and one
      // past due are left alone; any other gets what the approver said.
      ensures id !in old(entries) || old(entries[id].state) == Registering ==>
                (snapshot, ok, error) == (None, false, NoError) && View() == old(View()) && p.State() == old(p.State())
      ensures id in old(entries) && Resolved(old(entries[id].Snapshot())) ==>
                && (snapshot, ok, error) == (Some(old(entries[id].Snapshot())), false, NoError)
                && View() == old(View()) && p.State() == old(p.State())
      ensures id in old(entries) && old(entries[id].state) == Pending && now >= old(entries[id].expiresAt) ==>
                && (snapshot, ok, error) == (Some(old(entries[id].Snapshot())), false, PastDueError)
                && View() == old(View()) && p.State() == old(p.State())
      ensures id in old(entries) && old(entries[id].state) == Pending && now < old(entries[id].expiresAt) ==>
                var e := old(entries[id].Snapshot());
                && snapshot.Some? && View() == old(View()).(entries := old(View()).entries[id := Slot(entries[id], snapshot.value)])
                && (ok <==> error == NoError) && (!ok <==> error.AuditFailed?)
                && (ok ==>
                      && p.lastHash.Sha256? && p.lastHash.of.core.action == (if approved then Allowed else Action.Denied)
                      && p.lastHash.of.core.envelopeID == e.envelope.id && p.lastHash.of.core.traceID == traceID
                      && p.lastHash.of.core.timestamp == Some(at)
                      && snapshot.value == Entry(e.id, if approved then Approved else State.Denied, e.createdAt, e.expiresAt, Some(now),
                                                 approver, reason, e.envelope, if Named(traceID) then Some(p.lastHash) else None))
                && (!ok ==>
                      snapshot.value == if error.result.Indeterminate? then
                                          Entry(e.id, State.Indeterminate, e.createdAt, e.expiresAt, Some(now), approver, reason, e.envelope, e.receipt)
                                        else e)
    {
      hide Append, TransitionTrace, ReceiptFor, Named;
      if id !in entries || entries[id].state == Registering {
        return None, false, NoError;
      }
      var e := entries[id];
      if e.state != Pending {
        return Some(e.Snapshot()), false, NoError;
      }
      if now >= e.expiresAt {
        return Some(e.Snapshot()), false, PastDueError;
      }
      var candidate := e.Snapshot().(resolvedAt := Some(now), approver := approver, reason := reason,
                                     state := if approved then Approved else State.Denied);
      snapshot, ok, error := Resolve(id, candidate, p, describe, traceID, at, f);
    }

    /** Append the record of the candidate, and settle the entry by the result. */
    method Resolve(id: string, candidate: Entry, p: Proxy, describe: Describe, traceID: string, at: int, f: Faults)
      returns (snapshot: Option<Entry>, ok: bool, error: ResolveError)
      requires Valid() && Ready(p.State()) && id in entries && candidate.id == id && candidate.state != Expired
      modifies entries[id], p
      ensures Valid()
      ensures var out := Append(p.cfg, old(p.State()), TransitionTrace(describe, candidate, traceID, at), true, f);
              var e := Settle(old(View()).entries[id].entry, candidate, out.record, out.result);
              && p.State() == out.writer && View() == Put(old(View()), id, e)
              && (snapshot, ok, error) == (Some(e), out.result.Appended?, if out.result.Appended? then NoError else AuditFailed(out.result))
      ensures ok ==>
                && p.lastHash.Sha256? && p.lastHash.of.core.action == (if candidate.state == Approved then Allowed else Action.Denied)
                && p.lastHash.of.core.envelopeID == candidate.envelope.id && p.lastHash.of.core.traceID == traceID
                && p.lastHash.of.core.timestamp == Some(at)
                && snapshot.value == candidate.(receipt := if Named(traceID) then Some(p.lastHash) else None)
    {
      TransitionSays(describe, candidate, traceID, at);
      hide Append, TransitionTrace, ReceiptFor, Named, Put, TraceHash;
      ghost var view := View();
      var result, record := p.AppendTrace(TransitionTrace(describe, candidate, traceID, at), true, f);
      assert View() == view;
      if result.Appended? {
        HashNames(record);
        ReceiptNames(record, traceID, at);
      }
      snapshot, ok, error := SettleEntry(id, candidate, record, result);
    }

    /** What the result of the append makes of the entry. */
    method SettleEntry(id: string, candidate: Entry, record: Trace, result: Result)
      returns (snapshot: Option<Entry>, ok: bool, error: ResolveError)
      requires Valid() && id in entries && candidate.id == id && candidate.state != Expired
      modifies entries[id]
      ensures Valid()
      ensures var e := Settle(old(View()).entries[id].entry, candidate, record, result);
              && View() == Put(old(View()), id, e)
              && (snapshot, ok, error) == (Some(e), result.Appended?, if result.Appended? then NoError else AuditFailed(result))
    {
      hide ReceiptFor, Put;
      var e := entries[id];
      if result.Appended? {
        Update(id, candidate.(receipt := ReceiptFor(record)));
        return Some(e.Snapshot()), true, NoError;
      }
      if result.Indeterminate? {
        Update(id, candidate.(state := State.Indeterminate));
        return Some(e.Snapshot()), false, AuditFailed(result);
      }
      PutSame(View(), id);
      return Some(e.Snapshot()), false, AuditFailed(result);
    }

    /** reapExpiredAudited: one pass over the map. */
    method ReapExpiredAudited(now: int, p: Proxy, describe: Describe, calls: string -> Call)
      returns (expired: seq<Entry>, failures: seq<(Entry, Result)>, ghost order: seq<string>)
      requires Valid() && Ready(p.State())
      modifies entries.Values, p
      ensures Valid() && entries == old(entries)
      ensures (forall id :: id in order <==> id in entries) && forall i, j :: 0 <= i < j < |order| ==> order[i] != order[j]
      ensures Reaped(View(), p.State(), expired, failures) == ReapAll(p.cfg, describe, calls, now, old(View()), old(p.State()), order)
    {
      hide Append, TransitionTrace, ReceiptFor;
      expired, failures, order := [], [], [];
      var todo := entries.Keys;
      while todo != {}
        invariant Valid() && entries == old(entries) && todo <= entries.Keys
        invariant forall id :: id in order <==> id in entries && id !in todo
        invariant forall i, j :: 0 <= i < j < |order| ==> order[i] != order[j]
        invariant Reaped(View(), p.State(), expired, failures) == ReapAll(p.cfg, describe, calls, now, old(View()), old(p.State()), order)
        invariant Ready(p.State())
      {
        SomeID(todo);
        var id :| id in todo;
        todo := todo - {id};
        assert (order + [id])[..|order|] == order;
        order := order + [id];
        expired, failures := ReapEntry(id, now, p, describe, calls, expired, failures);
      }
    }

    method ReapEntry(id: string, now: int, p: Proxy, describe: Describe, calls: string -> Call, expired0: seq<Entry>, failures0: seq<(Entry, Result)>)
      returns (expired: seq<Entry>, failures: seq<(Entry, Result)>)
      requires Valid() && id in entries && Ready(p.State())
      modifies entries[id], p
      ensures Valid()
      ensures Reaped(View(), p.State(), expired, failures) ==
              ReapOne(p.cfg, describe, calls, now, Reaped(old(View()), old(p.State()), expired0, failures0), id)
    {
      hide Append, TransitionTrace, ReceiptFor;
      expired, failures := expired0, failures0;
      var e := entries[id];
      if e.state == Pending && now >= e.expiresAt {
        var candidate := e.Snapshot().(state := Expired, resolvedAt := Some(now));
        ghost var view := View();
        var result, record := p.AppendTrace(TransitionTrace(describe, candidate, calls(id).traceID, calls(id).at), true, calls(id).f);
        assert View() == view;
        if !result.Appended? {
          if result.Indeterminate? {
            Update(id, candidate.(state := State.Indeterminate));
          }
          failures := failures + [(e.Snapshot(), result)];
        } else {
          Update(id, candidate);
          expired := expired + [e.Snapshot()];
        }
      }
    }

    /** attachResolutionReceipt: only to the very transition the caller saw. */
    method AttachResolutionReceipt(id: string, state: State, resolvedAt: int, receipt: Option<Hash>) returns (snapshot: Option<Entry>)
      requires Valid()
      modifies entries.Values
      ensures Valid() && entries == old(entries)
      ensures var s := old(View());
              if receipt.Some? && id in s.entries && s.entries[id].entry.state == state && s.entries[id].entry.resolvedAt == Some(resolvedAt)
              then View() == Put(s, id, s.entries[id].entry.(receipt := receipt)) && snapshot == Some(View().entries[id].entry)
              else View() == s && snapshot == None
    {
      if receipt.None? {
        return None;
      }
      if id !in entries || entries[id].state != state || entries[id].resolvedAt != Some(resolvedAt) {
        return None;
      }
      entries[id].receipt := receipt;
      return Some(entries[id].Snapshot());
    }
  }

  /** applyOperationalDeny and syncResultOutcomeToTrace. */
  function Denial(t: Trace, d: Details): Trace {
    t.(core := t.core.(action := Action.Denied, content := d.content), applied := d.applied)
  }

  predicate PoisonError(r: Result) {
    r.PoisonedWriter? || r.Indeterminate?
  }

  datatype Answer = Answer(action: Action, receipt: Option<Hash>, writer: Writer)

  /** The answer and the writer of a request: `reserved` says whether it got its
      reservation. */
  function AnswerFor(cfg: Config, w: Writer, t: Trace, d: Details, reserved: bool, provenanceOk: bool, f: Faults, retry: Faults): Answer
    requires Ready(w)
  {
    if !reserved then
      if provenanceOk then Deny(cfg, w, Denial(t, d), false, f) else Answer(Action.Denied, None, w)
    else if !provenanceOk then Deny(cfg, w, Denial(t, d), true, retry)
    else
      AppendStaysReady(cfg, w, t, true, f);
      var first := Append(cfg, w, t, true, f);
      if first.result.Appended? then Answer(Escalated, ReceiptFor(first.record), first.writer)
      else if PoisonError(first.result) then Answer(Action.Denied, None, first.writer)
      else Deny(cfg, first.writer, Denial(first.record, d), true, retry)
  }

  /** A deny and its best-effort record. */
  function Deny(cfg: Config, w: Writer, t: Trace, force: bool, f: Faults): Answer
    requires Ready(w)
  {
    var out := Append(cfg, w, t, force, f);
    Answer(Action.Denied, if out.result.Appended? then ReceiptFor(out.record) else None, out.writer)
  }

  lemma AppendedNames(cfg: Config, w: Writer, t: Trace, force: bool, f: Faults)
    requires Ready(w)
    ensures var out := Append(cfg, w, t, force, f);
            && (out.result.Appended? ==>
                  && TraceHash(out.record) == Some(out.record.hash) && out.writer.lastHash == out.record.hash && out.record.hash.Sha256?
                  && out.record.hash.of.core == t.core && out.record.core == t.core
                  && ReceiptFor(out.record) == if t.core.timestamp.Some? && Named(t.core.traceID) then Some(out.writer.lastHash) else None)
            && (!out.result.Appended? ==> out.writer.lastHash == w.lastHash || out.result.Indeterminate?)
            && (out.result.Indeterminate? ==> out.writer.poisoned)
            && out.record.core == t.core
  {
    AppendedSays(cfg, w, t, force, f);
    var out := Append(cfg, w, t, force, f);
    KeepsTail(cfg, w, t, force, f);
    hide Append, Named, TraceHash;
    if out.result.Appended? {
      HashNames(out.record);
      ReceiptOf(out.record);
    }
  }

  lemma KeepsTail(cfg: Config, w: Writer, t: Trace, force: bool, f: Faults)
    requires Ready(w)
    ensures var out := Append(cfg, w, t, force, f);
            && (!out.result.Appended? ==> out.writer.lastHash == w.lastHash || out.result.Indeterminate?)
            && (out.result.Indeterminate? ==> out.writer.poisoned)
  {
    hide Stamped, Rotate, Rollback, SyncFile, Truncate, Clamp, MustSync, TraceHash;
  }

  lemma ReceiptOf(record: Trace)
    requires TraceHash(record) == Some(record.hash)
    ensures ReceiptFor(record) == if record.core.timestamp.Some? && Named(record.core.traceID) then Some(record.hash) else None
  {
    hide IsSpace, Project;
  }

  /** A deny's receipt, and its record, are about the call that was denied. */
  lemma DenyNames(cfg: Config, w: Writer, t: Trace, force: bool, f: Faults)
    requires Ready(w)
    ensures var a := Deny(cfg, w, t, force, f);
            && a.action == Action.Denied && (a.receipt.Some? ==> a.receipt == Some(a.writer.lastHash))
            && (a.receipt.Some? || (a.writer.lastHash != w.lastHash && !a.writer.poisoned) ==>
                  a.writer.lastHash.Sha256? && a.writer.lastHash.of.core == t.core)
  {
    AppendedNames(cfg, w, t, force, f);
    hide Append, Named, TraceHash;
  }

  /** The record of an operational deny of t: the same call, denied, with the texts
      of the deny. */
  function DenyOf(t: Trace, d: Details): Trace {
    Trace(Core(t.core.traceID, t.core.timestamp, t.core.envelopeID, Action.Denied, d.content), d.applied, t.unhashed,
          t.engineVersion, t.policySetHash, t.schemaVersion, t.canonicalVersion, t.prev, t.hash)
  }

  /** The answer after the append of a deny: a receipt for it if it was acknowledged. */
  predicate Denies(a: Answer, cfg: Config, w: Writer, t: Trace, force: bool, f: Faults)
    requires Ready(w)
  {
    var out := Append(cfg, w, t, force, f);
    && a.action == Action.Denied && a.writer == out.writer
    && a.receipt == if out.result.Appended? && t.core.timestamp.Some? && Named(t.core.traceID) then Some(out.record.hash) else None
  }

  lemma DenyIsRecorded(cfg: Config, w: Writer, t: Trace, d: Details, force: bool, f: Faults)
    requires Ready(w)
    ensures Denies(Deny(cfg, w, Denial(t, d), force, f), cfg, w, DenyOf(t, d), force, f)
  {
    AppendedNames(cfg, w, DenyOf(t, d), force, f);
    assert Denial(t, d) == DenyOf(t, d);
    hide Append, Named, TraceHash, ReceiptFor;
  }

  /** Whoever is denied for want of a reservation, of provenance or of a record has
      that on record, in one append of its own; only without provenance and
      reservation, or once the log is poisoned, is nothing appended. */
  lemma DenialsAreRecorded(cfg: Config, w: Writer, t: Trace, d: Details, reserved: bool, provenanceOk: bool, f: Faults, retry: Faults)
    requires Ready(w)
    ensures var a, first := AnswerFor(cfg, w, t, d, reserved, provenanceOk, f, retry), Append(cfg, w, t, true, f);
            && (!reserved && provenanceOk ==> Denies(a, cfg, w, DenyOf(t, d), false, f))
            && (!reserved && !provenanceOk ==> a == Answer(Action.Denied, None, w))
            && (reserved && !provenanceOk ==> Denies(a, cfg, w, DenyOf(t, d), true, retry))
            && (reserved && provenanceOk && !first.result.Appended? ==>
                  if first.result.PoisonedWriter? || first.result.Indeterminate? then a == Answer(Action.Denied, None, first.writer)
                  else Ready(first.writer) && Denies(a, cfg, first.writer, DenyOf(first.record, d), true, retry))
  {
    AppendStaysReady(cfg, w, t, true, f);
    var first := Append(cfg, w, t, true, f);
    hide Append, Deny, Denies, Denial, DenyOf, Ready;
    DenyIsRecorded(cfg, w, t, d, false, f);
    DenyIsRecorded(cfg, w, t, d, true, retry);
    DenyIsRecorded(cfg, first.writer, first.record, d, true, retry);
  }

  /** The answer to a request that the policies escalate: "escalated" exactly when it
      has its reservation and its record is in the log, and otherwise "denied"; the
      receipt, and any record made, is about this call and this answer. */
  lemma AnswerMeans(cfg: Config, w: Writer, t: Trace, d: Details, reserved: bool, provenanceOk: bool, f: Faults, retry: Faults)
    requires Ready(w)
    ensures var a := AnswerFor(cfg, w, t, d, reserved, provenanceOk, f, retry);
            && (a.action == Escalated || a.action == Action.Denied)
            && (a.action == Escalated <==> reserved && provenanceOk && Append(cfg, w, t, true, f).result.Appended?)
            && (a.action == Escalated ==>
                  && a.writer.lastHash.Sha256? && a.writer.lastHash.of.core == t.core
                  && a.receipt == if t.core.timestamp.Some? && Named(t.core.traceID) then Some(a.writer.lastHash) else None)
            && (a.action == Action.Denied && a.receipt.Some? ==> a.receipt == Some(a.writer.lastHash))
            && (a.action == Action.Denied && (a.receipt.Some? || (a.writer.lastHash != w.lastHash && !a.writer.poisoned)) ==>
                  && a.writer.lastHash.Sha256? && a.writer.lastHash.of.core.action == Action.Denied
                  && a.writer.lastHash.of.core.envelopeID == t.core.envelopeID && a.writer.lastHash.of.core.traceID == t.core.traceID)
  {
    AppendedNames(cfg, w, t, true, f);
    AppendStaysReady(cfg, w, t, true, f);
    var first := Append(cfg, w, t, true, f);
    DenyNames(cfg, w, Denial(t, d), false, f);
    DenyNames(cfg, w, Denial(t, d), true, retry);
    if reserved && provenanceOk && !first.result.Appended? && !PoisonError(first.result) {
      DenyNames(cfg, first.writer, Denial(first.record, d), true, retry);
    }
    hide Append, Named, Deny, ReceiptFor;
  }

  method RecordDeny(p: Proxy, t: Trace, force: bool, f: Faults) returns (receipt: Option<Hash>)
    requires Ready(p.State())
    modifies p
    ensures Answer(Action.Denied, receipt, p.State()) == Deny(p.cfg, old(p.State()), t, force, f)
  {
    hide Append, ReceiptFor;
    var result, record := p.AppendTrace(t, force, f);
    return if result.Appended? then ReceiptFor(record) else None;
  }

  /** The part of evaluate that owns a reservation: record it, then publish it; or
      discard it, and record the deny unless the log is poisoned. */
  method RecordReserved(store: Registry, p: Proxy, e: Escalation, t: Trace, d: Details, provenanceOk: bool, f: Faults, retry: Faults)
    returns (action: Action, receipt: Option<Hash>)
    requires store.Valid() && Ready(p.State()) && Holds(store.View(), e, e.id)
    modifies store`entries, e, p
    ensures store.Valid()
    ensures Answer(action, receipt, p.State()) == AnswerFor(p.cfg, old(p.State()), t, d, true, provenanceOk, f, retry)
    ensures store.View() == if action == Escalated then Publish(old(store.View()), e, old(e.id)) else Discard(old(store.View()), e, old(e.id))
  {
    hide Append, ReceiptFor, Deny, Denial, Discard, Publish;
    ghost var held := store.View();
    if !provenanceOk {
      receipt := DiscardAndDeny(store, p, e, t, d, false, retry);
      return Action.Denied, receipt;
    }
    AppendStaysReady(p.cfg, p.State(), t, true, f);
    var result, record := p.AppendTrace(t, true, f);
    assert store.View() == held;
    if !result.Appended? {
      receipt := DiscardAndDeny(store, p, e, record, d, PoisonError(result), retry);
      return Action.Denied, receipt;
    }
    var published := store.PublishReserved(e);
    if !published {
      return Action.Denied, None;
    }
    return Escalated, ReceiptFor(record);
  }

  /** Give the reservation up, and record the deny unless the log is poisoned. */
  method DiscardAndDeny(store: Registry, p: Proxy, e: Escalation, t: Trace, d: Details, poisoned: bool, f: Faults)
    returns (receipt: Option<Hash>)
    requires store.Valid() && Ready(p.State())
    modifies store`entries, p
    ensures store.Valid() && store.View() == Discard(old(store.View()), e, e.id)
    ensures Answer(Action.Denied, receipt, p.State()) ==
            if poisoned then Answer(Action.Denied, None, old(p.State())) else Deny(p.cfg, old(p.State()), Denial(t, d), true, f)
  {
    hide Append, ReceiptFor, Deny, Denial;
    var discarded := store.DiscardReserved(e);
    if poisoned {
      return None;
    }
    ghost var held := store.View();
    receipt := RecordDeny(p, Denial(t, d), true, f);
    assert store.View() == held;
  }

  /** The same against the functions that specify its parts. */
  method ReserveAndRecord(store: Registry, p: Proxy, env: Envelope, timeoutMinutes: int, now: int, t: Trace, d: Details,
                          provenanceOk: bool, f: Faults, retry: Faults)
    returns (action: Action, receipt: Option<Hash>)
    requires store.Valid() && Ready(p.State()) && t.core.action == Escalated
    modifies store, p
    ensures store.Valid()
    ensures var reserved := CanReserve(old(store.View()), env.id);
            && Answer(action, receipt, p.State()) == AnswerFor(p.cfg, old(p.State()), t, d, reserved, provenanceOk, f, retry)
            && (!reserved ==> store.View() == old(store.View()))
            && (reserved && action == Escalated ==>
                  env.id in store.entries && store.View().entries[env.id].entry == NewEntry(env, timeoutMinutes, now).(state := Pending))
            && (reserved && action != Escalated ==> env.id !in store.entries)
  {
    hide Append, ReceiptFor, Deny, NewEntry, CanReserve, Evicts, Denial, NoneResolved, OldestResolved, Named;
    action, receipt := Action.Denied, None;
    ghost var before := store.View();
    var e, victim := store.Reserve(env, timeoutMinutes, now);
    if e == null {
      if provenanceOk {
        receipt := RecordDeny(p, Denial(t, d), false, f);
      }
      assert store.View() == before;
      return;
    }
    NewEntryIsReserved(before, e, env, timeoutMinutes, now, victim);
    assert store.entries[env.id] == e;
    hide EscalationStore.Reserve, AnswerFor;
    ghost var held := store.View();
    action, receipt := RecordReserved(store, p, e, t, d, provenanceOk, f, retry);
    assert action == Escalated ==> env.id in Publish(held, e, env.id).entries;
    assert env.id in store.View().entries <==> env.id in store.entries;
  }

  /** evaluate from reserve to publish or discard, for a request the policies
      escalate. `t` is its trace, `d` the texts of an operational deny. The answer
      is "escalated" exactly when the record is in the log, and the entry is then
      pending; otherwise the store holds nothing of this request. */
  method EvaluateEscalated(store: Registry, p: Proxy, env: Envelope, timeoutMinutes: int, now: int, t: Trace, d: Details,
                           provenanceOk: bool, f: Faults, retry: Faults)
    returns (action: Action, receipt: Option<Hash>)
    requires store.Valid() && Ready(p.State()) && t.core.action == Escalated
    modifies store, p
    ensures store.Valid()
    ensures var reserved := CanReserve(old(store.View()), env.id);
            && Answer(action, receipt, p.State()) == AnswerFor(p.cfg, old(p.State()), t, d, reserved, provenanceOk, f, retry)
            && (!reserved ==> store.View() == old(store.View()))
            && (reserved && action != Escalated ==> env.id !in store.entries)
    ensures action == Escalated || action == Action.Denied
    ensures action == Escalated <==>
              && (env.id !in old(store.entries) && (|old(store.entries)| < store.maxEntries || !NoneResolved(old(store.View()).entries)))
              && provenanceOk && Append(p.cfg, old(p.State()), t, true, f).result.Appended?
    ensures action == Escalated ==>
              && p.lastHash.Sha256? && p.lastHash.of.core == t.core
              && receipt == (if t.core.timestamp.Some? && Named(t.core.traceID) then Some(p.lastHash) else None)
              && env.id in store.entries
              && store.entries[env.id].Snapshot() == Entry(env.id, Pending, now, now + (if timeoutMinutes < 1 then 15 else timeoutMinutes) * 60_000_000_000,
                                                          None, "", "", env, None)
    ensures action == Action.Denied ==>
              && (receipt.Some? ==> receipt == Some(p.lastHash))
              && (receipt.Some? || (p.lastHash != old(p.lastHash) && !p.auditPoisoned) ==>
                    && p.lastHash.Sha256? && p.lastHash.of.core.action == Action.Denied
                    && p.lastHash.of.core.envelopeID == t.core.envelopeID && p.lastHash.of.core.traceID == t.core.traceID)
  {
    AnswerMeans(p.cfg, p.State(), t, d, CanReserve(store.View(), env.id), provenanceOk, f, retry);
    NewEntryIs(env, timeoutMinutes, now);
    ReservesWhen(store.View(), env.id);
    SameSize(store.entries, store.View().entries);
    hide Append, ReceiptFor, Deny, NewEntry, CanReserve, Denial, NoneResolved, OldestResolved, Named, AnswerFor;
    action, receipt := ReserveAndRecord(store, p, env, timeoutMinutes, now, t, d, provenanceOk, f, retry);
  }

  lemma NewEntryIsReserved(s: Store<Escalation>, e: Escalation, env: Envelope, timeoutMinutes: int, now: int, victim: Option<string>)
    ensures var s' := EscalationStore.Reserve(s, e, env, timeoutMinutes, now, victim);
            s'.Some? ==> Holds(s'.value, e, env.id) && s'.value.entries[env.id].entry == NewEntry(env, timeoutMinutes, now)
  {
  }
}
