/** The pending-escalation registry (cmd/tg-proxy/escalation.go): what each of its
    operations does to the entries. R stands for the reference to an entry. */
module EscalationStore {
  import opened Bytes
  import opened Traces
  import opened AuditWriter

  datatype State = Registering | Pending | Approved | Denied | Expired | Indeterminate

  /** The request under review; `content` is everything but its id. */
  datatype Envelope = Envelope(id: string, content: bytes)

  /** `receipt` is the trace hash that a resolution receipt names. */
  datatype Entry = Entry(id: string, state: State, createdAt: int, expiresAt: int, resolvedAt: Option<int>,
                         approver: string, reason: string, envelope: Envelope, receipt: Option<Hash>)

  datatype Slot<R> = Slot(ref: R, entry: Entry)

  datatype Store<R> = Store(entries: map<string, Slot<R>>, maxEntries: int)

  const MINUTE: int := 60_000_000_000
  const DEFAULT_TIMEOUT := 15

  function NewEntry(env: Envelope, timeoutMinutes: int, now: int): Entry {
    var minutes := if timeoutMinutes < 1 then DEFAULT_TIMEOUT else timeoutMinutes;
    Entry(env.id, Registering, now, now + minutes * MINUTE, None, "", "", env, None)
  }

  /** Resolved, in whichever way. */
  predicate Evictable(s: State) {
    s != Pending && s != Registering
  }

  function Age(e: Entry): int {
    if e.resolvedAt.Some? then e.resolvedAt.value else e.createdAt
  }

  /** A legal choice of evictOldestResolvedLocked: ties are broken by map order. */
  ghost predicate Victim<R>(s: Store<R>, id: string) {
    && id in s.entries && Evictable(s.entries[id].entry.state)
    && forall other :: other in s.entries && Evictable(s.entries[other].entry.state) ==>
         Age(s.entries[id].entry) <= Age(s.entries[other].entry)
  }

  ghost predicate NoneEvictable<R>(s: Store<R>) {
    forall id :: id in s.entries ==> !Evictable(s.entries[id].entry.state)
  }

  /** What reserve evicts to make room. */
  ghost predicate Evicts<R>(s: Store<R>, victim: Option<string>) {
    if |s.entries| < s.maxEntries || NoneEvictable(s) then victim == None
    else victim.Some? && Victim(s, victim.value)
  }

  ghost predicate CanReserve<R>(s: Store<R>, id: string) {
    id !in s.entries && (|s.entries| < s.maxEntries || !NoneEvictable(s))
  }

  /** reserve: None when the id is taken, or the store is full of entries that
      still wait. */
  function Reserve<R>(s: Store<R>, ref: R, env: Envelope, timeoutMinutes: int, now: int, victim: Option<string>): Option<Store<R>> {
    if env.id in s.entries then None
    else if |s.entries| >= s.maxEntries && victim.None? then None
    else
      var room := if |s.entries| >= s.maxEntries then s.entries - {victim.value} else s.entries;
      Some(s.(entries := room[env.id := Slot(ref, NewEntry(env, timeoutMinutes, now))]))
  }

  /** The guard of publishReserved and discardReserved: this very reservation. */
  predicate Holds<R(==)>(s: Store<R>, ref: R, id: string) {
    id in s.entries && s.entries[id].ref == ref && s.entries[id].entry.state == Registering
  }

  function Publish<R(==)>(s: Store<R>, ref: R, id: string): Store<R> {
    if Holds(s, ref, id) then s.(entries := s.entries[id := s.entries[id].(entry := s.entries[id].entry.(state := Pending))]) else s
  }

  function Discard<R(==)>(s: Store<R>, ref: R, id: string): Store<R> {
    if Holds(s, ref, id) then s.(entries := s.entries - {id}) else s
  }

  /** What resolveAudited finds before it calls the audit callback. */
  datatype Attempt = NotFound | AlreadyResolved | PastDue | Attempt(candidate: Entry)

  function PrepareResolution<R>(s: Store<R>, id: string, approver: string, reason: string, approved: bool, now: int): Attempt {
    if id !in s.entries || s.entries[id].entry.state == Registering then NotFound
    else
      var e := s.entries[id].entry;
      if e.state != Pending then AlreadyResolved
      else if now >= e.expiresAt then PastDue
      else Attempt(e.(resolvedAt := Some(now), approver := approver, reason := reason, state := if approved then Approved else State.Denied))
  }

  /** The reaper's check of one entry. */
  function PrepareExpiry<R>(s: Store<R>, id: string, now: int): Attempt {
    if id !in s.entries then NotFound
    else
      var e := s.entries[id].entry;
      if e.state == Pending && now >= e.expiresAt then Attempt(e.(state := Expired, resolvedAt := Some(now))) else NotFound
  }

  /** What becomes of the entry once the audit append of its candidate returned:
      the transition, the indeterminate state, or no change at all. */
  function Settle(e: Entry, candidate: Entry, record: Trace, result: Result): Entry {
    if result.Appended? then candidate.(receipt := if candidate.state == Expired then e.receipt else ReceiptFor(record))
    else if result.Indeterminate? then candidate.(state := State.Indeterminate)
    else e
  }

  function Put<R>(s: Store<R>, id: string, e: Entry): Store<R>
    requires id in s.entries
  {
    s.(entries := s.entries[id := s.entries[id].(entry := e)])
  }

  /** receiptForAppendedTrace, reduced to the hash it carries. */
  function ReceiptFor(t: Trace): Option<Hash> {
    if BlankText(t.core.traceID) || !t.hash.Sha256? || t.core.timestamp.None? then None else Some(t.hash)
  }

  /** The request's identity and the reason text, as the record carries them. */
  datatype Details = Details(content: bytes, applied: bytes)

  type Describe = Entry -> Details

  /** The record emitEscalationResolution and emitEscalationExpiry append. */
  function TransitionTrace(describe: Describe, candidate: Entry, traceID: string, at: int): Trace {
    var d := describe(candidate);
    Trace(Core(traceID, Some(at), candidate.envelope.id, if candidate.state == Approved then Allowed else Action.Denied, d.content),
          d.applied, [], "", "", "", "", NoHash, NoHash)
  }

  // ----- the same in plain terms -----

  predicate Resolved(e: Entry) {
    e.state == Approved || e.state == State.Denied || e.state == Expired || e.state == State.Indeterminate
  }

  function Since(e: Entry): int {
    match e.resolvedAt
    case Some(at) => at
    case None => e.createdAt
  }

  /** A resolved entry such that no other resolved one is older. */
  ghost predicate OldestResolved<R>(entries: map<string, Slot<R>>, id: string) {
    && id in entries && Resolved(entries[id].entry)
    && forall x :: x in entries && Resolved(entries[x].entry) ==> Since(entries[id].entry) <= Since(entries[x].entry)
  }

  ghost predicate NoneResolved<R>(entries: map<string, Slot<R>>) {
    forall id :: id in entries ==> !Resolved(entries[id].entry)
  }

  lemma VictimsAreOldest<R>(s: Store<R>)
    ensures NoneEvictable(s) <==> NoneResolved(s.entries)
    ensures forall id :: Victim(s, id) <==> OldestResolved(s.entries, id)
  {
    assert forall e: Entry :: Evictable(e.state) <==> Resolved(e);
  }

  lemma EvictsOldest<R>(s: Store<R>, victim: Option<string>)
    requires Evicts(s, victim)
    ensures if |s.entries| < s.maxEntries || NoneResolved(s.entries) then victim == None
            else victim.Some? && OldestResolved(s.entries, victim.value)
  {
    assert forall e: Entry :: Evictable(e.state) <==> Resolved(e);
    if victim.None? && |s.entries| >= s.maxEntries {
      assert NoneEvictable(s);
    }
  }

  /** Some character that strings.TrimSpace leaves. */
  predicate Named(traceID: string) {
    exists k :: 0 <= k < |traceID| && !IsSpace(traceID[k] as int)
  }

  lemma ReceiptNames(record: Trace, traceID: string, at: int)
    requires TraceHash(record) == Some(record.hash) && record.core.traceID == traceID && record.core.timestamp == Some(at)
    ensures ReceiptFor(record) == if Named(traceID) then Some(record.hash) else None
  {
    hide IsSpace, Project;
  }

  /** The hash of a record names the call and the outcome it is about. */
  lemma HashNames(record: Trace)
    requires TraceHash(record).Some?
    ensures TraceHash(record).value.Sha256? && TraceHash(record).value.of.core == record.core
  {
    hide ValidProvenance;
  }

  /** The record of a transition allows exactly an approval. */
  lemma TransitionSays(describe: Describe, c: Entry, traceID: string, at: int)
    ensures var core := TransitionTrace(describe, c, traceID, at).core;
            && core.action == (if c.state == Approved then Allowed else Action.Denied)
            && core.envelopeID == c.envelope.id && core.traceID == traceID && core.timestamp == Some(at)
            && core.content == describe(c).content && TransitionTrace(describe, c, traceID, at).applied == describe(c).applied
  {
  }

  /** A reservation is hidden, dated, and due after its timeout, 15 minutes when the
      policy gives none. */
  lemma NewEntryIs(env: Envelope, timeoutMinutes: int, now: int)
    ensures NewEntry(env, timeoutMinutes, now) ==
            Entry(env.id, Registering, now, now + (if timeoutMinutes < 1 then 15 else timeoutMinutes) * 60_000_000_000, None, "", "", env, None)
  {
  }

  lemma ReservesWhen<R>(s: Store<R>, id: string)
    ensures CanReserve(s, id) <==> id !in s.entries && (|s.entries| < s.maxEntries || !NoneResolved(s.entries))
  {
    assert forall e: Entry :: Evictable(e.state) <==> Resolved(e);
  }
}
