/** The sliding window of monetary actions (cmd/tg-proxy/velocity.go), over real
    amounts and times in nanoseconds that do not run backwards. */
module Velocity {

  datatype Event = Event(at: int, amount: real)

  const HOUR: int := 3_600_000_000_000
  const DAY: int := 24 * HOUR
  const MAX_EVENTS: nat := 20_000

  predicate Sorted(h: seq<Event>) {
    forall i, j :: 0 <= i < j < |h| ==> h[i].at <= h[j].at
  }

  /** How many events at the front are older than cutoff. */
  function Older(h: seq<Event>, cutoff: int): (i: nat)
    ensures i <= |h| && (i < |h| ==> h[i].at >= cutoff) && forall k :: 0 <= k < i ==> h[k].at < cutoff
  {
    if h == [] || h[0].at >= cutoff then 0 else 1 + Older(h[1..], cutoff)
  }

  function Newest(h: seq<Event>): seq<Event> {
    if |h| > MAX_EVENTS then h[|h| - MAX_EVENTS..] else h
  }

  /** pruneLocked. */
  function Pruned(events: seq<Event>, now: int): seq<Event> {
    Newest(events[Older(events, now - DAY)..])
  }

  /** What the window is meant to hold: of the whole history, the events of the
      last day, and of those at most the newest MAX_EVENTS. */
  function Window(history: seq<Event>, now: int): seq<Event> {
    Newest(history[Older(history, now - DAY)..])
  }

  lemma {:induction false} OlderAtLeast(h: seq<Event>, cutoff: int, i: nat)
    requires i <= |h| && forall k :: 0 <= k < i ==> h[k].at < cutoff
    ensures Older(h, cutoff) >= i
    decreases |h|
  {
    if i > 0 {
      OlderAtLeast(h[1..], cutoff, i - 1);
    }
  }

  lemma {:induction false} OlderIs(h: seq<Event>, cutoff: int, i: nat)
    requires i <= |h| && (i < |h| ==> h[i].at >= cutoff) && forall k :: 0 <= k < i ==> h[k].at < cutoff
    ensures Older(h, cutoff) == i
    decreases |h|
  {
    if i > 0 {
      OlderIs(h[1..], cutoff, i - 1);
    }
  }

  /** Dropping a front of a sorted history moves the cut by as much. */
  lemma OlderOfSuffix(h: seq<Event>, from: nat, cutoff: int)
    requires Sorted(h) && from <= |h|
    ensures Older(h[from..], cutoff) == if Older(h, cutoff) <= from then 0 else Older(h, cutoff) - from
  {
    var i, s := Older(h, cutoff), h[from..];
    if i <= from {
      assert from < |h| && i < |h| ==> s[0].at >= h[i].at;
      OlderIs(s, cutoff, 0);
    } else {
      assert i < |h| ==> s[i - from] == h[i];
      assert forall k :: 0 <= k < i - from ==> s[k] == h[k + from];
      OlderIs(s, cutoff, i - from);
    }
  }

  function Start(h: seq<Event>, now: int): (i: nat)
    ensures i <= |h|
  {
    var i := Older(h, now - DAY);
    if |h| - i > MAX_EVENTS then |h| - MAX_EVENTS else i
  }

  lemma WindowIsSuffix(h: seq<Event>, now: int)
    ensures Window(h, now) == h[Start(h, now)..] == Pruned(h, now)
  {
    var i := Older(h, now - DAY);
    if |h| - i > MAX_EVENTS {
      assert h[i..][|h[i..]| - MAX_EVENTS..] == h[|h| - MAX_EVENTS..];
    }
  }

  /** A front that the window had dropped earlier never comes back. */
  lemma StartGrows(h: seq<Event>, e: seq<Event>, before: int, now: int)
    requires before <= now && Sorted(h + e)
    ensures Start(h, before) <= Start(h + e, now)
  {
    OlderAtLeast(h + e, now - DAY, Older(h, before - DAY));
  }

  /** Pruning the pruned window is pruning the whole history: one record, or none,
      later. */
  lemma PruningForgetsNothing(h: seq<Event>, e: seq<Event>, before: int, now: int)
    requires before <= now && Sorted(h + e)
    ensures Pruned(Window(h, before) + e, now) == Window(h + e, now)
  {
    var from := Start(h, before);
    WindowIsSuffix(h, before);
    WindowIsSuffix(h + e, now);
    StartGrows(h, e, before, now);
    var s := (h + e)[from..];
    assert Window(h, before) + e == s;
    OlderOfSuffix(h + e, from, now - DAY);
    WindowIsSuffix(s, now);
    assert Start(s, now) == Start(h + e, now) - from by {
      StartOfSuffix(h + e, from, now);
    }
    assert s[Start(s, now)..] == (h + e)[Start(h + e, now)..];
  }

  lemma StartOfSuffix(h: seq<Event>, from: nat, now: int)
    requires Sorted(h) && from <= Start(h, now)
    ensures Start(h[from..], now) == Start(h, now) - from
  {
    OlderOfSuffix(h, from, now - DAY);
  }

  // ----- the object against its history -----

  datatype Op = Record(at: int, amount: real) | Query(at: int)

  predicate InOrder(ops: seq<Op>) {
    forall i, j :: 0 <= i < j < |ops| ==> ops[i].at <= ops[j].at
  }

  function Recorded(op: Op): seq<Event> {
    if op.Record? then [Event(op.at, op.amount)] else []
  }

  /** Everything ever recorded. */
  function History(ops: seq<Op>): seq<Event> {
    if ops == [] then []
    else
      var n := |ops| - 1;
      History(ops[..n]) + Recorded(ops[n])
  }

  /** What is left in the object after the operations. */
  function Events(ops: seq<Op>): seq<Event> {
    if ops == [] then []
    else
      var n := |ops| - 1;
      Pruned(Events(ops[..n]) + Recorded(ops[n]), ops[n].at)
  }

  lemma {:induction false} HistorySorted(ops: seq<Op>)
    requires InOrder(ops)
    ensures Sorted(History(ops))
    ensures forall k :: 0 <= k < |History(ops)| ==> ops != [] && History(ops)[k].at <= ops[|ops| - 1].at
    decreases |ops|
  {
    if ops != [] {
      HistorySorted(ops[..|ops| - 1]);
      assert |ops| > 1 ==> ops[|ops| - 2].at <= ops[|ops| - 1].at;
    }
  }

  /** With records and queries in time order, the pruned events are always the
      newest of the last day of the full history. */
  lemma {:induction false} EventsAreTheWindow(ops: seq<Op>)
    requires InOrder(ops) && ops != []
    ensures Events(ops) == Window(History(ops), ops[|ops| - 1].at)
    decreases |ops|
  {
    HistorySorted(ops);
    hide Window, Pruned, Sorted, Events, History, Recorded;
    var n := |ops| - 1;
    Unfold(ops);
    if n == 0 {
      Unfold(ops[..0]);
      NothingYet(Recorded(ops[0]), ops[0].at);
    } else {
      EventsAreTheWindow(ops[..n]);
      assert ops[..n][n - 1] == ops[n - 1];
      PruningForgetsNothing(History(ops[..n]), Recorded(ops[n]), ops[n - 1].at, ops[n].at);
    }
  }

  lemma Unfold(ops: seq<Op>)
    ensures ops == [] ==> Events(ops) == [] && History(ops) == []
    ensures ops != [] ==>
              var n := |ops| - 1;
              && Events(ops) == Pruned(Events(ops[..n]) + Recorded(ops[n]), ops[n].at)
              && History(ops) == History(ops[..n]) + Recorded(ops[n])
  {
  }

  lemma NothingYet(e: seq<Event>, now: int)
    ensures Pruned([] + e, now) == Window([] + e, now)
  {
  }

  function Sum(h: seq<Event>, cutoff: int): real {
    if h == [] then 0.0 else Sum(h[..|h| - 1], cutoff) + if h[|h| - 1].at >= cutoff then h[|h| - 1].amount else 0.0
  }

  function Count(h: seq<Event>, cutoff: int): nat {
    if h == [] then 0 else Count(h[..|h| - 1], cutoff) + if h[|h| - 1].at >= cutoff then 1 else 0
  }

  lemma {:induction false} FrontIsSilent(a: seq<Event>, b: seq<Event>, cutoff: int)
    requires forall k :: 0 <= k < |a| ==> a[k].at < cutoff
    ensures Sum(a + b, cutoff) == Sum(b, cutoff) && Count(a + b, cutoff) == Count(b, cutoff)
    decreases |a| + |b|
  {
    if b != [] {
      assert (a + b)[..|a + b| - 1] == a + b[..|b| - 1];
      FrontIsSilent(a, b[..|b| - 1], cutoff);
    } else if a != [] {
      var n := |a| - 1;
      assert a + b == a && (a[..n] + b) == a[..n];
      FrontIsSilent(a[..n], b, cutoff);
    } else {
      assert a + b == b;
    }
  }

  lemma {:induction false} CountIsSuffix(h: seq<Event>, cutoff: int)
    requires Sorted(h)
    ensures Count(h, cutoff) == |h| - Older(h, cutoff)
    decreases |h|
  {
    if h != [] {
      var n := |h| - 1;
      CountIsSuffix(h[..n], cutoff);
      var i := Older(h, cutoff);
      if i == |h| {
        OlderIs(h[..n], cutoff, n);
      } else {
        assert h[n].at >= h[i].at;
        OlderIs(h[..n], cutoff, i);
      }
    }
  }

  /** The aggregate is the naive sum and count over everything ever recorded,
      whenever no more than MAX_EVENTS of it are recent enough to matter. */
  lemma AggregateIsExact(history: seq<Event>, now: int, cutoff: int)
    requires Sorted(history) && cutoff >= now - DAY && Count(history, cutoff) <= MAX_EVENTS
    ensures Sum(Window(history, now), cutoff) == Sum(history, cutoff)
    ensures Count(Window(history, now), cutoff) == Count(history, cutoff)
  {
    WindowIsSuffix(history, now);
    CountIsSuffix(history, cutoff);
    StartIsOld(history, now, cutoff);
    hide *;
    var from := Start(history, now);
    assert history == history[..from] + history[from..];
    FrontIsSilent(history[..from], history[from..], cutoff);
  }

  /** The window begins before anything the cutoff lets through. */
  lemma StartIsOld(h: seq<Event>, now: int, cutoff: int)
    requires Sorted(h) && cutoff >= now - DAY && |h| - Older(h, cutoff) <= MAX_EVENTS
    ensures var front := h[..Start(h, now)]; forall k :: 0 <= k < |front| ==> front[k].at < cutoff
  {
    OlderAtLeast(h, cutoff, Older(h, now - DAY));
    hide Sorted;
  }

  /** Past the cap the count stops at it, so the aggregate is exact if and only if
      the history fits. */
  lemma CountIsCapped(history: seq<Event>, now: int, cutoff: int)
    requires Sorted(history) && cutoff >= now - DAY
    ensures Count(Window(history, now), cutoff) == Count(history, cutoff) <==> Count(history, cutoff) <= MAX_EVENTS
  {
    if Count(history, cutoff) <= MAX_EVENTS {
      AggregateIsExact(history, now, cutoff);
    } else {
      WindowIsSuffix(history, now);
      CountAtMost(Window(history, now), cutoff);
    }
  }

  lemma {:induction false} CountAtMost(h: seq<Event>, cutoff: int)
    ensures Count(h, cutoff) <= |h|
    decreases |h|
  {
    if h != [] {
      CountAtMost(h[..|h| - 1], cutoff);
    }
  }

  // ----- the same in plain terms -----

  /** Of a history in time order the window is the last part: the events not
      older than a day, and of those the newest 20,000. */
  lemma WindowMeans(h: seq<Event>, now: int)
    requires Sorted(h)
    ensures var n := |Window(h, now)|;
            && n <= |h| && Window(h, now) == h[|h| - n..]
            && forall k :: 0 <= k < |h| ==> (k >= |h| - n <==> h[k].at >= now - 86_400_000_000_000 && |h| - k <= 20_000)
  {
    WindowIsSuffix(h, now);
    var i := Older(h, now - DAY);
    assert forall k :: i < k < |h| ==> h[k].at >= h[i].at;
  }

  /** Counting is by the time stamp alone. */
  lemma {:induction false} CountMeans(h: seq<Event>, cutoff: int)
    ensures Count(h, cutoff) == |set k | 0 <= k < |h| && h[k].at >= cutoff|
    decreases |h|
  {
    if h != [] {
      var n := |h| - 1;
      CountMeans(h[..n], cutoff);
      var less, all := set k | 0 <= k < n && h[..n][k].at >= cutoff, set k | 0 <= k < n + 1 && h[k].at >= cutoff;
      assert all == if h[n].at >= cutoff then less + {n} else less;
    }
  }

  /** Sums are additive, and an event adds its amount unless it is too old. */
  lemma {:induction false} SumMeans(a: seq<Event>, b: seq<Event>, cutoff: int, e: Event)
    ensures Sum([], cutoff) == 0.0 && Sum([e], cutoff) == if cutoff <= e.at then e.amount else 0.0
    ensures Sum(a + b, cutoff) == Sum(a, cutoff) + Sum(b, cutoff)
    decreases |b|
  {
    assert [e][..0] == [];
    if b == [] {
      assert a + b == a;
    } else {
      assert (a + b)[..|a + b| - 1] == a + b[..|b| - 1];
      SumMeans(a, b[..|b| - 1], cutoff, e);
    }
  }

  /** The history is what was recorded, in order. */
  lemma {:induction false} HistoryMeans(a: seq<Op>, b: seq<Op>, at: int, amount: real)
    ensures History([]) == [] && History([Query(at)]) == [] && History([Record(at, amount)]) == [Event(at, amount)]
    ensures History(a + b) == History(a) + History(b)
    decreases |b|
  {
    assert [Query(at)][..0] == [] && [Record(at, amount)][..0] == [];
    if b == [] {
      assert a + b == a;
    } else {
      var n := |b| - 1;
      assert (a + b)[..|a + b| - 1] == a + b[..n];
      HistoryMeans(a, b[..n], at, amount);
      assert History(a) + (History(b[..n]) + Recorded(b[n])) == History(a) + History(b[..n]) + Recorded(b[n]);
    }
  }

  class VelocityWindow {
    var events: seq<Event>
    var last: int
    ghost var ops: seq<Op>

    /** The object holds exactly what its history of calls leaves. */
    ghost predicate Valid()
      reads this
    {
      events == Events(ops)
    }

    constructor (now: int)
      ensures Valid() && ops == [] && events == [] && last == now
    {
      events, last, ops := [], now, [];
    }

    method Prune(now: int)
      modifies this`events
      ensures events == Pruned(old(events), now)
    {
      var cutoff, i := now - DAY, 0;
      while i < |events| && events[i].at < cutoff
        invariant i <= |events| && events == old(events) && forall k :: 0 <= k < i ==> events[k].at < cutoff
      {
        i := i + 1;
      }
      OlderIs(events, cutoff, i);
      if i > 0 {
        events := events[i..];
      }
      if |events| > MAX_EVENTS {
        var drop := |events| - MAX_EVENTS;
        events := events[drop..];
      }
    }

    method RecordAction(now: int, amount: real)
      requires Valid()
      modifies this
      ensures Valid() && ops == old(ops) + [Record(now, amount)] && last == now
    {
      events := events + [Event(now, amount)];
      last := now;
      Prune(now);
      ops := ops + [Record(now, amount)];
      assert ops[..|ops| - 1] == old(ops);
    }

    /** aggregate: over a window in time order, the sums and counts over all
        that was ever recorded, as far as the cap allows. */
    method Aggregate(now: int) returns (sum1h: real, count1h: nat, sum24h: real, count24h: nat)
      requires Valid() && InOrder(ops + [Query(now)])
      modifies this
      ensures Valid() && ops == old(ops) + [Query(now)] && last == now
      ensures var hour, day, w := now - 3_600_000_000_000, now - 86_400_000_000_000, Window(History(old(ops)), now);
              sum24h == Sum(w, day) && count24h == Count(w, day) && sum1h == Sum(w, hour) && count1h == Count(w, hour)
      ensures var day, all := now - 86_400_000_000_000, History(old(ops));
              Count(all, day) <= 20_000 ==> sum24h == Sum(all, day) && count24h == Count(all, day)
      ensures var hour, all := now - 3_600_000_000_000, History(old(ops));
              Count(all, hour) <= 20_000 ==> sum1h == Sum(all, hour) && count1h == Count(all, hour)
    {
      hide Window, Pruned, Sum, Count, Sorted;
      last := now;
      Prune(now);
      ops := ops + [Query(now)];
      assert ops[..|ops| - 1] == old(ops) && old(events) + [] == old(events);
      Unfold(ops);
      EventsAreTheWindow(ops);
      HistorySorted(ops);
      assert Recorded(Query(now)) == [] && History(ops) == History(old(ops)) && events == Window(History(ops), now);
      AllInWindow(History(ops), now);
      sum1h, count1h, sum24h, count24h := SumUp(events, now);
      Exactness(History(ops), now);
    }
  }

  lemma Exactness(history: seq<Event>, now: int)
    requires Sorted(history)
    ensures forall cutoff :: cutoff >= now - DAY && Count(history, cutoff) <= MAX_EVENTS ==>
              Sum(Window(history, now), cutoff) == Sum(history, cutoff) && Count(Window(history, now), cutoff) == Count(history, cutoff)
  {
    hide *;
    forall cutoff | cutoff >= now - DAY && Count(history, cutoff) <= MAX_EVENTS
      ensures Sum(Window(history, now), cutoff) == Sum(history, cutoff) && Count(Window(history, now), cutoff) == Count(history, cutoff)
    {
      AggregateIsExact(history, now, cutoff);
    }
  }

  /** The loop of aggregate. */
  method SumUp(events: seq<Event>, now: int) returns (sum1h: real, count1h: nat, sum24h: real, count24h: nat)
    requires forall k :: 0 <= k < |events| ==> events[k].at >= now - DAY
    ensures sum24h == Sum(events, now - DAY) && count24h == Count(events, now - DAY)
    ensures sum1h == Sum(events, now - HOUR) && count1h == Count(events, now - HOUR)
  {
    sum1h, count1h, sum24h, count24h := 0.0, 0, 0.0, 0;
    var k := 0;
    assert events[..0] == [];
    while k < |events|
      invariant k <= |events|
      invariant sum24h == Sum(events[..k], now - DAY) && count24h == Count(events[..k], now - DAY)
      invariant sum1h == Sum(events[..k], now - HOUR) && count1h == Count(events[..k], now - HOUR)
    {
      assert events[..k + 1][..k] == events[..k];
      var e := events[k];
      sum24h, count24h := sum24h + e.amount, count24h + 1;
      if e.at >= now - HOUR {
        sum1h, count1h := sum1h + e.amount, count1h + 1;
      }
      k := k + 1;
    }
    assert events[..k] == events;
  }

  lemma AllInWindow(history: seq<Event>, now: int)
    requires Sorted(history)
    ensures forall k :: 0 <= k < |Window(history, now)| ==> Window(history, now)[k].at >= now - DAY
  {
    WindowIsSuffix(history, now);
    var i := Older(history, now - DAY);
    assert forall k :: i < k < |history| ==> history[k].at >= history[i].at;
  }
}
