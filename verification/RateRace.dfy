/** The limiter as it interleaves: allow (cmd/tg-proxy/ratelimit.go) finds a bucket
    under the limiter's lock and takes from it later, under the bucket's own. */
module RateRace {
  import opened RateLimit
  import opened RateEviction

  /** Buckets by address, and the table that names some of them. */
  datatype Heap = Heap(cells: map<nat, Bucket>, table: map<string, nat>, next: nat)

  /** What a new key leaves in the table: a full one is swept. */
  function Kept(p: Params, h: Heap, sweepAt: real): map<string, nat> {
    if |h.table| >= p.maxKeys then map k | k in h.table && h.table[k] in h.cells && !Idle(p, h.cells[h.table[k]], sweepAt) :: h.table[k]
    else h.table
  }

  /** allow up to the release of the limiter's lock. */
  function Lookup(p: Params, h: Heap, key: string, sweepAt: real, createAt: real): (Heap, nat) {
    if key in h.table then (h, h.table[key])
    else
      (Heap(h.cells[h.next := NewBucket(p, createAt)], Kept(p, h, sweepAt)[key := h.next], h.next + 1), h.next)
  }

  function TakeAt(p: Params, h: Heap, ref: nat, now: real): (Heap, bool)
    requires ref in h.cells
  {
    var (b, ok) := Take(p, h.cells[ref], now);
    (h.(cells := h.cells[ref := b]), ok)
  }

  /** A request that has its bucket and has not taken from it yet. */
  datatype Waiting = Waiting(key: string, ref: nat)

  /** `takes` and `granted` are history variables: the takes so far as requests
      that run alone, and their answers. */
  datatype Race = Race(heap: Heap, waiting: map<nat, Waiting>, takes: seq<Request>, granted: seq<bool>)

  datatype Event =
    | Arrive(id: nat, key: string, sweepAt: real, createAt: real)
    | Finish(id: nat, at: real)

  const IDLE := Race(Heap(map[], map[], 0), map[], [], [])

  predicate Enabled(s: Race, e: Event) {
    match e
    case Arrive(id, _, sweepAt, createAt) => id !in s.waiting && sweepAt <= createAt
    case Finish(id, _) => id in s.waiting && s.waiting[id].ref in s.heap.cells
  }

  function Next(p: Params, s: Race, e: Event): Race
    requires Enabled(s, e)
  {
    match e
    case Arrive(id, key, sweepAt, createAt) =>
      var k := if key == "" then UNKNOWN else key;
      var (h, ref) := Lookup(p, s.heap, k, sweepAt, createAt);
      s.(heap := h, waiting := s.waiting[id := Waiting(k, ref)])
    case Finish(id, at) =>
      var w := s.waiting[id];
      var (h, ok) := TakeAt(p, s.heap, w.ref, at);
      Race(h, s.waiting - {id}, s.takes + [Request(w.key, at, at, at)], s.granted + [ok])
  }

  function Begins(e: Event): real {
    if e.Arrive? then e.sweepAt else e.at
  }

  function Ends(e: Event): real {
    if e.Arrive? then e.createAt else e.at
  }

  /** The bucket a request takes from is still the one its key has: no sweep removed
      it in between. */
  predicate Undisturbed(s: Race, e: Event) {
    e.Finish? && e.id in s.waiting ==>
      s.waiting[e.id].key in s.heap.table && s.heap.table[s.waiting[e.id].key] == s.waiting[e.id].ref
  }

  /** Any number of requests interleaved, as the clock moves on. */
  ghost predicate IsRace(p: Params, states: seq<Race>, events: seq<Event>) {
    && |states| == |events| + 1 && states[0] == IDLE
    && (forall i :: 0 <= i < |events| ==> Enabled(states[i], events[i]) && states[i + 1] == Next(p, states[i], events[i]))
    && (forall i, j :: 0 <= i < j < |events| ==> Ends(events[i]) <= Begins(events[j]))
  }

  // ----- the never-evicting limiter alongside -----

  /** Buckets no one can tell apart from now on. */
  predicate Alike(p: Params, a: Bucket, b: Bucket, now: real) {
    a == b || (Full(p, a, now) && Full(p, b, now))
  }

  /** The buckets in the table are those of a limiter that never evicts, and those
      missing on either side are full. */
  ghost predicate Follows(p: Params, h: Heap, all: Buckets, now: real) {
    && (forall k :: k in h.table ==> h.table[k] in h.cells)
    && (forall j, k :: j in h.table && k in h.table && h.table[j] == h.table[k] ==> j == k)
    && (forall ref :: ref in h.cells ==> ref < h.next && h.cells[ref].tokens >= 0.0 && h.cells[ref].last <= now)
    && (forall k :: k in all ==> all[k].tokens >= 0.0 && all[k].last <= now)
    && (forall k :: k in h.table && k in all ==> Alike(p, h.cells[h.table[k]], all[k], now))
    && (forall k :: k in h.table && k !in all ==> Full(p, h.cells[h.table[k]], now))
    && (forall k :: k in all && k !in h.table ==> Full(p, all[k], now))
  }

  lemma FollowsLater(p: Params, h: Heap, all: Buckets, now: real, later: real)
    requires Sensible(p) && Follows(p, h, all, now) && now <= later
    ensures Follows(p, h, all, later)
  {
    hide Full;
    forall b: Bucket | Full(p, b, now)
      ensures Full(p, b, later)
    {
      FullStays(p, b, now, later);
    }
  }

  /** A sweep removes only what has refilled. */
  lemma SweepFollows(p: Params, h: Heap, all: Buckets, now: real)
    requires Sensible(p) && p.rps * p.idleEvict >= p.burst && Follows(p, h, all, now)
    ensures Follows(p, h.(table := Kept(p, h, now)), all, now)
  {
    hide Full;
    forall k | k in all && k !in Kept(p, h, now)
      ensures Full(p, all[k], now)
    {
      if k in h.table {
        IdleIsFull(p, h.cells[h.table[k]], now);
      }
    }
  }

  lemma NewIsFull(p: Params, at: real)
    requires Sensible(p)
    ensures Full(p, NewBucket(p, at), at)
  {
    assert Earned(p, at - at) == 0.0;
  }

  lemma InsertFollows(p: Params, h: Heap, all: Buckets, key: string, at: real)
    requires Sensible(p) && Follows(p, h, all, at) && key !in h.table
    ensures Follows(p, Heap(h.cells[h.next := NewBucket(p, at)], h.table[key := h.next], h.next + 1), all, at)
  {
    NewIsFull(p, at);
    hide Full;
  }

  lemma LookupFollows(p: Params, h: Heap, all: Buckets, now: real, key: string, sweepAt: real, createAt: real)
    requires Sensible(p) && p.rps * p.idleEvict >= p.burst && Follows(p, h, all, now) && now <= sweepAt <= createAt
    ensures Follows(p, Lookup(p, h, key, sweepAt, createAt).0, all, createAt)
  {
    hide Follows;
    FollowsLater(p, h, all, now, sweepAt);
    FollowsLater(p, h, all, sweepAt, createAt);
    if key !in h.table {
      SweepFollows(p, h, all, sweepAt);
      FollowsLater(p, h.(table := Kept(p, h, sweepAt)), all, sweepAt, createAt);
      InsertFollows(p, h.(table := Kept(p, h, sweepAt)), all, key, createAt);
    }
  }

  lemma FullTakesAlike(p: Params, a: Bucket, b: Bucket, now: real)
    requires Full(p, a, now) && Full(p, b, now)
    ensures Take(p, a, now) == Take(p, b, now)
  {
  }

  /** A take from the key's own bucket is a request of the never-evicting limiter. */
  lemma TakeFollows(p: Params, h: Heap, all: Buckets, now: real, key: string, at: real)
    requires Sensible(p) && Follows(p, h, all, now) && now <= at && key in h.table && key != ""
    ensures var (h', ok) := TakeAt(p, h, h.table[key], at);
            var (all', ok') := Allow(p, false, all, Request(key, at, at, at));
            ok == ok' && Follows(p, h', all', at)
  {
    FollowsLater(p, h, all, now, at);
    var cell := h.cells[h.table[key]];
    var b := if key in all then all[key] else NewBucket(p, at);
    NewIsFull(p, at);
    if cell != b {
      FullTakesAlike(p, cell, b, at);
    }
    TakeStaysSane(p, b, at);
    hide Full;
    TakenFollows(p, h, all, key, at, Take(p, b, at).0);
  }

  /** Both sides put the same bucket in place. */
  lemma TakenFollows(p: Params, h: Heap, all: Buckets, key: string, at: real, b: Bucket)
    requires Follows(p, h, all, at) && key in h.table && b.tokens >= 0.0 && b.last <= at
    ensures Follows(p, h.(cells := h.cells[h.table[key] := b]), all[key := b], at)
  {
    hide Full;
  }

  /** What the whole state keeps. */
  ghost predicate RaceInv(p: Params, s: Race, now: real) {
    && Follows(p, s.heap, Run(p, false, s.takes), now)
    && |s.granted| == |s.takes| && Ordered(s.takes) && Before(s.takes, now)
    && (forall id :: id in s.waiting ==> s.waiting[id].key != "")
    && forall i :: 0 <= i < |s.takes| ==> s.granted[i] == Decision(p, false, s.takes, i)
  }

  lemma ArriveKeepsInv(p: Params, s: Race, e: Event, now: real)
    requires Sensible(p) && p.rps * p.idleEvict >= p.burst && RaceInv(p, s, now) && e.Arrive? && Enabled(s, e) && now <= Begins(e)
    ensures RaceInv(p, Next(p, s, e), Ends(e))
  {
    hide Follows, Lookup, Run, Decision;
    LookupFollows(p, s.heap, Run(p, false, s.takes), now, if e.key == "" then UNKNOWN else e.key, e.sweepAt, e.createAt);
  }

  lemma FinishKeepsInv(p: Params, s: Race, e: Event, now: real)
    requires Sensible(p) && RaceInv(p, s, now) && e.Finish? && Enabled(s, e) && Undisturbed(s, e) && now <= Begins(e)
    ensures RaceInv(p, Next(p, s, e), Ends(e))
  {
    hide Follows, Run, Allow, TakeAt;
    var w, s' := s.waiting[e.id], Next(p, s, e);
    var r := Request(w.key, e.at, e.at, e.at);
    TakeFollows(p, s.heap, Run(p, false, s.takes), now, w.key, e.at);
    RunMore(p, s.takes, r);
    forall i | 0 <= i < |s'.takes|
      ensures s'.granted[i] == Decision(p, false, s'.takes, i)
    {
      if i < |s.takes| {
        assert s'.takes[..i] == s.takes[..i];
      }
    }
  }

  lemma RunMore(p: Params, rs: seq<Request>, r: Request)
    ensures Run(p, false, rs + [r]) == Allow(p, false, Run(p, false, rs), r).0
    ensures Decision(p, false, rs + [r], |rs|) == Allow(p, false, Run(p, false, rs), r).1
  {
    hide Allow;
    assert (rs + [r])[..|rs|] == rs;
  }

  lemma {:induction false} RaceKeepsInv(p: Params, states: seq<Race>, events: seq<Event>, i: nat) returns (now: real)
    requires Sensible(p) && p.rps * p.idleEvict >= p.burst && IsRace(p, states, events) && i < |states|
    requires forall j :: 0 <= j < i ==> Undisturbed(states[j], events[j])
    ensures RaceInv(p, states[i], now) && (i > 0 ==> now == Ends(events[i - 1]))
    ensures i == 0 && events != [] ==> now <= Begins(events[0])
    decreases i
  {
    hide Next, RaceInv, Undisturbed;
    if i == 0 {
      now := if events == [] then 0.0 else Begins(events[0]);
      StartInv(p, now);
    } else {
      var before := RaceKeepsInv(p, states, events, i - 1);
      now := Ends(events[i - 1]);
      if events[i - 1].Arrive? {
        ArriveKeepsInv(p, states[i - 1], events[i - 1], before);
      } else {
        FinishKeepsInv(p, states[i - 1], events[i - 1], before);
      }
    }
  }

  lemma StartInv(p: Params, now: real)
    ensures RaceInv(p, IDLE, now)
  {
  }

  /** As long as no sweep comes between a lookup and its take, and idle buckets have
      time to refill, every answer of every interleaving is that of a limiter that
      never evicts, asked in the order of the takes. */
  lemma RaceIsSerial(p: Params, states: seq<Race>, events: seq<Event>, i: nat)
    requires Sensible(p) && p.rps * p.idleEvict >= p.burst && IsRace(p, states, events) && i < |states|
    requires forall j :: 0 <= j < i ==> Undisturbed(states[j], events[j])
    ensures var s := states[i];
            && |s.granted| == |s.takes| && Ordered(s.takes)
            && forall k :: 0 <= k < |s.takes| ==> s.granted[k] == Decision(p, false, s.takes, k)
  {
    var now := RaceKeepsInv(p, states, events, i);
  }

  /** Takes of one key that were granted within [from, to]. */
  function Granted(takes: seq<Request>, granted: seq<bool>, key: string, from: real, to: real): nat
    requires |takes| == |granted|
  {
    if takes == [] then 0
    else
      var n := |takes| - 1;
      Granted(takes[..n], granted[..n], key, from, to)
      + if takes[n].key == key && from <= takes[n].takeAt <= to && granted[n] then 1 else 0
  }

  lemma {:induction false} GrantedAreSuccesses(p: Params, takes: seq<Request>, granted: seq<bool>, key: string, from: real, to: real)
    requires |takes| == |granted| && key != ""
    requires forall k :: 0 <= k < |takes| ==> granted[k] == Decision(p, false, takes, k)
    ensures Granted(takes, granted, key, from, to) <= Successes(p, false, takes, key, from, to)
    decreases |takes|
  {
    if takes != [] {
      var n := |takes| - 1;
      forall k | 0 <= k < n
        ensures granted[..n][k] == Decision(p, false, takes[..n], k)
      {
        assert takes[..n][..k] == takes[..k];
      }
      hide Decision;
      GrantedAreSuccesses(p, takes[..n], granted[..n], key, from, to);
    }
  }

  /** Then in any window one key is granted at most burst + rps times its length. */
  lemma RaceIsBounded(p: Params, states: seq<Race>, events: seq<Event>, i: nat, key: string, from: real, to: real)
    requires Sensible(p) && p.rps * p.idleEvict >= p.burst && IsRace(p, states, events) && i < |states|
    requires (forall j :: 0 <= j < i ==> Undisturbed(states[j], events[j])) && key != "" && from <= to
    ensures |states[i].takes| == |states[i].granted|
    ensures Granted(states[i].takes, states[i].granted, key, from, to) as real <= p.burst + Earned(p, to - from)
  {
    hide Earned, Granted, IsRace, Successes, Undisturbed;
    RaceIsSerial(p, states, events, i);
    GrantedAreSuccesses(p, states[i].takes, states[i].granted, key, from, to);
    WindowBound(p, states[i].takes, key, from, to);
  }

  // ----- when every race keeps to the rate -----

  /** Every race, with every sweep that may come in between. */
  ghost predicate RacesAreBounded(p: Params) {
    forall states: seq<Race>, events: seq<Event>, i: nat, key: string, from: real, to: real ::
      IsRace(p, states, events) && i < |states| && from <= to ==> Bounded(p, states[i], key, from, to)
  }

  predicate Bounded(p: Params, s: Race, key: string, from: real, to: real) {
    |s.takes| == |s.granted| && Granted(s.takes, s.granted, key, from, to) as real <= p.burst + Earned(p, to - from)
  }

  /** With a burst below one nothing is ever granted. */
  lemma {:induction false} NothingGranted(p: Params, states: seq<Race>, events: seq<Event>, i: nat)
    requires p.burst < 1.0 && IsRace(p, states, events) && i < |states|
    ensures |states[i].takes| == |states[i].granted| && forall k :: 0 <= k < |states[i].granted| ==> !states[i].granted[k]
    decreases i
  {
    hide Lookup, Earned, Begins, Ends;
    if i > 0 {
      NothingGranted(p, states, events, i - 1);
    }
  }

  lemma {:induction false} NoneCounted(takes: seq<Request>, granted: seq<bool>, key: string, from: real, to: real)
    requires |takes| == |granted| && forall k :: 0 <= k < |granted| ==> !granted[k]
    ensures Granted(takes, granted, key, from, to) == 0
    decreases |takes|
  {
    if takes != [] {
      NoneCounted(takes[..|takes| - 1], granted[..|takes| - 1], key, from, to);
    }
  }

  /** Some race leads to s, and is over by `now`. */
  ghost predicate RaceTo(p: Params, s: Race, now: real) {
    exists states: seq<Race>, events: seq<Event> ::
      IsRace(p, states, events) && states[|states| - 1] == s && forall i :: 0 <= i < |events| ==> Ends(events[i]) <= now
  }

  lemma RaceBegins(p: Params, now: real)
    ensures RaceTo(p, IDLE, now)
  {
    var states, events := [IDLE], [];
    assert IsRace(p, states, events) && states[|states| - 1] == IDLE;
  }

  lemma RaceGoesOn(p: Params, s: Race, now: real, e: Event)
    requires RaceTo(p, s, now) && Enabled(s, e) && now <= Begins(e)
    ensures RaceTo(p, Next(p, s, e), Ends(e))
  {
    hide Next, Enabled, Ends, Begins;
    var states, events :|
      IsRace(p, states, events) && states[|states| - 1] == s && forall i :: 0 <= i < |events| ==> Ends(events[i]) <= now;
    BeginsFirst(e, s);
    RaceExtends(p, states, events, e, now);
  }

  lemma RaceExtends(p: Params, states: seq<Race>, events: seq<Event>, e: Event, now: real)
    requires IsRace(p, states, events) && Enabled(states[|states| - 1], e) && now <= Begins(e) <= Ends(e)
    requires forall i :: 0 <= i < |events| ==> Ends(events[i]) <= now
    ensures RaceTo(p, Next(p, states[|states| - 1], e), Ends(e))
  {
    hide Next, Enabled, Ends, Begins;
    var n := |events|;
    var states2, events2 := states + [Next(p, states[n], e)], events + [e];
    assert forall i :: 0 <= i <= n ==> states2[i] == states[i];
    forall i | 0 <= i < |events2|
      ensures Enabled(states2[i], events2[i]) && states2[i + 1] == Next(p, states2[i], events2[i])
    {
      if i < n {
        assert events2[i] == events[i];
      }
    }
    assert IsRace(p, states2, events2);
  }

  lemma BeginsFirst(e: Event, s: Race)
    requires Enabled(s, e)
    ensures Begins(e) <= Ends(e)
  {
  }

  /** A request that runs alone, at one instant. */
  function Served(p: Params, s: Race, key: string, t: real): Race
    requires 0 !in s.waiting
    requires key in s.heap.table ==> s.heap.table[key] in s.heap.cells
    requires key != ""
  {
    Next(p, Next(p, s, Arrive(0, key, t, t)), Finish(0, t))
  }

  lemma ServedIsReached(p: Params, s: Race, now: real, key: string, t: real)
    requires RaceTo(p, s, now) && now <= t && key != "" && 0 !in s.waiting
    requires key in s.heap.table ==> s.heap.table[key] in s.heap.cells
    ensures RaceTo(p, Served(p, s, key, t), t)
  {
    hide RaceTo;
    RaceGoesOn(p, s, now, Arrive(0, key, t, t));
    RaceGoesOn(p, Next(p, s, Arrive(0, key, t, t)), t, Finish(0, t));
  }

  /** A new key gets a new bucket, another one takes from its own. */
  lemma ServedAs(p: Params, s: Race, key: string, t: real)
    requires 0 !in s.waiting && key != "" && (key in s.heap.table ==> s.heap.table[key] in s.heap.cells)
    ensures var h, s2 := s.heap, Served(p, s, key, t);
            var ref := if key in h.table then h.table[key] else h.next;
            var (b, ok) := Take(p, if key in h.table then h.cells[ref] else NewBucket(p, t), t);
            && s2.waiting == s.waiting && s2.takes == s.takes + [Request(key, t, t, t)] && s2.granted == s.granted + [ok]
            && s2.heap == if key in h.table then h.(cells := h.cells[ref := b])
                          else Heap(h.cells[ref := b], Kept(p, h, t)[key := ref], ref + 1)
  {
    hide Take, Kept;
    var s1 := Next(p, s, Arrive(0, key, t, t));
    assert s1.waiting - {0} == s.waiting;
    var h := s.heap;
    if key !in h.table {
      var b := Take(p, NewBucket(p, t), t).0;
      assert h.cells[h.next := NewBucket(p, t)][h.next := b] == h.cells[h.next := b];
    }
  }

  /** One more take and its answer. */
  lemma GrantedMore(takes: seq<Request>, granted: seq<bool>, r: Request, ok: bool, key: string, from: real, to: real)
    requires |takes| == |granted|
    ensures Granted(takes + [r], granted + [ok], key, from, to)
            == Granted(takes, granted, key, from, to) + if r.key == key && from <= r.takeAt <= to && ok then 1 else 0
  {
    assert (takes + [r])[..|takes|] == takes && (granted + [ok])[..|takes|] == granted;
  }

  /** Every bucket in the table was last used at time 0, and "a" took one token. */
  ghost predicate Rested(p: Params, h: Heap) {
    && (forall k :: k in h.table ==> h.table[k] < h.next && h.table[k] in h.cells && h.cells[h.table[k]].last == 0.0)
    && "a" in h.table && h.cells[h.table["a"]] == Bucket(p.burst - 1.0, 0.0)
  }

  /** Every window from time 0 on counts a request of "a". */
  ghost predicate CountsOne(takes: seq<Request>, granted: seq<bool>) {
    |takes| == |granted| && forall to :: to >= 0.0 ==> Granted(takes, granted, "a", 0.0, to) >= 1
  }

  /** At time 0, "a" was served once, and n other keys. */
  ghost predicate Crowd(p: Params, s: Race, n: nat) {
    && RaceTo(p, s, 0.0) && s.waiting == map[] && CountsOne(s.takes, s.granted)
    && s.heap.table.Keys == FillerSet(n) + {"a"} && Rested(p, s.heap)
  }

  lemma FirstServed(p: Params)
    requires p.burst >= 1.0
    ensures Crowd(p, Served(p, IDLE, "a", 0.0), 0)
  {
    RaceBegins(p, 0.0);
    ServedIsReached(p, IDLE, 0.0, "a", 0.0);
    ServedAs(p, IDLE, "a", 0.0);
    FirstTake(p, 0.0);
    FirstCounts();
    hide RaceTo, Served, Take, CountsOne, Earned;
    var s := Served(p, IDLE, "a", 0.0);
    assert Kept(p, IDLE.heap, 0.0) == map[];
    assert s.heap == Heap(map[0 := Bucket(p.burst - 1.0, 0.0)], map["a" := 0], 1);
  }

  lemma FirstCounts()
    ensures CountsOne([] + [Request("a", 0.0, 0.0, 0.0)], [] + [true])
  {
    hide Granted;
    forall to | to >= 0.0
      ensures Granted([] + [Request("a", 0.0, 0.0, 0.0)], [] + [true], "a", 0.0, to) >= 1
    {
      GrantedMore([], [], Request("a", 0.0, 0.0, 0.0), true, "a", 0.0, to);
    }
  }

  lemma FirstTake(p: Params, t: real)
    requires p.burst >= 1.0
    ensures Take(p, NewBucket(p, t), t) == (Bucket(p.burst - 1.0, t), true)
  {
    assert Earned(p, t - t) == 0.0;
  }

  lemma CrowdSize(p: Params, s: Race, n: nat)
    requires Crowd(p, s, n)
    ensures |s.heap.table| == n + 1
  {
    assert "a" !in FillerSet(n);
    assert |s.heap.table| == |s.heap.table.Keys|;
  }

  lemma CrowdGrows(p: Params, s: Race, n: nat)
    requires Crowd(p, s, n) && n + 1 < p.maxKeys
    ensures Filler(n) != "" && 0 !in s.waiting && Filler(n) !in s.heap.table && Crowd(p, Served(p, s, Filler(n), 0.0), n + 1)
  {
    hide *;
    NextFiller(p, s, n);
    CrowdHas(p, s, n);
    ServedFirst(p, s, Filler(n));
    CrowdIs(p, Served(p, s, Filler(n), 0.0), n + 1);
  }

  /** A new key at time 0. */
  lemma ServedFirst(p: Params, s: Race, key: string)
    requires RaceTo(p, s, 0.0) && s.waiting == map[] && CountsOne(s.takes, s.granted) && Rested(p, s.heap)
    requires key != "" && key != "a" && key !in s.heap.table && Kept(p, s.heap, 0.0) == s.heap.table
    ensures var s2 := Served(p, s, key, 0.0);
            && RaceTo(p, s2, 0.0) && s2.waiting == map[] && CountsOne(s2.takes, s2.granted) && Rested(p, s2.heap)
            && s2.heap.table.Keys == s.heap.table.Keys + {key}
  {
    hide *;
    var b := Take(p, NewBucket(p, 0.0), 0.0);
    ServedIsReached(p, s, 0.0, key, 0.0);
    ServedAs(p, s, key, 0.0);
    TakenAt(p, NewBucket(p, 0.0), 0.0);
    RestedGrows(p, s.heap, key, b.0);
    CountsOn(s.takes, s.granted, Request(key, 0.0, 0.0, 0.0), b.1);
  }

  lemma CrowdHas(p: Params, s: Race, n: nat)
    requires Crowd(p, s, n)
    ensures RaceTo(p, s, 0.0) && s.waiting == map[] && CountsOne(s.takes, s.granted) && Rested(p, s.heap)
    ensures s.heap.table.Keys == FillerSet(n) + {"a"}
  {
    hide RaceTo, CountsOne, Rested;
  }

  lemma CrowdIs(p: Params, s: Race, n: nat)
    requires RaceTo(p, s, 0.0) && s.waiting == map[] && CountsOne(s.takes, s.granted) && Rested(p, s.heap)
    requires s.heap.table.Keys == FillerSet(n) + {"a"}
    ensures Crowd(p, s, n)
  {
    hide RaceTo, CountsOne, Rested;
  }

  lemma RestedGrows(p: Params, h: Heap, key: string, b: Bucket)
    requires Rested(p, h) && key != "a" && b.last == 0.0
    ensures Rested(p, Heap(h.cells[h.next := b], h.table[key := h.next], h.next + 1))
    ensures h.table[key := h.next].Keys == h.table.Keys + {key}
  {
  }

  lemma CountsOn(takes: seq<Request>, granted: seq<bool>, r: Request, ok: bool)
    requires CountsOne(takes, granted)
    ensures CountsOne(takes + [r], granted + [ok])
  {
    hide Granted;
    forall to | to >= 0.0
      ensures Granted(takes + [r], granted + [ok], "a", 0.0, to) >= 1
    {
      GrantedMore(takes, granted, r, ok, "a", 0.0, to);
    }
  }

  lemma NextFiller(p: Params, s: Race, n: nat)
    requires Crowd(p, s, n) && n + 1 < p.maxKeys
    ensures Filler(n) != "" && Filler(n) != "a" && Filler(n) !in s.heap.table && Kept(p, s.heap, 0.0) == s.heap.table
    ensures FillerSet(n) + {"a"} + {Filler(n)} == FillerSet(n + 1) + {"a"}
  {
    hide RaceTo, CountsOne, Rested, Idle;
    FillersDiffer(n);
    CrowdSize(p, s, n);
    NotAmongFewer(n);
    hide Filler;
  }

  lemma NotAmongFewer(n: nat)
    ensures Filler(n) !in FillerSet(n) && Filler(n)[0] == 'f'
    ensures FillerSet(n) + {"a"} + {Filler(n)} == FillerSet(n + 1) + {"a"}
  {
    FillersDiffer(n);
  }

  lemma {:induction false} Crowded(p: Params, n: nat) returns (s: Race)
    requires p.burst >= 1.0 && (n > 0 ==> n < p.maxKeys)
    ensures Crowd(p, s, n)
    decreases n
  {
    hide Crowd, Served;
    if n == 0 {
      FirstServed(p);
      s := Served(p, IDLE, "a", 0.0);
    } else {
      s := Crowded(p, n - 1);
      CrowdGrows(p, s, n - 1);
      s := Served(p, s, Filler(n - 1), 0.0);
    }
  }

  /** At t one request of "a" still waits for the bucket it found, which the table
      has lost; c tokens are left in the new one, and the others were granted. */
  ghost predicate Split(p: Params, s: Race, t: real, c: real) {
    var h := s.heap;
    && RaceTo(p, s, t) && |s.takes| == |s.granted| && 0 !in s.waiting
    && 1 in s.waiting && s.waiting[1].key == "a" && s.waiting[1].ref in h.cells && h.cells[s.waiting[1].ref] == Bucket(p.burst - 1.0, 0.0)
    && (if "a" in h.table then h.table["a"] in h.cells && h.table["a"] != s.waiting[1].ref && h.cells[h.table["a"]] == Bucket(c, t)
        else c == p.burst)
    && s.waiting[1].ref < h.next
    && c + Granted(s.takes, s.granted, "a", t, t) as real >= p.burst
    && c + Granted(s.takes, s.granted, "a", 0.0, t) as real >= p.burst + 1.0
  }

  /** A new key sweeps between the lookup and the take of "a". */
  lemma Splits(p: Params, s0: Race, n: nat, t: real) returns (s: Race)
    requires Sensible(p) && Crowd(p, s0, n) && n + 1 >= p.maxKeys && t > p.idleEvict
    ensures Split(p, s, t, p.burst)
  {
    CrowdSize(p, s0, n);
    CrowdIsSwept(p, s0, n, t);
    RaceGoesOn(p, s0, 0.0, Arrive(1, "a", t, t));
    var s1 := Next(p, s0, Arrive(1, "a", t, t));
    SplitsAt(p, s0, n, t);
    RaceGoesOn(p, s1, t, Arrive(2, "z", t, t));
    s := Next(p, s1, Arrive(2, "z", t, t));
    hide RaceTo, Granted, Next, FillerSet;
    assert t >= 0.0 && Granted(s.takes, s.granted, "a", 0.0, t) >= 1;
  }

  lemma CrowdIsSwept(p: Params, s: Race, n: nat, t: real)
    requires Sensible(p) && Crowd(p, s, n) && n + 1 >= p.maxKeys && t > p.idleEvict
    ensures "z" !in s.heap.table && Kept(p, s.heap, t) == map[]
  {
    hide RaceTo, Granted;
    CrowdSize(p, s, n);
  }

  lemma SplitsAt(p: Params, s: Race, n: nat, t: real)
    requires s.waiting == map[] && "a" in s.heap.table && s.heap.table["a"] < s.heap.next
    requires "z" !in s.heap.table && Kept(p, s.heap, t) == map[]
    ensures var s1 := Next(p, s, Arrive(1, "a", t, t));
            && Enabled(s, Arrive(1, "a", t, t)) && Enabled(s1, Arrive(2, "z", t, t))
            && var s2 := Next(p, s1, Arrive(2, "z", t, t));
            && s2.takes == s.takes && s2.granted == s.granted
            && 0 !in s2.waiting && 1 in s2.waiting && s2.waiting[1] == Waiting("a", s.heap.table["a"])
            && s2.heap == Heap(s.heap.cells[s.heap.next := NewBucket(p, t)], map["z" := s.heap.next], s.heap.next + 1)
  {
    hide Kept;
    assert map[]["z" := s.heap.next] == map["z" := s.heap.next];
  }

  lemma SplitDrains(p: Params, s: Race, t: real, c: real)
    requires Sensible(p) && Split(p, s, t, c) && t >= 0.0 && 1.0 <= c <= p.burst
    ensures 0 !in s.waiting && ("a" in s.heap.table ==> s.heap.table["a"] in s.heap.cells)
    ensures Split(p, Served(p, s, "a", t), t, c - 1.0)
  {
    ServedIsReached(p, s, t, "a", t);
    ServedAs(p, s, "a", t);
    TakesOne(p, c, t);
    hide RaceTo, Granted, Kept, Served, Take;
    GrantedMore(s.takes, s.granted, Request("a", t, t, t), true, "a", t, t);
    GrantedMore(s.takes, s.granted, Request("a", t, t, t), true, "a", 0.0, t);
  }

  lemma TakesOne(p: Params, c: real, t: real)
    requires 1.0 <= c <= p.burst
    ensures Take(p, Bucket(c, t), t) == (Bucket(c - 1.0, t), true)
  {
    assert Earned(p, t - t) == 0.0;
  }

  lemma {:induction false} Drains(p: Params, s0: Race, t: real, c0: real) returns (s: Race, c: real)
    requires Sensible(p) && Split(p, s0, t, c0) && t >= 0.0 && 0.0 <= c0 <= p.burst
    ensures Split(p, s, t, c) && 0.0 <= c < 1.0
    decreases c0
  {
    hide Split, Served;
    if c0 < 1.0 {
      s, c := s0, c0;
    } else {
      SplitDrains(p, s0, t, c0);
      s, c := Drains(p, Served(p, s0, "a", t), t, c0 - 1.0);
    }
  }

  /** Then the one that waited is granted too, at the same instant. */
  lemma StaleBucketIsExtra(p: Params, s: Race, t: real, c: real)
    requires Sensible(p) && Split(p, s, t, c) && c < 1.0 && p.burst >= 1.0 && Earned(p, t) >= 1.0
    ensures Enabled(s, Finish(1, t))
    ensures var s2 := Next(p, s, Finish(1, t)); RaceTo(p, s2, t) && !Bounded(p, s2, "a", t, t)
  {
    RaceGoesOn(p, s, t, Finish(1, t));
    hide RaceTo, Granted;
    assert t - 0.0 == t && Earned(p, t - t) == 0.0;
    GrantedMore(s.takes, s.granted, Request("a", t, t, t), true, "a", t, t);
  }

  lemma RaceBreaks(p: Params, s: Race, now: real, key: string, from: real, to: real)
    requires RaceTo(p, s, now) && from <= to && !Bounded(p, s, key, from, to)
    ensures !RacesAreBounded(p)
  {
    hide Next, Enabled, Bounded, Ends, Begins;
    var states, events :|
      IsRace(p, states, events) && states[|states| - 1] == s && forall i :: 0 <= i < |events| ==> Ends(events[i]) <= now;
    assert !Bounded(p, states[|states| - 1], key, from, to);
  }

  /** A time by which every bucket is idle and has earned a token, if it ever does. */
  lemma LongEnough(p: Params) returns (t: real)
    requires Sensible(p)
    ensures t > p.idleEvict && (if p.rps > 0.0 then Earned(p, t) >= 1.0 else Earned(p, t) == 0.0)
  {
    t := p.idleEvict + 1.0;
    NeverRefills(p, t);
    if p.rps > 0.0 {
      var dt := WaitFor(p, 1.0);
      EarnedAdds(p, t, dt);
      EarnedIsPositive(p, t);
      hide Earned;
      t := t + dt;
    }
  }

  /** Whatever the rate, the idle time and the cap on keys: every race keeps every
      key within burst + rps times the window if and only if the burst is below
      one, so that nothing is ever granted. */
  lemma RacesAreBoundedExactlyWhenNothingPasses(p: Params)
    requires Sensible(p)
    ensures RacesAreBounded(p) <==> p.burst < 1.0
  {
    hide RacesAreBounded, Split, Crowd, Earned, RaceTo;
    if p.burst < 1.0 {
      SmallBurstIsBounded(p);
    } else {
      var t := LongEnough(p);
      var n: nat := if p.maxKeys > 0 then p.maxKeys - 1 else 0;
      var s := Crowded(p, n);
      s := Splits(p, s, n, t);
      var c;
      s, c := Drains(p, s, t, p.burst);
      if p.rps > 0.0 {
        StaleBucketIsExtra(p, s, t, c);
        RaceBreaks(p, Next(p, s, Finish(1, t)), t, "a", t, t);
      } else {
        NewBucketIsExtra(p, s, t, c);
        RaceBreaks(p, s, t, "a", 0.0, t);
      }
    }
  }

  lemma SmallBurstIsBounded(p: Params)
    requires Sensible(p) && p.burst < 1.0
    ensures RacesAreBounded(p)
  {
    hide IsRace, Earned, Granted;
    forall states: seq<Race>, events: seq<Event>, i: nat, key: string, from: real, to: real |
      IsRace(p, states, events) && i < |states| && from <= to
      ensures Bounded(p, states[i], key, from, to)
    {
      NothingGranted(p, states, events, i);
      NoneCounted(states[i].takes, states[i].granted, key, from, to);
      EarnedIsPositive(p, to - from);
    }
  }

  /** Without a refill the new bucket alone is too much. */
  lemma NewBucketIsExtra(p: Params, s: Race, t: real, c: real)
    requires Split(p, s, t, c) && c < 1.0 && Earned(p, t) == 0.0
    ensures RaceTo(p, s, t) && !Bounded(p, s, "a", 0.0, t)
  {
    hide RaceTo, Granted;
    assert t - 0.0 == t;
  }
}
