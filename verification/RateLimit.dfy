/** The keyed token buckets (cmd/tg-proxy/ratelimit.go), over real numbers and a
    clock that does not run backwards. */
module RateLimit {

  datatype Bucket = Bucket(tokens: real, last: real)

  datatype Params = Params(rps: real, burst: real, idleEvict: real, maxKeys: int)

  const UNKNOWN := "_unknown"

  function Lesser(a: real, b: real): real {
    if a > b then b else a
  }

  /** The tokens that a span of time earns. */
  function Earned(p: Params, dt: real): real {
    dt * p.rps
  }

  lemma EarnedAdds(p: Params, a: real, b: real)
    ensures Earned(p, a + b) == Earned(p, a) + Earned(p, b)
  {
  }

  lemma EarnedIsPositive(p: Params, dt: real)
    requires p.rps >= 0.0 && dt >= 0.0
    ensures Earned(p, dt) >= 0.0
  {
  }

  /** What a bucket holds at `now`, before a token is taken. */
  function Level(p: Params, b: Bucket, now: real): real {
    Lesser(b.tokens + Earned(p, now - b.last), p.burst)
  }

  function NewBucket(p: Params, now: real): Bucket {
    Bucket(p.burst, now)
  }

  function Take(p: Params, b: Bucket, now: real): (Bucket, bool) {
    var level := Level(p, b, now);
    if level >= 1.0 then (Bucket(level - 1.0, now), true) else (Bucket(level, now), false)
  }

  /** One call of allow, with the times its three clock readings return. */
  datatype Request = Request(key: string, sweepAt: real, createAt: real, takeAt: real)

  type Buckets = map<string, Bucket>

  function KeyOf(r: Request): string {
    if r.key == "" then UNKNOWN else r.key
  }

  predicate Idle(p: Params, b: Bucket, now: real) {
    b.last < now - p.idleEvict
  }

  function Swept(p: Params, m: Buckets, now: real): Buckets {
    map k | k in m && !Idle(p, m[k], now) :: m[k]
  }

  /** allow; without `evicts` it never sweeps. */
  function Allow(p: Params, evicts: bool, m: Buckets, r: Request): (Buckets, bool) {
    var key := KeyOf(r);
    var room := if key !in m && evicts && |m| >= p.maxKeys then Swept(p, m, r.sweepAt) else m;
    var b := if key in m then m[key] else NewBucket(p, r.createAt);
    var (b', ok) := Take(p, b, r.takeAt);
    (room[key := b'], ok)
  }

  function Run(p: Params, evicts: bool, rs: seq<Request>): Buckets {
    if rs == [] then map[] else Allow(p, evicts, Run(p, evicts, rs[..|rs| - 1]), rs[|rs| - 1]).0
  }

  /** The decision on the i-th request. */
  function Decision(p: Params, evicts: bool, rs: seq<Request>, i: nat): bool
    requires i < |rs|
  {
    Allow(p, evicts, Run(p, evicts, rs[..i]), rs[i]).1
  }

  predicate Ordered(rs: seq<Request>) {
    && (forall i :: 0 <= i < |rs| ==> rs[i].sweepAt <= rs[i].createAt <= rs[i].takeAt)
    && (forall i, j :: 0 <= i < j < |rs| ==> rs[i].takeAt <= rs[j].sweepAt)
  }

  predicate Sensible(p: Params) {
    p.rps >= 0.0 && p.burst >= 0.0 && p.idleEvict >= 0.0
  }

  /** No reading so far is later than now. */
  predicate Before(rs: seq<Request>, now: real) {
    forall i :: 0 <= i < |rs| ==> rs[i].takeAt <= now
  }

  // ----- evicting idle buckets -----

  predicate Full(p: Params, b: Bucket, now: real) {
    b.tokens + Earned(p, now - b.last) >= p.burst
  }

  lemma FullStays(p: Params, b: Bucket, now: real, later: real)
    requires Sensible(p) && Full(p, b, now) && now <= later
    ensures Full(p, b, later)
  {
    hide Earned;
    EarnedAdds(p, now - b.last, later - now);
    EarnedIsPositive(p, later - now);
    assert now - b.last + (later - now) == later - b.last;
  }

  /** An idle bucket has refilled when the idle time is long enough. */
  lemma IdleIsFull(p: Params, b: Bucket, now: real)
    requires Sensible(p) && p.rps * p.idleEvict >= p.burst && b.tokens >= 0.0 && Idle(p, b, now)
    ensures Full(p, b, now)
  {
    var more := now - b.last - p.idleEvict;
    EarnedAdds(p, p.idleEvict, more);
    EarnedIsPositive(p, more);
    assert Earned(p, p.idleEvict) == p.rps * p.idleEvict;
    hide Earned;
    assert p.idleEvict + more == now - b.last;
  }

  /** m is what `all`, which never evicts, holds, less buckets that are full. */
  ghost predicate Mirrors(p: Params, m: Buckets, all: Buckets, now: real) {
    && (forall k :: k in m ==> k in all && m[k] == all[k])
    && (forall k :: k in all ==> 0.0 <= all[k].tokens && all[k].last <= now)
    && (forall k :: k in all && k !in m ==> Full(p, all[k], now))
  }

  lemma MirrorsLater(p: Params, m: Buckets, all: Buckets, now: real, later: real)
    requires Sensible(p) && Mirrors(p, m, all, now) && now <= later
    ensures Mirrors(p, m, all, later)
  {
    forall k | k in all && k !in m
      ensures Full(p, all[k], later)
    {
      FullStays(p, all[k], now, later);
    }
  }

  lemma MirrorsSwept(p: Params, m: Buckets, all: Buckets, now: real)
    requires Sensible(p) && p.rps * p.idleEvict >= p.burst && Mirrors(p, m, all, now)
    ensures Mirrors(p, Swept(p, m, now), all, now)
  {
    forall k | k in all && k !in Swept(p, m, now)
      ensures Full(p, all[k], now)
    {
      if k in m {
        IdleIsFull(p, all[k], now);
      }
    }
  }

  lemma TakeStaysSane(p: Params, b: Bucket, now: real)
    requires Sensible(p) && b.tokens >= 0.0 && b.last <= now
    ensures Take(p, b, now).0.tokens >= 0.0 && Take(p, b, now).0.last == now
  {
    EarnedIsPositive(p, now - b.last);
    hide Earned;
  }

  /** An evicted bucket and a new one leave the same bucket behind. */
  lemma FullIsNew(p: Params, b: Bucket, r: Request)
    requires Sensible(p) && Full(p, b, r.takeAt) && r.createAt <= r.takeAt
    ensures Take(p, b, r.takeAt) == Take(p, NewBucket(p, r.createAt), r.takeAt)
  {
    EarnedIsPositive(p, r.takeAt - r.createAt);
    hide Earned;
    assert Level(p, b, r.takeAt) == p.burst == Level(p, NewBucket(p, r.createAt), r.takeAt);
  }

  lemma RoomMirrors(p: Params, m: Buckets, all: Buckets, now: real, r: Request)
    requires Sensible(p) && p.rps * p.idleEvict >= p.burst && Mirrors(p, m, all, now)
    requires now <= r.sweepAt <= r.createAt <= r.takeAt
    ensures Mirrors(p, m, all, r.takeAt) && Mirrors(p, Swept(p, m, r.sweepAt), all, r.takeAt)
  {
    hide *;
    MirrorsLater(p, m, all, now, r.sweepAt);
    MirrorsSwept(p, m, all, r.sweepAt);
    MirrorsLater(p, m, all, r.sweepAt, r.takeAt);
    MirrorsLater(p, Swept(p, m, r.sweepAt), all, r.sweepAt, r.takeAt);
  }

  /** Both limiters put the same bucket in place. */
  lemma PutMirrors(p: Params, m: Buckets, all: Buckets, key: string, b: Bucket, now: real)
    requires Mirrors(p, m, all, now) && b.tokens >= 0.0 && b.last <= now
    ensures Mirrors(p, m[key := b], all[key := b], now)
  {
    hide Full;
  }

  /** Both take from equal buckets, or one from a full and one from a new one. */
  lemma SameTake(p: Params, m: Buckets, all: Buckets, r: Request)
    requires Sensible(p) && Mirrors(p, m, all, r.takeAt) && r.createAt <= r.takeAt
    ensures var key := KeyOf(r);
            var mine, theirs := if key in m then m[key] else NewBucket(p, r.createAt), if key in all then all[key] else NewBucket(p, r.createAt);
            && Take(p, mine, r.takeAt) == Take(p, theirs, r.takeAt)
            && Take(p, mine, r.takeAt).0.tokens >= 0.0 && Take(p, mine, r.takeAt).0.last == r.takeAt
  {
    hide Take, Full, KeyOf;
    var key := KeyOf(r);
    TakeStaysSane(p, NewBucket(p, r.createAt), r.takeAt);
    if key in all {
      TakeStaysSane(p, all[key], r.takeAt);
      if key !in m {
        FullIsNew(p, all[key], r);
      }
    }
  }

  lemma AllowMirrors(p: Params, m: Buckets, all: Buckets, now: real, r: Request)
    requires Sensible(p) && p.rps * p.idleEvict >= p.burst && Mirrors(p, m, all, now)
    requires now <= r.sweepAt <= r.createAt <= r.takeAt
    ensures Mirrors(p, Allow(p, true, m, r).0, Allow(p, false, all, r).0, r.takeAt)
    ensures Allow(p, true, m, r).1 == Allow(p, false, all, r).1
  {
    hide Take, Swept, Mirrors, Sensible, KeyOf;
    var key := KeyOf(r);
    RoomMirrors(p, m, all, now, r);
    SameTake(p, m, all, r);
    var b := Take(p, if key in m then m[key] else NewBucket(p, r.createAt), r.takeAt).0;
    PutMirrors(p, m, all, key, b, r.takeAt);
    PutMirrors(p, Swept(p, m, r.sweepAt), all, key, b, r.takeAt);
  }

  lemma {:induction false} RunMirrors(p: Params, rs: seq<Request>, now: real)
    requires Sensible(p) && p.rps * p.idleEvict >= p.burst && Ordered(rs) && Before(rs, now)
    ensures Mirrors(p, Run(p, true, rs), Run(p, false, rs), now)
    decreases |rs|
  {
    if rs != [] {
      var n := |rs| - 1;
      RunMirrors(p, rs[..n], rs[n].sweepAt);
      AllowMirrors(p, Run(p, true, rs[..n]), Run(p, false, rs[..n]), rs[n].sweepAt, rs[n]);
      MirrorsLater(p, Run(p, true, rs), Run(p, false, rs), rs[n].takeAt, now);
    }
  }

  /** When an idle bucket has had time to refill, evicting it never changes a
      decision against a limiter that never evicts. */
  lemma EvictionIsInvisible(p: Params, rs: seq<Request>, i: nat)
    requires Sensible(p) && p.rps * p.idleEvict >= p.burst && Ordered(rs) && i < |rs|
    ensures Decision(p, true, rs, i) == Decision(p, false, rs, i)
  {
    assert Ordered(rs[..i]);
    RunMirrors(p, rs[..i], rs[i].sweepAt);
    AllowMirrors(p, Run(p, true, rs[..i]), Run(p, false, rs[..i]), rs[i].sweepAt, rs[i]);
  }

  // ----- how much one key gets -----

  /** Requests of `key` that were allowed with a reading in [from, to]. */
  function Successes(p: Params, evicts: bool, rs: seq<Request>, key: string, from: real, to: real): nat {
    if rs == [] then 0
    else
      var n := |rs| - 1;
      Successes(p, evicts, rs[..n], key, from, to)
      + if KeyOf(rs[n]) == key && from <= rs[n].takeAt <= to && Decision(p, evicts, rs, n) then 1 else 0
  }

  /** Either nothing was granted in the window yet, or what was granted and what is
      left in the bucket are paid for. */
  ghost predicate PaidFor(p: Params, m: Buckets, count: nat, key: string, from: real) {
    count == 0 || (key in m && from <= m[key].last && count as real + m[key].tokens <= p.burst + Earned(p, m[key].last - from))
  }

  lemma TakeIsPaidFor(p: Params, m: Buckets, count: nat, r: Request, from: real)
    requires Sensible(p) && PaidFor(p, m, count, KeyOf(r), from) && r.createAt <= r.takeAt && from <= r.takeAt
    requires KeyOf(r) in m ==> m[KeyOf(r)].last <= r.takeAt && m[KeyOf(r)].tokens >= 0.0
    ensures var (m', ok) := Allow(p, false, m, r);
            PaidFor(p, m', if ok then count + 1 else count, KeyOf(r), from)
  {
    var key := KeyOf(r);
    var b := if key in m then m[key] else NewBucket(p, r.createAt);
    hide Earned;
    EarnedIsPositive(p, r.takeAt - from);
    EarnedAdds(p, b.last - from, r.takeAt - b.last);
    assert b.last - from + (r.takeAt - b.last) == r.takeAt - from;
  }

  predicate Sane(m: Buckets, now: real) {
    forall k :: k in m ==> m[k].tokens >= 0.0 && m[k].last <= now
  }

  lemma AllowStaysSane(p: Params, m: Buckets, r: Request, now: real)
    requires Sensible(p) && Sane(m, now) && now <= r.takeAt && r.createAt <= r.takeAt
    ensures Sane(Allow(p, false, m, r).0, r.takeAt)
  {
    var b := if KeyOf(r) in m then m[KeyOf(r)] else NewBucket(p, r.createAt);
    TakeStaysSane(p, b, r.takeAt);
  }

  lemma {:induction false} RunStaysSane(p: Params, rs: seq<Request>, now: real)
    requires Sensible(p) && Ordered(rs) && Before(rs, now)
    ensures Sane(Run(p, false, rs), now)
    decreases |rs|
  {
    if rs != [] {
      hide Allow;
      var n := |rs| - 1;
      RunStaysSane(p, rs[..n], rs[n].sweepAt);
      AllowStaysSane(p, Run(p, false, rs[..n]), rs[n], rs[n].sweepAt);
    }
  }

  lemma OthersArePaidFor(p: Params, m: Buckets, count: nat, r: Request, key: string, from: real)
    requires PaidFor(p, m, count, key, from) && key != KeyOf(r)
    ensures PaidFor(p, Allow(p, false, m, r).0, count, key, from)
  {
  }

  lemma {:induction false} WindowIsPaidFor(p: Params, rs: seq<Request>, key: string, from: real, to: real)
    requires Sensible(p) && Ordered(rs) && Before(rs, to)
    ensures PaidFor(p, Run(p, false, rs), Successes(p, false, rs, key, from, to), key, from)
    decreases |rs|
  {
    if rs != [] {
      hide Allow, PaidFor, KeyOf;
      var n := |rs| - 1;
      var r, m := rs[n], Run(p, false, rs[..n]);
      WindowIsPaidFor(p, rs[..n], key, from, to);
      RunStaysSane(p, rs[..n], r.sweepAt);
      var count := Successes(p, false, rs[..n], key, from, to);
      if KeyOf(r) != key {
        OthersArePaidFor(p, m, count, r, key, from);
      } else if from <= r.takeAt {
        TakeIsPaidFor(p, m, count, r, from);
      } else {
        NoneYet(p, rs, key, from, to);
        NothingToPay(p, Run(p, false, rs), key, from);
      }
    }
  }

  lemma NothingToPay(p: Params, m: Buckets, key: string, from: real)
    ensures PaidFor(p, m, 0, key, from)
  {
  }

  lemma {:induction false} NoneYet(p: Params, rs: seq<Request>, key: string, from: real, to: real)
    requires Ordered(rs) && (rs != [] ==> rs[|rs| - 1].takeAt < from)
    ensures Successes(p, false, rs, key, from, to) == 0
    decreases |rs|
  {
    if |rs| > 1 {
      assert rs[|rs| - 2].takeAt <= rs[|rs| - 1].sweepAt;
      NoneYet(p, rs[..|rs| - 1], key, from, to);
    }
  }

  /** Requests after the window change nothing in it. */
  lemma {:induction false} WindowBound(p: Params, rs: seq<Request>, key: string, from: real, to: real)
    requires Sensible(p) && Ordered(rs) && from <= to
    ensures Successes(p, false, rs, key, from, to) as real <= p.burst + Earned(p, to - from)
    decreases |rs|
  {
    hide Earned;
    EarnedIsPositive(p, to - from);
    if rs != [] && rs[|rs| - 1].takeAt > to {
      WindowBound(p, rs[..|rs| - 1], key, from, to);
    } else if rs != [] {
      forall i | 0 <= i < |rs|
        ensures rs[i].takeAt <= to
      {
        assert rs[i].takeAt <= rs[|rs| - 1].takeAt;
      }
      hide Run, Successes;
      WindowIsPaidFor(p, rs, key, from, to);
      RunStaysSane(p, rs, to);
      PaidInFull(p, Run(p, false, rs), Successes(p, false, rs, key, from, to), key, from, to);
    }
  }

  lemma PaidInFull(p: Params, m: Buckets, count: nat, key: string, from: real, to: real)
    requires Sensible(p) && PaidFor(p, m, count, key, from) && Sane(m, to) && from <= to
    ensures count as real <= p.burst + Earned(p, to - from)
  {
    hide Earned;
    EarnedIsPositive(p, to - from);
    if count > 0 {
      var last := m[key].last;
      EarnedAdds(p, last - from, to - last);
      EarnedIsPositive(p, to - last);
      assert last - from + (to - last) == to - from;
    }
  }

  lemma {:induction false} SameSuccesses(p: Params, rs: seq<Request>, key: string, from: real, to: real)
    requires Sensible(p) && p.rps * p.idleEvict >= p.burst && Ordered(rs)
    ensures Successes(p, true, rs, key, from, to) == Successes(p, false, rs, key, from, to)
    decreases |rs|
  {
    if rs != [] {
      SameSuccesses(p, rs[..|rs| - 1], key, from, to);
      EvictionIsInvisible(p, rs, |rs| - 1);
    }
  }

  /** In any window one key is allowed at most burst + rps times its length, also
      by the limiter that evicts, when idle buckets have time to refill. */
  lemma RateIsBounded(p: Params, rs: seq<Request>, key: string, from: real, to: real)
    requires Sensible(p) && Ordered(rs) && from <= to && p.rps * p.idleEvict >= p.burst
    ensures Successes(p, true, rs, key, from, to) as real <= p.burst + Earned(p, to - from)
  {
    SameSuccesses(p, rs, key, from, to);
    WindowBound(p, rs, key, from, to);
  }

  // ----- and never less -----

  /** The bucket of a key is tight since `from`: it was full then, and what it
      earned since is spent or still there. Nothing was granted after its last use. */
  ghost predicate TightSince(p: Params, m: Buckets, rs: seq<Request>, key: string, from: real) {
    key in m ==>
      && from <= m[key].last && m[key].tokens <= p.burst
      && Successes(p, false, rs, key, from, m[key].last) as real + m[key].tokens >= p.burst + Earned(p, m[key].last - from)
      && forall i :: 0 <= i < |rs| && KeyOf(rs[i]) == key ==> rs[i].takeAt <= m[key].last
  }

  /** Requests of one key that are all over by `last` are counted alike by later
      windows, and not at all by windows that begin later. */
  lemma {:induction false} CountUntil(p: Params, rs: seq<Request>, key: string, from: real, last: real, to: real)
    requires last <= to && forall i :: 0 <= i < |rs| && KeyOf(rs[i]) == key ==> rs[i].takeAt <= last
    ensures Successes(p, false, rs, key, from, to) == Successes(p, false, rs, key, from, last)
    ensures from > last ==> Successes(p, false, rs, key, from, to) == 0
    decreases |rs|
  {
    if rs != [] {
      hide Decision;
      CountUntil(p, rs[..|rs| - 1], key, from, last, to);
    }
  }

  /** One request of the key: the bucket is tight since the old start, or since now
      when it had filled up. */
  lemma TakeStaysTight(p: Params, m: Buckets, before: nat, sinceNow: nat, r: Request, from: real) returns (from': real)
    requires Sensible(p) && r.createAt <= r.takeAt
    requires KeyOf(r) in m ==>
               && from <= m[KeyOf(r)].last <= r.takeAt && m[KeyOf(r)].tokens <= p.burst
               && before as real + m[KeyOf(r)].tokens >= p.burst + Earned(p, m[KeyOf(r)].last - from)
               && (m[KeyOf(r)].last < r.takeAt ==> sinceNow == 0)
    requires KeyOf(r) !in m ==> sinceNow == 0
    ensures var (m', ok) := Allow(p, false, m, r);
            var granted := if ok then 1 else 0;
            && KeyOf(r) in m' && m'[KeyOf(r)].last == r.takeAt && m'[KeyOf(r)].tokens <= p.burst && from' <= r.takeAt
            && (ok || m'[KeyOf(r)].tokens < 1.0)
            && (if KeyOf(r) in m && from' == from then before else if from' == r.takeAt then sinceNow else 0) as real
               + granted as real + m'[KeyOf(r)].tokens >= p.burst + Earned(p, r.takeAt - from')
            && (from' == r.takeAt || (KeyOf(r) in m && from' == from))
  {
    var key := KeyOf(r);
    assert Earned(p, r.takeAt - r.takeAt) == 0.0;
    EarnedIsPositive(p, r.takeAt - r.createAt);
    if key in m {
      var b := m[key];
      EarnedAdds(p, b.last - from, r.takeAt - b.last);
      EarnedIsPositive(p, r.takeAt - b.last);
      assert b.last - from + (r.takeAt - b.last) == r.takeAt - from;
      assert Earned(p, 0.0) == 0.0;
      hide Earned;
      from' := if b.tokens + Earned(p, r.takeAt - b.last) > p.burst then r.takeAt else from;
    } else {
      hide Earned;
      from' := r.takeAt;
    }
  }

  predicate NoRequests(rs: seq<Request>, key: string) {
    forall i :: 0 <= i < |rs| ==> KeyOf(rs[i]) != key
  }

  lemma {:induction false} BucketsAreTight(p: Params, rs: seq<Request>, key: string) returns (from: real)
    requires Sensible(p) && Ordered(rs)
    ensures TightSince(p, Run(p, false, rs), rs, key, from)
    ensures key !in Run(p, false, rs) ==> NoRequests(rs, key)
    decreases |rs|
  {
    if rs == [] {
      from := 0.0;
    } else {
      var n := |rs| - 1;
      from := BucketsAreTight(p, rs[..n], key);
      if KeyOf(rs[n]) != key {
        TightForOthers(p, rs, key, from);
      } else {
        from := TightForOwn(p, rs, key, from);
      }
    }
  }

  lemma TightForOthers(p: Params, rs: seq<Request>, key: string, from: real)
    requires rs != [] && KeyOf(rs[|rs| - 1]) != key && TightSince(p, Run(p, false, rs[..|rs| - 1]), rs[..|rs| - 1], key, from)
    requires key !in Run(p, false, rs[..|rs| - 1]) ==> NoRequests(rs[..|rs| - 1], key)
    ensures TightSince(p, Run(p, false, rs), rs, key, from)
    ensures key !in Run(p, false, rs) ==> NoRequests(rs, key)
  {
    hide Allow, KeyOf, Earned, Run, Successes;
    var n := |rs| - 1;
    OthersKeepTheirBucket(p, Run(p, false, rs[..n]), rs[n], key);
    OthersStep(p, rs, key);
    assert rs == rs[..n] + [rs[n]];
  }

  lemma OthersStep(p: Params, rs: seq<Request>, key: string)
    requires rs != [] && KeyOf(rs[|rs| - 1]) != key
    ensures var n := |rs| - 1; Run(p, false, rs) == Allow(p, false, Run(p, false, rs[..n]), rs[n]).0
    ensures forall from, to :: Successes(p, false, rs, key, from, to) == Successes(p, false, rs[..|rs| - 1], key, from, to)
  {
    hide Allow, KeyOf, Decision;
  }

  lemma TightForOwn(p: Params, rs: seq<Request>, key: string, from0: real) returns (from: real)
    requires Sensible(p) && Ordered(rs) && rs != [] && KeyOf(rs[|rs| - 1]) == key
    requires TightSince(p, Run(p, false, rs[..|rs| - 1]), rs[..|rs| - 1], key, from0)
    requires key !in Run(p, false, rs[..|rs| - 1]) ==> NoRequests(rs[..|rs| - 1], key)
    ensures key in Run(p, false, rs) && TightSince(p, Run(p, false, rs), rs, key, from)
  {
    hide Allow, KeyOf, Earned;
    var n := |rs| - 1;
    var r, front, m := rs[n], rs[..n], Run(p, false, rs[..n]);
    RunStaysSane(p, front, r.sweepAt);
    if key in m {
      CountUntil(p, front, key, from0, m[key].last, r.takeAt);
      CountUntil(p, front, key, r.takeAt, m[key].last, r.takeAt);
    } else {
      CountUntil(p, front, key, r.takeAt, r.takeAt - 1.0, r.takeAt);
    }
    from := TakeStaysTight(p, m, Successes(p, false, front, key, from0, r.takeAt), Successes(p, false, front, key, r.takeAt, r.takeAt), r, from0);
    InOrder(rs);
  }

  lemma InOrder(rs: seq<Request>)
    requires Ordered(rs) && rs != []
    ensures forall i :: 0 <= i < |rs| ==> rs[i].takeAt <= rs[|rs| - 1].takeAt
  {
  }

  lemma OthersKeepTheirBucket(p: Params, m: Buckets, r: Request, key: string)
    requires key != KeyOf(r)
    ensures var m' := Allow(p, false, m, r).0;
            (key in m' <==> key in m) && (key in m ==> m'[key] == m[key])
  {
  }

  /** Granting one more in every window up to now would stay within the rate. */
  ghost predicate Affordable(p: Params, evicts: bool, rs: seq<Request>, key: string, now: real) {
    forall from :: from <= now ==> (Successes(p, evicts, rs, key, from, now) + 1) as real <= p.burst + Earned(p, now - from)
  }

  lemma AllowedIsAffordable(p: Params, rs: seq<Request>)
    requires Sensible(p) && Ordered(rs) && rs != [] && Decision(p, false, rs, |rs| - 1)
    ensures var n := |rs| - 1; Affordable(p, false, rs[..n], KeyOf(rs[n]), rs[n].takeAt)
  {
    hide Decision, Earned, KeyOf;
    var n := |rs| - 1;
    forall from | from <= rs[n].takeAt
      ensures (Successes(p, false, rs[..n], KeyOf(rs[n]), from, rs[n].takeAt) + 1) as real <= p.burst + Earned(p, rs[n].takeAt - from)
    {
      WindowBound(p, rs, KeyOf(rs[n]), from, rs[n].takeAt);
    }
  }

  lemma RefusedIsNotAffordable(p: Params, rs: seq<Request>)
    requires Sensible(p) && Ordered(rs) && rs != [] && !Decision(p, false, rs, |rs| - 1)
    ensures var n := |rs| - 1; !Affordable(p, false, rs[..n], KeyOf(rs[n]), rs[n].takeAt)
  {
    hide Decision, Earned, KeyOf, Run;
    var n := |rs| - 1;
    var key, now := KeyOf(rs[n]), rs[n].takeAt;
    var from := BucketsAreTight(p, rs, key);
    RefusedIsEmpty(p, rs);
    assert Successes(p, false, rs, key, from, now) == Successes(p, false, rs[..n], key, from, now);
  }

  lemma DecisionOfFront(p: Params, evicts: bool, rs: seq<Request>, i: nat)
    requires i < |rs|
    ensures Decision(p, evicts, rs[..i + 1], i) == Decision(p, evicts, rs, i) && rs[..i + 1][..i] == rs[..i]
  {
    assert rs[..i + 1][..i] == rs[..i];
  }

  /** The token bucket is exactly its rate: a request is allowed if and only if
      allowing it keeps every window that ends now within burst + rps times its
      length. */
  lemma AllowedExactlyWhenAffordable(p: Params, rs: seq<Request>, i: nat)
    requires Sensible(p) && Ordered(rs) && i < |rs|
    ensures Decision(p, false, rs, i) <==> Affordable(p, false, rs[..i], KeyOf(rs[i]), rs[i].takeAt)
  {
    DecisionOfFront(p, false, rs, i);
    hide Decision, Affordable;
    if Decision(p, false, rs, i) {
      AllowedIsAffordable(p, rs[..i + 1]);
    } else {
      RefusedIsNotAffordable(p, rs[..i + 1]);
    }
  }

  /** The same of the limiter that evicts, when idle buckets have time to refill. */
  lemma LimiterIsExact(p: Params, rs: seq<Request>, i: nat)
    requires Sensible(p) && Ordered(rs) && i < |rs| && p.rps * p.idleEvict >= p.burst
    ensures Decision(p, true, rs, i) <==> Affordable(p, true, rs[..i], KeyOf(rs[i]), rs[i].takeAt)
  {
    hide Decision, Successes, Earned;
    AllowedExactlyWhenAffordable(p, rs, i);
    EvictionIsInvisible(p, rs, i);
    forall from: real
      ensures Successes(p, true, rs[..i], KeyOf(rs[i]), from, rs[i].takeAt) == Successes(p, false, rs[..i], KeyOf(rs[i]), from, rs[i].takeAt)
    {
      SameSuccesses(p, rs[..i], KeyOf(rs[i]), from, rs[i].takeAt);
    }
  }

  lemma RefusedIsEmpty(p: Params, rs: seq<Request>)
    requires rs != [] && !Decision(p, false, rs, |rs| - 1)
    ensures var r, m := rs[|rs| - 1], Run(p, false, rs);
            KeyOf(r) in m && m[KeyOf(r)].tokens < 1.0 && m[KeyOf(r)].last == r.takeAt
  {
  }

  /** The cap on keys gives way: a new key is admitted over it exactly when at
      least maxKeys buckets are not idle. */
  lemma CapGivesWay(p: Params, m: Buckets, r: Request)
    requires |m| <= p.maxKeys && KeyOf(r) !in m
    ensures |Allow(p, true, m, r).0| > p.maxKeys <==> |m| == p.maxKeys && forall k :: k in m ==> !Idle(p, m[k], r.sweepAt)
  {
    var key := KeyOf(r);
    var kept := Swept(p, m, r.sweepAt);
    var room := if |m| >= p.maxKeys then kept else m;
    var after := Allow(p, true, m, r).0;
    assert after.Keys == room.Keys + {key} && |after| == |after.Keys| == |room.Keys| + 1;
    assert kept.Keys <= m.Keys && |m| == |m.Keys| && |room| == |room.Keys|;
    SubsetSize(kept.Keys, m.Keys);
    if |kept.Keys| == |m.Keys| {
      assert forall k :: k in m ==> k in kept;
    }
    if forall k :: k in m ==> !Idle(p, m[k], r.sweepAt) {
      assert kept.Keys == m.Keys;
    }
  }

  lemma {:induction false} SubsetSize(a: set<string>, b: set<string>)
    requires a <= b
    ensures |a| <= |b| && (|a| == |b| ==> a == b)
  {
    assert b == a + (b - a) && |b| == |a| + |b - a|;
    assert |b - a| == 0 ==> b - a == {};
  }

  // ----- the objects -----

  lemma LevelIs(p: Params, b: Bucket, now: real, elapsed: real, rate: real)
    requires elapsed == now - b.last && rate == p.rps
    ensures Level(p, b, now) == Lesser(b.tokens + elapsed * rate, p.burst)
  {
  }

  class TokenBucket {
    var tokens: real
    var cap: real
    var refillRate: real
    var last: real

    constructor (rps: real, burst: real, now: real)
      ensures tokens == burst == cap && refillRate == rps && last == now
    {
      tokens, cap, refillRate, last := burst, burst, rps, now;
    }

    function Value(): Bucket
      reads this
    {
      Bucket(tokens, last)
    }

    /** take. */
    method TakeOne(ghost p: Params, now: real) returns (ok: bool)
      requires p.burst == cap && p.rps == refillRate
      modifies this`tokens, this`last
      ensures (Value(), ok) == Take(p, old(Value()), now)
    {
      var elapsed := now - last;
      ghost var level := Level(p, Value(), now);
      LevelIs(p, Value(), now, elapsed, refillRate);
      last := now;
      tokens := tokens + elapsed * refillRate;
      if tokens > cap {
        tokens := cap;
      }
      assert tokens == level;
      if tokens >= 1.0 {
        tokens := tokens - 1.0;
        return true;
      }
      return false;
    }
  }

  lemma SameSize(a: map<string, TokenBucket>, b: Buckets)
    requires a.Keys == b.Keys
    ensures |a| == |b|
  {
    assert |a| == |a.Keys| && |b| == |b.Keys|;
  }

  lemma SomeKey(keys: set<string>)
    requires keys != {}
    ensures exists k :: k in keys
  {
    assert (forall k :: k !in keys) ==> keys == {};
  }

  class RateLimiter {
    var buckets: map<string, TokenBucket>
    const params: Params

    constructor (params: Params)
      ensures this.params == params && buckets == map[]
    {
      this.params, buckets := params, map[];
    }

    /** Each key has its own bucket, with the limiter's rates. */
    ghost predicate Valid()
      reads this, buckets.Values
    {
      && (forall k :: k in buckets ==> buckets[k].cap == params.burst && buckets[k].refillRate == params.rps)
      && (forall j, k :: j in buckets && k in buckets && buckets[j] == buckets[k] ==> j == k)
    }

    function View(): Buckets
      reads this, buckets.Values
    {
      map k | k in buckets :: buckets[k].Value()
    }

    method SweepIdle(now: real)
      requires Valid()
      modifies this`buckets
      ensures Valid() && View() == Swept(params, old(View()), now)
      ensures forall k :: k in buckets ==> k in old(buckets) && buckets[k] == old(buckets)[k]
    {
      var todo := buckets.Keys;
      while todo != {}
        invariant Valid() && todo <= buckets.Keys
        invariant forall k :: k in buckets ==> k in old(buckets) && buckets[k] == old(buckets)[k]
        invariant forall k :: k in old(buckets) ==> (k in buckets <==> k in todo || !Idle(params, old(buckets)[k].Value(), now))
      {
        SomeKey(todo);
        var k :| k in todo;
        todo := todo - {k};
        if buckets[k].last < now - params.idleEvict {
          buckets := buckets - {k};
        }
      }
    }

    /** The bucket of a key, made when there is none. */
    method BucketFor(key: string, r: Request) returns (b: TokenBucket)
      requires Valid() && key == KeyOf(r)
      modifies this`buckets
      ensures Valid() && key in buckets && buckets[key] == b
      ensures var m := old(View());
              && b.Value() == (if key in m then m[key] else NewBucket(params, r.createAt))
              && View() == (if key !in m && |m| >= params.maxKeys then Swept(params, m, r.sweepAt) else m)[key := b.Value()]
      ensures b in old(buckets.Values) || fresh(b)
    {
      hide Swept, Idle;
      SameSize(buckets, View());
      if key in buckets {
        assert View() == View()[key := buckets[key].Value()];
        return buckets[key];
      }
      if |buckets| >= params.maxKeys {
        SweepIdle(r.sweepAt);
      }
      b := AddBucket(key, r.createAt);
    }

    method AddBucket(key: string, now: real) returns (b: TokenBucket)
      requires Valid() && key !in buckets
      modifies this`buckets
      ensures Valid() && fresh(b) && key in buckets && buckets[key] == b && b.Value() == NewBucket(params, now)
      ensures View() == old(View())[key := b.Value()]
    {
      b := new TokenBucket(params.rps, params.burst, now);
      buckets := buckets[key := b];
    }

    method TakeFrom(key: string, now: real) returns (ok: bool)
      requires Valid() && key in buckets
      modifies buckets[key]
      ensures Valid() && (View()[key], ok) == Take(params, old(View())[key], now) && View() == old(View())[key := View()[key]]
    {
      ok := buckets[key].TakeOne(params, now);
    }

    /** allow. */
    method AllowRequest(r: Request) returns (ok: bool)
      requires Valid()
      modifies this, buckets.Values
      ensures Valid() && (View(), ok) == Allow(params, true, old(View()), r)
    {
      hide Take, Swept;
      var key := if r.key == "" then UNKNOWN else r.key;
      var b := BucketFor(key, r);
      ok := TakeFrom(key, r.takeAt);
      ghost var m := old(View());
      ghost var room := if key !in m && |m| >= params.maxKeys then Swept(params, m, r.sweepAt) else m;
      assert room[key := View()[key]] == View();
    }
  }
}
