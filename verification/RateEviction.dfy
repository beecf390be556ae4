/** Exactly when dropping idle buckets (cmd/tg-proxy/ratelimit.go) can be noticed,
    and exactly when the limiter that drops them keeps to its rate. */
module RateEviction {
  import opened RateLimit

  // ----- a run on which eviction shows -----

  /** A request all of whose clock readings are t. */
  function At(key: string, t: real): Request {
    Request(key, t, t, t)
  }

  lemma Continue(p: Params, evicts: bool, rs: seq<Request>, key: string, t: real)
    requires Ordered(rs) && Before(rs, t)
    ensures var more := rs + [At(key, t)];
            && Ordered(more) && Before(more, t)
            && Run(p, evicts, more) == Allow(p, evicts, Run(p, evicts, rs), At(key, t)).0
            && Decision(p, evicts, more, |rs|) == Allow(p, evicts, Run(p, evicts, rs), At(key, t)).1
  {
    hide Allow;
    assert (rs + [At(key, t)])[..|rs|] == rs;
  }

  /** The limiter that evicts grants "a" whatever the other one does. */
  ghost predicate NoLess(p: Params, rs: seq<Request>) {
    forall i :: 0 <= i < |rs| && rs[i].key == "a" && Decision(p, false, rs, i) ==> Decision(p, true, rs, i)
  }

  lemma NoLessMore(p: Params, rs: seq<Request>, r: Request)
    requires NoLess(p, rs)
    requires r.key == "a" && Decision(p, false, rs + [r], |rs|) ==> Decision(p, true, rs + [r], |rs|)
    ensures NoLess(p, rs + [r])
  {
    hide Allow, Run;
    var more := rs + [r];
    forall i | 0 <= i < |more| && more[i].key == "a" && Decision(p, false, more, i)
      ensures Decision(p, true, more, i)
    {
      if i < |rs| {
        assert more[..i] == rs[..i];
        assert Decision(p, false, rs, i);
      }
    }
  }

  /** After rs, evicting or not, the only bucket is that of "a". */
  ghost predicate Alone(p: Params, rs: seq<Request>, b: Bucket) {
    Ordered(rs) && Before(rs, b.last) && NoLess(p, rs) && forall evicts :: Run(p, evicts, rs) == map["a" := b]
  }

  lemma AloneTakes(p: Params, rs: seq<Request>, b: Bucket, t: real)
    requires Alone(p, rs, b) && t >= b.last
    ensures Alone(p, rs + [At("a", t)], Take(p, b, t).0)
  {
    hide Take, Run;
    forall evicts
      ensures Run(p, evicts, rs + [At("a", t)]) == map["a" := Take(p, b, t).0]
    {
      assert Run(p, evicts, rs) == map["a" := b];
      assert Before(rs, t);
      Continue(p, evicts, rs, "a", t);
      TakenAt(p, b, t);
      assert map["a" := b]["a" := Take(p, b, t).0] == map["a" := Take(p, b, t).0];
    }
    TakenAt(p, b, t);
    Continue(p, true, rs, "a", t);
    Continue(p, false, rs, "a", t);
    NoLessMore(p, rs, At("a", t));
  }

  lemma TakenAt(p: Params, b: Bucket, t: real)
    ensures Take(p, b, t).0.last == t
  {
  }

  /** Requests at one instant until not even one token is left. */
  lemma Drained(p: Params, rs: seq<Request>, b: Bucket) returns (more: seq<Request>, b': Bucket)
    requires Sensible(p) && Alone(p, rs, b) && 0.0 <= b.tokens <= p.burst
    ensures Alone(p, more, b') && b'.last == b.last && 0.0 <= b'.tokens < 1.0
    decreases b.tokens
  {
    if b.tokens < 1.0 {
      more, b' := rs, b;
    } else {
      AloneTakes(p, rs, b, b.last);
      assert Earned(p, b.last - b.last) == 0.0;
      more, b' := Drained(p, rs + [At("a", b.last)], Bucket(b.tokens - 1.0, b.last));
    }
  }

  lemma WaitFor(p: Params, missing: real) returns (dt: real)
    requires p.rps > 0.0 && missing > 0.0
    ensures dt > 0.0 && Earned(p, dt) == missing
  {
    dt := missing / p.rps;
  }

  /** A bucket that holds nothing, or never refills and holds less than a token. */
  lemma Emptied(p: Params) returns (rs: seq<Request>, b: Bucket)
    requires Sensible(p) && p.burst >= 1.0
    ensures Alone(p, rs, b) && 0.0 <= b.tokens < 1.0 && (p.rps > 0.0 ==> b.tokens == 0.0)
  {
    rs := [At("a", 0.0)];
    b := Bucket(p.burst - 1.0, 0.0);
    FirstRequest(p);
    rs, b := Drained(p, rs, b);
    if p.rps > 0.0 {
      var dt := WaitFor(p, 1.0 - b.tokens);
      var t := b.last + dt;
      AloneTakes(p, rs, b, t);
      hide Earned;
      assert t - b.last == dt;
      rs, b := rs + [At("a", t)], Bucket(0.0, t);
    }
  }

  lemma FirstRequest(p: Params)
    requires p.burst >= 1.0
    ensures Alone(p, [At("a", 0.0)], Bucket(p.burst - 1.0, 0.0))
  {
    var none: seq<Request> := [];
    assert Earned(p, 0.0 - 0.0) == 0.0;
    forall evicts
      ensures Run(p, evicts, [At("a", 0.0)]) == map["a" := Bucket(p.burst - 1.0, 0.0)]
    {
      assert Run(p, evicts, none) == map[];
      Continue(p, evicts, none, "a", 0.0);
      assert none + [At("a", 0.0)] == [At("a", 0.0)];
      EmptyTable(p, evicts);
    }
    Continue(p, true, none, "a", 0.0);
    NoLessMore(p, none, At("a", 0.0));
    assert none + [At("a", 0.0)] == [At("a", 0.0)];
  }

  lemma EmptyTable(p: Params, evicts: bool)
    requires p.burst >= 1.0
    ensures Allow(p, evicts, map[], At("a", 0.0)) == (map["a" := Bucket(p.burst - 1.0, 0.0)], true)
  {
    assert Swept(p, map[], 0.0) == map[];
    assert Earned(p, 0.0 - 0.0) == 0.0;
  }

  /** Keys to fill the table with. */
  function Filler(n: nat): string {
    if n == 0 then "f" else Filler(n - 1) + "f"
  }

  lemma {:induction false} FillersDiffer(n: nat)
    ensures |Filler(n)| == n + 1 && Filler(n)[0] == 'f'
    decreases n
  {
    if n > 0 {
      FillersDiffer(n - 1);
    }
  }

  function FillerSet(n: nat): (keys: set<string>)
    ensures forall k :: k in keys ==> k != "" && k[0] == 'f' && |k| <= n
    ensures |keys| == n
  {
    if n == 0 then {} else
      FillersDiffer(n - 1);
      FillerSet(n - 1) + {Filler(n - 1)}
  }

  /** The bucket of "a" among n others, none of them touched after it. */
  ghost predicate Among(p: Params, rs: seq<Request>, b: Bucket, n: nat) {
    && Ordered(rs) && Before(rs, b.last) && NoLess(p, rs)
    && forall evicts :: var m := Run(p, evicts, rs); m.Keys == FillerSet(n) + {"a"} && m["a"] == b
  }

  lemma {:induction false} Filled(p: Params, rs: seq<Request>, b: Bucket, n: nat) returns (more: seq<Request>)
    requires Alone(p, rs, b) && n < p.maxKeys
    ensures Among(p, more, b, n)
    decreases n
  {
    hide *;
    if n == 0 {
      AloneIsAmong(p, rs, b);
      more := rs;
    } else {
      var fewer := Filled(p, rs, b, n - 1);
      FillStep(p, fewer, b, n - 1);
      more := fewer + [At(Filler(n - 1), b.last)];
    }
  }

  lemma AloneIsAmong(p: Params, rs: seq<Request>, b: Bucket)
    requires Alone(p, rs, b)
    ensures Among(p, rs, b, 0)
  {
    hide Run, Ordered, Before, NoLess;
    forall evicts
      ensures var m := Run(p, evicts, rs); m.Keys == FillerSet(0) + {"a"} && m["a"] == b
    {
      assert Run(p, evicts, rs) == map["a" := b];
    }
  }

  lemma FillStep(p: Params, rs: seq<Request>, b: Bucket, n: nat)
    requires Among(p, rs, b, n) && n + 1 < p.maxKeys
    ensures Among(p, rs + [At(Filler(n), b.last)], b, n + 1)
  {
    FillersDiffer(n);
    hide Run, Ordered, Before, FillerSet, Filler, NoLess, Decision;
    Continue(p, true, rs, Filler(n), b.last);
    NoLessMore(p, rs, At(Filler(n), b.last));
    forall evicts
      ensures var m := Run(p, evicts, rs + [At(Filler(n), b.last)]); m.Keys == FillerSet(n + 1) + {"a"} && m["a"] == b
    {
      FillOne(p, evicts, rs, b, n);
    }
  }

  lemma FillOne(p: Params, evicts: bool, rs: seq<Request>, b: Bucket, n: nat)
    requires Among(p, rs, b, n) && n + 1 < p.maxKeys
    ensures var m := Run(p, evicts, rs + [At(Filler(n), b.last)]); m.Keys == FillerSet(n + 1) + {"a"} && m["a"] == b
  {
    hide Run, Allow;
    FillersDiffer(n);
    Continue(p, evicts, rs, Filler(n), b.last);
    var m := Run(p, evicts, rs);
    assert m.Keys == FillerSet(n) + {"a"};
    TableSize(m, n);
    NoSweep(p, evicts, m, Filler(n), b.last);
  }

  lemma TableSize(m: Buckets, n: nat)
    requires m.Keys == FillerSet(n) + {"a"}
    ensures |m| == n + 1
  {
    assert "a" !in FillerSet(n);
    assert |m| == |m.Keys|;
  }

  lemma NoSweep(p: Params, evicts: bool, m: Buckets, key: string, t: real)
    requires |m| < p.maxKeys && key != ""
    ensures var m' := Allow(p, evicts, m, At(key, t)).0;
            m'.Keys == m.Keys + {key} && forall k :: k in m && k != key ==> m'[k] == m[k]
  {
    hide Take;
  }

  /** One more request of "a", whose bucket is there. */
  lemma OneMore(p: Params, evicts: bool, rs: seq<Request>, b: Bucket, t: real)
    requires Ordered(rs) && Before(rs, t) && "a" in Run(p, evicts, rs) && Run(p, evicts, rs)["a"] == b
    ensures var more := rs + [At("a", t)];
            && Ordered(more) && Before(more, t) && "a" in Run(p, evicts, more)
            && (Run(p, evicts, more)["a"], Decision(p, evicts, more, |rs|)) == Take(p, b, t)
  {
    hide Take, Run, Decision;
    Continue(p, evicts, rs, "a", t);
  }

  lemma NoTimePasses(p: Params, b: Bucket)
    requires 0.0 <= b.tokens <= p.burst
    ensures Take(p, b, b.last) == if b.tokens >= 1.0 then (Bucket(b.tokens - 1.0, b.last), true) else (b, false)
  {
    assert Earned(p, b.last - b.last) == 0.0;
  }

  /** Waiting until the fuller of two buckets has one token. */
  lemma WaitForOne(p: Params, rich: Bucket, poor: Bucket) returns (t: real)
    requires p.rps > 0.0 && p.burst >= 1.0 && rich.last == poor.last && 1.0 > rich.tokens > poor.tokens >= 0.0
    ensures t >= rich.last && Take(p, rich, t).1 && !Take(p, poor, t).1
  {
    var dt := WaitFor(p, 1.0 - rich.tokens);
    t := rich.last + dt;
    hide Earned;
    assert t - rich.last == dt;
  }

  /** The last request is one of "a" that only the limiter that evicts allows. */
  ghost predicate Shows(p: Params, rs: seq<Request>) {
    && Ordered(rs) && rs != [] && rs[|rs| - 1].key == "a" && NoLess(p, rs)
    && Decision(p, true, rs, |rs| - 1) && !Decision(p, false, rs, |rs| - 1)
  }

  /** Two buckets of "a" with different contents tell themselves apart. */
  lemma LevelsShow(p: Params, rs: seq<Request>, rich: Bucket, poor: Bucket) returns (more: seq<Request>)
    requires Sensible(p) && Ordered(rs) && Before(rs, rich.last) && rich.last == poor.last && NoLess(p, rs)
    requires var m, all := Run(p, true, rs), Run(p, false, rs); "a" in m && "a" in all && m["a"] == rich && all["a"] == poor
    requires p.burst >= rich.tokens > poor.tokens >= 0.0 && p.burst >= 1.0 && (p.rps > 0.0 || (rich.tokens >= 1.0 > poor.tokens))
    ensures Shows(p, more)
    decreases rich.tokens
  {
    hide Run, Decision, Ordered, Take, Before, NoLess;
    if rich.tokens >= 1.0 {
      NoTimePasses(p, rich);
      NoTimePasses(p, poor);
      OneMore(p, true, rs, rich, rich.last);
      OneMore(p, false, rs, poor, rich.last);
      more := rs + [At("a", rich.last)];
      NoLessMore(p, rs, At("a", rich.last));
      if poor.tokens >= 1.0 {
        more := LevelsShow(p, more, Bucket(rich.tokens - 1.0, rich.last), Bucket(poor.tokens - 1.0, rich.last));
      }
    } else {
      var t := WaitForOne(p, rich, poor);
      BeforeLater(rs, rich.last, t);
      OneMore(p, true, rs, rich, t);
      OneMore(p, false, rs, poor, t);
      more := rs + [At("a", t)];
      NoLessMore(p, rs, At("a", t));
    }
  }

  lemma BeforeLater(rs: seq<Request>, now: real, later: real)
    requires Before(rs, now) && now <= later
    ensures Before(rs, later)
  {
  }

  /** A new key sweeps the full table. */
  lemma AfterNewKey(p: Params, rs: seq<Request>, b: Bucket, t: real)
    requires p.maxKeys >= 1 && Among(p, rs, b, p.maxKeys - 1) && b.last + p.idleEvict < t && b.last <= t
    ensures var zs := rs + [At("z", t)];
            && Ordered(zs) && Before(zs, t)
            && "a" !in Run(p, true, zs) && "a" in Run(p, false, zs) && Run(p, false, zs)["a"] == b
  {
    hide Allow, Run, Decision, Ordered, Take, NoLess;
    var m, all := Run(p, true, rs), Run(p, false, rs);
    TableSize(m, p.maxKeys - 1);
    assert "z" !in m;
    hide FillerSet;
    assert Before(rs, t);
    Continue(p, true, rs, "z", t);
    Continue(p, false, rs, "z", t);
    SweptAway(p, m, b, t);
    NotSwept(p, all, t);
  }

  /** Then "a" comes back as a new bucket. */
  lemma AfterSweep(p: Params, rs: seq<Request>, b: Bucket, t: real)
    requires Sensible(p) && p.maxKeys >= 1 && p.burst >= 1.0 && Among(p, rs, b, p.maxKeys - 1) && b.last + p.idleEvict < t
    ensures var more := rs + [At("z", t)] + [At("a", t)];
            var m, all := Run(p, true, more), Run(p, false, more);
            && Ordered(more) && Before(more, t)
            && "a" in m && m["a"] == Bucket(p.burst - 1.0, t) && "a" in all && all["a"] == Take(p, b, t).0
            && Decision(p, true, more, |rs| + 1) && Decision(p, false, more, |rs| + 1) == Take(p, b, t).1
            && NoLess(p, more)
  {
    AmongNoLess(p, rs, b, p.maxKeys - 1);
    hide Allow, Run, Decision, Ordered, Take, Among, Before, NoLess;
    var zs := rs + [At("z", t)];
    AfterNewKey(p, rs, b, t);
    Continue(p, true, zs, "a", t);
    Continue(p, false, zs, "a", t);
    NewAtOnce(p, Run(p, true, zs), t);
    TakesOwn(p, Run(p, false, zs), t);
    NoLessMore(p, rs, At("z", t));
    NoLessMore(p, zs, At("a", t));
  }

  lemma AmongNoLess(p: Params, rs: seq<Request>, b: Bucket, n: nat)
    requires Among(p, rs, b, n)
    ensures NoLess(p, rs)
  {
  }

  lemma TakesOwn(p: Params, m: Buckets, t: real)
    requires "a" in m
    ensures var (m', ok) := Allow(p, false, m, At("a", t)); "a" in m' && (m'["a"], ok) == Take(p, m["a"], t)
  {
    hide Take;
  }

  lemma SweptAway(p: Params, m: Buckets, b: Bucket, t: real)
    requires "a" in m && m["a"] == b && b.last + p.idleEvict < t && |m| >= p.maxKeys && "z" !in m
    ensures "a" !in Allow(p, true, m, At("z", t)).0
  {
    hide Take;
  }

  lemma NotSwept(p: Params, all: Buckets, t: real)
    requires "a" in all
    ensures var m' := Allow(p, false, all, At("z", t)).0; "a" in m' && m'["a"] == all["a"]
  {
    hide Take;
  }

  lemma NewAtOnce(p: Params, m: Buckets, t: real)
    requires "a" !in m && p.burst >= 1.0
    ensures var (m', ok) := Allow(p, true, m, At("a", t)); ok && "a" in m' && m'["a"] == Bucket(p.burst - 1.0, t)
  {
    assert Earned(p, t - t) == 0.0;
  }

  /** A time after which an empty bucket is idle and not yet full. */
  lemma LaterThan(p: Params) returns (t: real)
    requires Sensible(p) && p.rps * p.idleEvict < p.burst
    ensures t > p.idleEvict && Earned(p, t) < p.burst
  {
    var x := p.burst - p.rps * p.idleEvict;
    if p.rps == 0.0 {
      t := p.idleEvict + 1.0;
      assert t * p.rps == 0.0;
    } else {
      var d := x / 2.0 / p.rps;
      assert d * p.rps == x / 2.0 && d > 0.0;
      t := p.idleEvict + d;
      assert t * p.rps == p.idleEvict * p.rps + d * p.rps;
      assert p.idleEvict * p.rps == p.rps * p.idleEvict;
    }
  }

  /** With too short an idle time: a key is drained, the table filled, and after the
      idle time a new key sweeps it; the drained key is then served as if new. */
  lemma ShortIdleShows(p: Params) returns (rs: seq<Request>)
    requires Sensible(p) && p.burst >= 1.0 && p.maxKeys >= 1 && p.rps * p.idleEvict < p.burst
    ensures Shows(p, rs)
  {
    var b;
    rs, b := Emptied(p);
    rs := Filled(p, rs, b, p.maxKeys - 1);
    var dt := LaterThan(p);
    var t := b.last + dt;
    AfterSweep(p, rs, b, t);
    rs := rs + [At("z", t)] + [At("a", t)];
    EarnedIsPositive(p, dt);
    NeverRefills(p, dt);
    hide Earned;
    assert t - b.last == dt;
    assert Level(p, b, t) < p.burst;
    if Take(p, b, t).1 {
      rs := LevelsShow(p, rs, Bucket(p.burst - 1.0, t), Take(p, b, t).0);
    }
  }

  lemma NeverRefills(p: Params, dt: real)
    ensures p.rps == 0.0 ==> Earned(p, dt) == 0.0
  {
  }

  /** The limiter that evicts and the one that never does decide alike. */
  ghost predicate NeverNoticed(p: Params) {
    forall rs: seq<Request>, i: nat :: Ordered(rs) && i < |rs| ==> Decision(p, true, rs, i) == Decision(p, false, rs, i)
  }

  /** Eviction is never noticed if and only if the idle time refills a whole burst. */
  lemma UnnoticedExactlyWhenRefilled(p: Params)
    requires Sensible(p) && p.burst >= 1.0 && p.maxKeys >= 1
    ensures NeverNoticed(p) <==> p.rps * p.idleEvict >= p.burst
  {
    hide Decision, Ordered;
    if p.rps * p.idleEvict >= p.burst {
      forall rs: seq<Request>, i: nat | Ordered(rs) && i < |rs|
        ensures Decision(p, true, rs, i) == Decision(p, false, rs, i)
      {
        EvictionIsInvisible(p, rs, i);
      }
    } else {
      var rs := ShortIdleShows(p);
      assert Decision(p, true, rs, |rs| - 1) != Decision(p, false, rs, |rs| - 1);
    }
  }

  // ----- a rate that does not hold -----

  lemma NoLessFront(p: Params, rs: seq<Request>)
    requires NoLess(p, rs) && rs != []
    ensures NoLess(p, rs[..|rs| - 1])
  {
    hide Run, Allow;
    var n := |rs| - 1;
    forall i | 0 <= i < n && rs[..n][i].key == "a" && Decision(p, false, rs[..n], i)
      ensures Decision(p, true, rs[..n], i)
    {
      assert rs[..n][..i] == rs[..i];
      assert Decision(p, false, rs, i);
    }
  }

  lemma {:induction false} NoFewer(p: Params, rs: seq<Request>, from: real, to: real)
    requires NoLess(p, rs)
    ensures Successes(p, true, rs, "a", from, to) >= Successes(p, false, rs, "a", from, to)
    decreases |rs|
  {
    if rs != [] {
      hide Allow, Run;
      NoLessFront(p, rs);
      NoFewer(p, rs[..|rs| - 1], from, to);
    }
  }

  /** What only the limiter that evicts allows, the rate does not. */
  lemma ShownIsTooMuch(p: Params, rs: seq<Request>) returns (from: real)
    requires Sensible(p) && Shows(p, rs)
    ensures var to := rs[|rs| - 1].takeAt;
            from <= to && Successes(p, true, rs, "a", from, to) as real > p.burst + Earned(p, to - from)
  {
    hide Run, Allow, Earned, Ordered;
    var n := |rs| - 1;
    var to := rs[n].takeAt;
    AllowedExactlyWhenAffordable(p, rs, n);
    from :| from <= to && (Successes(p, false, rs[..n], "a", from, to) + 1) as real > p.burst + Earned(p, to - from);
    NoLessFront(p, rs);
    NoFewer(p, rs[..n], from, to);
  }

  /** The documented rate, for every key and window of every ordered run. */
  ghost predicate RateHolds(p: Params) {
    forall rs: seq<Request>, key: string, from: real, to: real :: Ordered(rs) && from <= to ==>
      Successes(p, true, rs, key, from, to) as real <= p.burst + Earned(p, to - from)
  }

  /** The limiter keeps to its rate if and only if the idle time refills a whole
      burst. */
  lemma RateHoldsExactlyWhenRefilled(p: Params)
    requires Sensible(p) && p.burst >= 1.0 && p.maxKeys >= 1
    ensures RateHolds(p) <==> p.rps * p.idleEvict >= p.burst
  {
    hide Decision, Ordered, Successes, Earned;
    if p.rps * p.idleEvict >= p.burst {
      forall rs: seq<Request>, key: string, from: real, to: real | Ordered(rs) && from <= to
        ensures Successes(p, true, rs, key, from, to) as real <= p.burst + Earned(p, to - from)
      {
        RateIsBounded(p, rs, key, from, to);
      }
    } else {
      var rs := ShortIdleShows(p);
      var from := ShownIsTooMuch(p, rs);
      assert Successes(p, true, rs, "a", from, rs[|rs| - 1].takeAt) as real > p.burst + Earned(p, rs[|rs| - 1].takeAt - from);
    }
  }

  /** With a burst below one there is nothing to notice: every request is refused. */
  lemma SmallBurstRefusesAll(p: Params, evicts: bool, rs: seq<Request>, i: nat)
    requires p.burst < 1.0 && i < |rs|
    ensures !Decision(p, evicts, rs, i)
  {
  }
}
