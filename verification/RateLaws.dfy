/** The limiter in plain terms: no law here names the bucket arithmetic, the key
    or the idle test without saying what it is. */
module RateLaws {
  import opened RateLimit
  import RateRace

  /** The keys of two requests share a bucket: an empty key is "_unknown". */
  predicate SameKey(r: Request, q: Request) {
    r.key == q.key || (r.key in {"", "_unknown"} && q.key in {"", "_unknown"})
  }

  /** How many of the first n requests were allowed to the key of r, no earlier
      than `from`. */
  ghost function Granted(p: Params, evicts: bool, rs: seq<Request>, n: nat, r: Request, from: real): nat
    requires n <= |rs|
  {
    |set j | 0 <= j < n && SameKey(rs[j], r) && from <= rs[j].takeAt && Decision(p, evicts, rs, j)|
  }

  lemma SameKeyIs(r: Request, q: Request)
    ensures SameKey(r, q) <==> KeyOf(r) == KeyOf(q)
  {
  }

  lemma DecidedByFront(p: Params, evicts: bool, rs: seq<Request>, n: nat, j: nat)
    requires j < n <= |rs|
    ensures Decision(p, evicts, rs[..n], j) == Decision(p, evicts, rs, j)
  {
    assert rs[..n][..j] == rs[..j];
  }

  lemma GrantedStep(p: Params, evicts: bool, rs: seq<Request>, n: nat, r: Request, from: real)
    requires n < |rs|
    ensures Granted(p, evicts, rs, n + 1, r, from)
         == Granted(p, evicts, rs, n, r, from)
            + if SameKey(rs[n], r) && from <= rs[n].takeAt && Decision(p, evicts, rs, n) then 1 else 0
  {
    hide Decision, SameKey;
    var less := set j | 0 <= j < n && SameKey(rs[j], r) && from <= rs[j].takeAt && Decision(p, evicts, rs, j);
    var more := set j | 0 <= j < n + 1 && SameKey(rs[j], r) && from <= rs[j].takeAt && Decision(p, evicts, rs, j);
    if SameKey(rs[n], r) && from <= rs[n].takeAt && Decision(p, evicts, rs, n) {
      assert more == less + {n};
    } else {
      assert more == less;
    }
  }

  lemma {:induction false} GrantedAre(p: Params, evicts: bool, rs: seq<Request>, n: nat, r: Request, from: real, to: real)
    requires n <= |rs| && Ordered(rs) && forall j :: 0 <= j < n ==> rs[j].takeAt <= to
    ensures Successes(p, evicts, rs[..n], KeyOf(r), from, to) == Granted(p, evicts, rs, n, r, from)
    decreases n
  {
    if n == 0 {
      assert rs[..0] == [];
    } else {
      hide Decision, KeyOf, Granted, SameKey;
      assert rs[..n][..n - 1] == rs[..n - 1];
      GrantedAre(p, evicts, rs, n - 1, r, from, to);
      GrantedStep(p, evicts, rs, n - 1, r, from);
      SameKeyIs(rs[n - 1], r);
      DecidedByFront(p, evicts, rs, n, n - 1);
      SuccessStep(p, evicts, rs, n, KeyOf(r), from, to);
    }
  }

  lemma SuccessStep(p: Params, evicts: bool, rs: seq<Request>, n: nat, key: string, from: real, to: real)
    requires 0 < n <= |rs|
    ensures Successes(p, evicts, rs[..n], key, from, to)
         == Successes(p, evicts, rs[..n][..n - 1], key, from, to)
            + if KeyOf(rs[n - 1]) == key && from <= rs[n - 1].takeAt <= to && Decision(p, evicts, rs[..n], n - 1) then 1 else 0
  {
    hide Decision, KeyOf;
  }

  lemma ReadInOrder(rs: seq<Request>, n: nat)
    requires Ordered(rs) && n < |rs|
    ensures forall j :: 0 <= j < n ==> rs[j].takeAt <= rs[n].takeAt
  {
  }

  lemma EarnedIs(p: Params, dt: real)
    ensures Earned(p, dt) == p.rps * dt
  {
  }

  /** One more, in the window from `from` to the i-th request, is within the rate. */
  ghost predicate RoomFor(p: Params, evicts: bool, rs: seq<Request>, i: nat, from: real)
    requires i < |rs|
  {
    Granted(p, evicts, rs, i, rs[i], from) as real + 1.0 <= p.burst + p.rps * (rs[i].takeAt - from)
  }

  lemma RoomIsAffordable(p: Params, rs: seq<Request>, i: nat, from: real)
    requires Ordered(rs) && i < |rs| && from <= rs[i].takeAt
    ensures RoomFor(p, false, rs, i, from) <==>
              (Successes(p, false, rs[..i], KeyOf(rs[i]), from, rs[i].takeAt) + 1) as real <= p.burst + Earned(p, rs[i].takeAt - from)
  {
    ReadInOrder(rs, i);
    hide Decision, Granted, KeyOf, Successes, Earned;
    GrantedAre(p, false, rs, i, rs[i], from, rs[i].takeAt);
    EarnedIs(p, rs[i].takeAt - from);
  }

  /** A request is allowed if and only if, with it, every window that ends at it
      holds at most burst + rps times its length of what its key was allowed. */
  lemma ExactlyTheRate(p: Params, rs: seq<Request>, i: nat)
    requires Sensible(p) && Ordered(rs) && i < |rs|
    ensures Decision(p, false, rs, i) <==> forall from: real :: from <= rs[i].takeAt ==> RoomFor(p, false, rs, i, from)
    ensures p.rps * p.idleEvict >= p.burst ==> Decision(p, true, rs, i) == Decision(p, false, rs, i)
  {
    hide *;
    AllowedExactlyWhenAffordable(p, rs, i);
    if p.rps * p.idleEvict >= p.burst {
      EvictionIsInvisible(p, rs, i);
    }
    RoomForAll(p, rs, i);
  }

  lemma RoomForAll(p: Params, rs: seq<Request>, i: nat)
    requires Ordered(rs) && i < |rs|
    ensures Affordable(p, false, rs[..i], KeyOf(rs[i]), rs[i].takeAt) <==>
              forall from: real :: from <= rs[i].takeAt ==> RoomFor(p, false, rs, i, from)
  {
    hide RoomFor, Successes, Earned, KeyOf, Ordered;
    forall from: real | from <= rs[i].takeAt
      ensures RoomFor(p, false, rs, i, from) <==>
                (Successes(p, false, rs[..i], KeyOf(rs[i]), from, rs[i].takeAt) + 1) as real <= p.burst + Earned(p, rs[i].takeAt - from)
    {
      RoomIsAffordable(p, rs, i, from);
    }
  }

  lemma FrontIsOrdered(rs: seq<Request>, n: nat)
    requires Ordered(rs) && n <= |rs|
    ensures Ordered(rs[..n])
  {
  }

  /** Of the limiter that evicts, when idle buckets have time to refill: no window
      that ends at a request of its key holds more than the rate. */
  lemma WindowsAreBounded(p: Params, rs: seq<Request>, i: nat, from: real)
    requires Sensible(p) && Ordered(rs) && i < |rs| && from <= rs[i].takeAt && p.rps * p.idleEvict >= p.burst
    ensures Granted(p, true, rs, i + 1, rs[i], from) as real <= p.burst + p.rps * (rs[i].takeAt - from)
  {
    hide *;
    WindowCount(p, rs, i, from);
    EarnedIs(p, rs[i].takeAt - from);
  }

  lemma WindowCount(p: Params, rs: seq<Request>, i: nat, from: real)
    requires Sensible(p) && Ordered(rs) && i < |rs| && from <= rs[i].takeAt && p.rps * p.idleEvict >= p.burst
    ensures Granted(p, true, rs, i + 1, rs[i], from) as real <= p.burst + Earned(p, rs[i].takeAt - from)
  {
    FrontIsOrdered(rs, i + 1);
    ReadInOrder(rs, i);
    hide *;
    var to, key := rs[i].takeAt, KeyOf(rs[i]);
    RateIsBounded(p, rs[..i + 1], key, from, to);
    assert forall j :: 0 <= j < i + 1 ==> rs[j].takeAt <= to;
    GrantedAre(p, true, rs, i + 1, rs[i], from, to);
  }

  /** What is taken from a bucket with `earned` in it. */
  ghost predicate Takes(p: Params, b: Bucket, ok: bool, now: real, earned: real) {
    && (ok <==> earned >= 1.0 && p.burst >= 1.0)
    && b.last == now && b.tokens == (if earned > p.burst then p.burst else earned) - (if ok then 1.0 else 0.0)
  }

  lemma OneTake(p: Params, b: Bucket, now: real)
    ensures Takes(p, Take(p, b, now).0, Take(p, b, now).1, now, b.tokens + p.rps * (now - b.last))
  {
    EarnedIs(p, now - b.last);
    hide Earned;
  }

  lemma OwnBucket(p: Params, m: Buckets, r: Request, key: string, b: Bucket)
    requires key == (if r.key == "" then "_unknown" else r.key) && b == if key in m then m[key] else Bucket(p.burst, r.createAt)
    ensures var (m', ok) := Allow(p, true, m, r);
            key in m' && Take(p, b, r.takeAt).0 == m'[key] && Take(p, b, r.takeAt).1 == ok
  {
    hide Take, Swept;
  }

  /** One call of allow: its key's bucket had what it held, or burst when it is
      new, and what the time since then earned, and never more than burst; a whole
      token is taken or none. */
  lemma OneCall(p: Params, m: Buckets, r: Request, key: string, b: Bucket)
    requires key == (if r.key == "" then "_unknown" else r.key) && b == if key in m then m[key] else Bucket(p.burst, r.createAt)
    ensures var (m', ok) := Allow(p, true, m, r);
            key in m' && Takes(p, m'[key], ok, r.takeAt, b.tokens + p.rps * (r.takeAt - b.last))
  {
    hide *;
    OwnBucket(p, m, r, key, b);
    OneTake(p, b, r.takeAt);
  }

  /** The other buckets stay, except that a new key that finds maxKeys drops those
      last used before the idle time. */
  lemma OthersStay(p: Params, m: Buckets, r: Request, k: string)
    requires k != if r.key == "" then "_unknown" else r.key
    ensures var m', key := Allow(p, true, m, r).0, if r.key == "" then "_unknown" else r.key;
            && (k in m' <==> k in m && (key in m || |m| < p.maxKeys || r.sweepAt - p.idleEvict <= m[k].last))
            && (k in m' ==> m'[k] == m[k])
  {
    hide Take;
  }

  /** A new key is admitted over the cap exactly when none of the maxKeys buckets
      was last used before the idle time. */
  lemma OverTheCap(p: Params, m: Buckets, r: Request)
    requires |m| <= p.maxKeys && (if r.key == "" then "_unknown" else r.key) !in m
    ensures |Allow(p, true, m, r).0| > p.maxKeys <==> |m| == p.maxKeys && forall k :: k in m ==> r.sweepAt - p.idleEvict <= m[k].last
  {
    hide Allow;
    CapGivesWay(p, m, r);
  }

  // ----- calls that race -----

  /** A call that arrives finds its key's bucket or puts in a full one under a new
      reference; only then, and at the cap, are idle ones dropped from the table. */
  lemma ArrivalMeans(p: Params, s: RateRace.Race, id: nat, given: string, sweepAt: real, createAt: real, k: string)
    requires RateRace.Enabled(s, RateRace.Arrive(id, given, sweepAt, createAt))
    requires forall j :: j in s.heap.table ==> s.heap.table[j] in s.heap.cells
    ensures var key, h, s' := if given == "" then "_unknown" else given, s.heap,
                              RateRace.Next(p, s, RateRace.Arrive(id, given, sweepAt, createAt));
            && s'.takes == s.takes && s'.granted == s.granted
            && (key in h.table ==> s'.heap == h && s'.waiting == s.waiting[id := RateRace.Waiting(key, h.table[key])])
            && (key !in h.table ==>
                  && s'.heap.cells == h.cells[h.next := Bucket(p.burst, createAt)] && s'.heap.next == h.next + 1
                  && s'.waiting == s.waiting[id := RateRace.Waiting(key, h.next)]
                  && key in s'.heap.table && s'.heap.table[key] == h.next
                  && (k != key ==>
                        && (k in s'.heap.table <==>
                              k in h.table && (|h.table| < p.maxKeys || sweepAt - p.idleEvict <= h.cells[h.table[k]].last))
                        && (k in s'.heap.table ==> s'.heap.table[k] == h.table[k])))
  {
  }

  /** One that finishes takes from the bucket it was given, whatever the table
      holds by then. */
  lemma FinishMeans(p: Params, s: RateRace.Race, id: nat, at: real)
    requires RateRace.Enabled(s, RateRace.Finish(id, at))
    ensures var w, s' := s.waiting[id], RateRace.Next(p, s, RateRace.Finish(id, at));
            var b := s.heap.cells[w.ref];
            && s'.waiting == s.waiting - {id} && s'.heap.table == s.heap.table && s'.heap.next == s.heap.next
            && |s'.granted| == |s.granted| + 1 && s'.granted[..|s.granted|] == s.granted
            && s'.takes == s.takes + [Request(w.key, at, at, at)]
            && w.ref in s'.heap.cells && s'.heap.cells == s.heap.cells[w.ref := s'.heap.cells[w.ref]]
            && Takes(p, s'.heap.cells[w.ref], s'.granted[|s.granted|], at, b.tokens + p.rps * (at - b.last))
  {
    hide Take, Takes;
    OneTake(p, s.heap.cells[s.waiting[id].ref], at);
  }

  /** A take of the key in the window that was granted. */
  predicate Counted(r: Request, granted: bool, key: string, from: real, to: real) {
    granted && r.key == key && from <= r.takeAt <= to
  }

  lemma CountedStep(takes: seq<Request>, granted: seq<bool>, n: nat, key: string, from: real, to: real)
    requires n < |takes| == |granted|
    ensures |set i | 0 <= i < n + 1 && Counted(takes[i], granted[i], key, from, to)|
         == |set i | 0 <= i < n && Counted(takes[i], granted[i], key, from, to)|
            + if Counted(takes[n], granted[n], key, from, to) then 1 else 0
  {
    hide Counted;
    var less := set i | 0 <= i < n && Counted(takes[i], granted[i], key, from, to);
    var all := set i | 0 <= i < n + 1 && Counted(takes[i], granted[i], key, from, to);
    if Counted(takes[n], granted[n], key, from, to) {
      assert all == less + {n};
    } else {
      assert all == less;
    }
  }

  lemma GrantedUnfold(takes: seq<Request>, granted: seq<bool>, n: nat, key: string, from: real, to: real)
    requires n < |takes| == |granted|
    ensures RateRace.Granted(takes[..n + 1], granted[..n + 1], key, from, to)
         == RateRace.Granted(takes[..n], granted[..n], key, from, to)
            + if Counted(takes[n], granted[n], key, from, to) then 1 else 0
  {
    assert takes[..n + 1][..n] == takes[..n] && granted[..n + 1][..n] == granted[..n];
  }

  /** What is bounded is the number of such takes. */
  lemma {:induction false} RaceGrantsAre(takes: seq<Request>, granted: seq<bool>, n: nat, key: string, from: real, to: real)
    requires n <= |takes| == |granted|
    ensures RateRace.Granted(takes[..n], granted[..n], key, from, to)
         == |set i | 0 <= i < n && Counted(takes[i], granted[i], key, from, to)|
    decreases n
  {
    if n > 0 {
      hide *;
      RaceGrantsAre(takes, granted, n - 1, key, from, to);
      CountedStep(takes, granted, n - 1, key, from, to);
      GrantedUnfold(takes, granted, n - 1, key, from, to);
    }
  }
}
