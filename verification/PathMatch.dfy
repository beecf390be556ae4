/** matchSegments (pkg/engine/path_classify.go): path patterns component by
    component, what they mean, and what they cost. */
module PathMatch {

  const STAR := "*"
  const DEEP := "**"

  type Parts = seq<string>

  /** What the pattern language is documented to mean: `*` is one non-empty
      component, `**` any number of them, and a match of a prefix suffices. */
  ghost predicate Documented(p: Parts, x: Parts)
    decreases |p|
  {
    if p == [] then true
    else if p[0] == DEEP then exists k :: 0 <= k <= |x| && Documented(p[1..], x[k..])
    else x != [] && Component(p[0], x[0]) && Documented(p[1..], x[1..])
  }

  predicate Component(pattern: string, x: string) {
    if pattern == STAR then x != "" else x == pattern
  }

  /** matchSegments from pattern component i on. A `**` restarts the search at the
      front of x, not at component i. */
  predicate Matches(p: Parts, x: Parts, i: nat)
    requires i <= |p|
    decreases |p|, 1, |p| - i
  {
    if i == |p| then true
    else if p[i] == DEEP then i + 1 == |p| || AnySuffix(p[i + 1..], x, 0)
    else i < |x| && Component(p[i], x[i]) && Matches(p, x, i + 1)
  }

  /** The loop over how many components `**` absorbs. */
  predicate AnySuffix(rest: Parts, x: Parts, k: nat)
    requires k <= |x| + 1
    decreases |rest|, 2, |x| + 1 - k
  {
    k <= |x| && (Matches(rest, x[k..], 0) || AnySuffix(rest, x, k + 1))
  }

  // ----- completeness -----

  lemma {:induction false} AnySuffixFinds(rest: Parts, x: Parts, k: nat, at: nat)
    requires k <= at <= |x| && Matches(rest, x[at..], 0)
    ensures AnySuffix(rest, x, k)
    decreases at - k
  {
    if k < at {
      AnySuffixFinds(rest, x, k + 1, at);
    }
  }

  lemma {:induction false} AnySuffixWitness(rest: Parts, x: Parts, k: nat) returns (at: nat)
    requires k <= |x| + 1 && AnySuffix(rest, x, k)
    ensures k <= at <= |x| && Matches(rest, x[at..], 0)
    decreases |x| + 1 - k
  {
    if Matches(rest, x[k..], 0) {
      at := k;
    } else {
      at := AnySuffixWitness(rest, x, k + 1);
    }
  }

  /** Every path the documentation says is matched is matched: a protected prefix
      never loses a path. */
  lemma {:induction false} NothingIsMissed(p: Parts, x: Parts, i: nat)
    requires i <= |p| && i <= |x| && Documented(p[i..], x[i..])
    ensures Matches(p, x, i)
    decreases |p|, |p| - i
  {
    if i < |p| {
      var q, y := p[i..], x[i..];
      assert q[1..] == p[i + 1..];
      if p[i] == DEEP {
        if i + 1 < |p| {
          var k :| 0 <= k <= |y| && Documented(q[1..], y[k..]);
          assert y[k..] == x[i + k..];
          var rest, z := p[i + 1..], x[i + k..];
          assert rest[0..] == rest && z[0..] == z;
          NothingIsMissed(rest, z, 0);
          AnySuffixFinds(rest, x, 0, i + k);
        }
      } else {
        assert y[1..] == x[i + 1..];
        NothingIsMissed(p, x, i + 1);
      }
    }
  }

  /** The converse fails: /a/**/a is documented to need two components named a,
      and matches /a. */
  lemma OverlapIsMatchedToo()
    ensures Matches(["", "a", DEEP, "a"], ["", "a"], 0) && !Documented(["", "a", DEEP, "a"], ["", "a"])
  {
    var p, x := ["", "a", DEEP, "a"], ["", "a"];
    var rest := p[3..];
    assert rest == ["a"] && x[1..] == ["a"];
    assert Matches(rest, x[1..], 1);
    assert Matches(rest, x[1..], 0);
    AnySuffixFinds(rest, x, 0, 1);
    assert Matches(p, x, 2) && Matches(p, x, 1);
    var none: Parts := [];
    var deep := [DEEP, "a"];
    assert p[1..] == ["a"] + deep && p[1..][1..] == deep && x[1..][1..] == none && deep[1..] == ["a"];
    forall k | 0 <= k <= |none|
      ensures !Documented(deep[1..], none[k..])
    {
      assert none[k..] == none;
    }
    assert !Documented(deep, none);
  }

  predicate Shallow(p: Parts) {
    forall k :: 0 <= k < |p| ==> p[k] != DEEP
  }

  /** p without `**` fits the front of x. */
  predicate Fits(p: Parts, x: Parts) {
    |p| <= |x| && forall k :: 0 <= k < |p| ==> Component(p[k], x[k])
  }

  lemma {:induction false} ShallowMatches(p: Parts, x: Parts, i: nat)
    requires Shallow(p) && i <= |p| && (forall k :: 0 <= k < i && k < |x| ==> Component(p[k], x[k])) && i <= |x|
    ensures Matches(p, x, i) <==> Fits(p, x)
    decreases |p| - i
  {
    if i < |p| && i < |x| && Component(p[i], x[i]) {
      ShallowMatches(p, x, i + 1);
    }
  }

  lemma {:induction false} ShallowDocumented(p: Parts, x: Parts)
    requires Shallow(p)
    ensures Documented(p, x) <==> Fits(p, x)
    decreases |p|
  {
    if p != [] && x != [] {
      ShallowDocumented(p[1..], x[1..]);
      HeadFits(p, x);
    }
  }

  /** A pattern by its `**`: the groups between them. */
  function Joined(groups: seq<Parts>): Parts
    requires groups != []
  {
    if |groups| == 1 then groups[0] else groups[0] + [DEEP] + Joined(groups[1..])
  }

  predicate AllShallow(groups: seq<Parts>) {
    forall k :: 0 <= k < |groups| ==> Shallow(groups[k])
  }

  /** Each group fits somewhere, the first at the front and each next one no
      earlier than the one before it; with `apart` also clear of it. */
  ghost predicate InTurn(groups: seq<Parts>, x: Parts, apart: bool)
    requires groups != []
  {
    && Fits(groups[0], x)
    && (|groups| > 1 ==> exists k :: (if apart then |groups[0]| else 0) <= k <= |x| && InTurn(groups[1..], x[k..], apart))
  }

  /** Matches the tail of a pattern from some component on. */
  ghost predicate SomeSuffix(tail: Parts, x: Parts) {
    exists k :: 0 <= k <= |x| && Matches(tail, x[k..], 0)
  }

  lemma SuffixMatches(tail: Parts, x: Parts)
    ensures tail == [] || AnySuffix(tail, x, 0) <==> SomeSuffix(tail, x)
  {
    if tail == [] {
      assert Matches(tail, x[0..], 0);
    } else if AnySuffix(tail, x, 0) {
      var k := AnySuffixWitness(tail, x, 0);
    }
    if SomeSuffix(tail, x) {
      var k :| 0 <= k <= |x| && Matches(tail, x[k..], 0);
      AnySuffixFinds(tail, x, 0, k);
    }
  }

  lemma {:induction false} MatchesAfter(head: Parts, tail: Parts, x: Parts, i: nat)
    requires Shallow(head) && i <= |head| && i <= |x|
    requires forall k :: 0 <= k < i && k < |x| ==> Component(head[k], x[k])
    ensures Matches(head + [DEEP] + tail, x, i) <==> Fits(head, x) && SomeSuffix(tail, x)
    decreases |head| - i
  {
    var p := head + [DEEP] + tail;
    if i < |head| {
      assert p[i] == head[i];
      if i < |x| && Component(head[i], x[i]) {
        MatchesAfter(head, tail, x, i + 1);
      }
    } else {
      assert p[i] == DEEP && p[i + 1..] == tail;
      SuffixMatches(tail, x);
    }
  }

  /** The documented tail of a pattern from component `from` on. */
  ghost predicate DocumentedFrom(tail: Parts, x: Parts, from: int) {
    exists k :: 0 <= from <= k <= |x| && Documented(tail, x[k..])
  }

  lemma {:induction false} DocumentedAfter(head: Parts, tail: Parts, x: Parts)
    requires Shallow(head)
    ensures Documented(head + [DEEP] + tail, x) <==> Fits(head, x) && DocumentedFrom(tail, x, |head|)
    decreases |head|
  {
    var p := head + [DEEP] + tail;
    if head == [] {
      assert p[0] == DEEP && p[1..] == tail;
    } else {
      assert p[0] == head[0] && p[1..] == head[1..] + [DEEP] + tail;
      if x != [] {
        DocumentedAfter(head[1..], tail, x[1..]);
        HeadFits(head, x);
        DocumentedShifts(tail, x, |head|);
      }
    }
  }

  lemma HeadFits(head: Parts, x: Parts)
    requires head != [] && x != []
    ensures Fits(head, x) <==> Component(head[0], x[0]) && Fits(head[1..], x[1..])
  {
    if Fits(head[1..], x[1..]) {
      forall k | 1 <= k < |head|
        ensures Component(head[k], x[k])
      {
        assert Component(head[1..][k - 1], x[1..][k - 1]);
      }
    }
  }

  lemma DocumentedShifts(tail: Parts, x: Parts, from: nat)
    requires x != [] && from > 0
    ensures DocumentedFrom(tail, x, from) <==> DocumentedFrom(tail, x[1..], from - 1)
  {
    hide Documented;
    if DocumentedFrom(tail, x, from) {
      var k :| from <= k <= |x| && Documented(tail, x[k..]);
      assert x[1..][k - 1..] == x[k..];
    }
    if DocumentedFrom(tail, x[1..], from - 1) {
      var k :| from - 1 <= k <= |x[1..]| && Documented(tail, x[1..][k..]);
      assert x[1..][k..] == x[k + 1..];
    }
  }

  /** What the code accepts: the groups in turn, where they may overlap. */
  lemma {:induction false} CodeAccepts(groups: seq<Parts>, x: Parts)
    requires groups != [] && AllShallow(groups)
    ensures Matches(Joined(groups), x, 0) <==> InTurn(groups, x, false)
    decreases |groups|
  {
    if |groups| == 1 {
      ShallowMatches(groups[0], x, 0);
    } else {
      var tail := Joined(groups[1..]);
      MatchesAfter(groups[0], tail, x, 0);
      forall k | 0 <= k <= |x|
        ensures Matches(tail, x[k..], 0) <==> InTurn(groups[1..], x[k..], false)
      {
        CodeAccepts(groups[1..], x[k..]);
      }
    }
  }

  /** What is documented: the groups in turn, apart. */
  lemma {:induction false} DocumentationSays(groups: seq<Parts>, x: Parts)
    requires groups != [] && AllShallow(groups)
    ensures Documented(Joined(groups), x) <==> InTurn(groups, x, true)
    decreases |groups|
  {
    if |groups| == 1 {
      ShallowDocumented(groups[0], x);
    } else {
      var tail := Joined(groups[1..]);
      DocumentedAfter(groups[0], tail, x);
      forall k | 0 <= k <= |x|
        ensures Documented(tail, x[k..]) <==> InTurn(groups[1..], x[k..], true)
      {
        DocumentationSays(groups[1..], x[k..]);
      }
    }
  }

  /** The groups of a pattern. */
  function Groups(p: Parts): (groups: seq<Parts>)
    ensures groups != []
  {
    if p == [] then [[]]
    else
      var more := Groups(p[1..]);
      if p[0] == DEEP then [[]] + more else [[p[0]] + more[0]] + more[1..]
  }

  /** Every pattern is the join of its groups. */
  lemma {:induction false} EveryPatternIsJoined(p: Parts)
    ensures AllShallow(Groups(p)) && Joined(Groups(p)) == p
    decreases |p|
  {
    if p != [] {
      hide AllShallow, Joined;
      EveryPatternIsJoined(p[1..]);
      var more := Groups(p[1..]);
      assert p == [p[0]] + p[1..];
      if p[0] == DEEP {
        DeepJoins(more);
      } else {
        assert more == [more[0]] + more[1..];
        ShallowJoins(p[0], more[0], more[1..]);
      }
    } else {
      OneEmptyGroup();
    }
  }

  lemma OneEmptyGroup()
    ensures AllShallow([[]]) && Joined([[]]) == []
  {
  }

  lemma DeepJoins(more: seq<Parts>)
    requires more != [] && AllShallow(more)
    ensures AllShallow([[]] + more) && Joined([[]] + more) == [DEEP] + Joined(more)
  {
    assert ([[]] + more)[1..] == more;
    assert [] + [DEEP] + Joined(more) == [DEEP] + Joined(more);
  }

  lemma ShallowCons(a: string, g: Parts)
    requires Shallow(g) && a != DEEP
    ensures Shallow([a] + g)
  {
  }

  lemma ShallowJoins(a: string, g: Parts, rest: seq<Parts>)
    requires AllShallow([g] + rest) && a != DEEP
    ensures AllShallow([[a] + g] + rest) && Joined([[a] + g] + rest) == [a] + Joined([g] + rest)
  {
    ShallowFirst(g, rest);
    ShallowFirst([a] + g, rest);
    ShallowCons(a, g);
    hide *;
    JoinFirst(g, rest);
    JoinFirst([a] + g, rest);
    if rest != [] {
      assert [a] + g + [DEEP] + Joined(rest) == [a] + (g + [DEEP] + Joined(rest));
    }
  }

  lemma ShallowFirst(g: Parts, rest: seq<Parts>)
    ensures AllShallow([g] + rest) <==> Shallow(g) && AllShallow(rest)
  {
    hide Shallow;
    var groups := [g] + rest;
    assert groups[0] == g && forall k :: 0 <= k < |rest| ==> groups[k + 1] == rest[k];
    if Shallow(g) && AllShallow(rest) {
      assert forall k :: 1 <= k < |groups| ==> groups[k] == rest[k - 1];
    }
  }

  lemma JoinFirst(g: Parts, rest: seq<Parts>)
    ensures Joined([g] + rest) == if rest == [] then g else g + [DEEP] + Joined(rest)
  {
    assert ([g] + rest)[1..] == rest;
  }

  // ----- patterns whose groups cannot overlap -----

  predicate FitsAt(g: Parts, x: Parts, at: nat) {
    at + |g| <= |x| && forall j :: 0 <= j < |g| ==> Component(g[j], x[at + j])
  }

  /** InTurn with places counted from the front of x. */
  ghost predicate Placed(groups: seq<Parts>, x: Parts, from: nat, apart: bool) {
    groups == []
    || exists k: nat :: k >= from && FitsAt(groups[0], x, k) && Placed(groups[1..], x, After(groups[0], k, apart), apart)
  }

  lemma FitsShifted(g: Parts, x: Parts, at: nat)
    requires at <= |x|
    ensures Fits(g, x[at..]) <==> FitsAt(g, x, at)
  {
    if FitsAt(g, x, at) {
      assert forall j :: 0 <= j < |g| ==> x[at..][j] == x[at + j];
    }
    if Fits(g, x[at..]) {
      forall j | 0 <= j < |g|
        ensures Component(g[j], x[at + j])
      {
        assert x[at..][j] == x[at + j];
      }
    }
  }

  function After(g: Parts, at: nat, apart: bool): nat {
    if apart then at + |g| else at
  }

  lemma {:induction false} InTurnIsPlaced(groups: seq<Parts>, x: Parts, at: nat, apart: bool)
    requires groups != [] && at <= |x|
    ensures InTurn(groups, x[at..], apart) <==> FitsAt(groups[0], x, at) && Placed(groups[1..], x, After(groups[0], at, apart), apart)
    decreases |groups|
  {
    hide FitsAt, Fits;
    var y := x[at..];
    FitsShifted(groups[0], x, at);
    if |groups| > 1 {
      var rest := groups[1..];
      forall k: nat | k <= |y|
        ensures InTurn(rest, y[k..], apart) <==> PlacedHere(rest, x, at + k, apart)
      {
        assert y[k..] == x[at + k..];
        InTurnIsPlaced(rest, x, at + k, apart);
      }
      if FitsAt(groups[0], x, at) && Placed(rest, x, After(groups[0], at, apart), apart) {
        var k := SomePlace(rest, x, After(groups[0], at, apart), apart);
        assert InTurn(rest, y[k - at..], apart);
      }
      if FitsAt(groups[0], x, at) && InTurn(groups, y, apart) {
        var k :| (if apart then |groups[0]| else 0) <= k <= |y| && InTurn(rest, y[k..], apart);
        assert PlacedHere(rest, x, at + k, apart);
      }
    }
  }

  ghost predicate PlacedHere(groups: seq<Parts>, x: Parts, k: nat, apart: bool)
    requires groups != []
  {
    FitsAt(groups[0], x, k) && Placed(groups[1..], x, After(groups[0], k, apart), apart)
  }

  lemma SomePlace(groups: seq<Parts>, x: Parts, from: nat, apart: bool) returns (k: nat)
    requires groups != [] && Placed(groups, x, from, apart)
    ensures from <= k <= |x| && PlacedHere(groups, x, k, apart)
  {
    k :| k >= from && FitsAt(groups[0], x, k) && Placed(groups[1..], x, After(groups[0], k, apart), apart);
  }

  lemma PlacedEarlier(groups: seq<Parts>, x: Parts, from: nat, earlier: nat, apart: bool)
    requires Placed(groups, x, from, apart) && earlier <= from
    ensures Placed(groups, x, earlier, apart)
  {
  }

  /** The groups that hold components. */
  function Dense(groups: seq<Parts>): seq<Parts> {
    if groups == [] then []
    else (if groups[0] == [] then [] else [groups[0]]) + Dense(groups[1..])
  }

  lemma {:induction false} DenseIsPlaced(groups: seq<Parts>, x: Parts, from: nat, apart: bool)
    requires from <= |x|
    ensures Placed(groups, x, from, apart) <==> Placed(Dense(groups), x, from, apart)
    decreases |groups|
  {
    if groups != [] {
      var rest := groups[1..];
      if groups[0] == [] {
        DenseIsPlaced(rest, x, from, apart);
        if Placed(groups, x, from, apart) {
          var k := SomePlace(groups, x, from, apart);
          PlacedEarlier(rest, x, k, from, apart);
        }
        assert Placed(rest, x, from, apart) ==> FitsAt(groups[0], x, from);
        assert Dense(groups) == Dense(rest);
      } else {
        var dense := Dense(groups);
        assert dense[0] == groups[0] && dense[1..] == Dense(rest);
        if Placed(groups, x, from, apart) {
          var k := SomePlace(groups, x, from, apart);
          DenseIsPlaced(rest, x, After(groups[0], k, apart), apart);
          PlacedFirst(dense, x, from, k, apart);
        }
        if Placed(dense, x, from, apart) {
          var k := SomePlace(dense, x, from, apart);
          DenseIsPlaced(rest, x, After(groups[0], k, apart), apart);
          PlacedFirst(groups, x, from, k, apart);
        }
      }
    }
  }

  lemma PlacedFirst(groups: seq<Parts>, x: Parts, from: nat, k: nat, apart: bool)
    requires groups != [] && from <= k && PlacedHere(groups, x, k, apart)
    ensures Placed(groups, x, from, apart)
  {
  }

  /** Some path component is matched by both. */
  predicate Unify(a: string, b: string) {
    if a == STAR then b != "" else if b == STAR then a != "" else a == b
  }

  /** h can begin k components into g, on the same path. */
  predicate OverlayAt(g: Parts, h: Parts, k: nat) {
    k < |g| && forall j :: 0 <= j < |h| && k + j < |g| ==> Unify(g[k + j], h[j])
  }

  predicate CanOverlay(g: Parts, h: Parts) {
    exists k: nat :: k < |g| && OverlayAt(g, h, k)
  }

  /** What a policy author can check: no two groups next to each other can be laid
      over each other. */
  predicate NoneOverlay(groups: seq<Parts>) {
    forall i :: 0 < i < |groups| ==> !CanOverlay(groups[i - 1], groups[i])
  }

  lemma FitOverlays(g: Parts, h: Parts, x: Parts, at: nat, k: nat)
    requires FitsAt(g, x, at) && FitsAt(h, x, at + k) && k < |g|
    ensures CanOverlay(g, h)
  {
    forall j | 0 <= j < |h| && k + j < |g|
      ensures Unify(g[k + j], h[j])
    {
      assert Component(g[k + j], x[at + (k + j)]) && Component(h[j], x[at + k + j]);
    }
    assert OverlayAt(g, h, k);
  }

  lemma NoneOverlayTail(g: Parts, groups: seq<Parts>)
    requires NoneOverlay([g] + groups) && groups != []
    ensures NoneOverlay(groups) && !CanOverlay(g, groups[0])
  {
    var all := [g] + groups;
    assert !CanOverlay(all[0], all[1]);
    forall i | 0 < i < |groups|
      ensures !CanOverlay(groups[i - 1], groups[i])
    {
      assert all[i] == groups[i - 1] && all[i + 1] == groups[i];
      assert !CanOverlay(all[i + 1 - 1], all[i + 1]);
    }
  }

  lemma {:induction false} PlacedApart(g: Parts, groups: seq<Parts>, x: Parts, at: nat)
    requires FitsAt(g, x, at) && NoneOverlay([g] + groups) && Placed(groups, x, at, false)
    ensures Placed(groups, x, at + |g|, true)
    decreases |groups|
  {
    if groups != [] {
      var h := groups[0];
      var k :| k >= at && FitsAt(h, x, k) && Placed(groups[1..], x, k, false);
      NoneOverlayTail(g, groups);
      if k < at + |g| {
        FitOverlays(g, h, x, at, k - at);
      }
      assert [h] + groups[1..] == groups;
      PlacedApart(h, groups[1..], x, k);
    }
  }

  /** Total number of components. */
  function Total(groups: seq<Parts>): nat {
    if groups == [] then 0 else |groups[0]| + Total(groups[1..])
  }

  lemma {:induction false} ApartTakesRoom(groups: seq<Parts>, x: Parts, from: nat)
    requires Placed(groups, x, from, true) && from <= |x|
    ensures from + Total(groups) <= |x|
    decreases |groups|
  {
    if groups != [] {
      var k :| k >= from && FitsAt(groups[0], x, k) && Placed(groups[1..], x, k + |groups[0]|, true);
      ApartTakesRoom(groups[1..], x, k + |groups[0]|);
    }
  }

  // ----- a path on which two groups share components -----

  function Instance(a: string): string {
    if a == STAR then "x" else a
  }

  function Meet(a: string, b: string): string {
    if a == STAR then Instance(b) else a
  }

  function Instances(g: Parts): (x: Parts)
    ensures |x| == |g| && forall j :: 0 <= j < |g| ==> x[j] == Instance(g[j])
  {
    if g == [] then [] else [Instance(g[0])] + Instances(g[1..])
  }

  function AllInstances(groups: seq<Parts>): (x: Parts)
    ensures |x| == Total(groups)
  {
    if groups == [] then [] else Instances(groups[0]) + AllInstances(groups[1..])
  }

  function Overlaid(g: Parts, h: Parts, k: nat): (x: Parts)
    requires k < |g|
    ensures |x| == if k + |h| <= |g| then |g| else k + |h|
  {
    seq(if k + |h| <= |g| then |g| else k + |h|,
        i requires 0 <= i < if k + |h| <= |g| then |g| else k + |h| =>
          if i < k || i - k >= |h| then Instance(g[i]) else if i < |g| then Meet(g[i], h[i - k]) else Instance(h[i - k]))
  }

  lemma OverlaidFits(g: Parts, h: Parts, k: nat)
    requires OverlayAt(g, h, k)
    ensures FitsAt(g, Overlaid(g, h, k), 0) && FitsAt(h, Overlaid(g, h, k), k)
  {
    var x := Overlaid(g, h, k);
    forall j | 0 <= j < |g|
      ensures Component(g[j], x[j])
    {
      if k <= j < k + |h| {
        assert g[j] == g[k + (j - k)] && Unify(g[j], h[j - k]);
      }
    }
    forall j | 0 <= j < |h|
      ensures Component(h[j], x[k + j])
    {
      var i := k + j;
      assert i - k == j && (i < |g| ==> Unify(g[k + j], h[j]));
      assert x[i] == if i < |g| then Meet(g[i], h[j]) else Instance(h[j]);
    }
  }

  lemma FitsInside(g: Parts, left: Parts, x: Parts, right: Parts, at: nat)
    requires FitsAt(g, x, at)
    ensures FitsAt(g, left + x + right, |left| + at)
  {
    var all := left + x + right;
    assert forall i :: 0 <= i < |x| ==> all[|left| + i] == x[i];
    forall j | 0 <= j < |g|
      ensures Component(g[j], all[|left| + at + j])
    {
      assert all[|left| + (at + j)] == x[at + j];
    }
  }

  lemma InstanceFits(g: Parts)
    ensures FitsAt(g, Instances(g), 0)
  {
  }

  /** Groups written out one after the other between `left` and `right`. */
  lemma {:induction false} InstancesPlaced(groups: seq<Parts>, tail: seq<Parts>, left: Parts, right: Parts, from: nat)
    requires from <= |left|
    requires Placed(tail, left + AllInstances(groups) + right, |left| + Total(groups), false)
    ensures Placed(groups + tail, left + AllInstances(groups) + right, from, false)
    decreases |groups|
  {
    hide FitsAt, Instances;
    var x := left + AllInstances(groups) + right;
    if groups == [] {
      PlacedEarlier(tail, x, |left|, from, false);
      assert groups + tail == tail;
    } else {
      var first, rest := Instances(groups[0]), AllInstances(groups[1..]);
      assert x == left + first + (rest + right) && x == (left + first) + rest + right;
      InstanceFits(groups[0]);
      FitsInside(groups[0], left, first, rest + right, 0);
      InstancesPlaced(groups[1..], tail, left + first, right, |left|);
      assert (groups + tail)[1..] == groups[1..] + tail;
      PlacedFirst(groups + tail, x, from, |left|, false);
    }
  }

  lemma PairPlaced(g: Parts, h: Parts, k: nat, after: seq<Parts>, left: Parts)
    requires OverlayAt(g, h, k)
    ensures Placed([g] + ([h] + after), left + Overlaid(g, h, k) + AllInstances(after), |left|, false)
    ensures FitsAt(g, left + Overlaid(g, h, k) + AllInstances(after), |left|)
  {
    hide FitsAt, Overlaid, AllInstances, Unify, Placed;
    var mid, right := Overlaid(g, h, k), AllInstances(after);
    var x, two, three := left + mid + right, [h] + after, [g] + ([h] + after);
    OverlaidFits(g, h, k);
    FitsInside(g, left, mid, right, 0);
    FitsInside(h, left, mid, right, k);
    assert x == (left + mid) + right + [];
    NothingPlaced(x, |left + mid| + Total(after));
    InstancesPlaced(after, [], left + mid, [], |left| + k);
    assert after + [] == after;
    assert two[0] == h && two[1..] == after && three[0] == g && three[1..] == two;
    PlacedFirst(two, x, |left|, |left| + k, false);
    PlacedFirst(three, x, |left|, |left|, false);
  }

  lemma NothingPlaced(x: Parts, from: nat)
    ensures Placed([], x, from, false)
  {
  }

  /** Every group in its turn, with the i-th and the one before it sharing components. */
  lemma Squeezed(groups: seq<Parts>, i: nat) returns (x: Parts)
    requires 0 < i < |groups| && CanOverlay(groups[i - 1], groups[i]) && forall j :: 0 <= j < |groups| ==> groups[j] != []
    ensures FitsAt(groups[0], x, 0) && Placed(groups, x, 0, false) && |x| < Total(groups)
  {
    hide FitsAt, Overlaid, AllInstances, OverlayAt, Placed, Unify;
    var before, g, h, after := groups[..i - 1], groups[i - 1], groups[i], groups[i + 1..];
    var k: nat :| k < |g| && OverlayAt(g, h, k);
    var left, mid, right := AllInstances(before), Overlaid(g, h, k), AllInstances(after);
    x := left + mid + right;
    PairPlaced(g, h, k, after, left);
    var last := [g] + ([h] + after);
    assert x == [] + left + (mid + right);
    InstancesPlaced(before, last, [], mid + right, 0);
    assert groups == before + last;
    TotalConcat(before, last);
    TotalPair(g, h, after);
    if i == 1 {
      assert |left| == 0 && groups[0] == g;
    } else {
      assert groups[0] == before[0] && x == left + (mid + right);
      FirstFits(before, mid + right);
    }
  }

  lemma TotalPair(g: Parts, h: Parts, after: seq<Parts>)
    ensures Total([g] + ([h] + after)) == |g| + |h| + Total(after)
  {
    assert ([g] + ([h] + after))[1..] == [h] + after && ([h] + after)[1..] == after;
  }

  lemma FirstInstance(groups: seq<Parts>)
    requires groups != []
    ensures AllInstances(groups) == Instances(groups[0]) + AllInstances(groups[1..])
  {
    hide Instances;
  }

  lemma FirstFits(groups: seq<Parts>, right: Parts)
    requires groups != []
    ensures FitsAt(groups[0], AllInstances(groups) + right, 0)
  {
    hide *;
    var first, rest := Instances(groups[0]), AllInstances(groups[1..]) + right;
    FirstInstance(groups);
    InstanceFits(groups[0]);
    assert AllInstances(groups) + right == [] + first + rest;
    FitsInside(groups[0], [], first, rest, 0);
  }

  lemma {:induction false} TotalConcat(a: seq<Parts>, b: seq<Parts>)
    ensures Total(a + b) == Total(a) + Total(b)
    decreases |a|
  {
    if a == [] {
      assert a + b == b;
    } else {
      assert (a + b)[1..] == a[1..] + b;
      TotalConcat(a[1..], b);
    }
  }

  // ----- when the code does what is documented -----

  lemma {:induction false} DenseIsNonempty(groups: seq<Parts>)
    ensures forall j :: 0 <= j < |Dense(groups)| ==> Dense(groups)[j] != []
    decreases |groups|
  {
    if groups != [] {
      DenseIsNonempty(groups[1..]);
    }
  }

  /** The front of x, and the groups that hold components in turn from there. */
  lemma InTurnIsDense(groups: seq<Parts>, x: Parts, apart: bool)
    requires groups != []
    ensures InTurn(groups, x, apart) <==>
            FitsAt(groups[0], x, 0) && Placed(Dense(groups[1..]), x, if apart then |groups[0]| else 0, apart)
  {
    assert x[0..] == x;
    InTurnIsPlaced(groups, x, 0, apart);
    if FitsAt(groups[0], x, 0) {
      DenseIsPlaced(groups[1..], x, if apart then |groups[0]| else 0, apart);
    }
  }

  lemma OverlapFree(groups: seq<Parts>, x: Parts)
    requires groups != [] && NoneOverlay(Dense(groups)) && InTurn(groups, x, false)
    ensures InTurn(groups, x, true)
  {
    InTurnIsDense(groups, x, false);
    InTurnIsDense(groups, x, true);
    var g, rest := groups[0], Dense(groups[1..]);
    if g != [] {
      assert Dense(groups) == [g] + rest;
      PlacedApart(g, rest, x, 0);
    } else if rest != [] {
      assert Dense(groups) == rest == [rest[0]] + rest[1..];
      var k :| k >= 0 && FitsAt(rest[0], x, k) && Placed(rest[1..], x, k, false);
      PlacedApart(rest[0], rest[1..], x, k);
    }
  }

  lemma OverlapShows(groups: seq<Parts>) returns (x: Parts)
    requires groups != [] && !NoneOverlay(Dense(groups))
    ensures InTurn(groups, x, false) && !InTurn(groups, x, true)
  {
    var dense := Dense(groups);
    var i :| 0 < i < |dense| && CanOverlay(dense[i - 1], dense[i]);
    DenseIsNonempty(groups);
    x := Squeezed(dense, i);
    InTurnIsDense(groups, x, false);
    InTurnIsDense(groups, x, true);
    var g, rest := groups[0], Dense(groups[1..]);
    if g != [] {
      assert dense[1..] == rest && dense[0] == g;
      var k :| k >= 0 && FitsAt(g, x, k) && Placed(rest, x, k, false);
      PlacedEarlier(rest, x, k, 0, false);
    } else {
      assert dense == rest;
    }
    if InTurn(groups, x, true) {
      ApartTakesRoom(rest, x, |g|);
    }
  }

  lemma GroupsDecide(p: Parts, x: Parts)
    ensures Matches(p, x, 0) <==> InTurn(Groups(p), x, false)
    ensures Documented(p, x) <==> InTurn(Groups(p), x, true)
  {
    EveryPatternIsJoined(p);
    CodeAccepts(Groups(p), x);
    DocumentationSays(Groups(p), x);
  }

  /** A pattern means what is documented, on every path, if and only if no group of
      it can be laid over the next. */
  lemma DocumentedExactlyWithoutOverlay(p: Parts)
    ensures (forall x :: Matches(p, x, 0) <==> Documented(p, x)) <==> NoneOverlay(Dense(Groups(p)))
  {
    hide Matches, Documented, Groups, Dense, InTurn, NoneOverlay;
    if NoneOverlay(Dense(Groups(p))) {
      forall x
        ensures Matches(p, x, 0) <==> Documented(p, x)
      {
        GroupsDecide(p, x);
        assert p[0..] == p && x[0..] == x;
        if Documented(p, x) {
          NothingIsMissed(p, x, 0);
        }
        if Matches(p, x, 0) {
          OverlapFree(Groups(p), x);
        }
      }
    } else {
      var x := OverlapShows(Groups(p));
      GroupsDecide(p, x);
    }
  }

  // ----- how much work a pattern can cost -----

  function DeepCount(p: Parts): nat {
    if p == [] then 0 else (if p[0] == DEEP then 1 else 0) + DeepCount(p[1..])
  }

  function Power(b: nat, e: nat): nat {
    if e == 0 then 1 else b * Power(b, e - 1)
  }

  /** The number of matchSegments calls, this one included. */
  function Calls(p: Parts, x: Parts, i: nat): nat
    requires i <= |p|
    decreases |p|, 1, |p| - i
  {
    if i == |p| then 1
    else if p[i] == DEEP then if i + 1 == |p| then 1 else 1 + SuffixCalls(p[i + 1..], x, 0)
    else if i < |x| && Component(p[i], x[i]) then Calls(p, x, i + 1)
    else 1
  }

  function SuffixCalls(rest: Parts, x: Parts, k: nat): nat
    requires k <= |x| + 1
    decreases |rest|, 2, |x| + 1 - k
  {
    if k > |x| then 0
    else Calls(rest, x[k..], 0) + if Matches(rest, x[k..], 0) then 0 else SuffixCalls(rest, x, k + 1)
  }

  lemma {:induction false} PowerGrows(b: nat, c: nat, e: nat)
    requires b <= c
    ensures Power(b, e) <= Power(c, e) && (b > 0 ==> Power(b, e) > 0)
    decreases e
  {
    if e > 0 {
      PowerGrows(b, c, e - 1);
      Products(b, c, Power(b, e - 1), Power(c, e - 1));
    }
  }

  lemma Products(a: nat, b: nat, c: nat, d: nat)
    requires a <= b && c <= d
    ensures a * c <= b * d && (a > 0 && c > 0 ==> a * c > 0)
  {
    assert a * c <= b * c <= b * d;
  }

  lemma {:induction false} DeepCountFrom(p: Parts, i: nat)
    requires i < |p|
    ensures DeepCount(p[i..]) == (if p[i] == DEEP then 1 else 0) + DeepCount(p[i + 1..])
  {
    assert p[i..][1..] == p[i + 1..];
  }

  lemma {:induction false} SuffixCallsBound(rest: Parts, x: Parts, k: nat, each: nat)
    requires k <= |x| + 1
    requires forall m :: 0 <= m <= |x| ==> Calls(rest, x[m..], 0) <= each
    ensures SuffixCalls(rest, x, k) <= (|x| + 1 - k) * each
    decreases |x| + 1 - k
  {
    if k <= |x| {
      SuffixCallsBound(rest, x, k + 1, each);
      assert (|x| + 1 - k) * each == each + (|x| + 1 - (k + 1)) * each;
    }
  }

  /** d `**` against n components cost at most (n + 2)^d calls. */
  lemma {:induction false} CallsBound(p: Parts, x: Parts, i: nat)
    requires i <= |p|
    ensures Calls(p, x, i) <= Power(|x| + 2, DeepCount(p[i..]))
    decreases |p|, |p| - i
  {
    var n := |x| + 2;
    PowerGrows(1, n, DeepCount(p[i..]));
    if i < |p| {
      DeepCountFrom(p, i);
      var rest := p[i + 1..];
      if p[i] != DEEP {
        CallsBound(p, x, i + 1);
      } else if rest != [] {
        assert rest[0..] == rest;
        var each := Power(n, DeepCount(rest));
        forall m | 0 <= m <= |x|
          ensures Calls(rest, x[m..], 0) <= each
        {
          CallsBound(rest, x[m..], 0);
          PowerGrows(|x[m..]| + 2, n, DeepCount(rest));
        }
        SuffixCallsBound(rest, x, 0, each);
        PowerGrows(1, n, DeepCount(rest));
        assert n * each == (|x| + 1) * each + each;
      }
    }
  }

  function Choose(n: nat, k: nat): nat {
    if k == 0 then 1 else if n == 0 then 0 else Choose(n - 1, k) + Choose(n - 1, k - 1)
  }

  /** d times `**`, then one literal component. */
  function Deeps(d: nat, z: string): Parts {
    if d == 0 then [z] else [DEEP] + Deeps(d - 1, z)
  }

  lemma {:induction false} ChooseAll(n: nat, k: nat)
    requires n <= k
    ensures Choose(n, k) == if n == k then 1 else 0
    decreases n
  {
    if n > 0 {
      ChooseAll(n - 1, k);
      ChooseAll(n - 1, k - 1);
    }
  }

  /** What CallsBound bounds is reached up to a constant: d `**` before a component
      that n components do not hold cost as many calls as there are ways to choose
      d of n + d + 1. */
  lemma {:induction false} DeepsCost(d: nat, z: string, x: Parts)
    requires z != DEEP && z != STAR && z !in x
    ensures !Matches(Deeps(d, z), x, 0) && Calls(Deeps(d, z), x, 0) == Choose(|x| + d + 1, d)
    decreases d, 1
  {
    if d == 0 {
      assert |x| > 0 ==> x[0] in x;
    } else {
      assert Deeps(d, z)[1..] == Deeps(d - 1, z);
      DeepsSuffixes(d, z, x, 0);
    }
  }

  lemma {:induction false} DeepsSuffixes(d: nat, z: string, x: Parts, k: nat)
    requires d > 0 && z != DEEP && z != STAR && z !in x && k <= |x| + 1
    ensures !AnySuffix(Deeps(d - 1, z), x, k) && SuffixCalls(Deeps(d - 1, z), x, k) + 1 == Choose(|x| - k + d + 1, d)
    decreases d, 0, |x| + 1 - k
  {
    if k > |x| {
      ChooseAll(d, d);
    } else {
      assert forall m :: 0 <= m < |x[k..]| ==> x[k..][m] in x;
      DeepsCost(d - 1, z, x[k..]);
      DeepsSuffixes(d, z, x, k + 1);
    }
  }

  lemma {:induction false} ChooseTwo(n: nat)
    ensures Choose(n, 1) == n && 2 * Choose(n, 2) == n * (n - 1)
    decreases n
  {
    if n > 0 {
      ChooseTwo(n - 1);
      assert Choose(n - 1, 0) == 1;
      assert n * (n - 1) == (n - 1) * (n - 2) + 2 * (n - 1);
    }
  }

  lemma {:induction false} ChooseThree(n: nat)
    ensures 6 * Choose(n, 3) == n * (n - 1) * (n - 2)
    decreases n
  {
    if n > 0 {
      ChooseThree(n - 1);
      ChooseTwo(n - 1);
      ThirdDifference(n);
    }
  }

  lemma ThirdDifference(n: int)
    ensures n * (n - 1) * (n - 2) == (n - 1) * (n - 2) * (n - 3) + 3 * ((n - 1) * (n - 2))
  {
    var m := (n - 1) * (n - 2);
    assert n * (n - 1) * (n - 2) == n * m;
    assert m * (n - 3) + 3 * m == n * m;
  }

  /** Three or more exceed the bound for two, however short the path. */
  lemma {:induction false} ThreeExceedTheSquare(n: nat, d: nat)
    requires n > 0 && d >= 3
    ensures Choose(n + d + 1, d) > (n + 2) * (n + 2)
    decreases d
  {
    if d > 3 {
      ThreeExceedTheSquare(n, d - 1);
    } else {
      ChooseThree(n + 4);
      var m := n + 2;
      assert (n + 4) * (n + 3) * (n + 2) == (m + 2) * (m + 1) * m;
      assert (m + 2) * (m + 1) * m == m * m * m + 3 * (m * m) + 2 * m;
      assert m * m * m >= 3 * (m * m) by {
        Products(3, m, m * m, m * m);
      }
    }
  }

  /** matchSegments as it runs; `calls` counts its invocations. */
  method MatchSegments(p: Parts, x: Parts) returns (ok: bool, ghost calls: nat)
    ensures ok == Matches(p, x, 0)
    ensures calls == Calls(p, x, 0)
    decreases |p|
  {
    calls := 1;
    var i := 0;
    while i < |p|
      invariant i <= |p| && calls == 1
      invariant Matches(p, x, i) == Matches(p, x, 0) && Calls(p, x, i) == Calls(p, x, 0)
    {
      if p[i] == DEEP {
        var rest := p[i + 1..];
        if |rest| == 0 {
          return true, calls;
        }
        var k := 0;
        while k <= |x|
          invariant k <= |x| + 1
          invariant AnySuffix(rest, x, k) == AnySuffix(rest, x, 0)
          invariant calls + SuffixCalls(rest, x, k) == 1 + SuffixCalls(rest, x, 0)
        {
          ghost var more;
          ok, more := MatchSegments(rest, x[k..]);
          calls := calls + more;
          if ok {
            return true, calls;
          }
          k := k + 1;
        }
        return false, calls;
      }
      if i >= |x| {
        return false, calls;
      }
      if p[i] == STAR {
        if x[i] == "" {
          return false, calls;
        }
      } else if x[i] != p[i] {
        return false, calls;
      }
      i := i + 1;
    }
    return true, calls;
  }
}
