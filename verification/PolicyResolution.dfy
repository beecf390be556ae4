/** Which policies apply to a call and what they make of it
    (pkg/engine/matcher.go, evaluator.go, effects.go). */
module PolicyResolution {

  datatype Effect = Deny | Escalate | Flag | Allow | OtherEffect(text: string)

  datatype Mode = Shadow | Enforcement | OtherMode(text: string)

  datatype Decision = Denied | Escalated | Flagged | Allowed

  datatype Action = ActionDenied | ActionEscalated | ActionFlagged | ActionAllowedShadow | ActionAllowed

  datatype Rule = Rule(id: string, enabled: bool, effect: Effect)

  datatype Scope = Scope(orgs: seq<string>, agents: seq<string>, toolNames: seq<string>, toolGroups: seq<string>)

  datatype Policy = Policy(id: string, version: int, approved: bool, mode: Mode, priority: int, scope: Scope, rules: seq<Rule>)

  /** The call: what scopes look at, which rules' conditions fire on it, and the
      case-insensitive comparison of tool names. */
  datatype Call = Call(org: string, agent: string, tool: string, toolGroup: string,
                       fires: Rule -> bool, sameName: (string, string) -> bool)

  function EffectSeverity(e: Effect): nat {
    match e
    case Deny => 4
    case Escalate => 3
    case Flag => 2
    case Allow => 1
    case OtherEffect(_) => 0
  }

  predicate MatchesScope(c: Call, s: Scope) {
    && (s.orgs != [] ==> c.org in s.orgs)
    && (s.agents != [] ==> c.agent in s.agents)
    && (s.toolNames != [] || s.toolGroups != [] ==>
          || (exists i :: 0 <= i < |s.toolNames| && c.sameName(s.toolNames[i], c.tool))
          || (c.toolGroup != "" && c.toolGroup in s.toolGroups))
  }

  /** MatchPolicies keeps p. */
  predicate Applies(c: Call, p: Policy) {
    p.approved && MatchesScope(c, p.scope)
  }

  /** Some enabled rule of p with effect e fires. */
  predicate Triggers(c: Call, p: Policy, e: Effect) {
    exists i :: 0 <= i < |p.rules| && p.rules[i].enabled && c.fires(p.rules[i]) && p.rules[i].effect == e
  }

  /** What the documentation says decides the action: an applicable policy that is
      not in shadow mode triggers e. */
  predicate Enforces(c: Call, ps: seq<Policy>, e: Effect) {
    exists i :: 0 <= i < |ps| && Applies(c, ps[i]) && ps[i].mode != Shadow && Triggers(c, ps[i], e)
  }

  // ----- the loops -----

  function Max(a: nat, b: nat): nat {
    if a < b then b else a
  }

  /** The running sums of the loop over policies and rules. */
  datatype Tally = Tally(worst: nat, enforced: nat, shadowEffect: bool, shadowGating: bool)

  const NOTHING := Tally(0, 0, false, false)

  function CountRule(c: Call, mode: Mode, t: Tally, r: Rule): Tally {
    if !r.enabled || !c.fires(r) then t
    else
      var s := EffectSeverity(r.effect);
      var t1 := t.(worst := Max(t.worst, s));
      if mode != Shadow then t1.(enforced := Max(t.enforced, s))
      else t1.(shadowEffect := true, shadowGating := t.shadowGating || r.effect == Deny || r.effect == Escalate)
  }

  function CountRules(c: Call, mode: Mode, t: Tally, rules: seq<Rule>): Tally {
    if rules == [] then t else CountRule(c, mode, CountRules(c, mode, t, rules[..|rules| - 1]), rules[|rules| - 1])
  }

  function CountPolicies(c: Call, ps: seq<Policy>): Tally {
    if ps == [] then NOTHING
    else
      var p, t := ps[|ps| - 1], CountPolicies(c, ps[..|ps| - 1]);
      if Applies(c, p) then CountRules(c, p.mode, t, p.rules) else t
  }

  function DecisionOf(severity: nat): Decision {
    if severity == 4 then Denied else if severity == 3 then Escalated else if severity == 2 then Flagged else Allowed
  }

  function ResolveActionTaken(d: Decision, mode: Mode): Action {
    match d
    case Denied => if mode == Shadow then ActionAllowedShadow else ActionDenied
    case Escalated => if mode == Shadow then ActionAllowedShadow else ActionEscalated
    case Flagged => ActionFlagged
    case Allowed => ActionAllowed
  }

  datatype Evaluation = Evaluation(decision: Decision, action: Action, mode: Mode, nearMiss: bool)

  function Resolve(t: Tally, mode: Mode): Evaluation {
    var decision, enforced := DecisionOf(t.worst), DecisionOf(t.enforced);
    var known := mode == Shadow || mode == Enforcement;
    var observeOnly := enforced == Allowed && known && (t.shadowEffect || mode == Shadow);
    var effective := if observeOnly then Shadow else Enforcement;
    Evaluation(decision, ResolveActionTaken(if enforced == Allowed then decision else enforced, effective), effective, t.shadowGating)
  }

  function Evaluate(c: Call, ps: seq<Policy>, mode: Mode): Evaluation {
    Resolve(CountPolicies(c, ps), mode)
  }

  // ----- what the sums mean -----

  /** Some enabled, firing rule has at least this severity. */
  predicate Reaches(c: Call, rules: seq<Rule>, s: nat) {
    exists i :: 0 <= i < |rules| && rules[i].enabled && c.fires(rules[i]) && EffectSeverity(rules[i].effect) >= s
  }

  lemma {:induction false} RulesTally(c: Call, mode: Mode, t: Tally, rules: seq<Rule>, s: nat)
    requires s > 0
    ensures var u := CountRules(c, mode, t, rules);
            && (u.worst >= s <==> t.worst >= s || Reaches(c, rules, s))
            && (u.enforced >= s <==> t.enforced >= s || (mode != Shadow && Reaches(c, rules, s)))
            && (u.shadowEffect <==> t.shadowEffect || (mode == Shadow && Reaches(c, rules, 0)))
            && (u.shadowGating <==> t.shadowGating || (mode == Shadow && Reaches(c, rules, 3)))
    decreases |rules|
  {
    if rules != [] {
      var n := |rules| - 1;
      RulesTally(c, mode, t, rules[..n], s);
      ReachesSnoc(c, rules, s);
      ReachesSnoc(c, rules, 0);
      ReachesSnoc(c, rules, 3);
    }
  }

  lemma ReachesSnoc(c: Call, rules: seq<Rule>, s: nat)
    requires rules != []
    ensures var n := |rules| - 1;
            Reaches(c, rules, s) <==> Reaches(c, rules[..n], s) || (rules[n].enabled && c.fires(rules[n]) && EffectSeverity(rules[n].effect) >= s)
  {
    var n := |rules| - 1;
    if Reaches(c, rules[..n], s) {
      var i :| 0 <= i < n && rules[..n][i].enabled && c.fires(rules[..n][i]) && EffectSeverity(rules[..n][i].effect) >= s;
      assert rules[i] == rules[..n][i];
    }
    if Reaches(c, rules, s) {
      var i :| 0 <= i < |rules| && rules[i].enabled && c.fires(rules[i]) && EffectSeverity(rules[i].effect) >= s;
      assert i < n ==> rules[..n][i] == rules[i];
    }
  }

  /** Some applicable policy of the wanted modes reaches the severity. */
  predicate SomePolicy(c: Call, ps: seq<Policy>, s: nat, shadow: bool, enforcing: bool) {
    exists i :: 0 <= i < |ps| && Applies(c, ps[i]) && (if ps[i].mode == Shadow then shadow else enforcing) && Reaches(c, ps[i].rules, s)
  }

  lemma SomePolicySnoc(c: Call, ps: seq<Policy>, s: nat, shadow: bool, enforcing: bool)
    requires ps != []
    ensures var n := |ps| - 1;
            SomePolicy(c, ps, s, shadow, enforcing) <==>
            SomePolicy(c, ps[..n], s, shadow, enforcing)
            || (Applies(c, ps[n]) && (if ps[n].mode == Shadow then shadow else enforcing) && Reaches(c, ps[n].rules, s))
  {
    hide Applies, Reaches;
    var n := |ps| - 1;
    if SomePolicy(c, ps[..n], s, shadow, enforcing) {
      var i :| 0 <= i < n && Applies(c, ps[..n][i]) && (if ps[..n][i].mode == Shadow then shadow else enforcing) && Reaches(c, ps[..n][i].rules, s);
      assert ps[i] == ps[..n][i];
    }
    if SomePolicy(c, ps, s, shadow, enforcing) {
      var i :| 0 <= i < |ps| && Applies(c, ps[i]) && (if ps[i].mode == Shadow then shadow else enforcing) && Reaches(c, ps[i].rules, s);
      assert i < n ==> ps[..n][i] == ps[i];
    }
  }

  /** The loop's sums are questions about the set of policies, not their order. */
  lemma {:induction false} TallyMeans(c: Call, ps: seq<Policy>, s: nat)
    requires s > 0
    ensures var t := CountPolicies(c, ps);
            && (t.worst >= s <==> SomePolicy(c, ps, s, true, true))
            && (t.enforced >= s <==> SomePolicy(c, ps, s, false, true))
            && (t.shadowEffect <==> SomePolicy(c, ps, 0, true, false))
            && (t.shadowGating <==> SomePolicy(c, ps, 3, true, false))
    decreases |ps|
  {
    if ps != [] {
      hide SomePolicy, Applies, Reaches, CountRules;
      var n := |ps| - 1;
      TallyMeans(c, ps[..n], s);
      RulesTally(c, ps[n].mode, CountPolicies(c, ps[..n]), ps[n].rules, s);
      SomePolicySnoc(c, ps, s, true, true);
      SomePolicySnoc(c, ps, s, false, true);
      SomePolicySnoc(c, ps, 0, true, false);
      SomePolicySnoc(c, ps, 3, true, false);
    }
  }

  lemma {:induction false} SeverityIsBounded(c: Call, ps: seq<Policy>)
    ensures CountPolicies(c, ps).worst <= 4 && CountPolicies(c, ps).enforced <= CountPolicies(c, ps).worst
  {
    hide CountPolicies;
    TallyMeans(c, ps, 5);
    var t := CountPolicies(c, ps);
    if t.enforced > 0 {
      TallyMeans(c, ps, t.enforced);
    }
  }

  /** Severity at least 4 is a deny, and so on down. */
  lemma EnforcedMeans(c: Call, ps: seq<Policy>)
    ensures SomePolicy(c, ps, 4, false, true) <==> Enforces(c, ps, Deny)
    ensures SomePolicy(c, ps, 3, false, true) <==> Enforces(c, ps, Deny) || Enforces(c, ps, Escalate)
  {
    hide Applies;
    ReachesMeans(c);
  }

  lemma ReachesMeans(c: Call)
    ensures forall p: Policy :: Reaches(c, p.rules, 4) <==> Triggers(c, p, Deny)
    ensures forall p: Policy :: Reaches(c, p.rules, 3) <==> Triggers(c, p, Deny) || Triggers(c, p, Escalate)
  {
    assert forall e: Effect :: EffectSeverity(e) >= 4 <==> e == Deny;
    assert forall e: Effect :: EffectSeverity(e) >= 3 <==> e == Deny || e == Escalate;
  }

  predicate Known(mode: Mode) {
    mode == Shadow || mode == Enforcement
  }

  /** For a known call mode, the action is denied exactly when an applicable
      policy outside shadow mode denies, and escalated exactly when none denies
      but one escalates. */
  lemma GatedExactly(c: Call, ps: seq<Policy>, mode: Mode)
    requires Known(mode)
    ensures var action := Evaluate(c, ps, mode).action;
            && (action == ActionDenied <==> Enforces(c, ps, Deny))
            && (action == ActionEscalated <==> !Enforces(c, ps, Deny) && Enforces(c, ps, Escalate))
  {
    hide CountPolicies, SomePolicy, Enforces;
    SeverityIsBounded(c, ps);
    TallyMeans(c, ps, 4);
    TallyMeans(c, ps, 3);
    TallyMeans(c, ps, 2);
    EnforcedMeans(c, ps);
    ShadowMustHaveFired(c, ps);
  }

  /** What is worse than everything enforced comes from a shadow policy. */
  lemma ShadowMustHaveFired(c: Call, ps: seq<Policy>)
    ensures var t := CountPolicies(c, ps);
            t.worst > t.enforced ==> t.shadowEffect
  {
    hide CountPolicies, Applies, Reaches;
    var t := CountPolicies(c, ps);
    if t.worst > t.enforced {
      TallyMeans(c, ps, t.worst);
      var i :| 0 <= i < |ps| && Applies(c, ps[i]) && Reaches(c, ps[i].rules, t.worst);
      ReachesLess(c, ps[i].rules, t.worst);
    }
  }

  lemma ReachesLess(c: Call, rules: seq<Rule>, s: nat)
    requires Reaches(c, rules, s)
    ensures Reaches(c, rules, 0)
  {
    var i :| 0 <= i < |rules| && rules[i].enabled && c.fires(rules[i]) && EffectSeverity(rules[i].effect) >= s;
    assert EffectSeverity(rules[i].effect) >= 0;
  }

  /** The call mode decides nothing about the action, as long as it is known. */
  lemma CallModeIsIrrelevant(c: Call, ps: seq<Policy>)
    ensures Evaluate(c, ps, Shadow).action == Evaluate(c, ps, Enforcement).action
  {
    hide CountPolicies;
    SeverityIsBounded(c, ps);
    ShadowMustHaveFired(c, ps);
  }

  predicate SameMembers(ps: seq<Policy>, qs: seq<Policy>) {
    (forall p :: p in ps ==> p in qs) && (forall p :: p in qs ==> p in ps)
  }

  /** Every p of ps is in qs. */
  predicate Includes(qs: seq<Policy>, ps: seq<Policy>) {
    forall p :: p in ps ==> p in qs
  }

  lemma SomePolicyIn(c: Call, ps: seq<Policy>, qs: seq<Policy>, s: nat, shadow: bool, enforcing: bool)
    requires Includes(qs, ps) && SomePolicy(c, ps, s, shadow, enforcing)
    ensures SomePolicy(c, qs, s, shadow, enforcing)
  {
    hide Applies, Reaches;
    var i :| 0 <= i < |ps| && Applies(c, ps[i]) && (if ps[i].mode == Shadow then shadow else enforcing) && Reaches(c, ps[i].rules, s);
    assert ps[i] in qs;
    var j :| 0 <= j < |qs| && qs[j] == ps[i];
  }

  lemma TallyGrows(c: Call, ps: seq<Policy>, qs: seq<Policy>)
    requires Includes(qs, ps)
    ensures var t, u := CountPolicies(c, ps), CountPolicies(c, qs);
            && t.worst <= u.worst && t.enforced <= u.enforced
            && (t.shadowEffect ==> u.shadowEffect) && (t.shadowGating ==> u.shadowGating)
  {
    hide CountPolicies, SomePolicy;
    var t := CountPolicies(c, ps);
    var a, b := Max(t.worst, 1), Max(t.enforced, 1);
    TallyMeans(c, ps, a);
    TallyMeans(c, qs, a);
    TallyMeans(c, ps, b);
    TallyMeans(c, qs, b);
    if SomePolicy(c, ps, a, true, true) {
      SomePolicyIn(c, ps, qs, a, true, true);
    }
    if SomePolicy(c, ps, b, false, true) {
      SomePolicyIn(c, ps, qs, b, false, true);
    }
    if SomePolicy(c, ps, 0, true, false) {
      SomePolicyIn(c, ps, qs, 0, true, false);
    }
    if SomePolicy(c, ps, 3, true, false) {
      SomePolicyIn(c, ps, qs, 3, true, false);
    }
  }

  /** Decision, action, effective mode and near miss do not depend on the order of
      the policies, nor therefore on priorities or on how equal ones are sorted. */
  lemma OrderIsIrrelevant(c: Call, ps: seq<Policy>, qs: seq<Policy>, mode: Mode)
    requires SameMembers(ps, qs)
    ensures Evaluate(c, ps, mode) == Evaluate(c, qs, mode)
  {
    hide CountPolicies;
    TallyGrows(c, ps, qs);
    TallyGrows(c, qs, ps);
  }

  /** 0 when the call proceeds, 1 when a human must approve, 2 when it is denied. */
  function GateLevel(a: Action): nat {
    if a == ActionDenied then 2 else if a == ActionEscalated then 1 else 0
  }

  /** For a known mode, adding policies never loosens the gate. */
  lemma AddingPoliciesNeverLoosens(c: Call, ps: seq<Policy>, qs: seq<Policy>, mode: Mode)
    requires Known(mode) && Includes(qs, ps)
    ensures GateLevel(Evaluate(c, ps, mode).action) <= GateLevel(Evaluate(c, qs, mode).action)
  {
    hide Evaluate, Enforces;
    GatedExactly(c, ps, mode);
    GatedExactly(c, qs, mode);
    EnforcesIn(c, ps, qs, Deny);
    EnforcesIn(c, ps, qs, Escalate);
  }

  lemma EnforcesIn(c: Call, ps: seq<Policy>, qs: seq<Policy>, e: Effect)
    requires Includes(qs, ps)
    ensures Enforces(c, ps, e) ==> Enforces(c, qs, e)
  {
    hide Applies, Triggers;
    if Enforces(c, ps, e) {
      var i :| 0 <= i < |ps| && Applies(c, ps[i]) && ps[i].mode != Shadow && Triggers(c, ps[i], e);
      assert ps[i] in qs;
      var j :| 0 <= j < |qs| && qs[j] == ps[i];
    }
  }

  /** Shadow policies never gate: taking them away changes no gate. */
  lemma ShadowPoliciesNeverGate(c: Call, ps: seq<Policy>, qs: seq<Policy>, mode: Mode)
    requires Known(mode) && Includes(ps, qs) && forall p :: p in ps && p.mode != Shadow ==> p in qs
    ensures GateLevel(Evaluate(c, ps, mode).action) == GateLevel(Evaluate(c, qs, mode).action)
  {
    hide Evaluate;
    GatedExactly(c, ps, mode);
    GatedExactly(c, qs, mode);
    EnforcesIn(c, qs, ps, Deny);
    EnforcesIn(c, qs, ps, Escalate);
    EnforcesWithoutShadow(c, ps, qs, Deny);
    EnforcesWithoutShadow(c, ps, qs, Escalate);
  }

  lemma EnforcesWithoutShadow(c: Call, ps: seq<Policy>, qs: seq<Policy>, e: Effect)
    requires forall p :: p in ps && p.mode != Shadow ==> p in qs
    ensures Enforces(c, ps, e) ==> Enforces(c, qs, e)
  {
    hide Applies, Triggers;
    if Enforces(c, ps, e) {
      var i :| 0 <= i < |ps| && Applies(c, ps[i]) && ps[i].mode != Shadow && Triggers(c, ps[i], e);
      assert ps[i] in qs;
      var j :| 0 <= j < |qs| && qs[j] == ps[i];
    }
  }

  /** With an unknown mode the last property fails: a shadow deny alone is applied,
      but adding an enforcement policy that only flags lets the call proceed. */
  lemma UnknownModeCanLoosen(c: Call, mode: Mode)
    requires !Known(mode) && forall r: Rule :: c.fires(r)
    ensures var everything := Scope([], [], [], []);
            var shadow := Policy("s", 1, true, Shadow, 0, everything, [Rule("d", true, Deny)]);
            var flag := Policy("f", 1, true, Enforcement, 0, everything, [Rule("f", true, Flag)]);
            Evaluate(c, [shadow], mode).action == ActionDenied && Evaluate(c, [shadow, flag], mode).action == ActionFlagged
  {
    var everything := Scope([], [], [], []);
    var shadow := Policy("s", 1, true, Shadow, 0, everything, [Rule("d", true, Deny)]);
    var flag := Policy("f", 1, true, Enforcement, 0, everything, [Rule("f", true, Flag)]);
    OneRule(c, Shadow, NOTHING, shadow.rules);
    var t := CountRules(c, Shadow, NOTHING, shadow.rules);
    OneRule(c, Enforcement, t, flag.rules);
    assert [shadow][..0] == [] && [shadow, flag][..1] == [shadow];
    assert CountPolicies(c, [shadow]) == t;
  }

  lemma OneRule(c: Call, mode: Mode, t: Tally, rules: seq<Rule>)
    requires |rules| == 1
    ensures CountRules(c, mode, t, rules) == CountRule(c, mode, t, rules[0])
  {
    assert rules[..0] == [];
  }

  // ----- the whole answer, from the rules that fire -----

  /** Approved, and each of its four scopes is empty or names the call; of the two
      tool scopes one has to, when either is set. */
  predicate InForce(c: Call, p: Policy) {
    var names, groups := p.scope.toolNames, p.scope.toolGroups;
    && p.approved
    && (p.scope.orgs == [] || c.org in p.scope.orgs)
    && (p.scope.agents == [] || c.agent in p.scope.agents)
    && ((names == [] && groups == [])
        || (exists i :: 0 <= i < |names| && c.sameName(names[i], c.tool)) || (c.toolGroup != "" && c.toolGroup in groups))
  }

  lemma InForceApplies(c: Call, p: Policy)
    ensures InForce(c, p) == Applies(c, p)
  {
  }

  /** An enabled rule with effect e fires, in a policy in force that is, or is not,
      in shadow mode. */
  predicate FiresIn(c: Call, ps: seq<Policy>, e: Effect, shadow: bool) {
    exists i, j :: 0 <= i < |ps| && 0 <= j < |ps[i].rules| && InForce(c, ps[i]) && (ps[i].mode == Shadow) == shadow
                   && ps[i].rules[j].enabled && c.fires(ps[i].rules[j]) && ps[i].rules[j].effect == e
  }

  predicate AnyFires(c: Call, ps: seq<Policy>, shadow: bool) {
    exists i, j :: 0 <= i < |ps| && 0 <= j < |ps[i].rules| && InForce(c, ps[i]) && (ps[i].mode == Shadow) == shadow
                   && ps[i].rules[j].enabled && c.fires(ps[i].rules[j])
  }

  predicate OfMode(p: Policy, shadow: bool) {
    (p.mode == Shadow) == shadow
  }

  lemma FiresMeans(c: Call, ps: seq<Policy>, e: Effect, shadow: bool)
    ensures FiresIn(c, ps, e, shadow) <==> exists i :: 0 <= i < |ps| && Applies(c, ps[i]) && OfMode(ps[i], shadow) && Triggers(c, ps[i], e)
  {
    hide Applies, InForce;
    forall p: Policy
      ensures InForce(c, p) == Applies(c, p)
    {
      InForceApplies(c, p);
    }
    if FiresIn(c, ps, e, shadow) {
      var i, j :| 0 <= i < |ps| && 0 <= j < |ps[i].rules| && InForce(c, ps[i]) && (ps[i].mode == Shadow) == shadow
                  && ps[i].rules[j].enabled && c.fires(ps[i].rules[j]) && ps[i].rules[j].effect == e;
      assert Triggers(c, ps[i], e) && OfMode(ps[i], shadow);
    }
    if exists i :: 0 <= i < |ps| && Applies(c, ps[i]) && OfMode(ps[i], shadow) && Triggers(c, ps[i], e) {
      var i :| 0 <= i < |ps| && Applies(c, ps[i]) && OfMode(ps[i], shadow) && Triggers(c, ps[i], e);
      var j :| 0 <= j < |ps[i].rules| && ps[i].rules[j].enabled && c.fires(ps[i].rules[j]) && ps[i].rules[j].effect == e;
      assert InForce(c, ps[i]);
    }
  }

  lemma AnyFiresMeans(c: Call, ps: seq<Policy>, shadow: bool)
    ensures AnyFires(c, ps, shadow) <==> exists i :: 0 <= i < |ps| && Applies(c, ps[i]) && OfMode(ps[i], shadow) && Reaches(c, ps[i].rules, 0)
  {
    hide Applies, InForce;
    forall p: Policy
      ensures InForce(c, p) == Applies(c, p)
    {
      InForceApplies(c, p);
    }
    if AnyFires(c, ps, shadow) {
      var i, j :| 0 <= i < |ps| && 0 <= j < |ps[i].rules| && InForce(c, ps[i]) && (ps[i].mode == Shadow) == shadow
                  && ps[i].rules[j].enabled && c.fires(ps[i].rules[j]);
      assert EffectSeverity(ps[i].rules[j].effect) >= 0;
      assert Reaches(c, ps[i].rules, 0) && OfMode(ps[i], shadow);
    }
    if exists i :: 0 <= i < |ps| && Applies(c, ps[i]) && OfMode(ps[i], shadow) && Reaches(c, ps[i].rules, 0) {
      var i :| 0 <= i < |ps| && Applies(c, ps[i]) && OfMode(ps[i], shadow) && Reaches(c, ps[i].rules, 0);
      var j :| 0 <= j < |ps[i].rules| && ps[i].rules[j].enabled && c.fires(ps[i].rules[j]) && EffectSeverity(ps[i].rules[j].effect) >= 0;
      assert InForce(c, ps[i]);
    }
  }

  /** The severities stand for the effects, worst first. */
  lemma LevelMeans(c: Call, ps: seq<Policy>, shadow: bool)
    ensures var some := (s: nat) => exists i :: 0 <= i < |ps| && Applies(c, ps[i]) && OfMode(ps[i], shadow) && Reaches(c, ps[i].rules, s);
            && (some(4) <==> FiresIn(c, ps, Deny, shadow))
            && (some(3) <==> FiresIn(c, ps, Deny, shadow) || FiresIn(c, ps, Escalate, shadow))
            && (some(2) <==> FiresIn(c, ps, Deny, shadow) || FiresIn(c, ps, Escalate, shadow) || FiresIn(c, ps, Flag, shadow))
  {
    hide Applies, FiresIn, OfMode, Triggers, Reaches;
    FiresMeans(c, ps, Deny, shadow);
    FiresMeans(c, ps, Escalate, shadow);
    FiresMeans(c, ps, Flag, shadow);
    ReachesMeans(c);
    FlagMeans(c);
  }

  lemma FlagMeans(c: Call)
    ensures forall p: Policy :: Reaches(c, p.rules, 2) <==> Triggers(c, p, Deny) || Triggers(c, p, Escalate) || Triggers(c, p, Flag)
  {
    assert forall e: Effect :: EffectSeverity(e) >= 2 <==> e == Deny || e == Escalate || e == Flag;
  }

  lemma LevelSplits(c: Call, ps: seq<Policy>, s: nat)
    ensures var some := (shadow: bool) => exists i :: 0 <= i < |ps| && Applies(c, ps[i]) && OfMode(ps[i], shadow) && Reaches(c, ps[i].rules, s);
            && (SomePolicy(c, ps, s, true, true) <==> some(true) || some(false))
            && (SomePolicy(c, ps, s, false, true) <==> some(false)) && (SomePolicy(c, ps, s, true, false) <==> some(true))
  {
    hide Applies, Reaches;
  }

  /** The worst of three effects that were seen. */
  function Worst(deny: bool, escalate: bool, flag: bool): Decision {
    if deny then Denied else if escalate then Escalated else if flag then Flagged else Allowed
  }

  /** Every field of the answer, for every mode: the decision is the worst effect of
      all rules that fire, the action that of the enforcing policies, if they have
      one, and the near miss a shadow rule that would have gated. */
  lemma AnswersExactly(c: Call, ps: seq<Policy>, mode: Mode)
    ensures var r := Evaluate(c, ps, mode);
            var denied, escalated, flagged := FiresIn(c, ps, Deny, false), FiresIn(c, ps, Escalate, false), FiresIn(c, ps, Flag, false);
            var shadowDenied, shadowEscalated := FiresIn(c, ps, Deny, true), FiresIn(c, ps, Escalate, true);
            var observed := !denied && !escalated && !flagged && (mode == Shadow || (mode == Enforcement && AnyFires(c, ps, true)));
            && r.decision == Worst(denied || shadowDenied, escalated || shadowEscalated, flagged || FiresIn(c, ps, Flag, true))
            && r.nearMiss == (shadowDenied || shadowEscalated)
            && r.mode == (if observed then Shadow else Enforcement)
            && r.action == if denied then ActionDenied
                           else if escalated then ActionEscalated
                           else if flagged then ActionFlagged
                           else match r.decision
                             case Denied => if observed then ActionAllowedShadow else ActionDenied
                             case Escalated => if observed then ActionAllowedShadow else ActionEscalated
                             case Flagged => ActionFlagged
                             case Allowed => ActionAllowed
  {
    hide CountPolicies, SomePolicy, FiresIn, AnyFires, Applies, Reaches;
    SeverityIsBounded(c, ps);
    TallyMeans(c, ps, 4);
    TallyMeans(c, ps, 3);
    TallyMeans(c, ps, 2);
    LevelSplits(c, ps, 4);
    LevelSplits(c, ps, 3);
    LevelSplits(c, ps, 2);
    LevelSplits(c, ps, 0);
    LevelMeans(c, ps, true);
    LevelMeans(c, ps, false);
    AnyFiresMeans(c, ps, true);
  }

  // ----- the method -----

  function EffectivePriority(p: Policy): int {
    if p.priority == 0 then 100 else p.priority
  }

  predicate ByPriority(ps: seq<Policy>) {
    forall i, j :: 0 <= i < j < |ps| ==> EffectivePriority(ps[i]) <= EffectivePriority(ps[j])
  }

  /** The policies that apply, in the order they were loaded. */
  function Applicable(c: Call, ps: seq<Policy>): seq<Policy> {
    if ps == [] then []
    else Applicable(c, ps[..|ps| - 1]) + if Applies(c, ps[|ps| - 1]) then [ps[|ps| - 1]] else []
  }

  lemma {:induction false} ApplicableAre(c: Call, ps: seq<Policy>)
    ensures forall p :: p in Applicable(c, ps) <==> p in ps && Applies(c, p)
    decreases |ps|
  {
    hide Applies;
    if ps != [] {
      ApplicableAre(c, ps[..|ps| - 1]);
      assert ps == ps[..|ps| - 1] + [ps[|ps| - 1]];
    }
  }

  /** MatchPolicies. */
  method MatchPolicies(c: Call, ps: seq<Policy>) returns (matched: seq<Policy>)
    ensures matched == Applicable(c, ps)
    ensures forall p :: p in matched <==> p in ps && InForce(c, p)
    ensures forall p :: p in ps && p !in matched <==>
              p in ps && (|| !p.approved
                          || (p.scope.orgs != [] && c.org !in p.scope.orgs)
                          || (p.scope.agents != [] && c.agent !in p.scope.agents)
                          || ((p.scope.toolNames != [] || p.scope.toolGroups != [])
                              && (forall i :: 0 <= i < |p.scope.toolNames| ==> !c.sameName(p.scope.toolNames[i], c.tool))
                              && (c.toolGroup == "" || c.toolGroup !in p.scope.toolGroups)))
  {
    ApplicableAre(c, ps);
    forall p: Policy
      ensures InForce(c, p) == Applies(c, p)
    {
      InForceApplies(c, p);
    }
    matched := [];
    assert ps[..0] == [];
    for i := 0 to |ps|
      invariant matched == Applicable(c, ps[..i])
    {
      assert ps[..i + 1][..i] == ps[..i];
      if Applies(c, ps[i]) {
        matched := matched + [ps[i]];
      }
    }
    assert ps[..|ps|] == ps;
  }

  lemma Inserted(sorted: seq<Policy>, k: nat, p: Policy)
    requires ByPriority(sorted) && k <= |sorted|
    requires forall m :: 0 <= m < k ==> EffectivePriority(sorted[m]) <= EffectivePriority(p)
    requires k < |sorted| ==> EffectivePriority(p) <= EffectivePriority(sorted[k])
    ensures ByPriority(sorted[..k] + [p] + sorted[k..])
    ensures multiset(sorted[..k] + [p] + sorted[k..]) == multiset(sorted) + multiset{p}
  {
    assert sorted == sorted[..k] + sorted[k..];
    assert forall m :: k <= m < |sorted| ==> EffectivePriority(p) <= EffectivePriority(sorted[m]);
  }

  method InsertByPriority(sorted: seq<Policy>, p: Policy) returns (longer: seq<Policy>)
    requires ByPriority(sorted)
    ensures ByPriority(longer) && multiset(longer) == multiset(sorted) + multiset{p}
  {
    var k := 0;
    while k < |sorted| && EffectivePriority(sorted[k]) <= EffectivePriority(p)
      invariant k <= |sorted| && forall m :: 0 <= m < k ==> EffectivePriority(sorted[m]) <= EffectivePriority(p)
    {
      k := k + 1;
    }
    Inserted(sorted, k, p);
    return sorted[..k] + [p] + sorted[k..];
  }

  /** Some order by priority; which one of equals comes first is left open. */
  method SortByPriority(ps: seq<Policy>) returns (sorted: seq<Policy>)
    ensures ByPriority(sorted) && multiset(sorted) == multiset(ps)
  {
    sorted := [];
    assert ByPriority(sorted) && ps[..0] == [];
    hide ByPriority;
    for i := 0 to |ps|
      invariant ByPriority(sorted) && multiset(sorted) == multiset(ps[..i])
    {
      assert ps[..i + 1] == ps[..i] + [ps[i]];
      sorted := InsertByPriority(sorted, ps[i]);
    }
    assert ps[..|ps|] == ps;
  }

  /** Evaluate: for a known mode the action is the one the enforcing policies call
      for, whatever the order. */
  method EvaluateCall(c: Call, policies: seq<Policy>, mode: Mode) returns (e: Evaluation)
    ensures e == Evaluate(c, policies, mode)
    ensures Known(mode) ==>
              && (e.action == ActionDenied <==> Enforces(c, policies, Deny))
              && (e.action == ActionEscalated <==> !Enforces(c, policies, Deny) && Enforces(c, policies, Escalate))
  {
    hide Resolve, Applies, Enforces;
    var applicable := MatchPolicies(c, policies);
    var matched := SortByPriority(applicable);
    ApplicableAre(c, policies);
    Sorting(applicable, matched);
    var t := NOTHING;
    for i := 0 to |matched|
      invariant t == CountPolicies(c, matched[..i])
    {
      ghost var before := t;
      assert matched[..i + 1][..i] == matched[..i];
      var rules := matched[i].rules;
      assert rules[..0] == [];
      for j := 0 to |rules|
        invariant t == CountRules(c, matched[i].mode, before, rules[..j])
      {
        assert rules[..j + 1][..j] == rules[..j];
        t := CountRule(c, matched[i].mode, t, rules[j]);
      }
      assert rules[..|rules|] == rules;
    }
    assert matched[..|matched|] == matched;
    e := Resolve(t, mode);
    SameAsAll(c, policies, matched, mode);
    if Known(mode) {
      GatedExactly(c, policies, mode);
    }
  }

  lemma Sorting(ps: seq<Policy>, sorted: seq<Policy>)
    requires multiset(sorted) == multiset(ps)
    ensures SameMembers(sorted, ps)
  {
    forall p: Policy
      ensures p in ps <==> p in sorted
    {
      assert p in multiset(ps) <==> p in multiset(sorted);
    }
  }

  /** Policies that do not apply change nothing. */
  lemma SameAsAll(c: Call, ps: seq<Policy>, matched: seq<Policy>, mode: Mode)
    requires forall p :: p in matched <==> p in ps && Applies(c, p)
    ensures Evaluate(c, matched, mode) == Evaluate(c, ps, mode)
  {
    hide CountPolicies, Applies;
    TallyGrows(c, matched, ps);
    TallyOfMatched(c, ps, matched);
  }

  lemma TallyOfMatched(c: Call, ps: seq<Policy>, matched: seq<Policy>)
    requires forall p :: p in matched <==> p in ps && Applies(c, p)
    ensures var t, u := CountPolicies(c, matched), CountPolicies(c, ps);
            && u.worst <= t.worst && u.enforced <= t.enforced
            && (u.shadowEffect ==> t.shadowEffect) && (u.shadowGating ==> t.shadowGating)
  {
    hide CountPolicies, SomePolicy;
    var u := CountPolicies(c, ps);
    var a, b := Max(u.worst, 1), Max(u.enforced, 1);
    TallyMeans(c, ps, a);
    TallyMeans(c, matched, a);
    TallyMeans(c, ps, b);
    TallyMeans(c, matched, b);
    SomePolicyMatched(c, ps, matched, a, true, true);
    SomePolicyMatched(c, ps, matched, b, false, true);
    SomePolicyMatched(c, ps, matched, 0, true, false);
    SomePolicyMatched(c, ps, matched, 3, true, false);
  }

  lemma SomePolicyMatched(c: Call, ps: seq<Policy>, matched: seq<Policy>, s: nat, shadow: bool, enforcing: bool)
    requires forall p :: p in matched <==> p in ps && Applies(c, p)
    ensures SomePolicy(c, ps, s, shadow, enforcing) ==> SomePolicy(c, matched, s, shadow, enforcing)
  {
    hide Applies, Reaches;
    if SomePolicy(c, ps, s, shadow, enforcing) {
      var i :| 0 <= i < |ps| && Applies(c, ps[i]) && (if ps[i].mode == Shadow then shadow else enforcing) && Reaches(c, ps[i].rules, s);
      assert ps[i] in matched;
      var j :| 0 <= j < |matched| && matched[j] == ps[i];
    }
  }
}
