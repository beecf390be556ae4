/** Condition trees: what load-time validation admits (pkg/engine/validate.go) and
    how they are evaluated (pkg/engine/condition.go). */
module Conditions {
  import opened Bytes

  /** The configuration of a classifier leaf. */
  datatype Classifier = Classifier(config: string)

  datatype Condition = Condition(all: seq<Condition>, any: seq<Condition>, negated: Option<Condition>,
                                 field: string, operator: string, value: string,
                                 sql: Option<Classifier>, path: Option<Classifier>, shell: Option<Classifier>,
                                 llm: Option<Classifier>, write: Option<Classifier>, http: Option<Classifier>)

  /** How the leaves turn out on one envelope. */
  datatype Oracle = Oracle(classify: Classifier -> bool, compare: (string, string, string) -> bool)

  /** The checks of a leaf's own configuration. */
  datatype Checks = Checks(classifierOk: Classifier -> bool, operatorOk: (string, string) -> bool)

  const MAX_DEPTH := 64

  predicate IsComparison(c: Condition) {
    c.field != "" && c.operator != ""
  }

  /** The classifier of a node, in the order evaluation looks for one. */
  function ClassifierOf(c: Condition): Option<Classifier> {
    if c.sql.Some? then c.sql
    else if c.path.Some? then c.path
    else if c.shell.Some? then c.shell
    else if c.llm.Some? then c.llm
    else if c.write.Some? then c.write
    else c.http
  }

  function One(b: bool): nat {
    if b then 1 else 0
  }

  function Forms(c: Condition): nat {
    One(c.all != []) + One(c.any != []) + One(c.negated.Some?) + One(IsComparison(c))
    + One(c.sql.Some?) + One(c.path.Some?) + One(c.shell.Some?) + One(c.llm.Some?) + One(c.write.Some?) + One(c.http.Some?)
  }

  /** validateCondition. */
  predicate Valid(k: Checks, c: Condition, depth: nat, underNot: bool) {
    && depth <= MAX_DEPTH
    && Forms(c) == 1
    && (ClassifierOf(c).Some? ==> !underNot && k.classifierOk(ClassifierOf(c).value))
    && (forall i :: 0 <= i < |c.all| ==> Valid(k, c.all[i], depth + 1, underNot))
    && (forall i :: 0 <= i < |c.any| ==> Valid(k, c.any[i], depth + 1, underNot))
    && (c.negated.Some? ==> Valid(k, c.negated.value, depth + 1, true))
    && (IsComparison(c) ==> k.operatorOk(c.operator, c.value))
  }

  /** EvalCondition. */
  predicate Fires(o: Oracle, c: Condition) {
    if c.all != [] then forall i :: 0 <= i < |c.all| ==> Fires(o, c.all[i])
    else if c.any != [] then exists i :: 0 <= i < |c.any| && Fires(o, c.any[i])
    else if c.negated.Some? then !Fires(o, c.negated.value)
    else if ClassifierOf(c).Some? then o.classify(ClassifierOf(c).value)
    else if IsComparison(c) then o.compare(c.field, c.operator, c.value)
    else true
  }

  /** o' is o with some classifiers firing that did not. */
  ghost predicate FailsFurtherClosed(o: Oracle, o': Oracle) {
    && (forall x: Classifier :: o.classify(x) ==> o'.classify(x))
    && (forall f: string, op: string, v: string :: o.compare(f, op, v) == o'.compare(f, op, v))
  }

  /** Under a negation no classifier is left, so nothing depends on one; elsewhere a
      classifier that fires can only make the condition fire. */
  lemma {:induction false} FiringIsMonotone(k: Checks, o: Oracle, o': Oracle, c: Condition, depth: nat, underNot: bool)
    requires Valid(k, c, depth, underNot) && FailsFurtherClosed(o, o')
    ensures Fires(o, c) ==> Fires(o', c)
    ensures underNot ==> (Fires(o, c) <==> Fires(o', c))
    decreases c
  {
    hide Forms;
    forall i | 0 <= i < |c.all|
      ensures Fires(o, c.all[i]) ==> Fires(o', c.all[i])
      ensures underNot ==> (Fires(o, c.all[i]) <==> Fires(o', c.all[i]))
    {
      FiringIsMonotone(k, o, o', c.all[i], depth + 1, underNot);
    }
    forall i | 0 <= i < |c.any|
      ensures Fires(o, c.any[i]) ==> Fires(o', c.any[i])
      ensures underNot ==> (Fires(o, c.any[i]) <==> Fires(o', c.any[i]))
    {
      FiringIsMonotone(k, o, o', c.any[i], depth + 1, underNot);
    }
    if c.negated.Some? {
      FiringIsMonotone(k, o, o', c.negated.value, depth + 1, true);
    }
  }

  /** A loaded condition never stops firing because a classifier fails closed. */
  lemma FailingClosedNeverAllows(k: Checks, o: Oracle, o': Oracle, c: Condition)
    requires Valid(k, c, 0, false) && FailsFurtherClosed(o, o') && Fires(o, c)
    ensures Fires(o', c)
  {
    FiringIsMonotone(k, o, o', c, 0, false);
  }

  function Leaf(x: Classifier): Condition {
    Condition([], [], None, "", "", "", Some(x), None, None, None, None, None)
  }

  function Not(c: Condition): Condition {
    Condition([], [], Some(c), "", "", "", None, None, None, None, None, None)
  }

  /** The refused shape really is the unsafe one: negating a classifier lets a
      classifier that fails closed switch the rule off. */
  lemma NegatedClassifierFailsOpen(k: Checks, x: Classifier, o: Oracle, o': Oracle)
    requires !o.classify(x) && o'.classify(x)
    ensures Fires(o, Not(Leaf(x))) && !Fires(o', Not(Leaf(x))) && !Valid(k, Not(Leaf(x)), 0, false)
  {
    assert Not(Leaf(x)).negated.value == Leaf(x);
    assert !Valid(k, Leaf(x), 1, true);
  }

  predicate NoNegation(c: Condition) {
    && c.negated.None?
    && (forall i :: 0 <= i < |c.all| ==> NoNegation(c.all[i]))
    && (forall i :: 0 <= i < |c.any| ==> NoNegation(c.any[i]))
  }

  /** A loaded condition without negation fires only because some leaf does. */
  lemma {:induction false} NothingFiresByItself(k: Checks, o: Oracle, c: Condition, depth: nat, underNot: bool)
    requires Valid(k, c, depth, underNot) && NoNegation(c)
    requires forall x: Classifier :: !o.classify(x)
    requires forall f: string, op: string, v: string :: !o.compare(f, op, v)
    ensures !Fires(o, c)
    decreases c
  {
    if c.all != [] {
      NothingFiresByItself(k, o, c.all[0], depth + 1, underNot);
    } else if c.any != [] {
      forall i | 0 <= i < |c.any|
        ensures !Fires(o, c.any[i])
      {
        NothingFiresByItself(k, o, c.any[i], depth + 1, underNot);
      }
    }
  }

  /** d bounds the levels below c. */
  predicate WithinLevels(c: Condition, d: int) {
    && d >= 0
    && (forall i :: 0 <= i < |c.all| ==> WithinLevels(c.all[i], d - 1))
    && (forall i :: 0 <= i < |c.any| ==> WithinLevels(c.any[i], d - 1))
    && (c.negated.Some? ==> WithinLevels(c.negated.value, d - 1))
  }

  /** So evaluation recurses at most MAX_DEPTH deep on a loaded condition. */
  lemma {:induction false} LoadedIsShallow(k: Checks, c: Condition, depth: nat, underNot: bool)
    requires Valid(k, c, depth, underNot)
    ensures WithinLevels(c, MAX_DEPTH - depth)
    decreases c
  {
    hide Forms;
    forall i | 0 <= i < |c.all|
      ensures WithinLevels(c.all[i], MAX_DEPTH - depth - 1)
    {
      LoadedIsShallow(k, c.all[i], depth + 1, underNot);
    }
    forall i | 0 <= i < |c.any|
      ensures WithinLevels(c.any[i], MAX_DEPTH - depth - 1)
    {
      LoadedIsShallow(k, c.any[i], depth + 1, underNot);
    }
    if c.negated.Some? {
      LoadedIsShallow(k, c.negated.value, depth + 1, true);
    }
  }

  /** Not all of them is one that does not, whatever they are. */
  lemma DeMorgan(o: Oracle, cs: seq<Condition>)
    requires cs != []
    ensures Fires(o, AllOf(Negated(cs))) <==> !Fires(o, AnyOf(cs))
    ensures Fires(o, AnyOf(Negated(cs))) <==> !Fires(o, AllOf(cs))
  {
    var ns := Negated(cs);
    assert |ns| == |cs| && ns[0] in ns;
    assert forall i :: 0 <= i < |cs| ==> AllOf(ns).all[i] == Not(cs[i]) && AnyOf(ns).any[i] == Not(cs[i]) && Not(cs[i]).negated.value == cs[i];
    assert forall i :: 0 <= i < |cs| ==> AllOf(cs).all[i] == cs[i] && AnyOf(cs).any[i] == cs[i];
    assert forall i :: 0 <= i < |cs| ==> Fires(o, ns[i]) == !Fires(o, cs[i]);
  }

  function Negated(cs: seq<Condition>): seq<Condition> {
    seq(|cs|, i requires 0 <= i < |cs| => Not(cs[i]))
  }

  function AllOf(cs: seq<Condition>): Condition {
    Condition(cs, [], None, "", "", "", None, None, None, None, None, None)
  }

  function AnyOf(cs: seq<Condition>): Condition {
    Condition([], cs, None, "", "", "", None, None, None, None, None, None)
  }

  /** A connective answers by its parts, a leaf by what decides it. */
  method EvalCondition(o: Oracle, c: Condition) returns (fired: bool)
    ensures fired <==> Fires(o, c)
    ensures c.all != [] ==> (fired <==> forall i :: 0 <= i < |c.all| ==> Fires(o, c.all[i]))
    ensures c.all == [] && c.any != [] ==> (fired <==> exists i :: 0 <= i < |c.any| && Fires(o, c.any[i]))
    ensures c.all == [] && c.any == [] && c.negated.Some? ==> (fired <==> !Fires(o, c.negated.value))
    ensures c.all == [] && c.any == [] && c.negated.None? ==>
            fired == if c.sql.Some? then o.classify(c.sql.value)
                     else if c.path.Some? then o.classify(c.path.value)
                     else if c.shell.Some? then o.classify(c.shell.value)
                     else if c.llm.Some? then o.classify(c.llm.value)
                     else if c.write.Some? then o.classify(c.write.value)
                     else if c.http.Some? then o.classify(c.http.value)
                     else c.field != "" && c.operator != "" ==> o.compare(c.field, c.operator, c.value)
    decreases c
  {
    if c.all != [] {
      for i := 0 to |c.all|
        invariant forall m :: 0 <= m < i ==> Fires(o, c.all[m])
      {
        var sub := EvalCondition(o, c.all[i]);
        if !sub {
          return false;
        }
      }
      return true;
    }
    if c.any != [] {
      for i := 0 to |c.any|
        invariant forall m :: 0 <= m < i ==> !Fires(o, c.any[m])
      {
        var sub := EvalCondition(o, c.any[i]);
        if sub {
          return true;
        }
      }
      return false;
    }
    if c.negated.Some? {
      var sub := EvalCondition(o, c.negated.value);
      return !sub;
    }
    if ClassifierOf(c).Some? {
      return o.classify(ClassifierOf(c).value);
    }
    if !IsComparison(c) {
      return true;
    }
    return o.compare(c.field, c.operator, c.value);
  }

  /** A node is loaded if and only if it is filled in one way, at most 64 levels
      down, no classifier is below a negation, and its parts can be loaded. */
  lemma LoadedExactly(k: Checks, c: Condition, depth: nat, underNot: bool)
    ensures Valid(k, c, depth, underNot) <==>
            && depth <= 64
            && (if c.all != [] then 1 else 0) + (if c.any != [] then 1 else 0) + (if c.negated.Some? then 1 else 0)
               + (if c.field != "" && c.operator != "" then 1 else 0) + (if c.sql.Some? then 1 else 0)
               + (if c.path.Some? then 1 else 0) + (if c.shell.Some? then 1 else 0) + (if c.llm.Some? then 1 else 0)
               + (if c.write.Some? then 1 else 0) + (if c.http.Some? then 1 else 0) == 1
            && (underNot ==> c.sql.None? && c.path.None? && c.shell.None? && c.llm.None? && c.write.None? && c.http.None?)
            && (c.sql.Some? ==> k.classifierOk(c.sql.value)) && (c.path.Some? ==> k.classifierOk(c.path.value))
            && (c.shell.Some? ==> k.classifierOk(c.shell.value)) && (c.llm.Some? ==> k.classifierOk(c.llm.value))
            && (c.write.Some? ==> k.classifierOk(c.write.value)) && (c.http.Some? ==> k.classifierOk(c.http.value))
            && (forall i :: 0 <= i < |c.all| ==> Valid(k, c.all[i], depth + 1, underNot))
            && (forall i :: 0 <= i < |c.any| ==> Valid(k, c.any[i], depth + 1, underNot))
            && (c.negated.Some? ==> Valid(k, c.negated.value, depth + 1, true))
            && (c.field != "" && c.operator != "" ==> k.operatorOk(c.operator, c.value))
  {
  }

  method ValidateCondition(k: Checks, c: Condition, depth: nat, underNot: bool) returns (ok: bool)
    ensures ok <==> Valid(k, c, depth, underNot)
    decreases c
  {
    if depth > MAX_DEPTH {
      return false;
    }
    if Forms(c) != 1 {
      return false;
    }
    var classifier := ClassifierOf(c);
    if underNot && classifier.Some? {
      return false;
    }
    for i := 0 to |c.all|
      invariant forall m :: 0 <= m < i ==> Valid(k, c.all[m], depth + 1, underNot)
    {
      var sub := ValidateCondition(k, c.all[i], depth + 1, underNot);
      if !sub {
        return false;
      }
    }
    for i := 0 to |c.any|
      invariant forall m :: 0 <= m < i ==> Valid(k, c.any[m], depth + 1, underNot)
    {
      var sub := ValidateCondition(k, c.any[i], depth + 1, underNot);
      if !sub {
        return false;
      }
    }
    if c.negated.Some? {
      var sub := ValidateCondition(k, c.negated.value, depth + 1, true);
      if !sub {
        return false;
      }
    }
    if IsComparison(c) && !k.operatorOk(c.operator, c.value) {
      return false;
    }
    return classifier.Some? ==> k.classifierOk(classifier.value);
  }
}
