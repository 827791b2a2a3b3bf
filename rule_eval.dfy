/**
 * The closure that `_compileValidationRules` returns: it applies each
 * parsed clause's predicate from a rule namespace to the value, negates it
 * for an inverse clause, keeps the error text of the first clause that
 * fails, and throws on a clause whose rule the namespace does not have.
 */
module RuleEval {
  import opened JsValues
  import opened RuleParser

  /** A rule namespace (`Validator` or `FileValidator`): rule name to predicate over (value, params). */
  type RuleLibrary = map<string, (Value, seq<string>) -> bool>

  /** The `errorHelp` property of a field or of the form: absent, one string, or per-rule strings. */
  datatype ErrorHelp = NoHelp | Text(text: string) | PerRule(messages: map<string, string>)

  /** `getInputErrorMessage`: the per-rule entry of an object, else the whole property. */
  function HelpFor(help: ErrorHelp, rule: string): (v: Value)
    ensures v == Undefined || v.Str?
    ensures help.PerRule? ==> (v.Str? <==> rule in help.messages)
  {
    match help
    case NoHelp => Undefined
    case Text(t) => Str(t)
    case PerRule(m) => if rule in m then Str(m[rule]) else Undefined
  }

  /**
   * The result for a failing clause: the field's help for the rule, else the
   * form's help for the rule, else `false` (`a || b || false`).
   */
  function FailureText(fieldHelp: ErrorHelp, formHelp: ErrorHelp, rule: string): (r: Value)
    ensures r == Bool(false) || (r.Str? && r.s != "")
  {
    var own := HelpFor(fieldHelp, rule);
    var shared := HelpFor(formHelp, rule);
    if Truthy(own) then own else if Truthy(shared) then shared else Bool(false)
  }

  /** Which help text a failing clause reports, in order of precedence. */
  lemma FailureTextPrecedence(fieldHelp: ErrorHelp, formHelp: ErrorHelp, rule: string)
    ensures var r := FailureText(fieldHelp, formHelp, rule);
      && ((fieldHelp.PerRule? && rule in fieldHelp.messages && fieldHelp.messages[rule] != "")
          ==> r == Str(fieldHelp.messages[rule]))
      && (fieldHelp.Text? && fieldHelp.text != "" ==> r == Str(fieldHelp.text))
      && ((!Truthy(HelpFor(fieldHelp, rule)) && formHelp.PerRule? && rule in formHelp.messages
           && formHelp.messages[rule] != "")
          ==> r == Str(formHelp.messages[rule]))
      && ((!Truthy(HelpFor(fieldHelp, rule)) && formHelp.Text? && formHelp.text != "")
          ==> r == Str(formHelp.text))
      && (!Truthy(HelpFor(fieldHelp, rule)) && !Truthy(HelpFor(formHelp, rule)) ==> r == Bool(false))
  {
  }

  /** A known clause passes: its predicate's result, negated when the clause is inverse, is `true`. */
  predicate Holds(rules: RuleLibrary, c: Clause, v: Value)
    requires c.name in rules
  {
    rules[c.name](v, c.params) != c.inverse
  }

  /** Every clause names a rule of the namespace. */
  predicate Known(rules: RuleLibrary, clauses: seq<Clause>) {
    forall i :: 0 <= i < |clauses| ==> clauses[i].name in rules
  }

  /**
   * The closure's `forEach`, clause by clause from the left: an unknown rule
   * throws; the first failing clause fixes the result; a later one leaves it.
   */
  function Evaluate(rules: RuleLibrary, clauses: seq<Clause>, fieldHelp: ErrorHelp,
                    formHelp: ErrorHelp, v: Value): (r: Run)
    ensures r.Threw? ==> r.fault.UnknownRule?
    ensures r.Returned? ==> r.result == Bool(true) || r.result == Bool(false)
                            || (r.result.Str? && r.result.s != "")
    decreases |clauses|
  {
    if clauses == [] then Returned(Bool(true))
    else
      match Evaluate(rules, clauses[..|clauses| - 1], fieldHelp, formHelp, v)
      case Threw(e) => Threw(e)
      case Returned(acc) =>
        var c := clauses[|clauses| - 1];
        if c.name !in rules then Threw(UnknownRule(c.name))
        else if acc == Bool(true) && !Holds(rules, c, v) then Returned(FailureText(fieldHelp, formHelp, c.name))
        else Returned(acc)
  }

  /** Once a prefix of the clauses has thrown, the whole list throws the same. */
  lemma {:induction false} ThrowPersists(rules: RuleLibrary, clauses: seq<Clause>, fieldHelp: ErrorHelp,
                                          formHelp: ErrorHelp, v: Value, i: nat)
    requires i <= |clauses|
    requires Evaluate(rules, clauses[..i], fieldHelp, formHelp, v).Threw?
    ensures Evaluate(rules, clauses, fieldHelp, formHelp, v)
         == Evaluate(rules, clauses[..i], fieldHelp, formHelp, v)
    decreases |clauses| - i
  {
    if i < |clauses| {
      var n := |clauses|;
      assert clauses[..n][..n - 1] == clauses[..n - 1];
      if i < n - 1 {
        assert clauses[..n - 1][..i] == clauses[..i];
        ThrowPersists(rules, clauses[..n - 1], fieldHelp, formHelp, v, i);
      } else {
        assert clauses[..i] == clauses[..n - 1];
      }
    } else {
      assert clauses[..i] == clauses;
    }
  }

  /** The compiled validator, run on one value: the closure's loop. */
  method RunClauses(rules: RuleLibrary, clauses: seq<Clause>, fieldHelp: ErrorHelp,
                    formHelp: ErrorHelp, v: Value) returns (r: Run)
    ensures r == Evaluate(rules, clauses, fieldHelp, formHelp, v)
  {
    var result := Bool(true);
    var i := 0;
    while i < |clauses|
      invariant 0 <= i <= |clauses|
      invariant Evaluate(rules, clauses[..i], fieldHelp, formHelp, v) == Returned(result)
    {
      var rule := clauses[i];
      assert clauses[..i + 1][..i] == clauses[..i];
      if rule.name !in rules {
        ThrowPersists(rules, clauses, fieldHelp, formHelp, v, i + 1);
        return Threw(UnknownRule(rule.name));
      }
      var ruleResult := rules[rule.name](v, rule.params);
      if rule.inverse {
        ruleResult := !ruleResult;
      }
      if result == Bool(true) && !ruleResult {
        result := FailureText(fieldHelp, formHelp, rule.name);
      }
      i := i + 1;
    }
    assert clauses[..i] == clauses;
    r := Returned(result);
  }

  /**
   * Running the validator throws exactly when some clause names a rule the
   * namespace lacks, even after an earlier clause failed, and the error
   * names the first such clause.
   */
  lemma {:induction false} ThrowsExactlyOnUnknownRule(rules: RuleLibrary, clauses: seq<Clause>,
                                                       fieldHelp: ErrorHelp, formHelp: ErrorHelp, v: Value)
    ensures var r := Evaluate(rules, clauses, fieldHelp, formHelp, v);
      && (r.Threw? <==> !Known(rules, clauses))
      && (r.Threw? ==> exists j :: 0 <= j < |clauses| && clauses[j].name !in rules
                                   && Known(rules, clauses[..j]) && r.fault == UnknownRule(clauses[j].name))
    decreases |clauses|
  {
    if clauses != [] {
      var n := |clauses|;
      var front := clauses[..n - 1];
      ThrowsExactlyOnUnknownRule(rules, front, fieldHelp, formHelp, v);
      var r := Evaluate(rules, clauses, fieldHelp, formHelp, v);
      if Evaluate(rules, front, fieldHelp, formHelp, v).Threw? {
        var j :| 0 <= j < |front| && front[j].name !in rules
                 && Known(rules, front[..j]) && r.fault == UnknownRule(front[j].name);
        assert front[..j] == clauses[..j];
        assert clauses[j] == front[j];
      } else if clauses[n - 1].name !in rules {
        assert front == clauses[..n - 1];
      } else {
        assert forall i :: 0 <= i < n - 1 ==> clauses[i] == front[i];
      }
    }
  }

  /** With every rule known, the validator returns `true` exactly when every clause holds. */
  lemma {:induction false} PassesExactlyWhenAllHold(rules: RuleLibrary, clauses: seq<Clause>,
                                                     fieldHelp: ErrorHelp, formHelp: ErrorHelp, v: Value)
    requires Known(rules, clauses)
    ensures Evaluate(rules, clauses, fieldHelp, formHelp, v) == Returned(Bool(true))
            <==> forall i :: 0 <= i < |clauses| ==> Holds(rules, clauses[i], v)
    decreases |clauses|
  {
    if clauses != [] {
      var n := |clauses|;
      var front := clauses[..n - 1];
      assert Known(rules, front);
      PassesExactlyWhenAllHold(rules, front, fieldHelp, formHelp, v);
      ThrowsExactlyOnUnknownRule(rules, front, fieldHelp, formHelp, v);
      assert forall i :: 0 <= i < n - 1 ==> clauses[i] == front[i];
    }
  }

  /**
   * The first failing clause decides the error text: later failing clauses
   * never overwrite it.
   */
  lemma {:induction false} FirstFailureDecides(rules: RuleLibrary, clauses: seq<Clause>, fieldHelp: ErrorHelp,
                                                formHelp: ErrorHelp, v: Value, j: nat)
    requires Known(rules, clauses)
    requires j < |clauses|
    requires forall i :: 0 <= i < j ==> Holds(rules, clauses[i], v)
    requires !Holds(rules, clauses[j], v)
    ensures Evaluate(rules, clauses, fieldHelp, formHelp, v)
         == Returned(FailureText(fieldHelp, formHelp, clauses[j].name))
    decreases |clauses|
  {
    var n := |clauses|;
    var front := clauses[..n - 1];
    assert Known(rules, front);
    ThrowsExactlyOnUnknownRule(rules, front, fieldHelp, formHelp, v);
    if j == n - 1 {
      PassesExactlyWhenAllHold(rules, front, fieldHelp, formHelp, v);
    } else {
      FirstFailureDecides(rules, front, fieldHelp, formHelp, v, j);
    }
  }

  /** One clause and its `!` form: each fails exactly where the other passes. */
  lemma InverseIsComplement(rules: RuleLibrary, c: Clause, fieldHelp: ErrorHelp, formHelp: ErrorHelp, v: Value)
    requires c.name in rules
    ensures var flipped := c.(inverse := !c.inverse);
      && (Evaluate(rules, [c], fieldHelp, formHelp, v) == Returned(Bool(true))
          <==> Evaluate(rules, [flipped], fieldHelp, formHelp, v) != Returned(Bool(true)))
      && (Evaluate(rules, [c], fieldHelp, formHelp, v) != Returned(Bool(true))
          ==> Evaluate(rules, [c], fieldHelp, formHelp, v) == Returned(FailureText(fieldHelp, formHelp, c.name)))
  {
    var flipped := c.(inverse := !c.inverse);
    assert [c][..0] == [] && [flipped][..0] == [];
  }
}
