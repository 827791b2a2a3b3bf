/**
 * The behaviour the component's tests exercise, stated over the model for
 * any rule library whose predicates give the answers those tests rely on.
 */
module Scenarios {
  import opened JsValues
  import opened RuleParser
  import opened RuleEval
  import opened FormSpec
  import opened Forms

  /** A form with neither a `validateOne` nor a `validateAll` prop. */
  predicate PlainForm(cfg: Config) {
    cfg.validateOne.None? && cfg.validateAll.None?
  }

  /** A rule name as a rule string can spell it: no `,` or `:`, no leading `!`. */
  predicate RuleName(r: string) {
    ',' !in r && ':' !in r && (|r| > 0 ==> r[0] != '!')
  }

  lemma ParseOneRule(name: string)
    requires RuleName(name)
    ensures ParseRules(name) == [Clause(name, false, [])]
  {
    SplitWithoutSeparator(name, ',');
    SplitWithoutSeparator(name, ':');
  }

  lemma ParseTwoRules(first: string, second: string)
    requires RuleName(first) && RuleName(second)
    ensures ParseRules(first + "," + second) == [Clause(first, false, []), Clause(second, false, [])]
  {
    SplitWithoutSeparator(second, ',');
    SplitAfterPiece(first, second, ',');
    assert first + "," + second == first + [','] + second;
    SplitWithoutSeparator(first, ':');
    SplitWithoutSeparator(second, ':');
  }

  /** The state right after the only field of a plain form has registered. */
  function Registered(cfg: Config, f: Field): Setup {
    Setup(cfg, AddInput(Registry([], map[]), f),
          if f.validate.RuleText? then map[f.name := Compile(f, f.validate.text)] else map[])
  }

  lemma RegisteredAlone(cfg: Config, f: Field)
    ensures Registered(cfg, f).registry.order == [f.name]
    ensures Registered(cfg, f).registry.entries == map[f.name := Single(f)]
  {
  }

  /** For a lone field with a rule string, the verdict is that of its compiled validator. */
  lemma CompiledVerdict(su: Setup, f: Field, context: Context)
    requires PlainForm(su.cfg)
    requires f.validate.RuleText? && f.name in su.validators
    requires f.name in su.registry.entries && su.registry.entries[f.name] == Single(f)
    requires Invoke(su.cfg, su.validators[f.name], Lookup(context, f.name)).Returned?
    ensures var result := Invoke(su.cfg, su.validators[f.name], Lookup(context, f.name)).result;
      CheckOne(su, f.name, context)
      == Judged(result == Bool(true), StoredError(result != Bool(true), if result.Str? then result else Undefined))
  {
  }

  /**
   * A text field whose rule string names one rule (`validate='required'`)
   * that fails on `undefined`, with no value in the model, makes a submit
   * call `onInvalidSubmit` with that field's name.
   */
  lemma RequiredEmptyFieldSubmitsInvalid(cfg: Config, f: Field, rule: string, errs0: map<string, ErrorState>)
    requires PlainForm(cfg) && RuleName(rule)
    requires f.inputType == "text" && f.validate == RuleText(rule)
    requires f.name !in cfg.model
    requires rule in cfg.rules && !cfg.rules[rule](Undefined, [])
    ensures var values := map[f.name := CurrentValue(cfg.model, map[], f.name)];
      SubmitSpec(Registered(cfg, f), values, errs0).0 == InvalidSubmit([f.name], values)
  {
    var values := map[f.name := CurrentValue(cfg.model, map[], f.name)];
    var su := Registered(cfg, f);
    RegisteredAlone(cfg, f);
    ParseOneRule(rule);
    var c := Clause(rule, false, []);
    assert su.validators[f.name] == Compiled([c], false, f.errorHelp);
    assert Lookup(values, f.name) == Undefined;
    PassesExactlyWhenAllHold(cfg.rules, [c], f.errorHelp, cfg.errorHelp, Undefined);
    ThrowsExactlyOnUnknownRule(cfg.rules, [c], f.errorHelp, cfg.errorHelp, Undefined);
    CompiledVerdict(su, f, values);
    SubmitOneName(su, values, errs0);
  }

  /**
   * A field without a rule (a text field with a value, a file field) lets a
   * submit through, whatever the value map holds.
   */
  lemma FieldWithoutRuleSubmitsValid(cfg: Config, f: Field, values: Context, errs0: map<string, ErrorState>)
    requires PlainForm(cfg)
    requires f.validate == NoRule
    ensures SubmitSpec(Registered(cfg, f), values, errs0).0 == ValidSubmit(values)
  {
    var su := Registered(cfg, f);
    RegisteredAlone(cfg, f);
    assert Passes(CheckOne(su, f.name, values));
    SubmitOneName(su, values, errs0);
  }

  /**
   * The rule library of the `validate='required,isInt'` test: `required`
   * holds for both typed strings, `isInt` only for "23".
   */
  predicate NumberRules(cfg: Config, required: string, isInt: string) {
    && PlainForm(cfg)
    && RuleName(required) && RuleName(isInt) && required != isInt
    && required in cfg.rules && isInt in cfg.rules
    && cfg.rules[required](Str("not a number"), []) && !cfg.rules[isInt](Str("not a number"), [])
    && cfg.rules[required](Str("23"), []) && cfg.rules[isInt](Str("23"), [])
  }

  /** The field `<input name='number' validate='required,isInt' errorHelp={...}>` of the test. */
  function NumberField(required: string, isInt: string): Field {
    Field(0, "number", "text", RuleText(required + "," + isInt),
          PerRule(map[required := "Please enter a number", isInt := "Must be a whole number"]))
  }

  /** The compiled validator of the number field. */
  lemma NumberFieldCompiled(cfg: Config, required: string, isInt: string)
    requires RuleName(required) && RuleName(isInt)
    ensures Registered(cfg, NumberField(required, isInt)).validators["number"]
         == Compiled([Clause(required, false, []), Clause(isInt, false, [])], false,
                     NumberField(required, isInt).errorHelp)
  {
    ParseTwoRules(required, isInt);
  }

  /** Typing "not a number" fails `isInt` and stores its help text. */
  lemma NumberFieldRejectsText(cfg: Config, required: string, isInt: string)
    requires NumberRules(cfg, required, isInt)
    ensures CheckOne(Registered(cfg, NumberField(required, isInt)), "number", map["number" := Str("not a number")])
         == Judged(false, Message("Must be a whole number"))
  {
    var f := NumberField(required, isInt);
    var su := Registered(cfg, f);
    var context := map["number" := Str("not a number")];
    RegisteredAlone(cfg, f);
    NumberFieldCompiled(cfg, required, isInt);
    var cs := [Clause(required, false, []), Clause(isInt, false, [])];
    assert Known(cfg.rules, cs);
    FirstFailureDecides(cfg.rules, cs, f.errorHelp, cfg.errorHelp, Str("not a number"), 1);
    assert FailureText(f.errorHelp, cfg.errorHelp, isInt) == Str("Must be a whole number");
    assert Lookup(context, f.name) == Str("not a number");
    CompiledVerdict(su, f, context);
  }

  /** Typing "23" passes both rules and clears the error. */
  lemma NumberFieldAcceptsDigits(cfg: Config, required: string, isInt: string)
    requires NumberRules(cfg, required, isInt)
    ensures CheckOne(Registered(cfg, NumberField(required, isInt)), "number", map["number" := Str("23")])
         == Judged(true, NoError)
  {
    var f := NumberField(required, isInt);
    var su := Registered(cfg, f);
    var context := map["number" := Str("23")];
    RegisteredAlone(cfg, f);
    NumberFieldCompiled(cfg, required, isInt);
    var cs := [Clause(required, false, []), Clause(isInt, false, [])];
    assert Known(cfg.rules, cs);
    PassesExactlyWhenAllHold(cfg.rules, cs, f.errorHelp, cfg.errorHelp, Str("23"));
    assert Lookup(context, f.name) == Str("23");
    CompiledVerdict(su, f, context);
  }

  /**
   * The `validate='required,isInt'` test run through the form: typing
   * "not a number" marks the field with the `isInt` help text and a submit
   * then reports the field; typing "23" clears the mark and a submit then
   * delivers the string "23" unchanged.
   */
  method NumberFieldSession(cfg: Config, required: string, isInt: string)
    returns (afterText: Option<ErrorState>, firstSubmit: Submission,
             afterNumber: Option<ErrorState>, secondSubmit: Submission)
    requires NumberRules(cfg, required, isInt)
    ensures afterText == Some(Message("Must be a whole number"))
    ensures firstSubmit == InvalidSubmit(["number"], map["number" := Str("not a number")])
    ensures afterNumber == Some(NoError)
    ensures secondSubmit == ValidSubmit(map["number" := Str("23")])
  {
    var f := NumberField(required, isInt);
    var su := Registered(cfg, f);
    var typed := map["number" := Str("not a number")];
    var digits := map["number" := Str("23")];
    NumberFieldRejectsText(cfg, required, isInt);
    NumberFieldAcceptsDigits(cfg, required, isInt);
    RegisteredAlone(cfg, f);
    var form := new Form(cfg);
    form.RegisterInput(f);
    assert form.Current() == su;

    var fault := form.ValidateInput("number", Str("not a number"));
    assert form.values == typed && form.Current() == su;
    assert form.invalidInputs["number"] == Message("Must be a whole number");
    afterText := form.HasError("number");
    SubmitOneName(su, typed, form.invalidInputs);
    firstSubmit := form.HandleSubmit();
    assert form.Current() == su;

    fault := form.ValidateInput("number", Str("23"));
    assert form.values == digits && form.Current() == su;
    assert form.invalidInputs["number"] == NoError;
    afterNumber := form.HasError("number");
    SubmitOneName(su, digits, form.invalidInputs);
    secondSubmit := form.HandleSubmit();
  }
}
