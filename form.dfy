/**
 * The `Form` component without its rendering: the maps it keeps and
 * updates in place (`_inputs`, `_validators`, `_values` and
 * `state.invalidInputs`) and the methods that keep them. Each method is
 * proved against the functions of module FormSpec.
 */
module Forms {
  import opened JsValues
  import opened RuleEval
  import opened FormSpec

  class Form {
    /** The form's props that validation reads. */
    const cfg: Config
    /** `this._inputs`: the mounted fields by name. */
    var registry: Registry
    /** `this._validators`: the compiled validator of each field with a rule string. */
    var validators: map<string, Compiled>
    /** `this._values`: the last known value of each field. */
    var values: Context
    /** `this.state.invalidInputs`: the error state of each field. */
    var invalidInputs: map<string, ErrorState>

    /** The registry lists each name once, and no stored message is empty. */
    ghost predicate Valid()
      reads this
    {
      registry.Wf() && ErrorsWellFormed(invalidInputs)
    }

    /** The part of the state that validation reads besides the values. */
    function Current(): Setup
      reads this
    {
      Setup(cfg, registry, validators)
    }

    /** A form as it mounts: no fields, no validators, no values, no errors. */
    constructor (cfg: Config)
      ensures Valid()
      ensures this.cfg == cfg
      ensures registry == Registry([], map[]) && validators == map[]
      ensures values == map[] && invalidInputs == map[]
    {
      this.cfg := cfg;
      registry := Registry([], map[]);
      validators := map[];
      values := map[];
      invalidInputs := map[];
    }

    /**
     * `registerInput`: add the field to the registry; for a rule string,
     * cache its compiled validator and seed its value from `_getCurrentValue`.
     */
    method RegisterInput(f: Field)
      requires Valid()
      modifies this
      ensures Valid()
      ensures registry == AddInput(old(registry), f)
      ensures invalidInputs == old(invalidInputs)
      ensures f.validate.RuleText? ==>
                && validators == old(validators)[f.name := Compile(f, f.validate.text)]
                && values == old(values)[f.name := CurrentValue(cfg.model, old(values), f.name)]
      ensures !f.validate.RuleText? ==> validators == old(validators) && values == old(values)
    {
      registry := AddInput(registry, f);
      if f.validate.RuleText? {
        validators := validators[f.name := Compile(f, f.validate.text)];
        values := values[f.name := CurrentValue(cfg.model, values, f.name)];
      }
    }

    /**
     * `unregisterInput`: take the field out of the registry and drop the
     * cached validator of its name; values and error states stay.
     */
    method UnregisterInput(f: Field)
      requires Valid()
      modifies this
      ensures Valid()
      ensures registry == RemoveInput(old(registry), f)
      ensures validators == old(validators) - {f.name}
      ensures f.name !in validators
      ensures values == old(values) && invalidInputs == old(invalidInputs)
    {
      registry := RemoveInput(registry, f);
      validators := validators - {f.name};
    }

    /** `_hasError`: the error state of a name, none for a name never validated. */
    function HasError(name: string): (e: Option<ErrorState>)
      reads this
      requires Valid()
      ensures e.Some? <==> name in invalidInputs
      ensures e.Some? ==> e.value == invalidInputs[name]
      ensures e.Some? && e.value.Message? ==> e.value.text != ""
    {
      if name in invalidInputs then Some(invalidInputs[name]) else None
    }

    /** `_setError`: write one name's error state, in place. */
    method SetError(name: string, isError: bool, errText: Value)
      requires Valid()
      modifies this`invalidInputs
      ensures Valid()
      ensures invalidInputs == old(invalidInputs)[name := StoredError(isError, errText)]
    {
      invalidInputs := invalidInputs[name := StoredError(isError, errText)];
    }

    /** `_validateOne(name, context)`: validate one field and store its error state. */
    method ValidateOne(name: string, context: Context) returns (r: Outcome<bool>)
      requires Valid()
      modifies this`invalidInputs
      ensures Valid()
      ensures r == VerdictOf(CheckOne(Current(), name, context))
      ensures invalidInputs == Record(old(invalidInputs), name, CheckOne(Current(), name, context))
    {
      if name !in registry.entries {
        return Raised(NoInput(name));
      }
      match registry.entries[name] {
        case Multiple(_) =>
          return Done(false);
        case Single(f) =>
          var value := Lookup(context, name);
          var result: Value;
          if cfg.validateOne.Some? {
            result := cfg.validateOne.value(name, value, context);
          } else {
            match f.validate {
              case RuleFn(check) =>
                result := check(value, context);
              case RuleText(_) =>
                if name !in validators {
                  return Raised(NotAFunction(name));
                }
                var c := validators[name];
                var run := RunClauses(Namespace(cfg, c), c.clauses, c.fieldHelp, cfg.errorHelp, value);
                if run.Threw? {
                  return Raised(run.fault);
                }
                result := run.result;
              case NoRule =>
                result := Bool(true);
            }
          }
          var isValid := result == Bool(true);
          var error := if result.Str? then result else Undefined;
          SetError(name, !isValid, error);
          return Done(isValid);
      }
    }

    /** `_validateInput(name, value)`: store the value first, then validate that one field. */
    method ValidateInput(name: string, value: Value) returns (fault: Option<Fault>)
      requires Valid()
      modifies this`values, this`invalidInputs
      ensures Valid()
      ensures values == old(values)[name := value]
      ensures invalidInputs == Record(old(invalidInputs), name, CheckOne(Current(), name, values))
      ensures fault.Some? <==> CheckOne(Current(), name, values).Faulted?
    {
      values := values[name := value];
      var r := ValidateOne(name, values);
      fault := if r.Raised? then Some(r.fault) else None;
    }

    /** `_validateAll(context)`: the form hook's report, or every registered name in key order. */
    method ValidateAll(context: Context) returns (r: Outcome<(bool, seq<string>)>)
      requires Valid()
      modifies this`invalidInputs
      ensures Valid()
      ensures var s := ValidateAllSpec(Current(), context, old(invalidInputs));
        && invalidInputs == s.errs
        && r == (if s.fault.Some? then Raised(s.fault.value) else Done((s.valid, s.errors)))
    {
      if cfg.validateAll.Some? {
        var report := cfg.validateAll.value(context);
        match report {
          case AllTrue =>
            r := Done((true, []));
          case Nullish =>
            r := Raised(NotAnObject);
          case Keyed(entries) =>
            var errors := MarkReport(entries);
            r := Done((false, errors));
        }
      } else {
        r := ValidateRegistered(context);
      }
    }

    /** The hook branch of `_validateAll`: report and mark each key of a non-`true` result. */
    method MarkReport(entries: seq<(string, Value)>) returns (errors: seq<string>)
      requires Valid()
      modifies this`invalidInputs
      ensures Valid()
      ensures errors == ReportedKeys(entries)
      ensures invalidInputs == MarkReported(old(invalidInputs), entries)
    {
      errors := [];
      var i := 0;
      while i < |entries|
        invariant 0 <= i <= |entries|
        invariant Valid()
        invariant errors == ReportedKeys(entries[..i])
        invariant invalidInputs == MarkReported(old(invalidInputs), entries[..i])
      {
        assert entries[..i + 1][..i] == entries[..i];
        errors := errors + [entries[i].0];
        SetError(entries[i].0, true, entries[i].1);
        i := i + 1;
      }
      assert entries[..i] == entries;
    }

    /** The loop of `_validateAll` without a form hook: `_validateOne` on every registered name. */
    method ValidateRegistered(context: Context) returns (r: Outcome<(bool, seq<string>)>)
      requires Valid()
      modifies this`invalidInputs
      ensures Valid()
      ensures var s := SweepNames(Current(), context, old(invalidInputs), registry.order);
        && invalidInputs == s.errs
        && r == (if s.fault.Some? then Raised(s.fault.value) else Done((s.valid, s.errors)))
    {
      var names := registry.order;
      var isValid := true;
      var errors: seq<string> := [];
      var i := 0;
      while i < |names|
        invariant 0 <= i <= |names|
        invariant Valid()
        invariant SweepNames(Current(), context, old(invalidInputs), names[..i])
               == Sweep(isValid, errors, invalidInputs, None)
      {
        var name := names[i];
        SweepStep(Current(), context, old(invalidInputs), names, i);
        var ok := ValidateOne(name, context);
        if ok.Raised? {
          SweepFaultPersists(Current(), context, old(invalidInputs), names, i + 1);
          return Raised(ok.fault);
        }
        if !ok.value {
          isValid := false;
          errors := errors + [name];
        }
        i := i + 1;
      }
      assert names[..i] == names;
      return Done((isValid, errors));
    }

    /** `getValues`: every registered name with `_getValue` of it. */
    method GetValues() returns (snapshot: Context)
      requires Valid()
      ensures snapshot.Keys == registry.entries.Keys
      ensures forall n :: n in snapshot ==> snapshot[n] == ValueOf(registry, values, n)
    {
      snapshot := map[];
      var names := registry.order;
      var i := 0;
      while i < |names|
        invariant 0 <= i <= |names|
        invariant snapshot.Keys == set k | 0 <= k < i :: names[k]
        invariant forall n :: n in snapshot ==> snapshot[n] == ValueOf(registry, values, n)
      {
        var name := names[i];
        snapshot := snapshot[name := ValueOf(registry, values, name)];
        i := i + 1;
      }
      assert forall n :: n in registry.entries <==> exists k :: 0 <= k < |names| && names[k] == n;
    }

    /**
     * `_handleSubmit`: validate everything against `_values`, then call
     * exactly one of `onValidSubmit(values)` and `onInvalidSubmit(errors, values)`.
     */
    method HandleSubmit() returns (sub: Submission)
      requires Valid()
      modifies this`invalidInputs
      ensures Valid()
      ensures (sub, invalidInputs) == SubmitSpec(Current(), values, old(invalidInputs))
    {
      var r := ValidateAll(values);
      match r {
        case Raised(e) =>
          sub := Aborted(e);
        case Done(result) =>
          sub := if result.0 then ValidSubmit(values) else InvalidSubmit(result.1, values);
      }
    }
  }
}
