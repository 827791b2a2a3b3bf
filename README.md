# Form validation engine of react-bootstrap-validation

This project models the validation engine of the `Form` component in
`src/Form.js`, without its React rendering. The model covers:

- the registry of mounted fields (`_inputs`);
- the compiled validators (`_validators`), the value map (`_values`) and
  the error map (`state.invalidInputs`);
- how a rule string such as `'required,isInt:1:10,!isNull'` is parsed into
  clauses and run against a rule namespace (`Validator` or `FileValidator`);
- how `_validateOne`, `_validateAll` and `_handleSubmit` decide which
  callback a submit reaches.

The modules:

- `JsValues` (values.dfy): JavaScript values, truthiness, `v + ''` for the
  values the engine converts, the per-field error state (`false`, `true` or
  a message), and the errors the engine throws, kept as values.
- `RuleParser` (rule_parser.dfy): `String.split` on one character, the
  clause parser, and its round trips with a printer for clauses.
- `RuleEval` (rule_eval.dfy): the closure `_compileValidationRules` returns.
  It is a left-fold specification `Evaluate`, with the loop `RunClauses`
  proved against it.
- `FormSpec` (form_spec.dfy): the component's state as values. The
  registry operations, `_getCurrentValue`, `_setError`, `_validateOne`,
  `_validateAll` and `_handleSubmit` are functions here, together with the
  lemmas that state what a validation or a submit decides.
- `Forms` (form.dfy): class `Form`. Its fields are the four maps the
  component updates in place, and each method is proved against the
  `FormSpec` function it implements.
- `Scenarios` (scenarios.dfy): behaviour that the component's tests
  exercise, stated for any rule namespace that gives the answers those
  tests rely on.

The rule predicates, the `validateOne` and `validateAll` props and a
field's own `validate` function are opaque functions in the model. They
are fields of `Config` and of `Rule`, and every property holds for every
choice of them.

`src/InputContainer.js`, the superclass that owns `_inputs`, is not part of
this model. The registry follows the behaviour that `_validateOne` and
`_getValue` expect of it:

- registering a name for the first time stores the field alone and appends
  the name to the key order;
- registering a name again turns its entry into an array of fields, or
  appends to that array;
- unregistering removes that field instance. A name left with no field
  leaves the registry. An array that still holds fields stays an array.

When a field's validation throws in the middle of `_validateAll`, the
error states already written stay; the submit is then `Aborted` and
neither callback is called.

## Model

| member | source | states |
|---|---|---|
| JsValues.Digits | src/Form.js:113 | the decimal digits of a natural number: non-empty, digit characters only, and no leading zero except for 0 itself |
| JsValues.ToText | src/Form.js:113 | the text `v + ''` of a number is never empty |
| JsValues.DigitsReadBack | src/Form.js:113 | the decimal digits of a natural number read back as that number |
| JsValues.NumberTextReadsBack | src/Form.js:113 | the text `n + ''` of an integer is its signed decimal numeral: a `-` exactly for a negative number, then digits without a leading zero (except for 0), reading back as `n` |
| RuleParser.Split | src/Form.js:198-199 | `s.split(sep)` has one more piece than `s` has separators, and no piece contains the separator |
| RuleParser.JoinConsHead | src/Form.js:198-199 | a character in front of the first piece stays in front of the joined text |
| RuleParser.JoinSplit | src/Form.js:198-199 | joining the pieces of a split with the same separator gives back the string |
| RuleParser.SplitWithoutSeparator | src/Form.js:198-199 | a string without the separator splits into itself alone |
| RuleParser.SplitAfterPiece | src/Form.js:198-199 | a separator-free piece followed by the separator splits off as the first piece |
| RuleParser.SplitJoin | src/Form.js:198-199 | splitting a join of separator-free pieces gives back the pieces |
| RuleParser.JoinAvoids | src/Form.js:198-199 | a character found in no piece and different from the separator is not in the join |
| RuleParser.ParseClause | src/Form.js:199-207 | a clause's name and parameters contain no `:`, and it has one parameter per `:` in its text |
| RuleParser.ParseRules | src/Form.js:198-208 | a rule string yields one clause per `,` plus one, and clause i is the parse of the i-th comma-separated piece |
| RuleParser.UnparseParseClause | src/Form.js:199-207 | printing a parsed clause gives back its text: the `!` mark, the name and every parameter are kept |
| RuleParser.ParseRoundTrip | src/Form.js:198-208 | printing the clauses of any rule string gives back the string, so parsing loses nothing |
| RuleParser.ParseUnparseClause | src/Form.js:199-207 | a clause whose name and parameters a rule string can spell survives printing and parsing |
| RuleParser.ParseUnparse | src/Form.js:198-208 | a non-empty list of spellable clauses survives printing and parsing |
| RuleEval.HelpFor | src/Form.js:9-17 | `getInputErrorMessage` gives undefined or a string; for a per-rule object it gives a string exactly when the rule has an entry |
| RuleEval.FailureText | src/Form.js:227-228 | a failing clause yields `false` or a non-empty message |
| RuleEval.FailureTextPrecedence | src/Form.js:227-228 | a non-empty field message wins; otherwise a non-empty form message; otherwise `false` |
| RuleEval.Evaluate | src/Form.js:212-233 | the validator throws only for an unknown rule, and otherwise returns `true`, `false` or a non-empty message |
| RuleEval.ThrowPersists | src/Form.js:215-218 | once a clause has thrown, the later clauses do not change the outcome |
| RuleEval.RunClauses | src/Form.js:212-233 | the clause loop returns exactly what `Evaluate` specifies, including the throw for an unknown rule |
| RuleEval.ThrowsExactlyOnUnknownRule | src/Form.js:215-218 | the validator throws exactly when some clause names a rule the namespace lacks, and the error names the first such clause, even after an earlier clause failed |
| RuleEval.PassesExactlyWhenAllHold | src/Form.js:220-229 | with every rule known, the validator returns `true` exactly when every clause holds after its `!` is applied |
| RuleEval.FirstFailureDecides | src/Form.js:226-229 | the first failing clause's message is the result; later failures never overwrite it |
| RuleEval.InverseIsComplement | src/Form.js:201-205 | a clause and its `!` form: exactly one of them passes, and the failing one reports its message |
| FormSpec.Erase | src/Form.js:58-59 | removing a name from the key order keeps every other name and keeps the names distinct |
| FormSpec.EraseAbsent | src/Form.js:58-59 | removing a name the key order does not hold leaves the order as it was |
| FormSpec.EraseCutsOut | src/Form.js:58-59 | removing a name from a distinct key order cuts out its one position, so the remaining names keep their relative order |
| FormSpec.Drop | src/Form.js:58-59 | deleting a name from the registry removes it from the entries and from the key order and keeps the registry well formed |
| FormSpec.Without | src/Form.js:58-59 | removing a field instance from a name's array keeps exactly the fields with another id |
| FormSpec.AddInput | src/Form.js:49-50 | registering keeps the registry well formed; a new name holds exactly that field and goes last in key order; a reused name becomes the array of its earlier fields followed by the new one; other names are untouched |
| FormSpec.RemoveInput | src/Form.js:58-59 | unregistering keeps the registry well formed; the instance leaves its name; a name whose only field leaves is deleted; a name held by another single field is left alone; an array keeps exactly its other fields and stays an array, or is deleted when none remain; other names are untouched; the key order is unchanged while the name remains and otherwise is the old order with that name erased |
| FormSpec.Compile | src/Form.js:197-210 | the compiled validator's clauses are the parse of the rule string, it uses `FileValidator` exactly for a `file` field, and keeps the field's errorHelp |
| FormSpec.CurrentValue | src/Form.js:74-85 | a truthy cached value wins; otherwise the model's value, or undefined |
| FormSpec.StoredError | src/Form.js:108-125 | the stored state is `false` exactly for a valid field; a message is never empty; a non-empty string error is kept as the message; a falsy error and `true` become `true`; any other truthy error is stored as its text `errText + ''`, or `true` when that text is empty |
| FormSpec.Coerce | src/Form.js:109-114 | a truthy error that is neither a string nor a boolean becomes its text `errText + ''`; any other error is left as it is |
| FormSpec.Strategy | src/Form.js:136-149 | only a compiled rule string can throw, without a form `validateOne`: for a name with no cached validator, or for an unknown rule; `StrategyPrecedence` states the precedence |
| FormSpec.CheckOne | src/Form.js:127-164 | `_validateOne` throws for a name not registered, skips exactly a shared name, and a judged field is valid exactly when it stores `false`, with a non-empty message otherwise if any; `CheckOneVerdict` states the verdict |
| FormSpec.CheckOneVerdict | src/Form.js:127-164 | a lone field is valid exactly when its strategy returns `true`; it stores `false` then, otherwise its non-empty string result or else `true` |
| FormSpec.StrategyPrecedence | src/Form.js:141-149 | the form's `validateOne` hides the field's rule; a field function hides any compiled validator; a field without a rule passes |
| FormSpec.SweepNames | src/Form.js:182-189 | the loop over registered names keeps every stored message non-empty |
| FormSpec.Advance | src/Form.js:183-188 | one turn of the loop: after a throw nothing changes; otherwise it throws exactly when the name's validation throws, appends the name to `errors` exactly when it does not pass, clears `isValid` when it does not pass, and records the name's error state only when it was judged |
| FormSpec.SweepStep | src/Form.js:183-188 | validating one more name advances the sweep by exactly that name's outcome |
| FormSpec.SweepFaultPersists | src/Form.js:183-188 | once a name's validation has thrown, the rest of the names do not change the sweep |
| FormSpec.SweepFaults | src/Form.js:183-188 | the sweep throws exactly when some name's validation throws, and with the first such error |
| FormSpec.SweepVerdict | src/Form.js:166-195 | without a throw: the form is valid exactly when every name passes, exactly when no name is reported, and `errors` is exactly the failing names in key order |
| FormSpec.ErrorsInOrder | src/Form.js:183-188 | without a throw, the sweep's `errors` is the failing names in the order the loop visits them |
| FormSpec.SweepErrorStates | src/Form.js:166-195 | a name outside the sweep, or a reused name, keeps its error state; when nothing threw, each judged name holds the state its validation stored |
| FormSpec.MarkReported | src/Form.js:176-180 | marking the keys of a `validateAll` report keeps every stored message non-empty |
| FormSpec.ReportMarksEveryKey | src/Form.js:173-180 | every reported key is marked invalid, and carries the last message reported for it |
| FormSpec.ReportLeavesOthers | src/Form.js:176-180 | a name the report does not list keeps its error state |
| FormSpec.ValidateAllSpec | src/Form.js:166-195 | `_validateAll` in both branches keeps every stored message non-empty |
| FormSpec.SubmitWithoutFormHook | src/Form.js:248-262 | without `validateAll`, a submit throws exactly when some field's validation throws, calls `onValidSubmit(values)` exactly when every registered name passes, and otherwise calls `onInvalidSubmit` with the values and the failing names in registry key order |
| FormSpec.SubmitWithFormHook | src/Form.js:170-181 | with `validateAll`, a submit is valid exactly when the hook returns `true`, throws exactly when it returns `null` or `undefined`, and otherwise calls `onInvalidSubmit` with the report's keys in order and marks each of them |
| FormSpec.SubmitSpec | src/Form.js:248-262 | a submit that does not throw hands the value map to its callback, and stored messages stay non-empty; `SubmitWithoutFormHook` and `SubmitWithFormHook` state which callback |
| FormSpec.SubmitOneName | src/Form.js:248-262 | with one registered name, a submit follows that name's verdict alone |
| FormSpec.DuplicateNameBlocksValidSubmit | src/Form.js:130-134 | a name shared by several fields never lets a submit through; it is reported, and its error state is untouched |
| FormSpec.ValueOf | src/Form.js:236-246 | `_getValue` is `false` for a shared name and the stored value (or undefined) otherwise |
| FormSpec.UnregisteredFieldIsNotValidated | src/Form.js:58-62 | a field that unmounted is neither reported by a submit nor has its error state changed |
| Forms.Form.constructor | src/Form.js:20-27 | a new form has no fields, validators, values or errors |
| Forms.Form.RegisterInput | src/Form.js:49-56 | the registry grows by `AddInput`; for a rule string, the name's validator is compiled and its value seeded from `_getCurrentValue`; nothing else changes |
| Forms.Form.UnregisterInput | src/Form.js:58-62 | the registry shrinks by `RemoveInput` and the name's validator is dropped; values and error states stay |
| Forms.Form.HasError | src/Form.js:104-106 | a name has an error state exactly when its name is in the error map, and then it is the stored state, whose message is never empty |
| Forms.Form.SetError | src/Form.js:108-125 | only the named entry of the error map changes, to `StoredError` of the arguments |
| Forms.Form.ValidateOne | src/Form.js:127-164 | returns the verdict `CheckOne` specifies, or throws its error, and records exactly its error state |
| Forms.Form.ValidateInput | src/Form.js:99-102 | stores the value, then validates that one field against the updated value map; it throws exactly when that validation throws |
| Forms.Form.ValidateAll | src/Form.js:166-195 | the result and the new error map are those of `ValidateAllSpec` |
| Forms.Form.MarkReport | src/Form.js:173-180 | returns the reported keys in order and marks each of them |
| Forms.Form.ValidateRegistered | src/Form.js:182-189 | the loop over registered names ends in the state `SweepNames` specifies, and stops at the first throw |
| Forms.Form.GetValues | src/Form.js:87-93 | the snapshot has exactly the registered names, each with `_getValue` of it (`false` for a shared name) |
| Forms.Form.HandleSubmit | src/Form.js:248-262 | the callback reached and the new error map are those of `SubmitSpec` over the stored values |
| Scenarios.ParseOneRule | src/Form.js:198-208 | a bare rule name parses into one clause without parameters |
| Scenarios.ParseTwoRules | src/Form.js:198-208 | `a,b` parses into the two clauses `a` and `b` |
| Scenarios.RegisteredAlone | src/Form.js:49-56 | after the first registration, the registry holds that field alone |
| Scenarios.CompiledVerdict | src/Form.js:145-163 | a lone field with a rule string gets the verdict of its compiled validator |
| Scenarios.RequiredEmptyFieldSubmitsInvalid | __tests__/ValidationTests.js:31-43 | a `required` text field with no value makes a submit call `onInvalidSubmit` with that field's name |
| Scenarios.FieldWithoutRuleSubmitsValid | __tests__/ValidationTests.js:17-29 | a field without a rule lets a submit reach `onValidSubmit` with the values |
| Scenarios.NumberFieldCompiled | __tests__/ValidatedInputTests.js:100-110 | `validate='required,isInt'` compiles into the two clauses with the field's per-rule help |
| Scenarios.NumberFieldRejectsText | __tests__/ValidatedInputTests.js:113-118 | "not a number" fails `isInt` and stores "Must be a whole number" |
| Scenarios.NumberFieldAcceptsDigits | __tests__/ValidatedInputTests.js:120-124 | "23" passes both rules and clears the error |
| Scenarios.NumberFieldSession | __tests__/ValidatedInputTests.js:91-125 | through the class: typing "not a number" marks the field and a submit reports it; typing "23" clears the mark and a submit delivers `{number: '23'}` |

## Left out

- Rendering, `getChildContext`, `propTypes` and `defaultProps`, and `validationEvent`: these concern React and the inputs, not validation.
- `componentWillMount`: the constructor starts the three maps empty instead.
- `state.isValid`: nothing ever updates it.
- `setState` scheduling: the error map is written synchronously. This matches `_setError`, because `Object.assign` mutates `state.invalidInputs` in place before `setState` is called.
- `console.warn` for a shared name: I/O, left out.
- `preventDefault` on the submit event: I/O, left out.
- `submit()`: it only calls `_handleSubmit()`, so `Forms.Form.HandleSubmit` stands for both.
- `src/InputContainer.js` is not part of this model. Its assumed registry semantics are stated above.
- `Object.keys` order: the registry's key order is insertion order. JavaScript lists integer-like keys first; that order is not modelled.
- Rule predicates are modelled as boolean-valued. A rule that returns a non-boolean value, which `!== true` would treat as a failure, is not modelled.
- Rule parameters are passed to a predicate as one list. The spread into separate arguments is not modelled.
- The rule namespaces are fixed maps. Adding rules at run time (`validator.extend`) happens before validation and is not modelled. Prototype-inherited names and `errorHelp` keys are not modelled.
- A `validate` prop that is neither a string nor a function is treated like an absent one, which is what `_validateOne` does with it.
- The `validateAll` report is modelled as `true`, `null`/`undefined`, or the ordered key/message pairs of what `Object.keys` lists. Any other non-`true` value falls under the last case, as `Object.keys` of it would.
- JsValues.ToText: converts only integers among numbers, always as a plain decimal numeral. Fractional numbers, and integers of 1e21 and above, which JavaScript prints in exponent form, are not modelled, because fields report strings.
- Props are frozen: a field's props are captured in `Field` when it registers and the form's props in a constant `Config`. The component reads `input.props.validate`, `input.props.errorHelp` and its own `validateOne`, `validateAll`, `model` and `errorHelp` afresh on every call, and fixes only the clauses and the namespace at registration. So a re-render that changes a field's `errorHelp` takes effect at once, while a changed `validate` string keeps its stale compiled validator; neither is modelled.
- `errorHelp={null}`: `typeof null` is `'object'`, so `getInputErrorMessage` throws when it reads `null[ruleName]`. The model has no null `errorHelp`, and per-rule `errorHelp` entries that are not strings are not modelled either.
