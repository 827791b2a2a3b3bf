/**
 * JavaScript values as the validation engine of the `Form` component sees
 * them: the values fields report, the results of rule and hook calls, the
 * per-field error state, and the programmer errors the engine throws.
 */
module JsValues {

  datatype Option<T> = None | Some(value: T)

  /**
   * A JavaScript value. An object (a FileList, a plain object, an array) is
   * known only by the text that `'' + o` yields for it.
   */
  datatype Value =
    | Undefined
    | Null
    | Bool(b: bool)
    | Num(n: int)
    | Str(s: string)
    | Obj(text: string)

  /** JavaScript truthiness, as in `if (v)` and `v || w`. */
  predicate Truthy(v: Value) {
    match v
    case Undefined => false
    case Null => false
    case Bool(b) => b
    case Num(n) => n != 0
    case Str(s) => s != ""
    case Obj(_) => true
  }

  function DigitChar(d: nat): char
    requires d < 10
  {
    ('0' as int + d) as char
  }

  /** The value of a decimal digit character. */
  function DigitValue(c: char): int {
    c as int - '0' as int
  }

  /** Decimal digits of a natural number, most significant first. */
  function Digits(n: nat): (r: string)
    ensures |r| > 0
    ensures forall i :: 0 <= i < |r| ==> '0' <= r[i] <= '9'
    ensures r[0] == '0' ==> n == 0
    decreases n
  {
    if n < 10 then [DigitChar(n)] else Digits(n / 10) + [DigitChar(n % 10)]
  }

  /** Reads a string of decimal digits, most significant first. */
  function ReadDigits(s: string): int
    decreases |s|
  {
    if s == [] then 0 else ReadDigits(s[..|s| - 1]) * 10 + DigitValue(s[|s| - 1])
  }

  /** Reads an optionally signed decimal numeral. */
  function ReadInteger(s: string): int {
    if |s| > 0 && s[0] == '-' then -ReadDigits(s[1..]) else ReadDigits(s)
  }

  /** The digits of a number read back as that number. */
  lemma {:induction false} DigitsReadBack(n: nat)
    ensures ReadDigits(Digits(n)) == n
    decreases n
  {
    if n >= 10 {
      DigitsReadBack(n / 10);
      var s := Digits(n);
      assert s[..|s| - 1] == Digits(n / 10);
    }
  }

  /** The string conversion `v + ''` (integral numbers only). */
  function ToText(v: Value): (r: string)
    ensures v.Num? ==> r != ""
  {
    match v
    case Undefined => "undefined"
    case Null => "null"
    case Bool(b) => if b then "true" else "false"
    case Num(n) => if n < 0 then "-" + Digits(-n) else Digits(n)
    case Str(s) => s
    case Obj(t) => t
  }

  /** The text of a number is its decimal numeral: it reads back as the number. */
  lemma NumberTextReadsBack(n: int)
    ensures ReadInteger(ToText(Num(n))) == n
    ensures var t := ToText(Num(n));
      var digits := if n < 0 then t[1..] else t;
      && (n < 0 <==> t[0] == '-')
      && |digits| > 0 && (forall i :: 0 <= i < |digits| ==> '0' <= digits[i] <= '9')
      && (digits[0] == '0' ==> n == 0)
  {
    if n < 0 {
      DigitsReadBack(-n);
      assert ("-" + Digits(-n))[1..] == Digits(-n);
    } else {
      DigitsReadBack(n);
    }
  }

  /**
   * The error state of one field, as kept in `state.invalidInputs`:
   * `false` (valid), `true` (invalid, no message) or a message string.
   */
  datatype ErrorState = NoError | Marked | Message(text: string)

  /** The programmer errors the engine throws instead of returning. */
  datatype Fault =
    | UnknownRule(rule: string)   // no predicate of that name in the rule namespace
    | NotAFunction(name: string)  // no compiled validator cached for a string rule
    | NoInput(name: string)       // no field registered under the name
    | NotAnObject                 // `Object.keys` of a null or undefined report

  /** A call that either throws or returns a value. */
  datatype Run = Threw(fault: Fault) | Returned(result: Value)

  /** A method call that either throws or completes with a result. */
  datatype Outcome<T> = Done(value: T) | Raised(fault: Fault)
}
