/**
 * The schema validation both pages hand their forms to: each field carries a
 * list of rules (yup's `required`, `email`, `matches`, `min`, `length`), every
 * field is checked independently, and the result is the set of fields with a
 * failing rule (empty means valid). Which of a field's messages is shown when
 * several rules fail is not modelled, only whether the field is in error.
 */
module Validation {
  import opened Digits

  datatype Field = Email | Mobile | Password | Code

  /** The two regular expressions the schemas use. */
  datatype Pattern =
    | DigitsPlus              // /^\d+$/
    | DigitsExactly(n: nat)   // /^\d{n}$/

  datatype Rule =
    | Required
    | EmailFormat
    | Matches(pattern: Pattern)
    | Min(n: nat)
    | Length(n: nat)

  datatype FieldSchema = FieldSchema(field: Field, rules: seq<Rule>)

  type Schema = seq<FieldSchema>

  /** The minimum length of a mobile number. */
  const MobileMinLength: nat := 10

  /** The number of digits of a one-time code. */
  const CodeLength: nat := 6

  /** The email login schema: a well-formed, required address and a required password. */
  const EmailSchema: Schema :=
    [FieldSchema(Email, [EmailFormat, Required]), FieldSchema(Password, [Required])]

  /** The mobile login schema: digits only, at least ten of them, required; a required password. */
  const MobileSchema: Schema :=
    [ FieldSchema(Mobile, [Matches(DigitsPlus), Min(MobileMinLength), Required])
    , FieldSchema(Password, [Required]) ]

  /** The one-time-code schema: exactly six characters, six digits, required. */
  const CodeSchema: Schema :=
    [FieldSchema(Code, [Length(CodeLength), Matches(DigitsExactly(CodeLength)), Required])]

  predicate PatternMatches(p: Pattern, s: string) {
    match p
    case DigitsPlus => MatchesDigitPlus(s)
    case DigitsExactly(n) => MatchesDigitsExactly(s, n)
  }

  /**
   * One rule on one string value. `required` refuses the empty string;
   * `email` skips the empty string and otherwise defers to the address
   * grammar `isEmail`, whose definition belongs to the validation library;
   * `matches` tests the empty string like any other; `min` and `length`
   * compare the length.
   */
  predicate RuleHolds(rule: Rule, v: string, isEmail: string -> bool) {
    match rule
    case Required => v != ""
    case EmailFormat => v == "" || isEmail(v)
    case Matches(p) => PatternMatches(p, v)
    case Min(n) => |v| >= n
    case Length(n) => |v| == n
  }

  /** Every rule of the field holds of its value. */
  predicate FieldValid(rules: seq<Rule>, v: string, isEmail: string -> bool)
    decreases |rules|
  {
    rules == [] || (RuleHolds(rules[0], v, isEmail) && FieldValid(rules[1..], v, isEmail))
  }

  /** A field with three rules is valid when each of the three holds. */
  lemma FieldValidThree(a: Rule, b: Rule, c: Rule, v: string, isEmail: string -> bool)
    ensures FieldValid([a, b, c], v, isEmail) <==>
      RuleHolds(a, v, isEmail) && RuleHolds(b, v, isEmail) && RuleHolds(c, v, isEmail)
  {
    assert [a, b, c][1..] == [b, c];
    assert [b, c][1..] == [c];
    assert [c][1..] == [];
    assert FieldValid([c], v, isEmail) == RuleHolds(c, v, isEmail);
    assert FieldValid([b, c], v, isEmail) == (RuleHolds(b, v, isEmail) && FieldValid([c], v, isEmail));
  }

  /** A field the form never set reads as the empty string. */
  function ValueOf(values: map<Field, string>, f: Field): string {
    if f in values then values[f] else ""
  }

  /**
   * Validates every field of `schema` against `values`, collecting all the
   * fields in error rather than stopping at the first.
   */
  function Validate(schema: Schema, values: map<Field, string>, isEmail: string -> bool): (errors: set<Field>)
    ensures forall f :: f in errors <==>
      exists k :: 0 <= k < |schema| && schema[k].field == f &&
        !FieldValid(schema[k].rules, ValueOf(values, f), isEmail)
    decreases |schema|
  {
    if schema == [] then {}
    else
      var rest := Validate(schema[1..], values, isEmail);
      assert forall k :: 1 <= k < |schema| ==> schema[k] == schema[1..][k - 1];
      if FieldValid(schema[0].rules, ValueOf(values, schema[0].field), isEmail)
      then rest
      else {schema[0].field} + rest
  }

  /** The code schema has no email rule, so no address grammar is consulted. */
  function NoEmailCheck(s: string): bool {
    false
  }

  /** The errors the one-time-code schema reports for a composite code. */
  function CodeErrors(code: string): set<Field> {
    Validate(CodeSchema, map[Code := code], NoEmailCheck)
  }

  /** The composite code is accepted by its schema. */
  predicate CodeAccepted(code: string) {
    CodeErrors(code) == {}
  }

  // ---------------------------------------------------------------------
  // What each schema accepts, stated without the rule engine.

  /** Email form: the address must be present and well formed, the password present. */
  lemma EmailSchemaErrors(email: string, password: string, isEmail: string -> bool)
    ensures var errors := Validate(EmailSchema, map[Email := email, Password := password], isEmail);
      && errors <= {Email, Password}
      && (Email in errors <==> email == "" || !isEmail(email))
      && (Password in errors <==> password == "")
  {
    var values := map[Email := email, Password := password];
    assert ValueOf(values, Email) == email && ValueOf(values, Password) == password;
    assert FieldValid(EmailSchema[0].rules, email, isEmail) <==>
      RuleHolds(EmailFormat, email, isEmail) && RuleHolds(Required, email, isEmail);
    assert FieldValid(EmailSchema[1].rules, password, isEmail) <==> RuleHolds(Required, password, isEmail);
  }

  /** Mobile form: the number must be non-empty, all digits and at least ten long; the password present. */
  lemma MobileSchemaErrors(mobile: string, password: string, isEmail: string -> bool)
    ensures var errors := Validate(MobileSchema, map[Mobile := mobile, Password := password], isEmail);
      && errors <= {Mobile, Password}
      && (Mobile in errors <==> !(mobile != "" && AllDigits(mobile) && |mobile| >= MobileMinLength))
      && (Password in errors <==> password == "")
  {
    var values := map[Mobile := mobile, Password := password];
    assert ValueOf(values, Mobile) == mobile && ValueOf(values, Password) == password;
    DigitPlusIsNonEmptyDigits(mobile);
    FieldValidThree(Matches(DigitsPlus), Min(MobileMinLength), Required, mobile, isEmail);
    assert FieldValid(MobileSchema[1].rules, password, isEmail) <==> RuleHolds(Required, password, isEmail);
  }

  /**
   * The three rules of the code schema (`length(6)`, `^\d{6}$`, `required`)
   * together accept exactly the six-digit strings.
   */
  lemma CodeSchemaErrors(code: string)
    ensures CodeErrors(code) <= {Code}
    ensures CodeAccepted(code) <==> |code| == CodeLength && AllDigits(code)
  {
    var values := map[Code := code];
    assert ValueOf(values, Code) == code;
    DigitsExactlyIsLengthAndDigits(code, CodeLength);
    FieldValidThree(Length(CodeLength), Matches(DigitsExactly(CodeLength)), Required, code, NoEmailCheck);
  }

  /**
   * After the digit filter of the mobile field, the `matches` rule can no
   * longer fail: the number is valid exactly when at least ten digits remain.
   */
  lemma FilteredMobileErrors(raw: string, password: string, isEmail: string -> bool)
    ensures var errors := Validate(MobileSchema, map[Mobile := KeepDigits(raw), Password := password], isEmail);
      Mobile in errors <==> |KeepDigits(raw)| < MobileMinLength
  {
    KeepDigitsIsDigits(raw);
    MobileSchemaErrors(KeepDigits(raw), password, isEmail);
  }
}
