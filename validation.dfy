/** The framework's form-request validator, restricted to the rules the
    product requests use. A rule string such as `sometimes|required|string|max:255`
    is a sequence of `Rule`s; each attribute's rules run in order and collect
    messages, and the request passes when no attribute collected one. */
module Validation {
  import opened Text
  import opened Values

  datatype Rule =
    | Sometimes
    | Required
    | Nullable
    | IsString
    | IsArray
    | Numeric
    | Integer
    | Boolean
    | Max(limit: nat)
    | Min(limit: nat)
      /** `exists:<table>,<column>`, given the column's current values. */
    | Exists(column: set<int>)

  /** Field name to messages, in rule order. */
  type Errors = map<string, seq<string>>

  /** Custom messages, written `<attribute>.<rule>` in a request and kept here
      as the pair (attribute, rule name); the attribute part may hold a `*`. */
  type Messages = map<(string, string), string>

  datatype Outcome = Passed(validated: Input) | Failed(errors: Errors)

  /** One attribute to validate: its name, the rule key it was written under
      (`ids.*` for `ids.0`), its rules, whether the input has it, and its value
      (null when absent). */
  datatype Check = Check(attribute: string, pattern: string, rules: seq<Rule>, present: bool, value: Value)

  /** The lower-case rule name used in message keys. */
  function RuleKey(r: Rule): string {
    match r
    case Sometimes => "sometimes"
    case Required => "required"
    case Nullable => "nullable"
    case IsString => "string"
    case IsArray => "array"
    case Numeric => "numeric"
    case Integer => "integer"
    case Boolean => "boolean"
    case Max(_) => "max"
    case Min(_) => "min"
    case Exists(_) => "exists"
  }

  /** `required` is the only implicit rule here: it runs on absent and empty values. */
  predicate IsImplicit(r: Rule) {
    r == Required
  }

  /** The rules that make `min`/`max` compare numbers rather than lengths. */
  predicate HasNumericRule(rules: seq<Rule>) {
    Numeric in rules || Integer in rules
  }

  /** The size `min` and `max` compare: the number for a numeric value under a
      numeric rule, the item count of an array, else the length of the value's
      text. A float's text is taken as one character long: it is never empty
      and never near the limits used here. */
  function Size(v: Value, numeric: bool): real {
    if numeric && NumericOf(v).Some? then NumericOf(v).value
    else match v
      case Arr(xs) => |xs| as real
      case Str(s) => |s| as real
      case Int(i) => |IntToString(i)| as real
      case Bool(b) => if b then 1.0 else 0.0
      case Num(_) => 1.0
      case Null => 0.0
  }

  /** Whether a single rule accepts the value. `sometimes` and `nullable`
      never reject anything; they only decide whether the other rules run. A
      value accepted as an integer or as an existing id is numeric too, save
      `true`. */
  function Passes(r: Rule, v: Value, rules: seq<Rule>): (b: bool)
    ensures r == Sometimes || r == Nullable ==> b
    ensures b && (r == Integer || r.Exists?) && v != Bool(true) ==> NumericOf(v).Some?
  {
    match r
    case Sometimes => true
    case Nullable => true
    case Required => Filled(v)
    case IsString => v.Str?
    case IsArray => v.Arr?
    case Numeric => NumericOf(v).Some?
    case Integer => IntegerOf(v).Some?
    case Boolean => IsBooleanLike(v)
    case Max(n) => Size(v, HasNumericRule(rules)) <= n as real
    case Min(n) => Size(v, HasNumericRule(rules)) >= n as real
    case Exists(column) => IntegerOf(v).Some? && IntegerOf(v).value in column
  }

  /** Whether a rule runs at all: non-implicit rules skip absent and blank
      values, `sometimes` skips an absent attribute, `nullable` skips null, and
      `exists` skips an attribute that already failed. */
  function Validatable(r: Rule, c: Check, failedSoFar: bool): (b: bool)
    ensures b && !IsImplicit(r) ==> c.present
    ensures IsImplicit(r) ==> (b <==> Sometimes !in c.rules || c.present)
    ensures b && r.Exists? ==> !failedSoFar
  {
    && (IsImplicit(r) || (c.present && !(c.value.Str? && IsBlank(c.value.s))))
    && (Sometimes !in c.rules || c.present)
    && (IsImplicit(r) || Nullable !in c.rules || c.value != Null)
    && (!r.Exists? || !failedSoFar)
  }

  /** The size rules' message variant, chosen from the attribute's rules. */
  function SizeKind(rules: seq<Rule>): string {
    if HasNumericRule(rules) then "numeric" else if IsArray in rules then "array" else "string"
  }

  /** The attribute as it reads in a default message: underscores become spaces. */
  function DisplayName(attribute: string): (s: string)
    ensures |s| == |attribute|
    ensures forall k :: 0 <= k < |s| ==> s[k] != '_'
  {
    if attribute == [] then []
    else [if attribute[0] == '_' then ' ' else attribute[0]] + DisplayName(attribute[1..])
  }

  /** The framework's default English messages. */
  function DefaultMessage(r: Rule, attribute: string, rules: seq<Rule>): string {
    var a := DisplayName(attribute);
    match r
    case Required => "The " + a + " field is required."
    case IsString => "The " + a + " field must be a string."
    case IsArray => "The " + a + " field must be an array."
    case Numeric => "The " + a + " field must be a number."
    case Integer => "The " + a + " field must be an integer."
    case Boolean => "The " + a + " field must be true or false."
    case Exists(_) => "The selected " + a + " is invalid."
    case Max(n) =>
      var k := SizeKind(rules);
      if k == "numeric" then "The " + a + " field must not be greater than " + NatToString(n) + "."
      else if k == "array" then "The " + a + " field must not have more than " + NatToString(n) + " items."
      else "The " + a + " field must not be greater than " + NatToString(n) + " characters."
    case Min(n) =>
      var k := SizeKind(rules);
      if k == "numeric" then "The " + a + " field must be at least " + NatToString(n) + "."
      else if k == "array" then "The " + a + " field must have at least " + NatToString(n) + " items."
      else "The " + a + " field must be at least " + NatToString(n) + " characters."
    case _ => "The " + a + " field is invalid."
  }

  /** A custom message for the attribute, then for its pattern, else the default. */
  function MessageFor(r: Rule, c: Check, custom: Messages): (m: string)
    ensures (c.attribute, RuleKey(r)) in custom ==> m == custom[(c.attribute, RuleKey(r))]
    ensures (c.attribute, RuleKey(r)) !in custom && (c.pattern, RuleKey(r)) in custom ==> m == custom[(c.pattern, RuleKey(r))]
    ensures (c.attribute, RuleKey(r)) !in custom && (c.pattern, RuleKey(r)) !in custom ==> m == DefaultMessage(r, c.attribute, c.rules)
  {
    var exact := (c.attribute, RuleKey(r));
    var wild := (c.pattern, RuleKey(r));
    if exact in custom then custom[exact]
    else if wild in custom then custom[wild]
    else DefaultMessage(r, c.attribute, c.rules)
  }

  /** Runs the remaining rules `todo` of `c`, given the messages so far; stops
      right after a failed implicit rule. */
  function RunRules(todo: seq<Rule>, c: Check, custom: Messages, msgs: seq<string>): (out: seq<string>)
    ensures |out| >= |msgs| && out[..|msgs|] == msgs
    ensures |out| <= |msgs| + |todo|
    decreases |todo|
  {
    if todo == [] then msgs
    else
      var r := todo[0];
      var fails := Validatable(r, c, msgs != []) && !Passes(r, c.value, c.rules);
      var msgs' := if fails then msgs + [MessageFor(r, c, custom)] else msgs;
      if fails && IsImplicit(r) then msgs'
      else
        var out := RunRules(todo[1..], c, custom, msgs');
        assert out[..|msgs|] == out[..|msgs'|][..|msgs|];
        out
  }

  /** All messages of one attribute. */
  function AttributeMessages(c: Check, custom: Messages): seq<string> {
    RunRules(c.rules, c, custom, [])
  }

  /** A `sometimes` attribute that is absent never gets a message. */
  lemma {:induction false} AbsentSometimesPasses(todo: seq<Rule>, c: Check, custom: Messages, msgs: seq<string>)
    requires Sometimes in c.rules && !c.present
    ensures RunRules(todo, c, custom, msgs) == msgs
    decreases |todo|
  {
    if todo != [] {
      AbsentSometimesPasses(todo[1..], c, custom, msgs);
    }
  }

  /** Every failed rule adds a message: an attribute has no message exactly
      when every rule that runs on it passes. */
  lemma {:induction false} NoMessagesIff(todo: seq<Rule>, c: Check, custom: Messages)
    ensures RunRules(todo, c, custom, []) == [] <==>
            forall j :: 0 <= j < |todo| && Validatable(todo[j], c, false) ==> Passes(todo[j], c.value, c.rules)
    decreases |todo|
  {
    if todo != [] {
      NoMessagesIff(todo[1..], c, custom);
      var r := todo[0];
      if !(Validatable(r, c, false) && !Passes(r, c.value, c.rules)) {
        forall j | 1 <= j < |todo| ensures todo[j] == todo[1..][j - 1] { }
      }
    }
  }

  /** A passing `sometimes` on a present attribute adds nothing. */
  lemma SometimesStep(rest: seq<Rule>, c: Check, custom: Messages, msgs: seq<string>)
    requires c.present
    ensures RunRules([Sometimes] + rest, c, custom, msgs) == RunRules(rest, c, custom, msgs)
  {
    assert ([Sometimes] + rest)[1..] == rest;
  }

  /** `required` on a null or blank value reports its message and stops;
      otherwise it adds nothing. */
  lemma RequiredStep(rest: seq<Rule>, c: Check, custom: Messages)
    requires Sometimes !in c.rules || c.present
    ensures RunRules([Required] + rest, c, custom, []) ==
            if !Filled(c.value) then [MessageFor(Required, c, custom)] else RunRules(rest, c, custom, [])
  {
    assert ([Required] + rest)[1..] == rest;
  }

  /** On a filled value, a rule other than `required`, `sometimes`,
      `nullable` and `exists` runs and reports its message when it rejects. */
  lemma PlainStep(r: Rule, rest: seq<Rule>, c: Check, custom: Messages, msgs: seq<string>)
    requires c.present && Filled(c.value)
    requires !IsImplicit(r) && r != Nullable && r != Sometimes && !r.Exists?
    ensures RunRules([r] + rest, c, custom, msgs) ==
            RunRules(rest, c, custom, msgs + if Passes(r, c.value, c.rules) then [] else [MessageFor(r, c, custom)])
  {
    assert ([r] + rest)[1..] == rest;
    assert msgs + [] == msgs;
  }

  /** `exists` runs only while the attribute has no message. */
  lemma ExistsStep(column: set<int>, rest: seq<Rule>, c: Check, custom: Messages, msgs: seq<string>)
    requires c.present && Filled(c.value)
    ensures RunRules([Exists(column)] + rest, c, custom, msgs) ==
            RunRules(rest, c, custom,
                     msgs + if msgs != [] || Passes(Exists(column), c.value, c.rules) then [] else [MessageFor(Exists(column), c, custom)])
  {
    assert ([Exists(column)] + rest)[1..] == rest;
    assert msgs + [] == msgs;
  }

  /** `nullable|<x>`: an absent, null or blank attribute passes; any other
      gets `x`'s message exactly when `x` rejects it. */
  lemma NullableOne(c: Check, custom: Messages, x: Rule)
    requires c.rules == [Nullable, x]
    requires !IsImplicit(x) && x != Nullable && x != Sometimes && !x.Exists?
    ensures AttributeMessages(c, custom) ==
      if !c.present || c.value == Null || (c.value.Str? && IsBlank(c.value.s)) || Passes(x, c.value, c.rules) then []
      else [MessageFor(x, c, custom)]
  {
    assert c.rules[1..] == [x] && [x][1..] == [];
    assert RunRules(c.rules, c, custom, []) == RunRules([x], c, custom, []);
    assert Sometimes !in c.rules && Nullable in c.rules;
  }

  /** `sometimes|required|<x>`: an absent attribute passes, a null or blank one
      gets the `required` message alone, and a filled one gets `x`'s message
      exactly when `x` rejects it. */
  lemma SometimesRequiredOne(c: Check, custom: Messages, x: Rule)
    requires c.rules == [Sometimes, Required, x]
    requires !IsImplicit(x) && x != Nullable && x != Sometimes
    ensures AttributeMessages(c, custom) ==
      if !c.present then []
      else if !Filled(c.value) then [MessageFor(Required, c, custom)]
      else if Passes(x, c.value, c.rules) then []
      else [MessageFor(x, c, custom)]
  {
    if !c.present {
      AbsentSometimesPasses(c.rules, c, custom, []);
    } else {
      assert c.rules == [Sometimes] + ([Required] + ([x] + []));
      SometimesStep([Required] + ([x] + []), c, custom, []);
      RequiredStep([x] + [], c, custom);
      if Filled(c.value) {
        if x.Exists? {
          ExistsStep(x.column, [], c, custom, []);
        } else {
          PlainStep(x, [], c, custom, []);
        }
      }
    }
  }

  /** `sometimes|required|<x>|<y>`: as above, with the messages of `x` and `y`
      in that order; neither may be `exists`, which would depend on the first. */
  lemma SometimesRequiredTwo(c: Check, custom: Messages, x: Rule, y: Rule)
    requires c.rules == [Sometimes, Required, x, y]
    requires !IsImplicit(x) && x != Nullable && x != Sometimes && !x.Exists?
    requires !IsImplicit(y) && y != Nullable && y != Sometimes && !y.Exists?
    ensures AttributeMessages(c, custom) ==
      if !c.present then []
      else if !Filled(c.value) then [MessageFor(Required, c, custom)]
      else (if Passes(x, c.value, c.rules) then [] else [MessageFor(x, c, custom)]) +
           (if Passes(y, c.value, c.rules) then [] else [MessageFor(y, c, custom)])
  {
    if !c.present {
      AbsentSometimesPasses(c.rules, c, custom, []);
    } else {
      assert c.rules == [Sometimes] + ([Required] + ([x] + ([y] + [])));
      SometimesStep([Required] + ([x] + ([y] + [])), c, custom, []);
      RequiredStep([x] + ([y] + []), c, custom);
      if Filled(c.value) {
        var m1 := if Passes(x, c.value, c.rules) then [] else [MessageFor(x, c, custom)];
        PlainStep(x, [y] + [], c, custom, []);
        PlainStep(y, [], c, custom, [] + m1);
        assert [] + m1 == m1;
      }
    }
  }

  /** `required|<x>|<y>`: a null or blank attribute gets the `required`
      message alone; otherwise `x`'s and `y`'s messages when they reject it. */
  lemma RequiredTwo(c: Check, custom: Messages, x: Rule, y: Rule)
    requires c.rules == [Required, x, y] && (c.present || c.value == Null)
    requires !IsImplicit(x) && x != Nullable && x != Sometimes && !x.Exists?
    requires !IsImplicit(y) && y != Nullable && y != Sometimes && !y.Exists?
    ensures AttributeMessages(c, custom) ==
      if !Filled(c.value) then [MessageFor(Required, c, custom)]
      else (if Passes(x, c.value, c.rules) then [] else [MessageFor(x, c, custom)]) +
           (if Passes(y, c.value, c.rules) then [] else [MessageFor(y, c, custom)])
  {
    assert c.rules == [Required] + ([x] + ([y] + []));
    RequiredStep([x] + ([y] + []), c, custom);
    if Filled(c.value) {
      var m1 := if Passes(x, c.value, c.rules) then [] else [MessageFor(x, c, custom)];
      PlainStep(x, [y] + [], c, custom, []);
      PlainStep(y, [], c, custom, [] + m1);
      assert [] + m1 == m1;
    }
  }

  /** `required|<x>|exists:...`: a null or blank attribute gets the `required`
      message alone; one that `x` rejects gets `x`'s message and is not looked
      up; otherwise the `exists` message when the column lacks its value. */
  lemma RequiredThenExists(c: Check, custom: Messages, x: Rule, column: set<int>)
    requires c.rules == [Required, x, Exists(column)] && (c.present || c.value == Null)
    requires !IsImplicit(x) && x != Nullable && x != Sometimes && !x.Exists?
    ensures AttributeMessages(c, custom) ==
      if !Filled(c.value) then [MessageFor(Required, c, custom)]
      else if !Passes(x, c.value, c.rules) then [MessageFor(x, c, custom)]
      else if Passes(Exists(column), c.value, c.rules) then []
      else [MessageFor(Exists(column), c, custom)]
  {
    assert c.rules == [Required] + ([x] + ([Exists(column)] + []));
    RequiredStep([x] + ([Exists(column)] + []), c, custom);
    if Filled(c.value) {
      var m1 := if Passes(x, c.value, c.rules) then [] else [MessageFor(x, c, custom)];
      PlainStep(x, [Exists(column)] + [], c, custom, []);
      ExistsStep(column, [], c, custom, [] + m1);
      assert [] + m1 == m1;
    }
  }

  /** The error bag of a list of checks: an attribute is a key exactly when it
      collected at least one message. */
  function ErrorsOf(checks: seq<Check>, custom: Messages): (e: Errors)
    ensures forall a :: a in e ==> exists i :: 0 <= i < |checks| && checks[i].attribute == a
    ensures forall a :: a in e ==> e[a] != []
  {
    if checks == [] then map[]
    else
      var rest := ErrorsOf(checks[1..], custom);
      var m := AttributeMessages(checks[0], custom);
      var e := if m == [] then rest else rest[checks[0].attribute := m];
      assert forall a :: a in rest ==> exists i :: 0 <= i < |checks| && checks[i].attribute == a by {
        forall a | a in rest ensures exists i :: 0 <= i < |checks| && checks[i].attribute == a {
          var i :| 0 <= i < |checks[1..]| && checks[1..][i].attribute == a;
          assert checks[i + 1].attribute == a;
        }
      }
      e
  }

  predicate DistinctAttributes(checks: seq<Check>) {
    forall i, j :: 0 <= i < j < |checks| ==> checks[i].attribute != checks[j].attribute
  }

  /** With distinct attributes, each attribute's entry is exactly its messages. */
  lemma {:induction false} ErrorsOfAt(checks: seq<Check>, custom: Messages, i: nat)
    requires DistinctAttributes(checks) && i < |checks|
    ensures var a := checks[i].attribute;
            var m := AttributeMessages(checks[i], custom);
            (a in ErrorsOf(checks, custom) <==> m != []) &&
            (a in ErrorsOf(checks, custom) ==> ErrorsOf(checks, custom)[a] == m)
    decreases |checks|
  {
    if i > 0 {
      assert checks[1..][i - 1] == checks[i];
      ErrorsOfAt(checks[1..], custom, i - 1);
    } else {
      var a := checks[0].attribute;
      forall k | 0 <= k < |checks[1..]| ensures checks[1..][k].attribute != a {
        assert checks[1..][k] == checks[k + 1];
      }
    }
  }

  /** The error bag is empty exactly when no check collected a message. */
  lemma {:induction false} ErrorsOfEmptyIff(checks: seq<Check>, custom: Messages)
    ensures ErrorsOf(checks, custom) == map[] <==>
            forall i :: 0 <= i < |checks| ==> AttributeMessages(checks[i], custom) == []
    decreases |checks|
  {
    if checks != [] {
      ErrorsOfEmptyIff(checks[1..], custom);
      if AttributeMessages(checks[0], custom) == [] {
        forall i | 1 <= i < |checks| ensures checks[i] == checks[1..][i - 1] { }
      } else {
        assert checks[0].attribute in ErrorsOf(checks, custom);
      }
    }
  }

  /** The outcome of distinct checks, attribute by attribute: no messages at
      all, or each attribute's entry holding exactly its own messages. */
  lemma ErrorsOfByAttribute(checks: seq<Check>, custom: Messages)
    requires DistinctAttributes(checks)
    ensures ErrorsOf(checks, custom) == map[] <==>
            forall i :: 0 <= i < |checks| ==> AttributeMessages(checks[i], custom) == []
    ensures forall i :: 0 <= i < |checks| ==>
              (checks[i].attribute in ErrorsOf(checks, custom) <==> AttributeMessages(checks[i], custom) != []) &&
              (checks[i].attribute in ErrorsOf(checks, custom) ==>
                 ErrorsOf(checks, custom)[checks[i].attribute] == AttributeMessages(checks[i], custom))
  {
    ErrorsOfEmptyIff(checks, custom);
    forall i | 0 <= i < |checks|
      ensures (checks[i].attribute in ErrorsOf(checks, custom) <==> AttributeMessages(checks[i], custom) != []) &&
              (checks[i].attribute in ErrorsOf(checks, custom) ==>
                 ErrorsOf(checks, custom)[checks[i].attribute] == AttributeMessages(checks[i], custom))
    {
      ErrorsOfAt(checks, custom, i);
    }
  }

  /** The check for a top-level field of the input. */
  function FieldCheck(input: Input, attribute: string, rules: seq<Rule>): (c: Check)
    ensures c.attribute == attribute && c.pattern == attribute && c.rules == rules
    ensures c.present == (attribute in input)
    ensures c.value == if attribute in input then input[attribute] else Null
  {
    Check(attribute, attribute, rules, attribute in input, if attribute in input then input[attribute] else Null)
  }

  /** `validated()`: the input restricted to the rule set's fields. */
  function ValidatedFields(input: Input, fields: set<string>): (d: Input)
    ensures d.Keys == input.Keys * fields
    ensures forall k :: k in d ==> d[k] == input[k]
  {
    map k | k in input && k in fields :: input[k]
  }
}
