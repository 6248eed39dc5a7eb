/** The update form request: each field's rule string, the custom messages,
    and what validating an input against them yields. */
module UpdateProductRequest {
  import opened Values
  import opened Validation
  import Products

  /** `authorize()`: every request may update. */
  function Authorize(): (ok: bool)
    ensures ok
  {
    true
  }

  /** `sometimes|required|string|max:255` */
  const NameRules: seq<Rule> := [Sometimes, Required, IsString, Max(255)]
  /** `sometimes|required|exists:categories,id`, against the categories' ids. */
  function CategoryRules(categoryIds: set<int>): seq<Rule> {
    [Sometimes, Required, Exists(categoryIds)]
  }
  /** `nullable|string` */
  const DescriptionRules: seq<Rule> := [Nullable, IsString]
  /** `sometimes|required|numeric|min:0` */
  const PriceRules: seq<Rule> := [Sometimes, Required, Numeric, Min(0)]
  /** `sometimes|required|integer|min:0` */
  const StockRules: seq<Rule> := [Sometimes, Required, Integer, Min(0)]
  /** `boolean` */
  const EnabledRules: seq<Rule> := [Boolean]

  const Fields: set<string> := {"name", "category_id", "description", "price", "stock", "enabled"}

  /** `messages()` */
  const CustomMessages: Messages := map[
    ("name", "required") := "Product name is required",
    ("category_id", "required") := "Category is required",
    ("category_id", "exists") := "Selected category does not exist",
    ("price", "required") := "Price is required",
    ("price", "numeric") := "Price must be a number",
    ("stock", "required") := "Stock is required",
    ("stock", "integer") := "Stock must be an integer"
  ]

  function Checks(input: Input, categoryIds: set<int>): seq<Check> {
    [ FieldCheck(input, "name", NameRules),
      FieldCheck(input, "category_id", CategoryRules(categoryIds)),
      FieldCheck(input, "description", DescriptionRules),
      FieldCheck(input, "price", PriceRules),
      FieldCheck(input, "stock", StockRules),
      FieldCheck(input, "enabled", EnabledRules) ]
  }

  /** Validation of an update request. On success, the validated data: the
      sent rule fields and nothing else. On failure, a non-empty bag keyed by
      rule fields, each with at least one message. */
  function Validate(input: Input, categoryIds: set<int>): (o: Outcome)
    ensures o.Passed? ==> o.validated.Keys == input.Keys * Fields
    ensures o.Passed? ==> forall k :: k in o.validated ==> o.validated[k] == input[k]
    ensures o.Failed? ==> o.errors != map[] && forall a :: a in o.errors ==> a in Fields && o.errors[a] != []
  {
    var e := ErrorsOf(Checks(input, categoryIds), CustomMessages);
    ErrorsAreFields(input, categoryIds);
    if e == map[] then Passed(ValidatedFields(input, Fields)) else Failed(e)
  }

  /** Every attribute in the error bag is one of the rule fields. */
  lemma ErrorsAreFields(input: Input, categoryIds: set<int>)
    ensures forall a :: a in ErrorsOf(Checks(input, categoryIds), CustomMessages) ==> a in Fields
  {
    var checks := Checks(input, categoryIds);
    assert forall i :: 0 <= i < |checks| ==> checks[i].attribute in Fields by {
      forall i | 0 <= i < |checks| ensures checks[i].attribute in Fields {
        assert checks[i].attribute == FieldName(i);
      }
    }
  }

  /** The field validated by check `i`. */
  function FieldName(i: nat): string
    requires i < 6
  {
    ["name", "category_id", "description", "price", "stock", "enabled"][i]
  }

  /** The messages field `i` collects. */
  function FieldMessages(input: Input, categoryIds: set<int>, i: nat): seq<string>
    requires i < 6
  {
    AttributeMessages(Checks(input, categoryIds)[i], CustomMessages)
  }

  /** The request passes exactly when no field collected a message; when it
      fails, a field is in the error bag exactly when it collected messages,
      and its entry is those messages. */
  lemma ValidateIff(input: Input, categoryIds: set<int>)
    ensures Validate(input, categoryIds).Passed? <==>
            forall i :: 0 <= i < 6 ==> FieldMessages(input, categoryIds, i) == []
    ensures Validate(input, categoryIds).Failed? ==>
            forall i :: 0 <= i < 6 ==>
              (FieldName(i) in Validate(input, categoryIds).errors <==> FieldMessages(input, categoryIds, i) != []) &&
              (FieldName(i) in Validate(input, categoryIds).errors ==>
                 Validate(input, categoryIds).errors[FieldName(i)] == FieldMessages(input, categoryIds, i))
  {
    var checks := Checks(input, categoryIds);
    assert |checks| == 6;
    assert forall i :: 0 <= i < 6 ==> checks[i].attribute == FieldName(i);
    ErrorsOfByAttribute(checks, CustomMessages);
    assert Validate(input, categoryIds).Passed? <==> ErrorsOf(checks, CustomMessages) == map[];
    assert Validate(input, categoryIds).Failed? ==> Validate(input, categoryIds).errors == ErrorsOf(checks, CustomMessages);
    assert forall i :: 0 <= i < 6 ==> FieldMessages(input, categoryIds, i) == AttributeMessages(checks[i], CustomMessages);
  }

  /** On success the validated data is the input's rule fields, unchanged. */
  lemma ValidatedData(input: Input, categoryIds: set<int>)
    requires Validate(input, categoryIds).Passed?
    ensures Validate(input, categoryIds).validated.Keys == input.Keys * Fields
    ensures forall k :: k in Validate(input, categoryIds).validated ==> Validate(input, categoryIds).validated[k] == input[k]
  {
  }

  /** Which message each of `name`'s rules reports. */
  lemma NameLookups(c: Check)
    requires c.attribute == "name" && c.pattern == "name"
    ensures MessageFor(Required, c, CustomMessages) == "Product name is required"
    ensures MessageFor(IsString, c, CustomMessages) == DefaultMessage(IsString, "name", c.rules)
    ensures MessageFor(Max(255), c, CustomMessages) == DefaultMessage(Max(255), "name", c.rules)
  {
    assert c.attribute[0] == 'n';
  }

  /** `name`: nothing when absent; only "Product name is required" when null
      or blank; otherwise a message if it is not a string and one if it is
      longer than 255 characters. */
  lemma NameMessages(input: Input, categoryIds: set<int>)
    ensures FieldMessages(input, categoryIds, 0) ==
      if "name" !in input then []
      else if !Filled(input["name"]) then ["Product name is required"]
      else (if input["name"].Str? then [] else [DefaultMessage(IsString, "name", NameRules)]) +
           (if Size(input["name"], false) <= 255.0 then []
            else [DefaultMessage(Max(255), "name", NameRules)])
  {
    assert !HasNumericRule(NameRules) by {
      assert forall i | 0 <= i < |NameRules| :: NameRules[i] != Numeric && NameRules[i] != Integer;
    }
    var c := FieldCheck(input, "name", NameRules);
    assert Checks(input, categoryIds)[0] == c;
    SometimesRequiredTwo(c, CustomMessages, IsString, Max(255));
    NameLookups(c);
  }

  /** Which message each of `category_id`'s rules reports. */
  lemma CategoryLookups(c: Check, categoryIds: set<int>)
    requires c.attribute == "category_id" && c.pattern == "category_id"
    ensures MessageFor(Required, c, CustomMessages) == "Category is required"
    ensures MessageFor(Exists(categoryIds), c, CustomMessages) == "Selected category does not exist"
  {
    assert c.attribute[0] == 'c';
  }

  /** `category_id`: nothing when absent; only "Category is required" when
      null or blank; otherwise "Selected category does not exist" unless it
      is an integer naming a category. */
  lemma CategoryMessages(input: Input, categoryIds: set<int>)
    ensures FieldMessages(input, categoryIds, 1) ==
      if "category_id" !in input then []
      else if !Filled(input["category_id"]) then ["Category is required"]
      else if IntegerOf(input["category_id"]).Some? && IntegerOf(input["category_id"]).value in categoryIds then []
      else ["Selected category does not exist"]
  {
    var c := FieldCheck(input, "category_id", CategoryRules(categoryIds));
    var required := MessageFor(Required, c, CustomMessages);
    var missing := MessageFor(Exists(categoryIds), c, CustomMessages);
    assert required == "Category is required" && missing == "Selected category does not exist" by {
      CategoryLookups(c, categoryIds);
    }
    assert FieldMessages(input, categoryIds, 1) ==
      if !c.present then [] else if !Filled(c.value) then [required]
      else if Passes(Exists(categoryIds), c.value, c.rules) then [] else [missing]
    by {
      assert Checks(input, categoryIds)[1] == c;
      SometimesRequiredOne(c, CustomMessages, Exists(categoryIds));
    }
  }

  /** `description` has no custom message. */
  lemma DescriptionLookups(c: Check)
    requires c.attribute == "description" && c.pattern == "description"
    ensures MessageFor(IsString, c, CustomMessages) == DefaultMessage(IsString, "description", c.rules)
  {
    assert (c.attribute, "string") !in CustomMessages by {
      assert c.attribute[0] == 'd';
    }
  }

  /** `description`: absent, null, blank and text values pass; any other value
      gets the string message. */
  lemma DescriptionMessages(input: Input, categoryIds: set<int>)
    ensures FieldMessages(input, categoryIds, 2) ==
      if "description" !in input || input["description"] == Null || input["description"].Str? then []
      else [DefaultMessage(IsString, "description", DescriptionRules)]
  {
    var c := FieldCheck(input, "description", DescriptionRules);
    assert Checks(input, categoryIds)[2] == c;
    NullableOne(c, CustomMessages, IsString);
    DescriptionLookups(c);
  }

  /** Under a numeric rule, the size `min:0` compares is negative exactly for
      a negative number. */
  lemma NumericSizeNegative(v: Value)
    ensures Size(v, true) < 0.0 <==> NumericOf(v).Some? && NumericOf(v).value < 0.0
  {
  }

  /** Which message each of `price`'s rules reports. */
  lemma PriceLookups(c: Check)
    requires c.attribute == "price" && c.pattern == "price"
    ensures MessageFor(Required, c, CustomMessages) == "Price is required"
    ensures MessageFor(Numeric, c, CustomMessages) == "Price must be a number"
    ensures MessageFor(Min(0), c, CustomMessages) == DefaultMessage(Min(0), "price", c.rules)
  {
    assert c.attribute[0] == 'p';
  }

  /** `price`: nothing when absent; only "Price is required" when null or
      blank; otherwise "Price must be a number" if it is not numeric and the
      minimum message if it is a negative number. */
  lemma PriceMessages(input: Input, categoryIds: set<int>)
    ensures FieldMessages(input, categoryIds, 3) ==
      if "price" !in input then []
      else if !Filled(input["price"]) then ["Price is required"]
      else (if NumericOf(input["price"]).Some? then [] else ["Price must be a number"]) +
           (if NumericOf(input["price"]).Some? && NumericOf(input["price"]).value < 0.0
            then [DefaultMessage(Min(0), "price", PriceRules)] else [])
  {
    assert HasNumericRule(PriceRules) by {
      assert PriceRules[2] == Numeric;
    }
    var c := FieldCheck(input, "price", PriceRules);
    assert Checks(input, categoryIds)[3] == c;
    SometimesRequiredTwo(c, CustomMessages, Numeric, Min(0));
    PriceLookups(c);
    NumericSizeNegative(c.value);
  }

  /** Which message each of `stock`'s rules reports. */
  lemma StockLookups(c: Check)
    requires c.attribute == "stock" && c.pattern == "stock"
    ensures MessageFor(Required, c, CustomMessages) == "Stock is required"
    ensures MessageFor(Integer, c, CustomMessages) == "Stock must be an integer"
    ensures MessageFor(Min(0), c, CustomMessages) == DefaultMessage(Min(0), "stock", c.rules)
  {
    assert c.attribute[0] == 's';
  }

  /** `stock`: nothing when absent; only "Stock is required" when null or
      blank; otherwise "Stock must be an integer" if it is not an integer and
      the minimum message if it is a negative number. */
  lemma StockMessages(input: Input, categoryIds: set<int>)
    ensures FieldMessages(input, categoryIds, 4) ==
      if "stock" !in input then []
      else if !Filled(input["stock"]) then ["Stock is required"]
      else (if IntegerOf(input["stock"]).Some? then [] else ["Stock must be an integer"]) +
           (if NumericOf(input["stock"]).Some? && NumericOf(input["stock"]).value < 0.0
            then [DefaultMessage(Min(0), "stock", StockRules)] else [])
  {
    assert HasNumericRule(StockRules) by {
      assert StockRules[2] == Integer;
    }
    var c := FieldCheck(input, "stock", StockRules);
    assert Checks(input, categoryIds)[4] == c;
    SometimesRequiredTwo(c, CustomMessages, Integer, Min(0));
    StockLookups(c);
    NumericSizeNegative(c.value);
  }

  /** `enabled` has no custom message. */
  lemma EnabledLookups(c: Check)
    requires c.attribute == "enabled" && c.pattern == "enabled"
    ensures MessageFor(Boolean, c, CustomMessages) == DefaultMessage(Boolean, "enabled", c.rules)
  {
    assert c.attribute[0] == 'e';
  }

  /** `enabled`: absent or blank passes; otherwise it must be one of true,
      false, 0, 1, "0" or "1". */
  lemma EnabledMessages(input: Input, categoryIds: set<int>)
    ensures FieldMessages(input, categoryIds, 5) ==
      if "enabled" !in input || (input["enabled"].Str? && IsBlank(input["enabled"].s))
         || IsBooleanLike(input["enabled"]) then []
      else [DefaultMessage(Boolean, "enabled", EnabledRules)]
  {
    var c := FieldCheck(input, "enabled", EnabledRules);
    assert Checks(input, categoryIds)[5] == c;
    EnabledLookups(c);
  }

  /** What a field without messages holds. */
  lemma NamePasses(input: Input, categoryIds: set<int>)
    requires FieldMessages(input, categoryIds, 0) == []
    ensures "name" in input ==> input["name"].Str? && |input["name"].s| <= 255
  {
    NameMessages(input, categoryIds);
  }

  lemma CategoryPasses(input: Input, categoryIds: set<int>)
    requires FieldMessages(input, categoryIds, 1) == []
    ensures "category_id" in input ==>
              IntegerOf(input["category_id"]).Some? && IntegerOf(input["category_id"]).value in categoryIds
  {
    CategoryMessages(input, categoryIds);
  }

  lemma DescriptionPasses(input: Input, categoryIds: set<int>)
    requires FieldMessages(input, categoryIds, 2) == []
    ensures "description" in input ==> input["description"] == Null || input["description"].Str?
  {
    DescriptionMessages(input, categoryIds);
  }

  lemma PricePasses(input: Input, categoryIds: set<int>)
    requires FieldMessages(input, categoryIds, 3) == []
    ensures "price" in input ==> NumericOf(input["price"]).Some? && NumericOf(input["price"]).value >= 0.0
  {
    PriceMessages(input, categoryIds);
  }

  lemma StockPasses(input: Input, categoryIds: set<int>)
    requires FieldMessages(input, categoryIds, 4) == []
    ensures "stock" in input ==> IntegerOf(input["stock"]).Some? && IntegerOf(input["stock"]).value >= 0
  {
    StockMessages(input, categoryIds);
    if "stock" in input {
      IntegerIsNumeric(input["stock"]);
    }
  }

  /** A passed update changes exactly the fields the request sent, each to
      the sent value as the column stores it, and what it stores obeys the
      rules: a name of at most 255 characters, an existing category, a
      non-negative price and a non-negative whole stock. */
  lemma PassedChanges(input: Input, categoryIds: set<int>)
    requires Validate(input, categoryIds).Passed?
    ensures var ch := Products.ChangesOf(Validate(input, categoryIds).validated);
      && (ch.name.Some? <==> "name" in input)
      && (ch.name.Some? ==> input["name"] == Str(ch.name.value) && |ch.name.value| <= 255)
      && (ch.categoryId.Some? <==> "category_id" in input)
      && (ch.categoryId.Some? ==>
            IntegerOf(input["category_id"]) == Some(ch.categoryId.value) && ch.categoryId.value in categoryIds)
      && (ch.description.Some? <==> "description" in input)
      && (ch.description.Some? ==>
            ch.description.value == if input["description"] == Null then None else Some(input["description"].s))
      && (ch.price.Some? <==> "price" in input)
      && (ch.price.Some? ==> NumericOf(input["price"]) == Some(ch.price.value) && ch.price.value >= 0.0)
      && (ch.stock.Some? <==> "stock" in input)
      && (ch.stock.Some? ==> IntegerOf(input["stock"]) == Some(ch.stock.value) && ch.stock.value >= 0)
      && (ch.enabled.Some? <==> "enabled" in input)
      && (ch.enabled.Some? ==> ch.enabled.value == BoolCast(input["enabled"]))
  {
    ValidateIff(input, categoryIds);
    NamePasses(input, categoryIds);
    CategoryPasses(input, categoryIds);
    DescriptionPasses(input, categoryIds);
    PricePasses(input, categoryIds);
    StockPasses(input, categoryIds);
    var d := Validate(input, categoryIds).validated;
    assert d == ValidatedFields(input, Fields);
  }

  /** A whole float is an integer stock: `{"stock": 50.0}` passes and stores 50. */
  lemma WholeFloatStock(categoryIds: set<int>)
    ensures FieldMessages(map["stock" := Num(50.0)], categoryIds, 4) == []
    ensures Products.ChangesOf(map["stock" := Num(50.0)]).stock == Some(50)
  {
    StockMessages(map["stock" := Num(50.0)], categoryIds);
  }

  /** Every field may be left out: an absent field collects no message. */
  lemma AbsentFieldPasses(input: Input, categoryIds: set<int>, i: nat)
    requires i < 6 && FieldName(i) !in input
    ensures FieldMessages(input, categoryIds, i) == []
  {
    if i == 0 {
      NameMessages(input, categoryIds);
    } else if i == 1 {
      CategoryMessages(input, categoryIds);
    } else if i == 2 {
      DescriptionMessages(input, categoryIds);
    } else if i == 3 {
      PriceMessages(input, categoryIds);
    } else if i == 4 {
      StockMessages(input, categoryIds);
    } else {
      EnabledMessages(input, categoryIds);
    }
  }

  /** An empty update passes and changes nothing. */
  lemma EmptyUpdatePasses(categoryIds: set<int>)
    ensures Validate(map[], categoryIds) == Passed(map[])
    ensures Products.ChangesOf(map[]) == Products.NoChanges
  {
    forall i | 0 <= i < 6 ensures FieldMessages(map[], categoryIds, i) == [] {
      AbsentFieldPasses(map[], categoryIds, i);
    }
    ValidateIff(map[], categoryIds);
    assert ValidatedFields(map[], Fields) == map[];
  }

  /** The name-and-price payload of the update feature test. */
  function NameAndPrice(name: string, price: real): (input: Input)
    ensures input.Keys == {"name", "price"}
    ensures input["name"] == Str(name) && input["price"] == Num(price)
  {
    map["name" := Str(name), "price" := Num(price)]
  }

  /** Neither `name` nor `category_id` nor `description` objects to it. */
  lemma NameAndPriceFirstFields(categoryIds: set<int>, name: string, price: real)
    requires |name| <= 255 && !IsBlank(name)
    ensures FieldMessages(NameAndPrice(name, price), categoryIds, 0) == []
    ensures FieldMessages(NameAndPrice(name, price), categoryIds, 1) == []
    ensures FieldMessages(NameAndPrice(name, price), categoryIds, 2) == []
  {
    var input := NameAndPrice(name, price);
    NameMessages(input, categoryIds);
    AbsentFieldPasses(input, categoryIds, 1);
    AbsentFieldPasses(input, categoryIds, 2);
  }

  /** Neither `price` nor `stock` nor `enabled` objects to it. */
  lemma NameAndPriceLastFields(categoryIds: set<int>, name: string, price: real)
    requires price >= 0.0
    ensures FieldMessages(NameAndPrice(name, price), categoryIds, 3) == []
    ensures FieldMessages(NameAndPrice(name, price), categoryIds, 4) == []
    ensures FieldMessages(NameAndPrice(name, price), categoryIds, 5) == []
  {
    var input := NameAndPrice(name, price);
    PriceMessages(input, categoryIds);
    AbsentFieldPasses(input, categoryIds, 4);
    AbsentFieldPasses(input, categoryIds, 5);
  }

  /** A partial update of name and price passes with exactly those two fields. */
  lemma NameAndPricePass(categoryIds: set<int>, name: string, price: real)
    requires |name| <= 255 && !IsBlank(name) && price >= 0.0
    ensures Validate(NameAndPrice(name, price), categoryIds) == Passed(NameAndPrice(name, price))
  {
    var input := NameAndPrice(name, price);
    NameAndPriceFirstFields(categoryIds, name, price);
    NameAndPriceLastFields(categoryIds, name, price);
    assert forall i :: 0 <= i < 6 ==> FieldMessages(input, categoryIds, i) == [] by {
      forall i | 0 <= i < 6 ensures FieldMessages(input, categoryIds, i) == [] {
        assert i == 0 || i == 1 || i == 2 || i == 3 || i == 4 || i == 5;
      }
    }
    ValidateIff(input, categoryIds);
    assert ValidatedFields(input, Fields) == input;
  }

  /** Those two validated fields change the name and the price and nothing else. */
  lemma NameAndPriceChanges(name: string, price: real)
    ensures Products.ChangesOf(NameAndPrice(name, price)) ==
            Products.NoChanges.(name := Some(name), price := Some(price))
  {
    var input := NameAndPrice(name, price);
    assert "category_id" !in input && "description" !in input && "stock" !in input && "enabled" !in input;
  }
}
