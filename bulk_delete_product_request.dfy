/** The bulk-delete form request: `ids` must be a non-empty array whose every
    item is an integer naming a product row. */
module BulkDeleteProductRequest {
  import opened Text
  import opened Values
  import opened Validation

  /** `authorize()`: every request may bulk-delete. */
  function Authorize(): (ok: bool)
    ensures ok
  {
    true
  }

  /** `required|array|min:1` */
  const IdsRules: seq<Rule> := [Required, IsArray, Min(1)]
  /** `required|integer|exists:products,id`, against every row's id. */
  function ItemRules(productIds: set<int>): seq<Rule> {
    [Required, Integer, Exists(productIds)]
  }

  /** `messages()` */
  const CustomMessages: Messages := map[
    ("ids", "required") := "No products selected for deletion",
    ("ids", "array") := "Invalid data format",
    ("ids", "min") := "At least one product must be selected",
    ("ids.*", "exists") := "One or more selected products do not exist"
  ]

  /** The name of item `k` of `ids`, as the `ids.*` rule expands it. */
  function ItemName(k: nat): (a: string)
    ensures |a| >= 5 && a[..4] == "ids." && IsDigit(a[4])
    ensures AllDigits(a[4..]) && DigitsValue(a[4..]) == k && (|a| == 5 || a[4] != '0')
  {
    NatToStringRoundTrip(k);
    var a := "ids." + NatToString(k);
    assert a[4..] == NatToString(k);
    a
  }

  /** Item names are distinct from each other and from `ids` itself. */
  lemma ItemNameInjective(j: nat, k: nat)
    ensures ItemName(j) != "ids"
    ensures ItemName(j) != "ids.*"
    ensures ItemName(j) == ItemName(k) ==> j == k
  {
    if ItemName(j) == ItemName(k) {
      assert NatToString(j) == ItemName(j)[4..] == ItemName(k)[4..] == NatToString(k);
      NatToStringRoundTrip(j);
      NatToStringRoundTrip(k);
    }
    assert ItemName(j)[4] != "ids.*"[4];
  }

  /** One check per item of an array-valued `ids`; none otherwise. */
  function ItemChecks(input: Input, productIds: set<int>): (cs: seq<Check>)
    ensures ("ids" !in input || !input["ids"].Arr?) ==> cs == []
    ensures "ids" in input && input["ids"].Arr? ==>
              |cs| == |input["ids"].items| &&
              forall k :: 0 <= k < |cs| ==>
                cs[k] == Check(ItemName(k), "ids.*", ItemRules(productIds), true, input["ids"].items[k])
  {
    if "ids" in input && input["ids"].Arr? then
      var items := input["ids"].items;
      seq(|items|, k requires 0 <= k < |items| => Check(ItemName(k), "ids.*", ItemRules(productIds), true, items[k]))
    else []
  }

  function Checks(input: Input, productIds: set<int>): seq<Check> {
    [FieldCheck(input, "ids", IdsRules)] + ItemChecks(input, productIds)
  }

  /** Validation of a bulk-delete request. On success, the validated data
      holds `ids` as sent and nothing else; on failure, a non-empty bag whose
      every entry has at least one message. */
  function Validate(input: Input, productIds: set<int>): (o: Outcome)
    ensures o.Passed? ==> o.validated.Keys == input.Keys * {"ids"}
    ensures o.Passed? ==> forall k :: k in o.validated ==> o.validated[k] == input[k]
    ensures o.Failed? ==> o.errors != map[] && forall a :: a in o.errors ==> o.errors[a] != []
  {
    var e := ErrorsOf(Checks(input, productIds), CustomMessages);
    if e == map[] then Passed(ValidatedFields(input, {"ids"})) else Failed(e)
  }

  /** Which message each of `ids`'s rules reports. */
  lemma IdsLookups(c: Check)
    requires c.attribute == "ids" && c.pattern == "ids"
    ensures MessageFor(Required, c, CustomMessages) == "No products selected for deletion"
    ensures MessageFor(IsArray, c, CustomMessages) == "Invalid data format"
    ensures MessageFor(Min(1), c, CustomMessages) == "At least one product must be selected"
  {
  }

  /** `ids`: "No products selected for deletion" alone when it is absent, null,
      blank or an empty array; otherwise "Invalid data format" unless it is an
      array, and the minimum message when its size is below one. */
  lemma IdsMessages(input: Input, productIds: set<int>)
    ensures AttributeMessages(Checks(input, productIds)[0], CustomMessages) ==
      if "ids" !in input || !Filled(input["ids"]) then ["No products selected for deletion"]
      else (if input["ids"].Arr? then [] else ["Invalid data format"]) +
           (if Size(input["ids"], false) >= 1.0 then [] else ["At least one product must be selected"])
  {
    var c := FieldCheck(input, "ids", IdsRules);
    assert Checks(input, productIds)[0] == c;
    RequiredTwo(c, CustomMessages, IsArray, Min(1));
    IdsLookups(c);
    assert !HasNumericRule(IdsRules);
  }

  /** `ids` collects no message exactly when it is a non-empty array. */
  lemma IdsPassIff(input: Input, productIds: set<int>)
    ensures AttributeMessages(Checks(input, productIds)[0], CustomMessages) == [] <==>
            "ids" in input && input["ids"].Arr? && |input["ids"].items| >= 1
  {
    IdsMessages(input, productIds);
    if "ids" in input && Filled(input["ids"]) {
      IdsSize(input["ids"]);
    }
  }

  /** Of the filled values, only `false` is smaller than one, so a filled
      array passes both `array` and `min:1`. */
  lemma IdsSize(v: Value)
    requires Filled(v)
    ensures Size(v, false) < 1.0 <==> v == Bool(false)
  {
  }

  /** `false` is a filled value that is neither an array nor of size one, so
      it collects both of those messages. */
  lemma IdsFalse()
    ensures AttributeMessages(Checks(map["ids" := Bool(false)], {})[0], CustomMessages) ==
            ["Invalid data format", "At least one product must be selected"]
  {
    IdsMessages(map["ids" := Bool(false)], {});
  }

  /** Which message each of an item's rules reports: only `exists` has a
      custom message, written for the `ids.*` pattern. */
  lemma ItemLookups(c: Check, k: nat, productIds: set<int>)
    requires c.attribute == ItemName(k) && c.pattern == "ids.*"
    ensures MessageFor(Required, c, CustomMessages) == DefaultMessage(Required, ItemName(k), c.rules)
    ensures MessageFor(Integer, c, CustomMessages) == DefaultMessage(Integer, ItemName(k), c.rules)
    ensures MessageFor(Exists(productIds), c, CustomMessages) == "One or more selected products do not exist"
  {
    ItemNameInjective(k, k);
  }

  /** Item `k`: the required message when null or blank; the integer message
      when filled but not an integer; otherwise "One or more selected products
      do not exist" unless a row has that id. */
  lemma ItemMessages(input: Input, productIds: set<int>, k: nat)
    requires "ids" in input && input["ids"].Arr? && k < |input["ids"].items|
    ensures var v := input["ids"].items[k];
      AttributeMessages(ItemChecks(input, productIds)[k], CustomMessages) ==
      if !Filled(v) then [DefaultMessage(Required, ItemName(k), ItemRules(productIds))]
      else if IntegerOf(v).None? then [DefaultMessage(Integer, ItemName(k), ItemRules(productIds))]
      else if IntegerOf(v).value in productIds then []
      else ["One or more selected products do not exist"]
  {
    var c := ItemChecks(input, productIds)[k];
    RequiredThenExists(c, CustomMessages, Integer, productIds);
    ItemLookups(c, k, productIds);
  }

  /** Every check validates a different attribute. */
  lemma ChecksDistinct(input: Input, productIds: set<int>)
    ensures DistinctAttributes(Checks(input, productIds))
  {
    var cs := Checks(input, productIds);
    forall i, j | 0 <= i < j < |cs| ensures cs[i].attribute != cs[j].attribute {
      CheckAttribute(input, productIds, i);
      CheckAttribute(input, productIds, j);
      ItemNameInjective(j - 1, if i == 0 then j - 1 else i - 1);
    }
  }

  /** Check 0 validates `ids`, and check `i + 1` validates item `i`. */
  lemma CheckAttribute(input: Input, productIds: set<int>, i: nat)
    requires i < |Checks(input, productIds)|
    ensures Checks(input, productIds)[i].attribute == if i == 0 then "ids" else ItemName(i - 1)
  {
    if i > 0 {
      assert Checks(input, productIds)[i] == ItemChecks(input, productIds)[i - 1];
    }
  }

  /** The ids a request denotes: every item's integer. */
  ghost predicate AllItemsExist(items: seq<Value>, productIds: set<int>) {
    forall k :: 0 <= k < |items| ==> IntegerOf(items[k]).Some? && IntegerOf(items[k]).value in productIds
  }

  /** The items collect no message exactly when all of them name rows. */
  lemma ItemsPassIff(input: Input, productIds: set<int>)
    requires "ids" in input && input["ids"].Arr?
    ensures (forall k :: 0 <= k < |input["ids"].items| ==>
               AttributeMessages(ItemChecks(input, productIds)[k], CustomMessages) == []) <==>
            AllItemsExist(input["ids"].items, productIds)
  {
    var items := input["ids"].items;
    forall k | 0 <= k < |items|
      ensures AttributeMessages(ItemChecks(input, productIds)[k], CustomMessages) == [] <==>
              IntegerOf(items[k]).Some? && IntegerOf(items[k]).value in productIds
    {
      ItemMessages(input, productIds, k);
      if !Filled(items[k]) {
        UnfilledIsNotInteger(items[k]);
      }
    }
  }

  /** No check collects a message exactly when `ids` collects none and, for an
      array, none of its items does. */
  lemma NoMessagesSplit(input: Input, productIds: set<int>)
    ensures (forall i :: 0 <= i < |Checks(input, productIds)| ==>
               AttributeMessages(Checks(input, productIds)[i], CustomMessages) == []) <==>
            AttributeMessages(Checks(input, productIds)[0], CustomMessages) == [] &&
            forall k :: 0 <= k < |ItemChecks(input, productIds)| ==>
              AttributeMessages(ItemChecks(input, productIds)[k], CustomMessages) == []
  {
    var cs := Checks(input, productIds);
    var items := ItemChecks(input, productIds);
    assert cs == [cs[0]] + items;
    forall i | 1 <= i < |cs| ensures cs[i] == items[i - 1] { }
    forall k | 0 <= k < |items| ensures items[k] == cs[k + 1] { }
  }

  /** The request passes exactly when `ids` is a non-empty array whose every
      item is an integer some row has as its id. */
  lemma ValidateIff(input: Input, productIds: set<int>)
    ensures Validate(input, productIds).Passed? <==>
            "ids" in input && input["ids"].Arr? && |input["ids"].items| >= 1 &&
            AllItemsExist(input["ids"].items, productIds)
  {
    var cs := Checks(input, productIds);
    ErrorsOfEmptyIff(cs, CustomMessages);
    NoMessagesSplit(input, productIds);
    IdsPassIff(input, productIds);
    if "ids" in input && input["ids"].Arr? {
      ItemsPassIff(input, productIds);
    }
  }

  /** The integers of the items, in order: what a passed request hands to
      `whereIn`. */
  function ItemIds(items: seq<Value>): (ids: seq<int>)
    ensures |ids| <= |items|
    ensures (forall k :: 0 <= k < |items| ==> IntegerOf(items[k]).Some?) ==>
              |ids| == |items| && forall k :: 0 <= k < |items| ==> ids[k] == IntegerOf(items[k]).value
  {
    if items == [] then []
    else (if IntegerOf(items[0]).Some? then [IntegerOf(items[0]).value] else []) + ItemIds(items[1..])
  }

  /** A passed request lists, item for item, ids that rows have. */
  lemma PassedIds(input: Input, productIds: set<int>)
    requires Validate(input, productIds).Passed?
    ensures "ids" in input && input["ids"].Arr?
    ensures var ids := ItemIds(input["ids"].items);
            |ids| == |input["ids"].items| >= 1 && forall k :: 0 <= k < |ids| ==> ids[k] in productIds
  {
    ValidateIff(input, productIds);
  }

  /** When the request fails, `ids` and each item are in the error bag exactly
      when they collected messages, under their own names. */
  lemma ValidateErrors(input: Input, productIds: set<int>)
    requires Validate(input, productIds).Failed?
    ensures var e := Validate(input, productIds).errors;
      && ("ids" in e <==> AttributeMessages(Checks(input, productIds)[0], CustomMessages) != [])
      && forall k :: 0 <= k < |ItemChecks(input, productIds)| ==>
           (ItemName(k) in e <==> AttributeMessages(ItemChecks(input, productIds)[k], CustomMessages) != [])
  {
    var cs := Checks(input, productIds);
    ChecksDistinct(input, productIds);
    ErrorsOfByAttribute(cs, CustomMessages);
    var items := ItemChecks(input, productIds);
    forall k | 0 <= k < |items| ensures items[k] == cs[k + 1] && items[k].attribute == ItemName(k) { }
  }
}
