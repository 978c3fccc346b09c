/** Request validation (api/src/lib/validation.ts): readers that take one
    property of a parsed JSON body and either return it, typed, or throw a 400
    `validation_error` naming the offending field. */
module Validation {
  import opened Common
  import opened Strings
  import opened Associations

  /** A parsed JSON value, plus JavaScript's `undefined` for a missing property.
      Numbers and booleans carry no payload: no reader looks inside them. */
  datatype Json =
    | JUndefined
    | JNull
    | JBool
    | JNumber
    | JString(s: string)
    | JArray(items: seq<Json>)
    | JObject(fields: map<string, Json>)

  /** `record[key]` */
  function Property(fields: map<string, Json>, key: string): Json {
    if key in fields then fields[key] else JUndefined
  }

  /** The one error every reader throws. */
  function Fail(field: string, message: string): Error {
    ApiError(400, "Request validation failed", "validation_error", Issue(field, message))
  }

  /** A validation error reported against the given field. */
  predicate IssueAt(e: Error, field: string) {
    e.ApiError? && e.status == 400 && e.code == "validation_error" && e.details.Issue? && e.details.field == field
  }

  /** `field[i]`, the name an array element is reported under. */
  function ItemField(field: string, i: nat): string {
    field + "[" + NatToString(i) + "]"
  }

  /** asRecord: only a (non-array) object passes. */
  function AsRecord(value: Json, field: string): (r: Result<map<string, Json>>)
    ensures r.Ok? <==> value.JObject?
    ensures r.Ok? ==> r.value == value.fields
    ensures r.Err? ==> r.error == Fail(field, "must be an object")
  {
    if value.JObject? then Ok(value.fields) else Err(Fail(field, "must be an object"))
  }

  /** The options of readString; a minLength of 0 stands for "not given". */
  datatype StringOptions = StringOptions(required: bool, allowNull: bool, minLength: nat)

  function MinLengthMessage(minLength: nat): string {
    "must be at least " + NatToString(minLength) + " characters"
  }

  /** readString: `undefined` is Absent, `null` is Null, a string is Present. */
  function ReadString(value: Json, field: string, options: StringOptions): (r: Result<Field<string>>)
    ensures value.JUndefined? ==>
      r == (if options.required then Err(Fail(field, "is required")) else Ok(Absent))
    ensures value.JNull? ==>
      r == (if options.allowNull then Ok(Null) else Err(Fail(field, "must be a string")))
    ensures value.JString? ==>
      r == (if |value.s| < options.minLength then Err(Fail(field, MinLengthMessage(options.minLength)))
            else Ok(Present(value.s)))
    ensures !(value.JUndefined? || value.JNull? || value.JString?) ==> r == Err(Fail(field, "must be a string"))
  {
    match value
    case JUndefined => if options.required then Err(Fail(field, "is required")) else Ok(Absent)
    case JNull => if options.allowNull then Ok(Null) else Err(Fail(field, "must be a string"))
    case JString(s) =>
      if |s| < options.minLength then Err(Fail(field, MinLengthMessage(options.minLength)))
      else Ok(Present(s))
    case _ => Err(Fail(field, "must be a string"))
  }

  /** A value readString accepts, and what it makes of it. */
  lemma ReadStringAccepts(value: Json, field: string, options: StringOptions)
    ensures ReadString(value, field, options).Ok? <==>
      || (value.JUndefined? && !options.required)
      || (value.JNull? && options.allowNull)
      || (value.JString? && |value.s| >= options.minLength)
    ensures ReadString(value, field, options).Ok? ==>
      ReadString(value, field, options).value.Over(None) == (if value.JString? then Some(value.s) else None)
    ensures ReadString(value, field, options).Err? ==> IssueAt(ReadString(value, field, options).error, field)
  {
  }

  // ---------------------------------------------------------------------
  // Arrays: the elements are read in order and the first failure is thrown.
  // ---------------------------------------------------------------------

  /** Reads items[i..] with `read`, which is told each element's index. */
  function ReadFrom<T>(items: seq<Json>, read: (nat, Json) -> Result<T>, i: nat): Result<seq<T>>
    requires i <= |items|
    decreases |items| - i
  {
    if i == |items| then Ok([])
    else
      var head :- read(i, items[i]);
      var rest :- ReadFrom(items, read, i + 1);
      Ok([head] + rest)
  }

  /** Reading succeeds exactly when every element reads; the output is then the
      elements' readings in order, and a failure is the first failing element's. */
  lemma {:induction false} ReadFromSpec<T>(items: seq<Json>, read: (nat, Json) -> Result<T>, i: nat)
    requires i <= |items|
    ensures var r := ReadFrom(items, read, i);
      && (r.Ok? <==> forall k :: i <= k < |items| ==> read(k, items[k]).Ok?)
      && (r.Ok? ==> |r.value| == |items| - i && forall k :: i <= k < |items| ==> r.value[k - i] == read(k, items[k]).value)
      && (r.Err? ==> exists k :: i <= k < |items| && read(k, items[k]).Err? && r.error == read(k, items[k]).error
                                && forall j :: i <= j < k ==> read(j, items[j]).Ok?)
    decreases |items| - i
  {
    if i < |items| && read(i, items[i]).Ok? {
      ReadFromSpec(items, read, i + 1);
      var r := ReadFrom(items, read, i + 1);
      if r.Ok? {
        var out := [read(i, items[i]).value] + r.value;
        assert forall k :: 1 <= k < |out| ==> out[k] == r.value[k - 1];
      } else {
        var k :| i + 1 <= k < |items| && read(k, items[k]).Err? && r.error == read(k, items[k]).error
                                     && forall j :: i + 1 <= j < k ==> read(j, items[j]).Ok?;
        assert forall j :: i <= j < k ==> read(j, items[j]).Ok?;
      }
    }
  }

  /** One element of a string array. */
  function ReadArrayItem(item: Json, field: string, minLength: nat): (r: Result<string>)
    ensures r.Ok? <==> item.JString? && |item.s| >= minLength
    ensures r.Ok? ==> r.value == item.s
  {
    if !item.JString? then Err(Fail(field, "must be a string"))
    else if |item.s| < minLength then Err(Fail(field, MinLengthMessage(minLength)))
    else Ok(item.s)
  }

  /** The element reader of readStringArray, reporting under `field[i]`. */
  function ArrayItemReader(field: string, minLength: nat): (nat, Json) -> Result<string> {
    (k: nat, item: Json) => ReadArrayItem(item, ItemField(field, k), minLength)
  }

  /** readStringArray */
  function ReadStringArray(value: Json, field: string, allowNull: bool, minLength: nat): Result<Field<seq<string>>> {
    match value
    case JUndefined => Ok(Absent)
    case JNull => if allowNull then Ok(Null) else Err(Fail(field, "must be an array"))
    case JArray(items) =>
      var strings :- ReadFrom(items, ArrayItemReader(field, minLength), 0);
      Ok(Present(strings))
    case _ => Err(Fail(field, "must be an array"))
  }

  /** An array is accepted exactly when every element is a string of at least
      minLength characters, and then it comes back element for element; a
      rejected element is reported under `field[i]` for the first bad i. */
  lemma ReadStringArraySpec(items: seq<Json>, field: string, allowNull: bool, minLength: nat)
    ensures var r := ReadStringArray(JArray(items), field, allowNull, minLength);
      && (r.Ok? <==> forall k :: 0 <= k < |items| ==> items[k].JString? && |items[k].s| >= minLength)
      && (r.Ok? ==> r.value.Present? && |r.value.value| == |items|
                    && forall k :: 0 <= k < |items| ==> r.value.value[k] == items[k].s)
      && (r.Err? ==> exists k :: 0 <= k < |items| && IssueAt(r.error, ItemField(field, k))
                                && !(items[k].JString? && |items[k].s| >= minLength))
  {
    var read := ArrayItemReader(field, minLength);
    ReadFromSpec(items, read, 0);
    assert forall k :: 0 <= k < |items| ==> read(k, items[k]) == ReadArrayItem(items[k], ItemField(field, k), minLength);
  }

  /** The non-array cases of readStringArray. */
  lemma ReadStringArrayOther(value: Json, field: string, allowNull: bool, minLength: nat)
    requires !value.JArray?
    ensures var r := ReadStringArray(value, field, allowNull, minLength);
      && (r.Ok? <==> value.JUndefined? || (value.JNull? && allowNull))
      && (r.Ok? ==> r.value == (if value.JUndefined? then Absent else Null))
      && (r.Err? ==> r.error == Fail(field, "must be an array"))
  {
  }

  // ---------------------------------------------------------------------
  // Ingredients.
  // ---------------------------------------------------------------------

  /** One element of an ingredient array: an object with a non-empty name and an
      optional non-empty quantity; a missing or null quantity becomes null. */
  function ReadIngredient(item: Json, field: string, index: nat): (r: Result<Item>)
  {
    var at := ItemField(field, index);
    if !item.JObject? then Err(Fail(at, "must be an object"))
    else
      var name :- ReadString(Property(item.fields, "name"), at + ".name", StringOptions(true, false, 1));
      var quantity :- ReadString(Property(item.fields, "quantity"), at + ".quantity", StringOptions(false, true, 1));
      Ok(Item(name.value, quantity.Over(None)))
  }

  predicate QuantityAccepted(q: Json) {
    q.JUndefined? || q.JNull? || (q.JString? && q.s != "")
  }

  /** An ingredient element is accepted exactly when it is an object whose name
      is a non-empty string and whose quantity is missing, null or a non-empty
      string; the item keeps that name and quantity. */
  lemma ReadIngredientSpec(item: Json, field: string, index: nat)
    ensures var r := ReadIngredient(item, field, index);
      && (r.Ok? <==> item.JObject? && Property(item.fields, "name").JString? && Property(item.fields, "name").s != ""
                     && QuantityAccepted(Property(item.fields, "quantity")))
      && (r.Ok? ==> r.value.name == Property(item.fields, "name").s)
      && (r.Ok? ==> (r.value.quantity.Some? <==> Property(item.fields, "quantity").JString?))
      && (r.Ok? && r.value.quantity.Some? ==> r.value.quantity.value == Property(item.fields, "quantity").s)
  {
  }

  function IngredientReader(field: string): (nat, Json) -> Result<Item> {
    (k: nat, item: Json) => ReadIngredient(item, field, k)
  }

  /** readIngredients */
  function ReadIngredients(value: Json, field: string): Result<Field<seq<Item>>> {
    match value
    case JUndefined => Ok(Absent)
    case JNull => Ok(Null)
    case JArray(items) =>
      var read :- ReadFrom(items, IngredientReader(field), 0);
      Ok(Present(read))
    case _ => Err(Fail(field, "must be an array"))
  }

  /** An ingredient array is accepted exactly when every element is, and then
      reads element for element. */
  lemma ReadIngredientsSpec(items: seq<Json>, field: string)
    ensures var r := ReadIngredients(JArray(items), field);
      && (r.Ok? <==> forall k :: 0 <= k < |items| ==> ReadIngredient(items[k], field, k).Ok?)
      && (r.Ok? ==> r.value.Present? && |r.value.value| == |items|
                    && forall k :: 0 <= k < |items| ==> r.value.value[k] == ReadIngredient(items[k], field, k).value)
  {
    var read := IngredientReader(field);
    ReadFromSpec(items, read, 0);
    assert forall k :: 0 <= k < |items| ==> read(k, items[k]) == ReadIngredient(items[k], field, k);
  }

  // ---------------------------------------------------------------------
  // UUIDs and e-mail addresses: a string reading plus a shape check.
  // ---------------------------------------------------------------------

  predicate AllHex(s: string) {
    forall i :: 0 <= i < |s| ==> IsHexDigit(s[i])
  }

  /** What the UUID pattern demands at position i (letters in either case):
      dashes at 8, 13, 18 and 23, the version digit 1-5 at 14, the variant
      digit 8, 9, a or b at 19, hex digits elsewhere. */
  predicate UuidCharAt(i: int, c: char) {
    if i == 8 || i == 13 || i == 18 || i == 23 then c == '-'
    else if i == 14 then '1' <= c <= '5'
    else if i == 19 then c in "89abAB"
    else IsHexDigit(c)
  }

  predicate IsUuid(s: string) {
    |s| == 36 && forall i :: 0 <= i < 36 ==> UuidCharAt(i, s[i])
  }

  /** The five dash-separated groups of a UUID and what each must hold. */
  predicate UuidGroups(a: string, b: string, c: string, d: string, e: string) {
    && |a| == 8 && |b| == 4 && |c| == 4 && |d| == 4 && |e| == 12
    && AllHex(a) && AllHex(b) && AllHex(c) && AllHex(d) && AllHex(e)
    && '1' <= c[0] <= '5'
    && d[0] in "89abAB"
  }

  function Dashed(a: string, b: string, c: string, d: string, e: string): string {
    a + "-" + b + "-" + c + "-" + d + "-" + e
  }

  /** Groups of the right lengths form a UUID exactly when each group meets its
      constraint. */
  lemma UuidOfGroups(a: string, b: string, c: string, d: string, e: string)
    requires |a| == 8 && |b| == 4 && |c| == 4 && |d| == 4 && |e| == 12
    ensures IsUuid(Dashed(a, b, c, d, e)) <==> UuidGroups(a, b, c, d, e)
  {
    var s := Dashed(a, b, c, d, e);
    assert forall i :: 0 <= i < 8 ==> s[i] == a[i];
    assert forall i :: 0 <= i < 4 ==> s[9 + i] == b[i];
    assert forall i :: 0 <= i < 4 ==> s[14 + i] == c[i];
    assert forall i :: 0 <= i < 4 ==> s[19 + i] == d[i];
    assert forall i :: 0 <= i < 12 ==> s[24 + i] == e[i];
    assert s[8] == '-' && s[13] == '-' && s[18] == '-' && s[23] == '-';
    if UuidGroups(a, b, c, d, e) {
      forall i | 0 <= i < 36 ensures UuidCharAt(i, s[i]) {
        if i < 8 { assert IsHexDigit(a[i]); }
        else if 9 <= i < 13 { assert IsHexDigit(b[i - 9]); }
        else if 14 <= i < 18 { assert IsHexDigit(c[i - 14]); }
        else if 19 <= i < 23 { assert IsHexDigit(d[i - 19]); }
        else if 24 <= i { assert IsHexDigit(e[i - 24]); }
      }
    }
    if IsUuid(s) {
      forall i | 0 <= i < 8 ensures IsHexDigit(a[i]) { assert UuidCharAt(i, s[i]); }
      forall i | 0 <= i < 4 ensures IsHexDigit(b[i]) { assert UuidCharAt(9 + i, s[9 + i]); }
      forall i | 0 <= i < 4 ensures IsHexDigit(c[i]) { assert UuidCharAt(14 + i, s[14 + i]); }
      forall i | 0 <= i < 4 ensures IsHexDigit(d[i]) { assert UuidCharAt(19 + i, s[19 + i]); }
      forall i | 0 <= i < 12 ensures IsHexDigit(e[i]) { assert UuidCharAt(24 + i, s[24 + i]); }
      assert UuidCharAt(14, s[14]) && UuidCharAt(19, s[19]);
    }
  }

  /** Every UUID is its five groups joined by dashes. */
  lemma UuidSplits(s: string)
    requires IsUuid(s)
    ensures s == Dashed(s[..8], s[9..13], s[14..18], s[19..23], s[24..])
  {
    assert s[8] == '-' && s[13] == '-' && s[18] == '-' && s[23] == '-' by {
      assert UuidCharAt(8, s[8]) && UuidCharAt(13, s[13]) && UuidCharAt(18, s[18]) && UuidCharAt(23, s[23]);
    }
    assert s == s[..8] + [s[8]] + s[9..13] + [s[13]] + s[14..18] + [s[18]] + s[19..23] + [s[23]] + s[24..];
  }

  /** readUuid */
  function ReadUuid(value: Json, field: string, allowNull: bool): (r: Result<Field<string>>)
    ensures r.Ok? && r.value.Present? ==> IsUuid(r.value.value)
    ensures value.JString? ==> (r.Ok? <==> IsUuid(value.s))
    ensures value.JString? && r.Ok? ==> r.value == Present(value.s)
    ensures !value.JString? ==> r == ReadString(value, field, StringOptions(false, allowNull, 0))
  {
    var raw :- ReadString(value, field, StringOptions(false, allowNull, 0));
    if raw.Present? && !IsUuid(raw.value) then Err(Fail(field, "must be a valid UUID")) else Ok(raw)
  }

  predicate NoSpaceOrAt(s: string) {
    forall i :: 0 <= i < |s| ==> !IsSpace(s[i]) && s[i] != '@'
  }

  /** A dot with at least one character on each side. */
  predicate InnerDot(domain: string) {
    exists j :: 0 < j < |domain| - 1 && domain[j] == '.'
  }

  /** The e-mail pattern: split at the first '@', check both sides. */
  predicate IsEmail(s: string) {
    var at := IndexOf(s, '@');
    && at > 0
    && NoSpaceOrAt(s[..at])
    && NoSpaceOrAt(s[at + 1..])
    && |s| - (at + 1) >= 3
    && '.' in s[at + 2..|s| - 1]
  }

  /** A local part and a domain form an address exactly when the local part is
      non-empty and both are free of white space and '@', and the domain has a
      dot with a character on each side. */
  lemma EmailOfParts(local: string, domain: string)
    ensures IsEmail(local + "@" + domain) <==>
      local != "" && NoSpaceOrAt(local) && NoSpaceOrAt(domain) && InnerDot(domain)
  {
    var s := local + "@" + domain;
    var at := IndexOf(s, '@');
    if NoSpaceOrAt(local) {
      assert '@' !in local;
      IndexOfAfter(local, '@', domain);
      assert at == |local|;
      assert s[..at] == local && s[at + 1..] == domain;
      DotInside(domain);
    } else if at >= 0 {
      assert s[|local|] == '@';
      assert at <= |local|;
      if at < |local| {
        assert s[at] == local[at];
        assert s[|local|] == '@';
        assert !NoSpaceOrAt(s[at + 1..]) by {
          assert s[at + 1..][|local| - at - 1] == '@';
        }
      } else {
        assert s[..at] == local;
      }
    }
  }

  lemma DotInside(domain: string)
    ensures |domain| >= 3 && '.' in domain[1..|domain| - 1] <==> InnerDot(domain)
  {
    if InnerDot(domain) {
      var j :| 0 < j < |domain| - 1 && domain[j] == '.';
      assert domain[1..|domain| - 1][j - 1] == '.';
    }
    if |domain| >= 3 && '.' in domain[1..|domain| - 1] {
      var k :| 0 <= k < |domain| - 2 && domain[1..|domain| - 1][k] == '.';
      assert domain[k + 1] == '.';
    }
  }

  /** readEmail */
  function ReadEmail(value: Json, field: string, allowNull: bool): (r: Result<Field<string>>)
    ensures r.Ok? && r.value.Present? ==> IsEmail(r.value.value)
    ensures value.JString? ==> (r.Ok? <==> IsEmail(value.s))
    ensures value.JString? && r.Ok? ==> r.value == Present(value.s)
    ensures !value.JString? ==> r == ReadString(value, field, StringOptions(false, allowNull, 0))
  {
    var raw :- ReadString(value, field, StringOptions(false, allowNull, 0));
    if raw.Present? && !IsEmail(raw.value) then Err(Fail(field, "must be a valid email address")) else Ok(raw)
  }

  // ---------------------------------------------------------------------
  // Query-string readers.
  // ---------------------------------------------------------------------

  /** What `Number(text)` gives: an integer, or anything else (a fraction, NaN,
      an infinity). The conversion itself is a parameter. */
  datatype NumberValue = Integer(n: int) | NotInteger

  /** readPositiveInt: the default for a missing or empty value, otherwise an
      integer within the inclusive bounds that are given. */
  function ReadPositiveInt(value: Option<string>, field: string, toNumber: string -> NumberValue,
                           defaultValue: int, min: Option<int>, max: Option<int>): (r: Result<int>)
    ensures value.None? || value == Some("") ==> r == Ok(defaultValue)
    ensures value.Some? && value.value != "" ==>
      (r.Ok? <==> toNumber(value.value).Integer?
                  && (min.Some? ==> toNumber(value.value).n >= min.value)
                  && (max.Some? ==> toNumber(value.value).n <= max.value))
    ensures value.Some? && value.value != "" && r.Ok? ==> r.value == toNumber(value.value).n
    ensures r.Err? ==> IssueAt(r.error, field)
  {
    if value.None? || value.value == "" then Ok(defaultValue)
    else
      match toNumber(value.value)
      case NotInteger => Err(Fail(field, "must be a number"))
      case Integer(n) =>
        if min.Some? && n < min.value then Err(Fail(field, "must be at least " + IntToString(min.value)))
        else if max.Some? && n > max.value then Err(Fail(field, "must be at most " + IntToString(max.value)))
        else Ok(n)
  }

  /** readBoolean: "true"/"false" in any letter case; anything else is undefined. */
  function ReadBoolean(value: Option<string>): Option<bool> {
    if value.None? || value.value == "" then None
    else if ToLower(value.value) == "true" then Some(true)
    else if ToLower(value.value) == "false" then Some(false)
    else None
  }

  /** readBoolean never fails, and it answers exactly for the two words. */
  lemma ReadBooleanSpec(value: Option<string>)
    ensures ReadBoolean(value) == Some(true) <==> value.Some? && SpelledIgnoringCase(value.value, "true")
    ensures ReadBoolean(value) == Some(false) <==> value.Some? && SpelledIgnoringCase(value.value, "false")
  {
    if value.Some? {
      LowerEqualsIff(value.value, "true");
      LowerEqualsIff(value.value, "false");
    }
  }
}
