/** The two pure helpers of server.js: the attribution normaliser
    `parseAddedBy` and the string sanitiser `safe`. */
module Utils {
  import opened Results
  import opened Js
  import opened Text

  /** `JSON.parse(v)`, supplied from outside: `None` when it throws. The
      argument is any value, as JSON.parse first converts it to a string. */
  type JsonParse = JsValue -> Option<JsValue>

  /** `parseAddedBy(value)`: a total normaliser of stored attribution data. */
  function ParseAddedBy(v: JsValue, parse: JsonParse): (r: JsValue)
    // falsy input: no attribution
    ensures !Truthy(v) ==> r == Null
    // objects (and arrays) are already structured: returned unchanged
    ensures Truthy(v) && TypeOf(v) == "object" ==> r == v
    // anything that is neither an object nor a string: no attribution
    ensures Truthy(v) && !v.Str? && TypeOf(v) != "object" ==> r == Null
    // a non-empty string is parsed, and an unparseable one degrades to null
    ensures v.Str? && v.s != "" && parse(v).None? ==> r == Null
    ensures v.Str? && v.s != "" && parse(v).Some? ==> r == parse(v).value
  {
    if !Truthy(v) then Null
    else if TypeOf(v) == "object" then v
    else if TypeOf(v) == "string" then
      match parse(v)
      case Some(p) => p
      case None => Null
    else Null
  }

  /** The default bound of `safe`. */
  const SafeDefaultLimit: int := 80

  /** `safe(v, m)`: the trimmed string cut to at most `m` characters, or ""
      for a value that is not a string. */
  function Safe(v: JsValue, m: int): (r: string)
    ensures !v.Str? ==> r == ""
    ensures v.Str? ==> r <= Trim(v.s)
    ensures v.Str? && 0 <= m ==> |r| == if m < |Trim(v.s)| then m else |Trim(v.s)|
    ensures 0 <= m ==> |r| <= m
  {
    if TypeOf(v) == "string" then SliceTo(Trim(v.s), m) else ""
  }

  /** `safe(v)` with the default bound of 80. */
  function SafeDefault(v: JsValue): (r: string)
    ensures |r| <= 80
    ensures v.Str? ==> r <= Trim(v.s)
  {
    Safe(v, SafeDefaultLimit)
  }

  /** A non-empty result of `safe` never starts with whitespace (it is a
      prefix of a trimmed string), though a cut can leave whitespace at its
      end. */
  lemma SafeStartsWithContent(v: JsValue, m: int)
    requires Safe(v, m) != ""
    ensures !IsJsWhitespace(Safe(v, m)[0])
  {
    var t := Trim(v.s);
    assert t[0] == Safe(v, m)[0];
  }

  /** The cut can expose whitespace, so applying `safe` again is not always
      the identity: `safe("a b", 2)` is "a " but `safe("a ", 2)` is "a". */
  lemma SafeNotIdempotent()
    ensures Safe(Str("a b"), 2) == "a "
    ensures Safe(Str(Safe(Str("a b"), 2)), 2) == "a"
  {
    assert SkipLeading("a b", 0) == 0 && SkipTrailing("a b", 0, 3) == 3;
    assert Trim("a b") == "a b";
    assert SkipLeading("a ", 0) == 0 && SkipTrailing("a ", 0, 1) == 1;
    assert Trim("a ") == "a";
  }

  /** Attribution survives a trip through the store: whatever the server
      wrote for a structured `addedBy` (`item.addedBy ?? null`) reads back
      through `parseAddedBy` as the same object, and a missing one as null. */
  lemma AttributionRoundTrip(addedBy: JsValue, parse: JsonParse)
    ensures addedBy.Obj? || addedBy.Arr? ==> ParseAddedBy(Coalesce(addedBy, Null), parse) == addedBy
    ensures Nullish(addedBy) ==> ParseAddedBy(Coalesce(addedBy, Null), parse) == Null
  {
  }
}
