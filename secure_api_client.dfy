/**
 * The checks the client applies to a decoded API response: whether it has the
 * fields the caller expects, and a sanitiser that keeps only known object fields,
 * at every depth, and cuts long strings.
 */
module SecureApiClient {
  import opened Text

  /**
   * A decoded JSON value. An object is its members in `Object.entries` order; as in
   * every JavaScript object, no key occurs twice.
   */
  datatype Json =
    | JNull
    | JBool(b: bool)
    | JNumber(n: int)
    | JString(s: string)
    | JArray(items: seq<Json>)
    | JObject(members: seq<(string, Json)>)

  // ---------------------------------------------------------------------------
  // validateApiResponse
  // ---------------------------------------------------------------------------

  /** The properties every object inherits from `Object.prototype`, which `in` also sees. */
  const ObjectPrototypeNames: seq<string> :=
    ["constructor", "hasOwnProperty", "isPrototypeOf", "propertyIsEnumerable", "toLocaleString", "toString",
     "valueOf", "__proto__", "__defineGetter__", "__defineSetter__", "__lookupGetter__", "__lookupSetter__"]

  /** `field in value` for an object or an array. */
  predicate HasProperty(value: Json, field: string) {
    || field in ObjectPrototypeNames
    || (value.JObject? && exists i :: 0 <= i < |value.members| && value.members[i].0 == field)
    || (value.JArray? && (field == "length" || exists i: nat :: i < |value.items| && field == NatToString(i)))
  }

  /** `expectedFields.every(field => field in response)`. */
  function Every(expectedFields: seq<string>, response: Json): (r: bool)
    ensures r <==> forall k :: 0 <= k < |expectedFields| ==> HasProperty(response, expectedFields[k])
  {
    if expectedFields == [] then true
    else HasProperty(response, expectedFields[0]) && Every(expectedFields[1..], response)
  }

  /**
   * `validateApiResponse`: false for anything falsy or not of type `object`, which
   * leaves objects and arrays; for those, whether every expected field is a property.
   */
  function ValidateApiResponse(response: Json, expectedFields: seq<string>): (r: bool)
    ensures r <==> ((response.JObject? || response.JArray?) &&
      forall f :: f in expectedFields ==> HasProperty(response, f))
  {
    if !(response.JObject? || response.JArray?) then false
    else Every(expectedFields, response)
  }

  /** An empty list of expected fields accepts exactly the objects and arrays. */
  lemma ValidateNoFields(response: Json)
    ensures ValidateApiResponse(response, []) <==> response.JObject? || response.JArray?
  {
  }

  // ---------------------------------------------------------------------------
  // sanitizeApiResponse
  // ---------------------------------------------------------------------------

  /** The object keys the sanitiser keeps. */
  const AllowedFields: seq<string> :=
    ["question", "answer", "category", "language", "confidence", "url", "content", "metadata", "success", "data",
     "error", "choices", "message", "usage"]

  /** Strings longer than this are cut. */
  const MaxStringLength: nat := 10000

  /** `data.substring(0, 10000) + '...'` for a long string; shorter strings stay. */
  function Truncate(s: string): (r: string)
    ensures |r| <= MaxStringLength + 3
    ensures |s| <= MaxStringLength ==> r == s
    ensures |s| > MaxStringLength ==>
      |r| == MaxStringLength + 3 && r[..MaxStringLength] == s[..MaxStringLength] && r[MaxStringLength..] == "..."
  {
    if |s| > MaxStringLength then s[..MaxStringLength] + "..." else s
  }

  /** The members whose key is allowed, in their order. */
  function KeepAllowed(ms: seq<(string, Json)>): (r: seq<(string, Json)>)
    ensures |r| <= |ms|
    ensures forall i :: 0 <= i < |r| ==> r[i] in ms && r[i].0 in AllowedFields
  {
    if ms == [] then []
    else KeepAllowed(ms[..|ms| - 1]) + (if ms[|ms| - 1].0 in AllowedFields then [ms[|ms| - 1]] else [])
  }

  lemma KeepAllowedSnoc(ms: seq<(string, Json)>, m: (string, Json))
    ensures KeepAllowed(ms + [m]) == KeepAllowed(ms) + (if m.0 in AllowedFields then [m] else [])
  {
    assert (ms + [m])[..|ms|] == ms;
  }

  /** Filtering a concatenation filters each part: kept members stay in their input order. */
  lemma {:induction false} KeepAllowedAppend(a: seq<(string, Json)>, b: seq<(string, Json)>)
    ensures KeepAllowed(a + b) == KeepAllowed(a) + KeepAllowed(b)
    decreases |b|
  {
    if b == [] {
      assert a + b == a;
    } else {
      var init, last := b[..|b| - 1], b[|b| - 1];
      assert b == init + [last];
      assert a + b == (a + init) + [last];
      KeepAllowedAppend(a, init);
      KeepAllowedSnoc(a + init, last);
      KeepAllowedSnoc(init, last);
    }
  }

  /** Exactly the allowed members are kept. */
  lemma {:induction false} KeepAllowedMembers(ms: seq<(string, Json)>)
    ensures forall m :: m in KeepAllowed(ms) <==> m in ms && m.0 in AllowedFields
  {
    if ms != [] {
      var init := ms[..|ms| - 1];
      KeepAllowedMembers(init);
      assert ms == init + [ms[|ms| - 1]];
    }
  }

  /** A list of allowed members is kept whole. */
  lemma {:induction false} KeepAllowedOfAllowed(ms: seq<(string, Json)>)
    requires forall m :: m in ms ==> m.0 in AllowedFields
    ensures KeepAllowed(ms) == ms
  {
    if ms != [] {
      var init, last := ms[..|ms| - 1], ms[|ms| - 1];
      assert ms == init + [last];
      KeepAllowedOfAllowed(init);
      KeepAllowedSnoc(init, last);
    }
  }

  /** `sanitizeApiResponse`: arrays element by element, objects by their allowed members, long strings cut. */
  function Sanitize(data: Json): Json
    decreases data
  {
    match data
    case JArray(items) => JArray(seq(|items|, i requires 0 <= i < |items| => Sanitize(items[i])))
    case JObject(ms) =>
      var kept := KeepAllowed(ms);
      JObject(seq(|kept|, i requires 0 <= i < |kept| => (kept[i].0, Sanitize(kept[i].1))))
    case JString(s) => JString(Truncate(s))
    case _ => data
  }

  /** The sanitised members of an object, given its allowed members. */
  function SanitizeMembers(kept: seq<(string, Json)>): (r: seq<(string, Json)>)
    ensures |r| == |kept|
  {
    seq(|kept|, i requires 0 <= i < |kept| => (kept[i].0, Sanitize(kept[i].1)))
  }

  lemma SanitizeMembersSnoc(kept: seq<(string, Json)>, m: (string, Json))
    ensures SanitizeMembers(kept + [m]) == SanitizeMembers(kept) + [(m.0, Sanitize(m.1))]
  {
  }

  /** Arrays keep their length, and each element is sanitised in its place. */
  lemma SanitizeArray(items: seq<Json>)
    ensures Sanitize(JArray(items)).JArray?
    ensures |Sanitize(JArray(items)).items| == |items|
    ensures forall i :: 0 <= i < |items| ==> Sanitize(JArray(items)).items[i] == Sanitize(items[i])
  {
  }

  /**
   * The keys of a sanitised object are exactly its allowed keys, each value
   * sanitised, in the input order.
   */
  lemma SanitizeObject(ms: seq<(string, Json)>)
    ensures Sanitize(JObject(ms)).JObject?
    ensures Sanitize(JObject(ms)).members == SanitizeMembers(KeepAllowed(ms))
    ensures forall key, v :: (key, v) in Sanitize(JObject(ms)).members <==>
      key in AllowedFields && exists w :: (key, w) in ms && v == Sanitize(w)
  {
    var kept := KeepAllowed(ms);
    var out := Sanitize(JObject(ms)).members;
    assert out == SanitizeMembers(kept);
    KeepAllowedMembers(ms);
    forall key, v | (key, v) in out
      ensures key in AllowedFields && exists w :: (key, w) in ms && v == Sanitize(w)
    {
      var i :| 0 <= i < |out| && out[i] == (key, v);
      assert kept[i] in ms;
      assert (key, kept[i].1) in ms;
    }
    forall key, v | key in AllowedFields && exists w :: (key, w) in ms && v == Sanitize(w)
      ensures (key, v) in out
    {
      var w :| (key, w) in ms && v == Sanitize(w);
      assert (key, w) in kept;
      var i :| 0 <= i < |kept| && kept[i] == (key, w);
      assert out[i] == (key, v);
    }
  }

  /** Every string anywhere in `j` is at most `bound` long. */
  predicate StringsBounded(j: Json, bound: nat)
    decreases j
  {
    match j
    case JString(s) => |s| <= bound
    case JArray(items) => forall i :: 0 <= i < |items| ==> StringsBounded(items[i], bound)
    case JObject(ms) => forall i :: 0 <= i < |ms| ==> StringsBounded(ms[i].1, bound)
    case _ => true
  }

  /** No string in a sanitised value is longer than 10003 characters. */
  lemma {:induction false} SanitizeBounded(data: Json)
    ensures StringsBounded(Sanitize(data), MaxStringLength + 3)
    decreases data
  {
    match data
    case JArray(items) =>
      forall i | 0 <= i < |items| ensures StringsBounded(Sanitize(data).items[i], MaxStringLength + 3) {
        SanitizeBounded(items[i]);
      }
    case JObject(ms) =>
      var kept := KeepAllowed(ms);
      forall i | 0 <= i < |kept| ensures StringsBounded(Sanitize(data).members[i].1, MaxStringLength + 3) {
        assert kept[i] in ms;
        SanitizeBounded(kept[i].1);
      }
    case _ =>
  }

  /** Truncating a truncated string changes nothing. */
  lemma TruncateIdempotent(s: string)
    ensures Truncate(Truncate(s)) == Truncate(s)
  {
    if |s| > MaxStringLength {
      var t := Truncate(s);
      assert t[..MaxStringLength] == s[..MaxStringLength];
    }
  }

  /** Sanitising a sanitised value changes nothing. */
  lemma {:induction false} SanitizeIdempotent(data: Json)
    ensures Sanitize(Sanitize(data)) == Sanitize(data)
    decreases data
  {
    match data
    case JString(s) =>
      TruncateIdempotent(s);
    case JArray(items) =>
      var once := Sanitize(data).items;
      forall i | 0 <= i < |items| ensures Sanitize(once[i]) == once[i] {
        SanitizeIdempotent(items[i]);
      }
      assert Sanitize(Sanitize(data)).items == once;
    case JObject(ms) =>
      var kept := KeepAllowed(ms);
      var once := Sanitize(data).members;
      forall m | m in once ensures m.0 in AllowedFields {
        var i :| 0 <= i < |once| && once[i] == m;
        assert m.0 == kept[i].0;
      }
      KeepAllowedOfAllowed(once);
      forall i | 0 <= i < |once| ensures (once[i].0, Sanitize(once[i].1)) == once[i] {
        assert kept[i] in ms;
        SanitizeIdempotent(kept[i].1);
      }
      assert Sanitize(Sanitize(data)).members == SanitizeMembers(once);
    case _ =>
  }

  /**
   * `sanitizeApiResponse` as it runs: an array is mapped element by element; an
   * object is built member by member in a loop, each allowed value sanitised by a
   * recursive call.
   */
  method SanitizeApiResponse(data: Json) returns (r: Json)
    ensures r == Sanitize(data)
    decreases data, 1
  {
    match data {
      case JArray(items) =>
        r := SanitizeItems(data, items);
      case JObject(ms) =>
        r := SanitizeFields(data, ms);
      case JString(s) =>
        if |s| > MaxStringLength {
          r := JString(s[..MaxStringLength] + "...");
        } else {
          r := data;
        }
      case _ =>
        r := data;
    }
  }

  /** The array branch: `data.map(item => sanitizeApiResponse(item))`. */
  method SanitizeItems(data: Json, items: seq<Json>) returns (r: Json)
    requires data == JArray(items)
    ensures r == Sanitize(data)
    decreases data, 0
  {
    var out: seq<Json> := [];
    for i := 0 to |items|
      invariant |out| == i
      invariant forall k :: 0 <= k < i ==> out[k] == Sanitize(items[k])
    {
      var item := SanitizeApiResponse(items[i]);
      out := out + [item];
    }
    r := JArray(out);
  }

  /** The object branch: the loop that copies each allowed member, its value sanitised. */
  method SanitizeFields(data: Json, ms: seq<(string, Json)>) returns (r: Json)
    requires data == JObject(ms)
    ensures r == Sanitize(data)
    decreases data, 0
  {
    var sanitized: seq<(string, Json)> := [];
    for i := 0 to |ms|
      invariant sanitized == SanitizeMembers(KeepAllowed(ms[..i]))
    {
      var key := ms[i].0;
      var value := ms[i].1;
      assert ms[..i + 1] == ms[..i] + [(key, value)];
      KeepAllowedSnoc(ms[..i], (key, value));
      if key in AllowedFields {
        SanitizeMembersSnoc(KeepAllowed(ms[..i]), (key, value));
        var v := SanitizeApiResponse(value);
        sanitized := sanitized + [(key, v)];
      }
    }
    assert ms[..|ms|] == ms;
    r := JObject(sanitized);
  }
}
