/** The decoded JSON records returned by the code-hosting API, and the dotted
    field lookup `get_nested_value` of src/github_client.py. */
module JsonValues {
  import opened Outcomes
  import Text

  /** A decoded JSON value. Numbers are integers: the fields the client reads
      (`number`, dates, titles) never carry fractions. */
  datatype Json =
    | JNull
    | JBool(b: bool)
    | JNumber(n: int)
    | JString(s: string)
    | JArray(items: seq<Json>)
    | JObject(fields: map<string, Json>)

  /** Python truthiness of the decoded value (`if date_str:`). */
  predicate Truthy(v: Json) {
    match v
    case JNull => false
    case JBool(b) => b
    case JNumber(n) => n != 0
    case JString(s) => s != ""
    case JArray(items) => |items| > 0
    case JObject(fields) => |fields| > 0
  }

  /** `data.get(k, None)`: a missing key and a JSON null both read as `None`;
      a node that is not a dict has no `.get` and raises. */
  function Step(data: Json, key: string): (r: Result<Option<Json>>)
    ensures r.Err? <==> !data.JObject?
    ensures r == Ok(None) <==> data.JObject? && (key !in data.fields || data.fields[key] == JNull)
    ensures r.Ok? && r.value.Some? ==> data.JObject? && key in data.fields && r.value.value == data.fields[key] != JNull
  {
    match data
    case JObject(fields) =>
      if key in fields && fields[key] != JNull then Ok(Some(fields[key])) else Ok(None)
    case _ => Err(NotAMapping(key))
  }

  /** The loop of `get_nested_value`, one key per iteration. */
  function Walk(data: Json, keys: seq<string>): (r: Result<Option<Json>>)
    ensures |keys| > 0 && !data.JObject? ==> r == Err(NotAMapping(keys[0]))
    ensures r.Err? ==> r.error.NotAMapping? && r.error.key in keys
    decreases |keys|
  {
    if |keys| == 0 then Ok(Some(data))
    else
      match Step(data, keys[0])
      case Ok(Some(next)) => Walk(next, keys[1..])
      case other => other
  }

  /** Continue a lookup that has already resolved to a value. */
  function AndThen(r: Result<Option<Json>>, keys: seq<string>): Result<Option<Json>> {
    match r
    case Ok(Some(v)) => Walk(v, keys)
    case other => other
  }

  /** `get_nested_value(data, key)`: split the dotted path and walk it. */
  function GetNestedValue(data: Json, path: string): (r: Result<Option<Json>>)
    ensures r.Ok? && r.value.Some? ==> r.value.value != JNull
  {
    WalkNeverYieldsNull(data, Text.Split(path, '.'));
    Walk(data, Text.Split(path, '.'))
  }

  /** A walk of at least one key never hands back a JSON null: null ends it as `None`. */
  lemma {:induction false} WalkNeverYieldsNull(data: Json, keys: seq<string>)
    requires |keys| > 0
    ensures Walk(data, keys).Ok? && Walk(data, keys).value.Some? ==> Walk(data, keys).value.value != JNull
    decreases |keys|
  {
    match Step(data, keys[0])
    case Ok(Some(next)) =>
      if |keys| > 1 {
        WalkNeverYieldsNull(next, keys[1..]);
      }
    case _ =>
  }

  /** Walking `a + b` is walking `a`, then walking `b` from where `a` ended. */
  lemma {:induction false} WalkAppend(data: Json, a: seq<string>, b: seq<string>)
    ensures Walk(data, a + b) == AndThen(Walk(data, a), b)
    decreases |a|
  {
    if |a| == 0 {
      assert a + b == b;
    } else {
      assert (a + b)[0] == a[0];
      assert (a + b)[1..] == a[1..] + b;
      match Step(data, a[0])
      case Ok(Some(next)) =>
        WalkAppend(next, a[1..], b);
      case _ =>
    }
  }

  /** A dotted path resolves segment by segment: looking up `a.b` is looking
      up `a` and then `b` inside the value found. */
  lemma DottedLookup(data: Json, a: string, b: string)
    ensures GetNestedValue(data, a + "." + b) == AndThen(GetNestedValue(data, a), Text.Split(b, '.'))
  {
    Text.SplitAroundSeparator(a, b, '.');
    assert a + "." + b == a + ['.'] + b;
    WalkAppend(data, Text.Split(a, '.'), Text.Split(b, '.'));
  }

  /** A path without dots is a single `.get`: the value at the key, absent when
      the key is missing or null, an error when `data` is not a dict. */
  lemma SingleKeyLookup(data: Json, key: string)
    requires '.' !in key
    ensures (data.JObject? && key in data.fields && data.fields[key] != JNull) ==>
      GetNestedValue(data, key) == Ok(Some(data.fields[key]))
    ensures (data.JObject? && (key !in data.fields || data.fields[key] == JNull)) ==>
      GetNestedValue(data, key) == Ok(None)
    ensures !data.JObject? ==> GetNestedValue(data, key) == Err(NotAMapping(key))
  {
    Text.SplitWithoutSeparator(key, '.');
    assert Text.Split(key, '.') == [key];
    assert [key][1..] == [];
    match Step(data, key)
    case Ok(Some(next)) =>
      assert Walk(data, [key]) == Walk(next, []);
    case _ =>
  }

  /** The first `i` keys resolve to a dict in which key `i` is missing or null. */
  predicate AbsentAfter(data: Json, keys: seq<string>, i: int)
    requires 0 <= i < |keys|
  {
    Walk(data, keys[..i]).Ok? && Walk(data, keys[..i]).value.Some?
    && Step(Walk(data, keys[..i]).value.value, keys[i]) == Ok(None)
  }

  /** The lookup is absent exactly when some prefix of the path resolves to a
      dict that lacks the next key or maps it to null. */
  lemma {:induction false} WalkAbsentAt(data: Json, keys: seq<string>)
    ensures Walk(data, keys) == Ok(None)
      <==> exists i :: 0 <= i < |keys| && AbsentAfter(data, keys, i)
    decreases |keys|
  {
    if |keys| == 0 {
      return;
    }
    assert keys[..0] == [];
    if exists i :: 0 <= i < |keys| && AbsentAfter(data, keys, i) {
      var i :| 0 <= i < |keys| && AbsentAfter(data, keys, i);
      WalkAppend(data, keys[..i + 1], keys[i + 1..]);
      assert keys[..i + 1] + keys[i + 1..] == keys;
      WalkAppend(data, keys[..i], [keys[i]]);
      assert keys[..i] + [keys[i]] == keys[..i + 1];
      assert [keys[i]][1..] == [];
    }
    if Walk(data, keys) == Ok(None) {
      var first := Step(data, keys[0]);
      if first == Ok(None) {
        assert AbsentAfter(data, keys, 0);
      } else {
        assert first.Ok? && first.value.Some?;
        var next := first.value.value;
        WalkAbsentAt(next, keys[1..]);
        var j :| 0 <= j < |keys[1..]| && AbsentAfter(next, keys[1..], j);
        WalkAppend(data, [keys[0]], keys[1..][..j]);
        assert [keys[0]] + keys[1..][..j] == keys[..j + 1];
        assert keys[1..][j] == keys[j + 1];
        assert [keys[0]][1..] == [];
        assert Walk(data, [keys[0]]) == Ok(Some(next));
        assert AbsentAfter(data, keys, j + 1);
      }
    }
  }
}
