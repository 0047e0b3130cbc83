/** The hand-written check of `list_windows` output against the schema published for it. */
module ListWindows {
  import opened Wrappers
  import opened Json
  import opened JsonSchema

  const Z_INDEX_DESCRIPTION :=
    "Higher values are closer to the front. Null means the provider cannot observe stacking "
    + "order; callers must not infer an order from array position or treat null as zero."

  const Z_INDEX_SCHEMA := Obj(map[
    "type" := Arr([Str("integer"), Str("null")]),
    "description" := Str(Z_INDEX_DESCRIPTION)
  ])

  const WINDOW_SCHEMA := Obj(map[
    "type" := Str("object"),
    "properties" := Obj(map["z_index" := Z_INDEX_SCHEMA]),
    "required" := Arr([Str("z_index")]),
    "additionalProperties" := Bool(true)
  ])

  const WINDOWS_SCHEMA := Obj(map[
    "type" := Str("array"),
    "items" := WINDOW_SCHEMA
  ])

  const OUTPUT_SCHEMA := Obj(map[
    "type" := Str("object"),
    "properties" := Obj(map["windows" := WINDOWS_SCHEMA]),
    "required" := Arr([Str("windows")]),
    "additionalProperties" := Bool(true)
  ])

  datatype Failure = WindowsNotArray | ZIndexRequired(index: nat) | ZIndexNotInteger(index: nat)

  /** A float without a fraction, such as 3.0: an integer to JSON Schema, not to serde. */
  predicate IntegralFloat(v: JSON) {
    v.Num? && !v.n.IsInteger() && v.n.Value() == v.n.Value().Floor as real
  }

  predicate ZIndexIsIntegralFloat(window: JSON) {
    window.Get("z_index").Some? && IntegralFloat(window.Get("z_index").value)
  }

  predicate NoIntegralFloats(value: JSON) {
    match GetArr(value, "windows")
    case Some(windows) => forall w :: w in windows ==> !ZIndexIsIntegralFloat(w)
    case None => true
  }

  /** What the check lets through: serde integers or null as every window's `z_index`. */
  predicate ValidOutput(value: JSON) {
    match GetArr(value, "windows")
    case Some(windows) => forall w :: w in windows ==> ValidWindow(w)
    case None => false
  }

  predicate ValidWindow(window: JSON) {
    match window.Get("z_index")
    case Some(z) => z.Null? || (z.Num? && z.n.IsInteger())
    case None => false
  }

  /** The window at `i` is the first that is not valid. */
  predicate FirstInvalid(windows: seq<JSON>, i: nat) {
    i < |windows| && !ValidWindow(windows[i]) && forall j :: 0 <= j < i ==> ValidWindow(windows[j])
  }

  /** Why a value is refused. */
  predicate Fails(value: JSON, failure: Failure) {
    var windows := GetArr(value, "windows");
    match failure
    case WindowsNotArray => windows == None
    case ZIndexRequired(i) =>
      windows.Some? && FirstInvalid(windows.value, i) && windows.value[i].Get("z_index") == None
    case ZIndexNotInteger(i) =>
      windows.Some? && FirstInvalid(windows.value, i) && windows.value[i].Get("z_index").Some?
  }

  method ValidateListWindowsOutput(value: JSON) returns (result: Result<(), Failure>)
    ensures result.Ok? <==> ValidOutput(value)
    ensures result.Err? ==> Fails(value, result.error)
  {
    var windows := GetArr(value, "windows");
    if windows == None {
      return Err(WindowsNotArray);
    }
    for index := 0 to |windows.value|
      invariant forall j :: 0 <= j < index ==> ValidWindow(windows.value[j])
    {
      var window := windows.value[index];
      assert window in windows.value;
      var zIndex := window.Get("z_index");
      if zIndex == None {
        return Err(ZIndexRequired(index));
      }
      if !(zIndex.value.Null? || (zIndex.value.Num? && zIndex.value.n.IsInteger())) {
        return Err(ZIndexNotInteger(index));
      }
    }
    return Ok(());
  }

  /** A refused value has one reason, and an accepted one has none. */
  lemma OneFailure(value: JSON, failure: Failure, other: Failure)
    ensures Fails(value, failure) && Fails(value, other) ==> failure == other
    ensures Fails(value, failure) ==> !ValidOutput(value)
    ensures !ValidOutput(value) && GetArr(value, "windows").Some? ==>
              exists i :: FirstInvalid(GetArr(value, "windows").value, i)
  {
    if GetArr(value, "windows").Some? && !ValidOutput(value) {
      var windows := GetArr(value, "windows").value;
      var i := 0;
      while ValidWindow(windows[i])
        invariant i < |windows| && forall j :: 0 <= j < i ==> ValidWindow(windows[j])
        decreases |windows| - i
      {
        i := i + 1;
      }
      assert FirstInvalid(windows, i);
    }
  }

  predicate GoodZIndex(z: JSON) {
    HasType(z, "integer") || HasType(z, "null")
  }

  predicate GoodWindow(window: JSON) {
    window.Get("z_index").Some? && GoodZIndex(window.Get("z_index").value)
  }

  predicate GoodOutput(value: JSON) {
    match GetArr(value, "windows")
    case Some(windows) => forall w :: w in windows ==> GoodWindow(w)
    case None => false
  }

  lemma ZIndexMeaning(o: Oracle, z: JSON)
    ensures Accepts(o, Z_INDEX_SCHEMA, z) <==> GoodZIndex(z)
  {
    var names := [Str("integer"), Str("null")];
    assert names[0] in names && names[1] in names;
    assert TypeAccepts(o, Arr(names), z) <==> GoodZIndex(z);
    assert FlatAccepts(o, Z_INDEX_SCHEMA.fields, z) <==> TypeAccepts(o, Arr(names), z);
  }

  /** An object schema with one required property and no other constraint. */
  function RequiringSchema(name: string, property: JSON): JSON {
    Obj(map[
      "type" := Str("object"),
      "properties" := Obj(map[name := property]),
      "required" := Arr([Str(name)]),
      "additionalProperties" := Bool(true)
    ])
  }

  lemma RequiringMeaning(o: Oracle, name: string, property: JSON, v: JSON)
    ensures Accepts(o, RequiringSchema(name, property), v)
            <==> v.Get(name).Some? && Accepts(o, property, v.Get(name).value)
  {
    var m := RequiringSchema(name, property).fields;
    RequiringFlat(o, name, property, v);
    assert m["properties"].fields == map[name := property] && m["additionalProperties"] == Bool(true);
    assert Interpreted(m) && "items" !in m;
    if v.Obj? && name in v.fields {
      assert Accepts(o, Obj(m), v) ==> Accepts(o, m["properties"].fields[name], v.fields[name]);
    }
  }

  lemma RequiringFlat(o: Oracle, name: string, property: JSON, v: JSON)
    ensures FlatAccepts(o, RequiringSchema(name, property).fields, v) <==> v.Obj? && name in v.fields
  {
    var m := RequiringSchema(name, property).fields;
    var required := [Str(name)];
    assert required[0] in required;
    assert m["required"] == Arr(required) && Strings(required) == {name};
    assert RequiredAccepts(o, m["required"], v) <==> (v.Obj? ==> name in v.fields);
    assert m["type"] == Str("object");
    assert m.Keys == {"type", "properties", "required", "additionalProperties"};
  }

  lemma {:induction false} WindowsMeaning(o: Oracle, v: JSON)
    ensures Accepts(o, WINDOWS_SCHEMA, v) <==> v.Arr? && forall w :: w in v.items ==> GoodWindow(w)
  {
    assert FlatAccepts(o, WINDOWS_SCHEMA.fields, v) <==> v.Arr?;
    forall w ensures Accepts(o, WINDOW_SCHEMA, w) <==> GoodWindow(w) {
      RequiringMeaning(o, "z_index", Z_INDEX_SCHEMA, w);
      if w.Get("z_index").Some? {
        ZIndexMeaning(o, w.Get("z_index").value);
      }
    }
  }

  /** The check agrees with the published schema, whatever an unknown keyword would mean,
      except that it refuses an integer written as a float. */
  lemma {:induction false} ValidatorAgreesWithSchema(o: Oracle, value: JSON)
    ensures ValidOutput(value) <==> Accepts(o, OUTPUT_SCHEMA, value) && NoIntegralFloats(value)
  {
    OutputMeaning(o, value);
    if value.Get("windows").Some? && value.Get("windows").value.Arr? {
      forall w | w in value.Get("windows").value.items
        ensures ValidWindow(w) <==> GoodWindow(w) && !ZIndexIsIntegralFloat(w)
      {
      }
    }
  }

  lemma {:induction false} OutputMeaning(o: Oracle, value: JSON)
    ensures Accepts(o, OUTPUT_SCHEMA, value) <==> GoodOutput(value)
  {
    RequiringMeaning(o, "windows", WINDOWS_SCHEMA, value);
    if value.Get("windows").Some? {
      WindowsMeaning(o, value.Get("windows").value);
    }
  }

  /** `{"windows": [{"z_index": 1.0}]}` is accepted by the schema and refused by the check. */
  lemma IntegralFloatCounterexample(o: Oracle)
    ensures var value := Obj(map["windows" := Arr([Obj(map["z_index" := Num(Float(1.0))])])]);
            Accepts(o, OUTPUT_SCHEMA, value) && !ValidOutput(value)
  {
    var window := Obj(map["z_index" := Num(Float(1.0))]);
    var value := Obj(map["windows" := Arr([window])]);
    assert GoodZIndex(Num(Float(1.0))) && GoodWindow(window);
    OutputMeaning(o, value);
    assert window in [window] && !ValidWindow(window);
  }
}
