/** What a schema accepts, for the keywords the compatibility checker knows.

    The meaning is that of JSON Schema 2020-12: sections 6.1.1 to 6.1.3, 6.2.2, 6.2.4,
    6.3.1, 6.3.2, 6.4.1, 6.4.2 and 6.5.3 of the Validation specification, and sections
    4.3.2, 10.3.1.2, 10.3.2.1 and 10.3.2.3 of the Core specification. Every keyword is a
    separate constraint and a node accepts what all of its keywords accept. A node with a
    keyword outside the dialect, and a keyword whose own value has the wrong shape, mean
    whatever an arbitrary oracle says. */
module JsonSchema {
  import opened Wrappers
  import opened Json

  const SUPPORTED_KEYWORDS: set<string> := {
    "type", "const", "enum", "minimum", "maximum", "minLength", "maxLength", "minItems",
    "maxItems", "items", "required", "properties", "additionalProperties"
  }

  const ANNOTATION_KEYWORDS: set<string> := {"description", "default", "title", "examples"}

  predicate KnownKeyword(key: string) {
    key in SUPPORTED_KEYWORDS || key in ANNOTATION_KEYWORDS
  }

  ghost predicate Interpreted(m: map<string, JSON>) {
    forall key :: key in m ==> KnownKeyword(key)
  }

  /** The meaning of everything outside the dialect: schema fragment, then value. */
  type Oracle = (JSON, JSON) -> bool

  const ALL_TYPES: set<string> := {"null", "boolean", "number", "string", "array", "object"}

  predicate HasType(v: JSON, name: string) {
    match v
    case Null => name == "null"
    case Bool(_) => name == "boolean"
    case Num(n) => name == "number" || (name == "integer" && n.Value() == n.Value().Floor as real)
    case Str(_) => name == "string"
    case Arr(_) => name == "array"
    case Obj(_) => name == "object"
  }

  ghost predicate TypeAccepts(o: Oracle, declared: JSON, v: JSON) {
    match declared
    case Str(name) => HasType(v, name)
    case Arr(names) => exists name :: name in names && name.Str? && HasType(v, name.s)
    case _ => o(declared, v)
  }

  ghost predicate EnumAccepts(o: Oracle, declared: JSON, v: JSON) {
    match declared
    case Arr(values) => exists x :: x in values && JsonEqual(v, x)
    case _ => o(declared, v)
  }

  /** What a bound keyword measures; a value it does not apply to has no measure. */
  function Measure(keyword: string, v: JSON): Option<real> {
    match v
    case Num(n) => if keyword in {"minimum", "maximum"} then Some(n.Value()) else None
    case Str(s) => if keyword in {"minLength", "maxLength"} then Some(|s| as real) else None
    case Arr(xs) => if keyword in {"minItems", "maxItems"} then Some(|xs| as real) else None
    case _ => None
  }

  predicate LowerAccepts(o: Oracle, keyword: string, declared: JSON, v: JSON) {
    match declared
    case Num(bound) =>
      var measured := Measure(keyword, v);
      measured.Some? ==> bound.Value() <= measured.value
    case _ => o(declared, v)
  }

  predicate UpperAccepts(o: Oracle, keyword: string, declared: JSON, v: JSON) {
    match declared
    case Num(bound) =>
      var measured := Measure(keyword, v);
      measured.Some? ==> measured.value <= bound.Value()
    case _ => o(declared, v)
  }

  predicate WellFormedRequired(declared: JSON) {
    declared.Arr? && forall i :: 0 <= i < |declared.items| ==> declared.items[i].Str?
  }

  /** The elements of `items` that are strings. */
  function Strings(items: seq<JSON>): set<string> {
    set x | x in items && x.Str? :: x.s
  }

  predicate RequiredAccepts(o: Oracle, declared: JSON, v: JSON) {
    && (declared.Arr? && v.Obj? ==> Strings(declared.items) <= v.fields.Keys)
    && (!WellFormedRequired(declared) ==> o(declared, v))
  }

  const LOWER_BOUNDS := {"minimum", "minLength", "minItems"}
  const UPPER_BOUNDS := {"maximum", "maxLength", "maxItems"}

  /** The keywords whose meaning does not involve another schema. */
  ghost predicate FlatAccepts(o: Oracle, m: map<string, JSON>, v: JSON) {
    && ("type" in m ==> TypeAccepts(o, m["type"], v))
    && ("const" in m ==> JsonEqual(v, m["const"]))
    && ("enum" in m ==> EnumAccepts(o, m["enum"], v))
    && ("required" in m ==> RequiredAccepts(o, m["required"], v))
    && (forall k :: k in LOWER_BOUNDS && k in m ==> LowerAccepts(o, k, m[k], v))
    && (forall k :: k in UPPER_BOUNDS && k in m ==> UpperAccepts(o, k, m[k], v))
  }

  /** The names `properties` declares; none when the keyword is absent or malformed. */
  function Properties(m: map<string, JSON>): map<string, JSON> {
    if "properties" in m && m["properties"].Obj? then m["properties"].fields else map[]
  }

  ghost predicate Accepts(o: Oracle, schema: JSON, v: JSON)
    decreases schema
  {
    match schema
    case Bool(all) => all
    case Obj(m) =>
      if !Interpreted(m) then o(schema, v) else
        && FlatAccepts(o, m, v)
        && ("items" in m && v.Arr? ==> forall x :: x in v.items ==> Accepts(o, m["items"], x))
        && ("properties" in m && !m["properties"].Obj? ==> o(m["properties"], v))
        && ("properties" in m && m["properties"].Obj? && v.Obj? ==>
              forall k :: k in v.fields && k in m["properties"].fields ==>
                Accepts(o, m["properties"].fields[k], v.fields[k]))
        && ("additionalProperties" in m && v.Obj? ==>
              forall k :: k in v.fields && k !in Properties(m) ==>
                Accepts(o, m["additionalProperties"], v.fields[k]))
    case _ => o(schema, v)
  }

  /** Every value the first schema accepts is accepted by the second. */
  ghost predicate Implies(o: Oracle, portable: JSON, live: JSON) {
    forall v :: Accepts(o, portable, v) ==> Accepts(o, live, v)
  }
}
