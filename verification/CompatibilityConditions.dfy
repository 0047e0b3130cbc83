/** What happens without each of the side conditions of `CompatibilitySoundness`.

    For every pair of schemas that passes, and whose other conditions hold, one condition at a
    time is given up: the promise then survives exactly if the keyword that is passed over
    does no harm, which can be read off the schemas. A concrete pair that passes and does not
    keep the promise goes with each. */
module CompatibilityConditions {
  import opened Wrappers
  import opened Json
  import opened JsonSchema
  import opened Compatibility
  import opened CompatibilitySoundness

  // Schemas that accept everything

  /** All keywords, here and below, belong to the dialect and have values of a usual shape. */
  ghost predicate Dialect(schema: JSON) {
    match schema
    case Bool(_) => true
    case Obj(m) =>
      && Interpreted(m) && UsualShapes(m)
      && (forall k :: k in LOWER_BOUNDS + UPPER_BOUNDS && k in m ==> m[k].Num?)
      && ("items" in m ==> Dialect(m["items"]))
      && ("properties" in m && m["properties"].Obj? ==>
            forall name :: name in m["properties"].fields ==> Dialect(m["properties"].fields[name]))
      && ("additionalProperties" in m ==> Dialect(m["additionalProperties"]))
    case _ => false
  }

  /** The keywords that fix types, values or names leave no value out. */
  predicate FixesNothing(m: map<string, JSON>) {
    && ("type" in m ==> m["type"].Arr? && ALL_TYPES <= Strings(m["type"].items))
    && "const" !in m && "enum" !in m
    && ("required" in m ==> m["required"] == Arr([]))
  }

  /** Neither do the bounds: lengths are never negative. */
  predicate BoundsNothing(m: map<string, JSON>) {
    && "minimum" !in m
    && (forall k :: k in UPPER_BOUNDS ==> k !in m)
    && (forall k :: k in LOWER_BOUNDS && k in m ==> m[k].Num? && m[k].n.Value() <= 0.0)
  }

  /** No keyword, here or below, leaves a value out. */
  predicate Universal(schema: JSON) {
    match schema
    case Bool(all) => all
    case Obj(m) =>
      && FixesNothing(m) && BoundsNothing(m)
      && ("items" in m ==> Universal(m["items"]))
      && ("properties" in m && m["properties"].Obj? ==>
            forall name :: name in m["properties"].fields ==> Universal(m["properties"].fields[name]))
      && ("additionalProperties" in m ==> Universal(m["additionalProperties"]))
    case _ => false
  }

  ghost predicate AcceptsAll(o: Oracle, schema: JSON) {
    forall v :: Accepts(o, schema, v)
  }

  lemma {:induction false} UniversalAccepts(o: Oracle, schema: JSON, v: JSON)
    requires Dialect(schema) && Universal(schema)
    ensures Accepts(o, schema, v)
    decreases schema
  {
    if schema.Obj? {
      var m := schema.fields;
      if "type" in m {
        ListedTypes(o, m["type"].items, v);
      }
      assert FlatAccepts(o, m, v);
      if "items" in m && v.Arr? {
        forall x | x in v.items ensures Accepts(o, m["items"], x) {
          UniversalAccepts(o, m["items"], x);
        }
      }
      if v.Obj? {
        forall name | name in v.fields && name in Properties(m)
          ensures Accepts(o, Properties(m)[name], v.fields[name])
        {
          UniversalAccepts(o, Properties(m)[name], v.fields[name]);
        }
        forall name | name in v.fields && "additionalProperties" in m
          ensures Accepts(o, m["additionalProperties"], v.fields[name])
        {
          UniversalAccepts(o, m["additionalProperties"], v.fields[name]);
        }
      }
    }
  }

  /** There is always another name. */
  lemma {:induction false} FreshName(names: set<string>) returns (name: string)
    ensures forall n :: n in names ==> |n| < |name|
    ensures name !in names
  {
    if names == {} {
      name := "x";
    } else {
      var n :| n in names;
      var longer := FreshName(names - {n});
      name := if |n| < |longer| then longer else n + "x";
    }
  }

  lemma FlatRefused(o: Oracle, m: map<string, JSON>) returns (v: JSON)
    requires Dialect(Obj(m)) && !FixesNothing(m)
    ensures !FlatAccepts(o, m, v)
  {
    if "type" in m && !(m["type"].Arr? && ALL_TYPES <= Strings(m["type"].items)) {
      v := TypeRefused(o, m["type"]);
    } else if "const" in m {
      v := if m["const"] == Null then Bool(true) else Null;
    } else if "enum" in m {
      var name := FreshName(Strings(m["enum"].items));
      v := Str(name);
      assert forall x :: x in m["enum"].items ==> !JsonEqual(v, x);
    } else {
      v := Obj(map[]);
      assert m["required"].items[0] in m["required"].items;
      assert m["required"].items[0].s in Strings(m["required"].items);
    }
  }

  lemma BoundRefused(o: Oracle, m: map<string, JSON>) returns (v: JSON)
    requires Dialect(Obj(m)) && !BoundsNothing(m)
    ensures !FlatAccepts(o, m, v)
  {
    if "minimum" in m {
      v := Num(Float(m["minimum"].n.Value() - 1.0));
      assert !LowerAccepts(o, "minimum", m["minimum"], v);
    } else if "maximum" in m {
      v := Num(Float(m["maximum"].n.Value() + 1.0));
      assert !UpperAccepts(o, "maximum", m["maximum"], v);
    } else if "maxLength" in m {
      v := Str(seq(Above(m["maxLength"].n.Value()), _ => 'x'));
      assert !UpperAccepts(o, "maxLength", m["maxLength"], v);
    } else if "maxItems" in m {
      v := Arr(seq(Above(m["maxItems"].n.Value()), _ => Null));
      assert !UpperAccepts(o, "maxItems", m["maxItems"], v);
    } else if "minLength" in m && m["minLength"].n.Value() > 0.0 {
      v := Str("");
      assert !LowerAccepts(o, "minLength", m["minLength"], v);
    } else {
      v := Arr([]);
      assert !LowerAccepts(o, "minItems", m["minItems"], v);
    }
  }

  function Above(bound: real): (n: nat)
    ensures bound < n as real
  {
    if bound < 0.0 then 0 else bound.Floor + 1
  }

  lemma {:induction false} Refused(o: Oracle, schema: JSON) returns (v: JSON)
    requires Dialect(schema) && !Universal(schema)
    ensures !Accepts(o, schema, v)
    decreases schema
  {
    v := Null;
    if schema.Obj? {
      var m := schema.fields;
      if !FixesNothing(m) {
        v := FlatRefused(o, m);
      } else if !BoundsNothing(m) {
        v := BoundRefused(o, m);
      } else if "items" in m && !Universal(m["items"]) {
        var x := Refused(o, m["items"]);
        v := Arr([x]);
        assert x in v.items;
      } else if name :| name in Properties(m) && !Universal(Properties(m)[name]) {
        var x := Refused(o, Properties(m)[name]);
        v := Obj(map[name := x]);
        assert name in v.fields && v.fields[name] == x;
      } else {
        assert forall name :: name in Properties(m) ==> Universal(Properties(m)[name]);
        assert "properties" in m ==> Properties(m) == m["properties"].fields;
        var x := Refused(o, m["additionalProperties"]);
        var name := FreshName(Properties(m).Keys);
        v := Obj(map[name := x]);
        assert name in v.fields && v.fields[name] == x;
      }
    }
  }

  /** Whether a schema accepts every value can be read off it. */
  lemma UniversalExactly(o: Oracle, schema: JSON)
    requires Dialect(schema)
    ensures AcceptsAll(o, schema) <==> Universal(schema)
  {
    if Universal(schema) {
      forall v ensures Accepts(o, schema, v) {
        UniversalAccepts(o, schema, v);
      }
    } else {
      var v := Refused(o, schema);
    }
  }

  // Kinds of values

  /** As fine as types can tell values apart. */
  datatype Kind = NullValue | Truth | Whole | Fraction | Text | List | Record

  function KindOf(v: JSON): Kind {
    match v
    case Null => NullValue
    case Bool(_) => Truth
    case Num(n) => if n.Value() == n.Value().Floor as real then Whole else Fraction
    case Str(_) => Text
    case Arr(_) => List
    case Obj(_) => Record
  }

  predicate Listed(names: set<string>, kind: Kind) {
    match kind
    case NullValue => "null" in names
    case Truth => "boolean" in names
    case Whole => "integer" in names || "number" in names
    case Fraction => "number" in names
    case Text => "string" in names
    case List => "array" in names
    case Record => "object" in names
  }

  lemma ListedTypes(o: Oracle, names: seq<JSON>, v: JSON)
    ensures TypeAccepts(o, Arr(names), v) <==> Listed(Strings(names), KindOf(v))
  {
    if Listed(Strings(names), KindOf(v)) {
      var name :| name in Strings(names) && HasType(v, name);
      assert Str(name) in names;
    }
  }

  function Sample(kind: Kind): (v: JSON)
    ensures KindOf(v) == kind
  {
    match kind
    case NullValue => Null
    case Truth => Bool(true)
    case Whole => Num(PosInt(0))
    case Fraction => Num(Float(0.5))
    case Text => Str("")
    case List => Arr([])
    case Record => Obj(map[])
  }

  /** Some kind is missing unless all six types are listed; integers come with numbers. */
  lemma MissingKind(names: set<string>) returns (kind: Kind)
    requires !(ALL_TYPES <= names)
    ensures kind != Whole && !Listed(names, kind)
  {
    kind :=
      if "null" !in names then NullValue
      else if "boolean" !in names then Truth
      else if "number" !in names then Fraction
      else if "string" !in names then Text
      else if "array" !in names then List
      else Record;
  }

  lemma TypeRefused(o: Oracle, declared: JSON) returns (v: JSON)
    requires declared.Str? || (declared.Arr? && !(ALL_TYPES <= Strings(declared.items)))
    ensures !TypeAccepts(o, declared, v)
  {
    if declared.Str? {
      v := if declared.s == "null" then Bool(true) else Null;
    } else {
      var kind := MissingKind(Strings(declared.items));
      v := Sample(kind);
      ListedTypes(o, declared.items, v);
    }
  }

  // Conditions (a) and (c): what the portable node does not declare

  /** A node whose keywords have their usual shapes and that fixes no values by `const` or
      `enum`: an object it accepts can be given another property. */
  ghost predicate Plain(schema: JSON) {
    && schema.Obj?
    && UsualShapes(schema.fields)
    && "const" !in schema.fields && "enum" !in schema.fields
    && (forall k :: k in LOWER_BOUNDS + UPPER_BOUNDS && k in schema.fields ==> schema.fields[k].Num?)
  }

  lemma NewPropertyAccepted(o: Oracle, portable: JSON, v: JSON, name: string, w: JSON)
    requires Plain(portable) && Interpreted(portable.fields)
    requires Accepts(o, portable, v) && v.Obj? && name !in Properties(portable.fields)
    requires Accepts(o, Rest(portable), w)
    ensures Accepts(o, portable, Obj(v.fields[name := w]))
  {
    var widened := Obj(v.fields[name := w]);
    forall k | k in LOWER_BOUNDS && k in portable.fields
      ensures LowerAccepts(o, k, portable.fields[k], widened)
    {
    }
    forall k | k in UPPER_BOUNDS && k in portable.fields
      ensures UpperAccepts(o, k, portable.fields[k], widened)
    {
    }
    if "required" in portable.fields {
      assert v.fields.Keys <= widened.fields.Keys;
      assert RequiredAccepts(o, portable.fields["required"], v);
    }
    assert FlatAccepts(o, portable.fields, widened);
    forall k | k in widened.fields && k in Properties(portable.fields)
      ensures Accepts(o, Properties(portable.fields)[k], widened.fields[k])
    {
      assert k in v.fields && widened.fields[k] == v.fields[k];
    }
    forall k | k in widened.fields && k !in Properties(portable.fields) && "additionalProperties" in portable.fields
      ensures Accepts(o, portable.fields["additionalProperties"], widened.fields[k])
    {
      assert k == name || (k in v.fields && widened.fields[k] == v.fields[k]);
    }
  }

  /** A pair that passes, with all conditions but those on undeclared properties. */
  ghost predicate PlainPair(portable: JSON, live: JSON) {
    && Plain(portable)
    && live.Obj? && Compatible(portable, live) && portable != live
    && NodeReadable(portable, live) && ChildrenGuarded(portable, live)
    && TypeListGuard(portable, live) && EnumGuard(live)
  }

  /** Two keywords are left that can make the live node refuse what the portable one accepts. */
  lemma PlainPairExact(o: Oracle, portable: JSON, live: JSON, v: JSON)
    requires PlainPair(portable, live) && Accepts(o, portable, v)
    ensures Accepts(o, live, v) <==> UndeclaredAccept(o, portable, live, v) && AdditionalAccepts(o, live, v)
  {
    TypeListSound(o, portable, live, v);
    BesideConstSound(o, portable, live, v);
    NodeExact(o, portable, live, v);
  }

  /** Whatever the portable node lets through under a new name reaches the live schemas. */
  lemma NewPropertyReaches(o: Oracle, portable: JSON, live: JSON, v: JSON, name: string, w: JSON)
    requires PlainPair(portable, live) && Implies(o, portable, live)
    requires v.Obj? && Accepts(o, portable, v) && name !in Properties(portable.fields)
    requires Accepts(o, Rest(portable), w)
    ensures name in Properties(live.fields) ==> Accepts(o, Properties(live.fields)[name], w)
    ensures name !in Properties(live.fields) ==> Accepts(o, Rest(live), w)
  {
    NewPropertyAccepted(o, portable, v, name, w);
    var widened := Obj(v.fields[name := w]);
    assert Accepts(o, live, widened) && widened.fields[name] == w;
  }

  /** The schema for undeclared properties implies each of the live schemas that it meets. */
  ghost predicate RestImplies(o: Oracle, portable: JSON, live: JSON)
    requires portable.Obj? && live.Obj?
  {
    && (forall name :: name in Undeclared(portable, live) ==>
          Implies(o, Rest(portable), Properties(live.fields)[name]))
    && Implies(o, Rest(portable), Rest(live))
  }

  /** Conditions (a) and (c) at once, for any pair whose portable node fixes no values and
      accepts an object: the promise holds exactly if the portable schema for undeclared
      properties implies the live schema of each property that only the live node declares,
      and the live schema for the rest. */
  lemma RestExact(o: Oracle, portable: JSON, live: JSON, v: JSON)
    requires PlainPair(portable, live)
    requires v.Obj? && Accepts(o, portable, v)
    ensures Implies(o, portable, live) <==> RestImplies(o, portable, live)
  {
    if Implies(o, portable, live) {
      forall name, w | name in Undeclared(portable, live) && Accepts(o, Rest(portable), w)
        ensures Accepts(o, Properties(live.fields)[name], w)
      {
        NewPropertyReaches(o, portable, live, v, name, w);
      }
      var other := FreshName(Properties(portable.fields).Keys + Properties(live.fields).Keys);
      forall w | Accepts(o, Rest(portable), w) ensures Accepts(o, Rest(live), w) {
        NewPropertyReaches(o, portable, live, v, other, w);
      }
    }
    if RestImplies(o, portable, live) {
      forall u | Accepts(o, portable, u) ensures Accepts(o, live, u) {
        RestReaches(o, portable, live, u);
        PlainPairExact(o, portable, live, u);
      }
    }
  }

  lemma RestReaches(o: Oracle, portable: JSON, live: JSON, u: JSON)
    requires PlainPair(portable, live) && RestImplies(o, portable, live) && Accepts(o, portable, u)
    ensures UndeclaredAccept(o, portable, live, u) && AdditionalAccepts(o, live, u)
  {
    if u.Obj? {
      forall name | name in u.fields && (name in Undeclared(portable, live) || name !in Properties(live.fields))
        ensures name in Undeclared(portable, live) ==> Accepts(o, Properties(live.fields)[name], u.fields[name])
        ensures name !in Properties(live.fields) ==> Accepts(o, Rest(live), u.fields[name])
      {
        RestAccepts(o, portable, live, u, name);
      }
    }
  }

  /** A portable node that lets any value through under a new name. */
  ghost predicate OpenNode(portable: JSON, live: JSON) {
    PlainPair(portable, live) && Rest(portable) == Bool(true)
  }

  lemma OpenImplies(o: Oracle, schema: JSON)
    ensures Implies(o, Bool(true), schema) <==> AcceptsAll(o, schema)
  {
    if Implies(o, Bool(true), schema) {
      forall v ensures Accepts(o, schema, v) {
        assert Accepts(o, Bool(true), v);
      }
    }
  }

  /** Each live property that the portable node does not declare accepts every value. */
  ghost predicate UndeclaredAcceptAll(o: Oracle, portable: JSON, live: JSON)
    requires portable.Obj? && live.Obj?
  {
    forall name :: name in Undeclared(portable, live) ==> AcceptsAll(o, Properties(live.fields)[name])
  }

  lemma OpenObjectMeaning(o: Oracle, portable: JSON, live: JSON, v: JSON)
    requires OpenNode(portable, live) && AdditionalGuard(portable, live)
    requires v.Obj? && Accepts(o, portable, v)
    ensures Implies(o, portable, live) <==> UndeclaredAcceptAll(o, portable, live)
  {
    RestExact(o, portable, live, v);
    assert Rest(live) == Bool(true) by {
      assert ObjectCompatible(portable, live) && AllowsAdditional(portable) && AllowsAdditional(live);
    }
    forall name | name in Undeclared(portable, live)
      ensures Implies(o, Rest(portable), Properties(live.fields)[name])
              <==> AcceptsAll(o, Properties(live.fields)[name])
    {
      OpenImplies(o, Properties(live.fields)[name]);
    }
  }

  /** An open portable node is safe exactly when each live property it does not declare is a
      schema for all values. */
  lemma OpenObjectExact(o: Oracle, portable: JSON, live: JSON, v: JSON)
    requires OpenNode(portable, live) && AdditionalGuard(portable, live)
    requires v.Obj? && Accepts(o, portable, v)
    requires forall name :: name in Undeclared(portable, live) ==> Dialect(Properties(live.fields)[name])
    ensures Implies(o, portable, live)
            <==> forall name :: name in Undeclared(portable, live) ==> Universal(Properties(live.fields)[name])
  {
    OpenObjectMeaning(o, portable, live, v);
    forall name | name in Undeclared(portable, live)
      ensures AcceptsAll(o, Properties(live.fields)[name]) <==> Universal(Properties(live.fields)[name])
    {
      UniversalExactly(o, Properties(live.fields)[name]);
    }
  }

  lemma FlatOnlyAccepts(o: Oracle, m: map<string, JSON>, v: JSON)
    requires Interpreted(m)
    requires "items" !in m && "properties" !in m && "additionalProperties" !in m
    ensures Accepts(o, Obj(m), v) <==> FlatAccepts(o, m, v)
  {
  }

  function Typed(name: string): JSON {
    Obj(map["type" := Str(name)])
  }

  function WithProperty(name: string, property: JSON): JSON {
    Obj(map["type" := Str("object"), "properties" := Obj(map[name := property])])
  }

  lemma TypedAccepts(o: Oracle, name: string, v: JSON)
    ensures Accepts(o, Typed(name), v) <==> HasType(v, name)
  {
    FlatOnlyAccepts(o, Typed(name).fields, v);
  }

  lemma WithPropertyAccepts(o: Oracle, name: string, property: JSON, w: JSON)
    ensures Accepts(o, WithProperty(name, property), Obj(map[name := w])) ==> Accepts(o, property, w)
  {
    var schema, v := WithProperty(name, property), Obj(map[name := w]);
    if Accepts(o, schema, v) {
      assert name in v.fields && name in schema.fields["properties"].fields;
    }
  }

  lemma OpenObjectPasses(name: string, property: JSON)
    ensures Compatible(Typed("object"), WithProperty(name, property))
  {
    var portable, live := Typed("object"), WithProperty(name, property);
    assert NodeCompatible(portable, live) && ObjectCompatible(portable, live);
  }

  /** `{"type": "object"}` passes against a live schema that types an optional property. */
  lemma OpenObjectCounterexample(o: Oracle)
    ensures Compatible(Typed("object"), WithProperty("x", Typed("string")))
    ensures !Implies(o, Typed("object"), WithProperty("x", Typed("string")))
  {
    OpenObjectPasses("x", Typed("string"));
    TypedAccepts(o, "object", Obj(map["x" := Null]));
    TypedAccepts(o, "string", Null);
    WithPropertyAccepts(o, "x", Typed("string"), Null);
  }

  // Condition (b): lists of types

  /** The portable schema accepts a value of this kind. */
  ghost predicate Occurs(o: Oracle, portable: JSON, kind: Kind) {
    exists v :: Accepts(o, portable, v) && KindOf(v) == kind
  }

  /** All conditions but that on the list of types. */
  ghost predicate GuardedButForTypes(portable: JSON, live: JSON) {
    && portable.Obj? && live.Obj? && Compatible(portable, live) && portable != live
    && NodeReadable(portable, live) && ChildrenGuarded(portable, live)
    && EnumGuard(live) && AdditionalGuard(portable, live) && PropertiesGuard(portable, live)
    && GetArr(live, "type").Some?
  }

  /** A live list of types is never looked at; it does no harm exactly if it names each kind of
      value that the portable schema accepts. */
  lemma TypeListExact(o: Oracle, portable: JSON, live: JSON)
    requires GuardedButForTypes(portable, live)
    ensures Implies(o, portable, live)
            <==> forall kind :: Occurs(o, portable, kind) ==> Listed(Strings(live.fields["type"].items), kind)
  {
    var names := live.fields["type"].items;
    forall v | Accepts(o, portable, v)
      ensures Accepts(o, live, v) <==> Listed(Strings(names), KindOf(v))
    {
      BesideConstSound(o, portable, live, v);
      PropertiesSound(o, portable, live, v);
      AdditionalSound(o, portable, live, v);
      NodeExact(o, portable, live, v);
      ListedTypes(o, names, v);
    }
    if !Implies(o, portable, live) {
      var v :| Accepts(o, portable, v) && !Accepts(o, live, v);
      assert Occurs(o, portable, KindOf(v));
    }
  }

  /** A single value of a type tells which lists are good enough for the whole type. */
  lemma OneValueTells(declared: string, names: set<string>, v: JSON)
    requires HasType(v, declared) && (declared == "number" ==> KindOf(v) == Fraction)
    ensures Listed(names, KindOf(v)) <==> exists name :: name in names && TypesCompatible(declared, name)
    ensures Listed(names, KindOf(v)) ==> forall u :: HasType(u, declared) ==> Listed(names, KindOf(u))
  {
    assert TypesCompatible(declared, declared) && TypesCompatible("integer", "number");
  }

  /** For a portable schema with a type that accepts anything at all, the list must contain a
      type that covers it. */
  lemma TypedListExact(o: Oracle, portable: JSON, live: JSON, v: JSON)
    requires GuardedButForTypes(portable, live) && GetStr(portable, "type").Some?
    requires Accepts(o, portable, v)
    requires portable.fields["type"].s == "number" ==> KindOf(v) == Fraction
    ensures Implies(o, portable, live)
            <==> exists name :: name in Strings(live.fields["type"].items)
                                && TypesCompatible(portable.fields["type"].s, name)
  {
    var declared, names := portable.fields["type"].s, Strings(live.fields["type"].items);
    TypeListExact(o, portable, live);
    assert HasType(v, declared) && Occurs(o, portable, KindOf(v));
    OneValueTells(declared, names, v);
    forall kind | Occurs(o, portable, kind) && Listed(names, KindOf(v)) ensures Listed(names, kind) {
      var u :| Accepts(o, portable, u) && KindOf(u) == kind;
      assert HasType(u, declared);
    }
  }

  /** For a portable schema that accepts something of every type, the list must be complete. */
  lemma UntypedListExact(o: Oracle, portable: JSON, live: JSON)
    requires GuardedButForTypes(portable, live)
    requires forall kind :: kind != Whole ==> Occurs(o, portable, kind)
    ensures Implies(o, portable, live) <==> ALL_TYPES <= Strings(live.fields["type"].items)
  {
    var names := Strings(live.fields["type"].items);
    TypeListExact(o, portable, live);
    if !(ALL_TYPES <= names) {
      var kind := MissingKind(names);
      assert Occurs(o, portable, kind);
    }
  }

  /** A schema without constraints passes against every list of types. */
  lemma EmptyPortableListExact(o: Oracle, names: seq<JSON>)
    ensures var live := Obj(map["type" := Arr(names)]);
            && Compatible(Obj(map[]), live)
            && (Implies(o, Obj(map[]), live) <==> ALL_TYPES <= Strings(names))
  {
    var portable, live := Obj(map[]), Obj(map["type" := Arr(names)]);
    assert NodeCompatible(portable, live) && ObjectCompatible(portable, live);
    forall kind ensures Occurs(o, portable, kind) {
      FlatOnlyAccepts(o, portable.fields, Sample(kind));
    }
    UntypedListExact(o, portable, live);
  }

  function OneOf(names: seq<string>): JSON {
    Obj(map["type" := Arr(seq(|names|, i requires 0 <= i < |names| => Str(names[i])))])
  }

  lemma OneOfPasses(declared: string, names: seq<string>)
    ensures Compatible(Typed(declared), OneOf(names))
  {
    var portable, live := Typed(declared), OneOf(names);
    assert NodeCompatible(portable, live) && ObjectCompatible(portable, live);
  }

  /** `{"type": "string"}` passes against a live schema for integers and null. */
  lemma TypeListCounterexample(o: Oracle)
    ensures Compatible(Typed("string"), OneOf(["integer", "null"]))
    ensures !Implies(o, Typed("string"), OneOf(["integer", "null"]))
  {
    OneOfPasses("string", ["integer", "null"]);
    TypedAccepts(o, "string", Str(""));
    FlatOnlyAccepts(o, OneOf(["integer", "null"]).fields, Str(""));
  }

  // Condition (c): additional properties

  lemma AdditionalSchemaMeaning(o: Oracle, portable: JSON, live: JSON, v: JSON)
    requires OpenNode(portable, live) && PropertiesGuard(portable, live)
    requires v.Obj? && Accepts(o, portable, v)
    requires "additionalProperties" in live.fields && !live.fields["additionalProperties"].Bool?
    ensures Implies(o, portable, live) <==> AcceptsAll(o, live.fields["additionalProperties"])
  {
    RestExact(o, portable, live, v);
    OpenImplies(o, Rest(live));
    forall name, w | name in Undeclared(portable, live) ensures Accepts(o, Properties(live.fields)[name], w) {
      assert RestCovers(portable, Properties(live.fields)[name]);
      Soundness(o, Bool(true), Properties(live.fields)[name], w);
    }
  }

  /** A live `additionalProperties` that is a schema is never looked at either; under an open
      portable node it does no harm exactly if it is a schema for all values. */
  lemma AdditionalSchemaExact(o: Oracle, portable: JSON, live: JSON, v: JSON)
    requires OpenNode(portable, live) && PropertiesGuard(portable, live)
    requires v.Obj? && Accepts(o, portable, v)
    requires "additionalProperties" in live.fields && !live.fields["additionalProperties"].Bool?
    requires Dialect(live.fields["additionalProperties"])
    ensures Implies(o, portable, live) <==> Universal(live.fields["additionalProperties"])
  {
    AdditionalSchemaMeaning(o, portable, live, v);
    UniversalExactly(o, live.fields["additionalProperties"]);
  }

  function AdditionalOf(schema: JSON): JSON {
    Obj(map["type" := Str("object"), "additionalProperties" := schema])
  }

  lemma AdditionalPasses(schema: JSON)
    requires !schema.Bool?
    ensures Compatible(Typed("object"), AdditionalOf(schema))
  {
    var portable, live := Typed("object"), AdditionalOf(schema);
    assert NodeCompatible(portable, live) && ObjectCompatible(portable, live);
  }

  /** `{"type": "object"}` passes against a live schema for objects that hold strings only. */
  lemma AdditionalSchemaCounterexample(o: Oracle)
    ensures Compatible(Typed("object"), AdditionalOf(Typed("string")))
    ensures !Implies(o, Typed("object"), AdditionalOf(Typed("string")))
  {
    AdditionalPasses(Typed("string"));
    TypedAccepts(o, "object", Obj(map["x" := Null]));
    TypedAccepts(o, "string", Null);
    AdditionalRefuses(o, Typed("string"), "x", Null);
  }

  lemma AdditionalRefuses(o: Oracle, schema: JSON, name: string, w: JSON)
    requires !Accepts(o, schema, w)
    ensures !Accepts(o, AdditionalOf(schema), Obj(map[name := w]))
  {
    var live, v := AdditionalOf(schema), Obj(map[name := w]);
    assert name in v.fields && v.fields[name] == w && name !in Properties(live.fields);
  }

  // Condition (d): an enumeration beside a constant

  /** A live `enum` beside a `const` is never looked at; if the portable schema accepts
      anything, it had better contain the constant. */
  lemma ConstAndEnumExact(o: Oracle, portable: JSON, live: JSON, v: JSON)
    requires Compatible(portable, live) && portable != live
    requires NodeReadable(portable, live) && ChildrenGuarded(portable, live)
    requires TypeListGuard(portable, live) && AdditionalGuard(portable, live) && PropertiesGuard(portable, live)
    requires "const" in live.fields && "enum" in live.fields
    requires Accepts(o, portable, v)
    ensures Implies(o, portable, live) <==> Contains(live.fields["enum"].items, live.fields["const"])
  {
    var value, values := live.fields["const"], live.fields["enum"].items;
    if Implies(o, portable, live) {
      AllowedSound(o, portable, live, v);
      assert EnumAccepts(o, live.fields["enum"], v);
      var x :| x in values && JsonEqual(v, x);
      JsonEqualSymmetric(v, value);
      JsonEqualTransitive(value, v, x);
    }
    if EnumGuard(live) {
      forall u | Accepts(o, portable, u) ensures Accepts(o, live, u) {
        Soundness(o, portable, live, u);
      }
    }
  }

  function ConstOnly(value: JSON): JSON {
    Obj(map["const" := value])
  }

  function ConstAndEnum(value: JSON, values: seq<JSON>): JSON {
    Obj(map["const" := value, "enum" := Arr(values)])
  }

  lemma ConstAndEnumPasses(value: JSON, values: seq<JSON>)
    ensures Compatible(ConstOnly(value), ConstAndEnum(value, values))
  {
    var portable, live := ConstOnly(value), ConstAndEnum(value, values);
    assert AllowedValues(portable) == AllowedValues(live) == Some([value]);
    assert NodeCompatible(portable, live) && ObjectCompatible(portable, live);
  }

  lemma ConstAndEnumAccepts(o: Oracle, value: JSON, values: seq<JSON>, v: JSON)
    ensures Accepts(o, ConstOnly(value), v) <==> JsonEqual(v, value)
    ensures Accepts(o, ConstAndEnum(value, values), v) ==> EnumAccepts(o, Arr(values), v)
  {
    assert Accepts(o, ConstOnly(value), v) <==> JsonEqual(v, value) by {
      FlatOnlyAccepts(o, ConstOnly(value).fields, v);
    }
    assert Accepts(o, ConstAndEnum(value, values), v) ==> EnumAccepts(o, Arr(values), v) by {
      FlatOnlyAccepts(o, ConstAndEnum(value, values).fields, v);
    }
  }

  /** The constant 1 passes against the constant 1 from an enumeration that holds only 2. */
  lemma ConstAndEnumCounterexample(o: Oracle)
    ensures Compatible(ConstOnly(Num(PosInt(1))), ConstAndEnum(Num(PosInt(1)), [Num(PosInt(2))]))
    ensures !Implies(o, ConstOnly(Num(PosInt(1))), ConstAndEnum(Num(PosInt(1)), [Num(PosInt(2))]))
  {
    var one, two := Num(PosInt(1)), Num(PosInt(2));
    ConstAndEnumPasses(one, [two]);
    JsonEqualReflexive(one);
    ConstAndEnumAccepts(o, one, [two], one);
  }

  // Malformed keywords

  /** A live `enum` that is not a list is passed over too, and means what the oracle says. */
  lemma MalformedEnumCounterexample()
    ensures var live := Obj(map["enum" := Null]);
            Compatible(Obj(map[]), live) && !Implies((_, _) => false, Obj(map[]), live)
  {
    var portable, live := Obj(map[]), Obj(map["enum" := Null]);
    assert NodeCompatible(portable, live) && ObjectCompatible(portable, live);
    var none: Oracle := (_, _) => false;
    FlatOnlyAccepts(none, portable.fields, Null);
    FlatOnlyAccepts(none, live.fields, Null);
  }

  // Condition (e): bounds and rounding

  function Bound(keyword: string, bound: Number): JSON {
    Obj(map[keyword := Num(bound)])
  }

  lemma LowerCompared(keyword: string, p: Number, l: Number)
    requires keyword in LOWER_BOUNDS
    ensures Compatible(Bound(keyword, p), Bound(keyword, l)) <==> p.AsF64() >= l.AsF64()
  {
    var portable, live := Bound(keyword, p), Bound(keyword, l);
    assert Interpreted(portable.fields) && Interpreted(live.fields);
    assert forall k :: k != keyword ==> portable.Get(k) == live.Get(k) == None;
    assert ItemsCompatible(portable, live) && ObjectCompatible(portable, live);
    assert NodeCompatible(portable, live) <==> LowerCompatible(keyword, portable, live);
  }

  lemma UpperCompared(keyword: string, p: Number, l: Number)
    requires keyword in UPPER_BOUNDS
    ensures Compatible(Bound(keyword, p), Bound(keyword, l)) <==> p.AsF64() <= l.AsF64()
  {
    var portable, live := Bound(keyword, p), Bound(keyword, l);
    assert Interpreted(portable.fields) && Interpreted(live.fields);
    assert forall k :: k != keyword ==> portable.Get(k) == live.Get(k) == None;
    assert ItemsCompatible(portable, live) && ObjectCompatible(portable, live);
    assert NodeCompatible(portable, live) <==> UpperCompatible(keyword, portable, live);
  }

  lemma BoundAccepts(o: Oracle, keyword: string, bound: Number, v: JSON)
    requires keyword in LOWER_BOUNDS + UPPER_BOUNDS
    ensures Accepts(o, Bound(keyword, bound), v)
            <==> (Measure(keyword, v).Some? ==>
                    if keyword in LOWER_BOUNDS then bound.Value() <= Measure(keyword, v).value
                    else Measure(keyword, v).value <= bound.Value())
  {
    var schema := Bound(keyword, bound);
    FlatOnlyAccepts(o, schema.fields, v);
    if keyword in LOWER_BOUNDS {
      assert FlatAccepts(o, schema.fields, v) <==> LowerAccepts(o, keyword, Num(bound), v);
    } else {
      assert FlatAccepts(o, schema.fields, v) <==> UpperAccepts(o, keyword, Num(bound), v);
    }
  }

  /** The checker orders bounds as floats; the schemas order them as numbers. */
  lemma MinimumMeaning(o: Oracle, p: Number, l: Number)
    ensures Compatible(Bound("minimum", p), Bound("minimum", l)) <==> p.AsF64() >= l.AsF64()
    ensures Implies(o, Bound("minimum", p), Bound("minimum", l)) <==> p.Value() >= l.Value()
  {
    var portable, live := Bound("minimum", p), Bound("minimum", l);
    LowerCompared("minimum", p, l);
    BoundAccepts(o, "minimum", p, Num(p));
    BoundAccepts(o, "minimum", l, Num(p));
    forall v | Accepts(o, portable, v) && p.Value() >= l.Value() ensures Accepts(o, live, v) {
      BoundAccepts(o, "minimum", p, v);
      BoundAccepts(o, "minimum", l, v);
    }
  }

  lemma MaximumMeaning(o: Oracle, p: Number, l: Number)
    ensures Compatible(Bound("maximum", p), Bound("maximum", l)) <==> p.AsF64() <= l.AsF64()
    ensures Implies(o, Bound("maximum", p), Bound("maximum", l)) <==> p.Value() <= l.Value()
  {
    var portable, live := Bound("maximum", p), Bound("maximum", l);
    UpperCompared("maximum", p, l);
    BoundAccepts(o, "maximum", p, Num(p));
    BoundAccepts(o, "maximum", l, Num(p));
    forall v | Accepts(o, portable, v) && p.Value() <= l.Value() ensures Accepts(o, live, v) {
      BoundAccepts(o, "maximum", p, v);
      BoundAccepts(o, "maximum", l, v);
    }
  }

  /** `portable` keeps the promise whenever the checker lets it pass. */
  ghost predicate Safe(o: Oracle, portable: JSON, live: JSON) {
    Compatible(portable, live) ==> Implies(o, portable, live)
  }

  /** A live minimum is safe against every exact portable one just when it does not round
      down, and a portable minimum against every exact live one when it does not round up. */
  lemma MinimumExact(o: Oracle, bound: Number)
    ensures (forall p: Number :: p.AsF64() == p.Value() ==> Safe(o, Bound("minimum", p), Bound("minimum", bound)))
            <==> bound.AsF64() >= bound.Value()
    ensures (forall l: Number :: l.AsF64() == l.Value() ==> Safe(o, Bound("minimum", bound), Bound("minimum", l)))
            <==> bound.AsF64() <= bound.Value()
  {
    forall p: Number, l: Number
      ensures Safe(o, Bound("minimum", p), Bound("minimum", l))
              <==> (p.AsF64() >= l.AsF64() ==> p.Value() >= l.Value())
    {
      MinimumMeaning(o, p, l);
    }
    var rounded := Float(bound.AsF64());
    assert rounded.AsF64() == rounded.Value() == bound.AsF64();
    assert Safe(o, Bound("minimum", rounded), Bound("minimum", bound)) <==> bound.AsF64() >= bound.Value();
    assert Safe(o, Bound("minimum", bound), Bound("minimum", rounded)) <==> bound.AsF64() <= bound.Value();
  }

  lemma MaximumExact(o: Oracle, bound: Number)
    ensures (forall p: Number :: p.AsF64() == p.Value() ==> Safe(o, Bound("maximum", p), Bound("maximum", bound)))
            <==> bound.AsF64() <= bound.Value()
    ensures (forall l: Number :: l.AsF64() == l.Value() ==> Safe(o, Bound("maximum", bound), Bound("maximum", l)))
            <==> bound.AsF64() >= bound.Value()
  {
    forall p: Number, l: Number
      ensures Safe(o, Bound("maximum", p), Bound("maximum", l))
              <==> (p.AsF64() <= l.AsF64() ==> p.Value() <= l.Value())
    {
      MaximumMeaning(o, p, l);
    }
    var rounded := Float(bound.AsF64());
    assert rounded.AsF64() == rounded.Value() == bound.AsF64();
    assert Safe(o, Bound("maximum", rounded), Bound("maximum", bound)) <==> bound.AsF64() <= bound.Value();
    assert Safe(o, Bound("maximum", bound), Bound("maximum", rounded)) <==> bound.AsF64() >= bound.Value();
  }

  // The bounds on lengths

  /** Only natural numbers are measured against these bounds. */
  predicate Meets(keyword: string, bound: Number, length: nat) {
    if keyword in LOWER_BOUNDS then bound.Value() <= length as real else length as real <= bound.Value()
  }

  function OfLength(keyword: string, length: nat): (v: JSON)
    requires keyword in {"minLength", "minItems", "maxLength", "maxItems"}
    ensures Measure(keyword, v) == Some(length as real)
  {
    if keyword in {"minLength", "maxLength"} then Str(seq(length, _ => 'x')) else Arr(seq(length, _ => Null))
  }

  lemma LengthMeaning(o: Oracle, keyword: string, p: Number, l: Number)
    requires keyword in {"minLength", "minItems", "maxLength", "maxItems"}
    ensures Implies(o, Bound(keyword, p), Bound(keyword, l))
            <==> MeetImplies(keyword, p, l)
  {
    var portable, live := Bound(keyword, p), Bound(keyword, l);
    if Implies(o, portable, live) {
      forall n: nat | Meets(keyword, p, n) ensures Meets(keyword, l, n) {
        BoundAccepts(o, keyword, p, OfLength(keyword, n));
        BoundAccepts(o, keyword, l, OfLength(keyword, n));
        assert Accepts(o, portable, OfLength(keyword, n));
      }
    } else {
      var v :| Accepts(o, portable, v) && !Accepts(o, live, v);
      BoundAccepts(o, keyword, p, v);
      BoundAccepts(o, keyword, l, v);
      assert v.Str? || v.Arr?;
      var n: nat := if v.Str? then |v.s| else |v.items|;
      assert Meets(keyword, p, n) && !Meets(keyword, l, n);
    }
  }

  /** The bound that a float of a bound amounts to for lengths is a natural number, if the
      bound is not negative and not a float itself. */
  lemma WholeBound(bound: Number)
    ensures bound.Float? ==> bound.AsF64() == bound.Value()
    ensures bound.PosInt? ==> bound.AsF64() >= 0.0 && bound.AsF64() == bound.AsF64().Floor as real
    ensures bound.NegInt? ==> bound.AsF64() < 0.0 && bound.Value() < 0.0
  {
    if bound.NegInt? {
      var i: int := bound.negative;
      assert -i / 1 == -i;
      RoundedIsPositive(-i, 1);
    }
  }

  ghost predicate MeetImplies(keyword: string, a: Number, b: Number) {
    forall n: nat :: Meets(keyword, a, n) ==> Meets(keyword, b, n)
  }

  /** A natural bound and its float: the lengths that meet the one meet the other exactly as
      the two are ordered. */
  lemma RoundedMeets(keyword: string, bound: Number)
    requires bound.PosInt?
    ensures var rounded := Float(bound.AsF64());
            if keyword in LOWER_BOUNDS then
              && (MeetImplies(keyword, rounded, bound) <==> bound.AsF64() >= bound.Value())
              && (MeetImplies(keyword, bound, rounded) <==> bound.AsF64() <= bound.Value())
            else
              && (MeetImplies(keyword, rounded, bound) <==> bound.AsF64() <= bound.Value())
              && (MeetImplies(keyword, bound, rounded) <==> bound.AsF64() >= bound.Value())
  {
    WholeBound(bound);
    var rounded := Float(bound.AsF64());
    var n, m: nat := bound.AsF64().Floor, bound.magnitude;
    assert Meets(keyword, rounded, n) && Meets(keyword, bound, m);
    assert Meets(keyword, bound, n) || Meets(keyword, rounded, m);
  }

  predicate Passes(keyword: string, p: Number, l: Number) {
    if keyword in LOWER_BOUNDS then p.AsF64() >= l.AsF64() else p.AsF64() <= l.AsF64()
  }

  lemma SafeLength(o: Oracle, keyword: string, p: Number, l: Number)
    requires keyword in {"minLength", "minItems", "maxLength", "maxItems"}
    ensures Safe(o, Bound(keyword, p), Bound(keyword, l))
            <==> (Passes(keyword, p, l) ==> MeetImplies(keyword, p, l))
  {
    if keyword in LOWER_BOUNDS {
      LowerCompared(keyword, p, l);
    } else {
      UpperCompared(keyword, p, l);
    }
    LengthMeaning(o, keyword, p, l);
  }

  /** The bound is safe on the live side: exact portable bounds that pass against it imply it. */
  ghost predicate SafeLive(o: Oracle, keyword: string, bound: Number) {
    forall p: Number :: p.AsF64() == p.Value() ==> Safe(o, Bound(keyword, p), Bound(keyword, bound))
  }

  ghost predicate SafePortable(o: Oracle, keyword: string, bound: Number) {
    forall l: Number :: l.AsF64() == l.Value() ==> Safe(o, Bound(keyword, bound), Bound(keyword, l))
  }

  /** No length is left out by a lower bound of zero or less, and all by a negative upper one. */
  predicate Harmless(keyword: string, portable: real, live: real) {
    if keyword in LOWER_BOUNDS then live <= 0.0 else portable < 0.0
  }

  lemma LiveLengthExact(o: Oracle, keyword: string, bound: Number)
    requires keyword in {"minLength", "minItems", "maxLength", "maxItems"}
    ensures SafeLive(o, keyword, bound)
            <==> Harmless(keyword, bound.AsF64(), bound.Value())
                 || (if keyword in LOWER_BOUNDS then bound.AsF64() >= bound.Value()
                     else bound.AsF64() <= bound.Value())
  {
    var rounded := Float(bound.AsF64());
    assert rounded.AsF64() == rounded.Value() == bound.AsF64();
    WholeBound(bound);
    if bound.PosInt? {
      RoundedMeets(keyword, bound);
    }
    if SafeLive(o, keyword, bound) {
      SafeLength(o, keyword, rounded, bound);
    } else {
      var p: Number :| p.AsF64() == p.Value() && !Safe(o, Bound(keyword, p), Bound(keyword, bound));
      SafeLength(o, keyword, p, bound);
    }
  }

  lemma PortableLengthExact(o: Oracle, keyword: string, bound: Number)
    requires keyword in {"minLength", "minItems", "maxLength", "maxItems"}
    ensures SafePortable(o, keyword, bound)
            <==> Harmless(keyword, bound.Value(), bound.AsF64())
                 || (if keyword in LOWER_BOUNDS then bound.AsF64() <= bound.Value()
                     else bound.AsF64() >= bound.Value())
  {
    var rounded := Float(bound.AsF64());
    assert rounded.AsF64() == rounded.Value() == bound.AsF64();
    WholeBound(bound);
    if bound.PosInt? {
      RoundedMeets(keyword, bound);
    }
    if SafePortable(o, keyword, bound) {
      SafeLength(o, keyword, bound, rounded);
    } else {
      var l: Number :| l.AsF64() == l.Value() && !Safe(o, Bound(keyword, bound), Bound(keyword, l));
      SafeLength(o, keyword, bound, l);
    }
  }

  /** The first integer that is not a float: 2^53 passes as a minimum against 2^53 + 1. */
  lemma RoundedMinimumCounterexample(o: Oracle)
    ensures var portable := Bound("minimum", PosInt(TWO_TO_THE_53));
            var live := Bound("minimum", PosInt(TWO_TO_THE_53 + 1));
            Compatible(portable, live) && !Implies(o, portable, live)
  {
    var n := TWO_TO_THE_53;
    FirstRounded();
    MinimumMeaning(o, PosInt(n), PosInt(n + 1));
  }

  lemma FirstRounded()
    ensures PosInt(TWO_TO_THE_53).AsF64() == PosInt(TWO_TO_THE_53 + 1).AsF64() == TWO_TO_THE_53 as real
  {
    var n := TWO_TO_THE_53;
    assert RoundToF64(n, 1) == RoundToF64(n, 2) == n by {
      assert n / 1 == n && n / 2 == n / 2 && n % 2 == 0;
    }
    assert RoundToF64(n + 1, 1) == RoundToF64(n + 1, 2) == n by {
      assert (n + 1) / 1 == n + 1;
      assert (n + 1) / 2 == n / 2 && (n + 1) % 2 == 1 && (n / 2) % 2 == 0;
    }
  }

  /** The same for lengths and counts. */
  lemma RoundedLengthCounterexample(o: Oracle, keyword: string)
    requires keyword in {"minLength", "minItems"}
    ensures var portable := Bound(keyword, PosInt(TWO_TO_THE_53));
            var live := Bound(keyword, PosInt(TWO_TO_THE_53 + 1));
            Compatible(portable, live) && !Implies(o, portable, live)
  {
    var n := TWO_TO_THE_53;
    FirstRounded();
    LowerCompared(keyword, PosInt(n), PosInt(n + 1));
    LengthMeaning(o, keyword, PosInt(n), PosInt(n + 1));
    assert Meets(keyword, PosInt(n), n) && !Meets(keyword, PosInt(n + 1), n);
  }
}
