/** When two passed comparisons give a third. */
module CompatibilityTransitivity {
  import opened Wrappers
  import opened Json
  import opened JsonSchema
  import opened Compatibility

  /** The types of the outer schemas agree wherever the middle one leaves its type open and
      constrains only by value; a middle schema that declares a type satisfies this. */
  predicate TypesChain(a: JSON, b: JSON, c: JSON) {
    GetStr(a, "type").Some? && GetStr(b, "type").None? && GetStr(c, "type").Some? ==>
      TypesCompatible(GetStr(a, "type").value, GetStr(c, "type").value)
  }

  ghost predicate Chained(a: JSON, b: JSON, c: JSON)
    decreases a, 1
  {
    a == c || !a.Obj? || !b.Obj? || !c.Obj?
    || (TypesChain(a, b, c) && ItemsChained(a, b, c) && PropertiesChained(a, b, c))
  }

  ghost predicate ItemsChained(a: JSON, b: JSON, c: JSON)
    requires a.Obj? && b.Obj? && c.Obj?
    decreases a, 0
  {
    "items" in a.fields && "items" in b.fields && "items" in c.fields ==>
      Chained(a.fields["items"], b.fields["items"], c.fields["items"])
  }

  ghost predicate PropertiesChained(a: JSON, b: JSON, c: JSON)
    requires a.Obj? && b.Obj? && c.Obj?
    decreases a, 0
  {
    "properties" in a.fields && a.fields["properties"].Obj? ==>
      var first := a.fields["properties"].fields;
      var second, third := Properties(b.fields), Properties(c.fields);
      forall name :: name in first && name in second && name in third ==>
        Chained(first[name], second[name], third[name])
  }

  lemma NodesCompose(a: JSON, b: JSON, c: JSON)
    requires NodeCompatible(a, b) && NodeCompatible(b, c)
    ensures NodeCompatible(a, c) <==> TypesChain(a, b, c)
  {
    forall k | k in LOWER_BOUNDS ensures LowerCompatible(k, a, c) {
      assert LowerCompatible(k, a, b) && LowerCompatible(k, b, c);
    }
    forall k | k in UPPER_BOUNDS ensures UpperCompatible(k, a, c) {
      assert UpperCompatible(k, a, b) && UpperCompatible(k, b, c);
    }
    AllowedCompose(a, b, c);
    TypesCompose(a, b, c);
  }

  lemma AllowedCompose(a: JSON, b: JSON, c: JSON)
    requires AllowedCompatible(a, b) && AllowedCompatible(b, c)
    ensures AllowedCompatible(a, c)
  {
  }

  lemma TypesCompose(a: JSON, b: JSON, c: JSON)
    requires TypeCompatible(a, b) && TypeCompatible(b, c)
    requires AllowedCompatible(a, b)
    ensures TypeCompatible(a, c) <==> TypesChain(a, b, c)
  {
  }

  lemma {:induction false} ItemsCompose(a: JSON, b: JSON, c: JSON)
    requires a.Obj? && b.Obj? && c.Obj?
    requires a == b || ItemsCompatible(a, b)
    requires b == c || ItemsCompatible(b, c)
    requires ItemsCompatible(a, b) || ItemsCompatible(b, c)
    ensures a == b || b == c ==> ItemsChained(a, b, c)
    ensures a != b && b != c ==> (ItemsCompatible(a, c) <==> ItemsChained(a, b, c))
    decreases a, 0
  {
    if "items" in a.fields && "items" in b.fields && "items" in c.fields {
      TransitivityExact(a.fields["items"], b.fields["items"], c.fields["items"]);
    }
  }

  lemma {:induction false} ObjectsCompose(a: JSON, b: JSON, c: JSON)
    requires a.Obj? && b.Obj? && c.Obj?
    requires a == b || ObjectCompatible(a, b)
    requires b == c || ObjectCompatible(b, c)
    ensures a == b || b == c ==> PropertiesChained(a, b, c)
    ensures a != b && b != c ==> (ObjectCompatible(a, c) <==> PropertiesChained(a, b, c))
    decreases a, 0
  {
    if "properties" in a.fields && a.fields["properties"].Obj? {
      var first := a.fields["properties"].fields;
      var second, third := Properties(b.fields), Properties(c.fields);
      forall name | name in first && name in second && name in third
        ensures Chained(first[name], second[name], third[name]) <==> Compatible(first[name], third[name])
        ensures a == b || b == c ==> Compatible(first[name], third[name])
      {
        TransitivityExact(first[name], second[name], third[name]);
      }
    }
  }

  /** Two passed comparisons give a third exactly when the types chain at every path. */
  lemma {:induction false} TransitivityExact(a: JSON, b: JSON, c: JSON)
    requires Compatible(a, b) && Compatible(b, c)
    ensures Compatible(a, c) <==> Chained(a, b, c)
    decreases a, 1
  {
    if a != c {
      ObjectsCompose(a, b, c);
      ItemsCompose(a, b, c);
      if a != b && b != c {
        NodesCompose(a, b, c);
      }
    }
  }

  const ONE := Arr([Num(PosInt(1))])
  const STRING_ONE := Obj(map["type" := Str("string"), "enum" := ONE])
  const UNTYPED_ONE := Obj(map["enum" := ONE])
  const INTEGER := Obj(map["type" := Str("integer")])

  /** `{"enum": [1]}` in the middle joins a schema for strings to one for integers. */
  lemma UntypedMiddleCounterexample()
    ensures Compatible(STRING_ONE, UNTYPED_ONE) && Compatible(UNTYPED_ONE, INTEGER)
    ensures !Compatible(STRING_ONE, INTEGER)
  {
    var one := Num(PosInt(1));
    assert STRING_ONE.Get("const") == UNTYPED_ONE.Get("const") == INTEGER.Get("const") == None;
    assert AllowedValues(STRING_ONE) == AllowedValues(UNTYPED_ONE) == Some([one]);
    assert ValueMatchesType(one, "integer");
    FlatCompatible(STRING_ONE, UNTYPED_ONE);
    FlatCompatible(UNTYPED_ONE, INTEGER);
    TransitivityExact(STRING_ONE, UNTYPED_ONE, INTEGER);
  }

  lemma FlatCompatible(a: JSON, b: JSON)
    requires a.Obj? && b.Obj? && a.fields.Keys + b.fields.Keys <= {"type", "enum"}
    ensures TypeCompatible(a, b) && AllowedCompatible(a, b) ==> Compatible(a, b)
  {
    if TypeCompatible(a, b) && AllowedCompatible(a, b) {
      assert NodeCompatible(a, b) && ObjectCompatible(a, b);
    }
  }
}
