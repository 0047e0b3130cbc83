/** What the checker lets pass: each keyword of the live schema is judged on its own, and
    refused only for a reason. */
module CompatibilityAcceptance {
  import opened Wrappers
  import opened Json
  import opened JsonSchema
  import opened Compatibility
  import opened CompatibilitySoundness
  import opened CompatibilityConditions

  /** The keywords of the dialect, and the annotations. */
  lemma KnownKeywordsAre(key: string)
    ensures KnownKeyword(key) <==>
              key in {
                "type", "const", "enum", "minimum", "maximum", "minLength", "maxLength", "minItems", "maxItems",
                "items", "required", "properties", "additionalProperties",
                "description", "default", "title", "examples"
              }
  {
  }

  // Keyword by keyword

  /** The values a node fixes: its constant, or else its enumeration. */
  ghost predicate Fixes(schema: map<string, JSON>, x: JSON) {
    if "const" in schema then x == schema["const"]
    else "enum" in schema && schema["enum"].Arr? && x in schema["enum"].items
  }

  predicate FixesValues(schema: map<string, JSON>) {
    "const" in schema || ("enum" in schema && schema["enum"].Arr?)
  }

  /** A value as `serde` types it: an integer is one that is stored as such. */
  predicate HasStoredType(x: JSON, name: string) {
    HasType(x, name) && (name == "integer" ==> x.Num? && x.n.IsInteger())
  }

  /** Every value of the one type has the other, and there are some; or they are the same. */
  ghost predicate TypeWithin(name: string, other: string) {
    name == other || ((exists v :: HasType(v, name)) && forall v :: HasType(v, name) ==> HasType(v, other))
  }

  /** Whether a live keyword asks no more than the portable node promises. */
  ghost predicate Judged(p: map<string, JSON>, l: map<string, JSON>, k: string)
    requires k in l
  {
    match k
    case "type" =>
      l[k].Str? ==>
        if "type" in p && p["type"].Str? then TypeWithin(p["type"].s, l[k].s)
        else FixesValues(p) && forall x :: Fixes(p, x) ==> HasStoredType(x, l[k].s)
    case "const" => FixesValues(p) && forall x :: Fixes(p, x) ==> x == l[k]
    case "enum" => "const" !in l && l[k].Arr? ==> FixesValues(p) && forall x :: Fixes(p, x) ==> x in l[k].items
    case "minimum" => k in p && p[k].Num? && l[k].Num? && l[k].n.AsF64() <= p[k].n.AsF64()
    case "minLength" => k in p && p[k].Num? && l[k].Num? && l[k].n.AsF64() <= p[k].n.AsF64()
    case "minItems" => k in p && p[k].Num? && l[k].Num? && l[k].n.AsF64() <= p[k].n.AsF64()
    case "maximum" => k in p && p[k].Num? && l[k].Num? && p[k].n.AsF64() <= l[k].n.AsF64()
    case "maxLength" => k in p && p[k].Num? && l[k].Num? && p[k].n.AsF64() <= l[k].n.AsF64()
    case "maxItems" => k in p && p[k].Num? && l[k].Num? && p[k].n.AsF64() <= l[k].n.AsF64()
    case "items" => k in p && Compatible(p[k], l[k])
    case "required" =>
      l[k].Arr? ==> forall x :: x in l[k].items && x.Str? ==> k in p && p[k].Arr? && x in p[k].items
    case "additionalProperties" => l[k] == Bool(false) ==> k in p && p[k] == Bool(false)
    case _ => true
  }

  ghost predicate AllJudged(p: map<string, JSON>, l: map<string, JSON>) {
    forall k :: k in l ==> Judged(p, l, k)
  }

  /** The properties the portable node declares are declared by the live one, and pass. */
  ghost predicate PropertiesJudged(p: map<string, JSON>, l: map<string, JSON>) {
    "properties" in p && p["properties"].Obj? ==>
      && "properties" in l && l["properties"].Obj?
      && forall name :: name in p["properties"].fields ==>
           name in l["properties"].fields && Compatible(p["properties"].fields[name], l["properties"].fields[name])
  }

  lemma TypeWithinExactly(name: string, other: string)
    ensures TypeWithin(name, other) <==> TypesCompatible(name, other)
  {
    if TypesCompatible(name, other) && name != other {
      assert HasType(Num(PosInt(0)), "integer");
    }
    if TypeWithin(name, other) && name != other {
      var v :| HasType(v, name);
      OtherTypes(v, name, other);
    }
  }

  lemma OtherTypes(v: JSON, name: string, other: string)
    requires HasType(v, name) && name != other
    requires forall u :: HasType(u, name) ==> HasType(u, other)
    ensures name == "integer" && other == "number"
  {
    assert HasType(v, other);
    if name == "number" {
      assert HasType(Num(Float(0.5)), "number") && !HasType(Num(Float(0.5)), "integer");
    }
  }

  lemma StoredTypeExactly(x: JSON, name: string)
    ensures HasStoredType(x, name) <==> ValueMatchesType(x, name)
  {
    if x.Num? && x.n.IsInteger() {
      var n: int := match x.n case PosInt(m) => m case NegInt(m) => m case Float(_) => 0;
      assert x.n.Value() == n as real;
    }
  }

  lemma FixedExactly(schema: map<string, JSON>)
    ensures FixesValues(schema) <==> AllowedValues(Obj(schema)).Some?
    ensures FixesValues(schema) ==> forall x :: Fixes(schema, x) <==> x in AllowedValues(Obj(schema)).value
  {
  }

  lemma TypeJudged(p: map<string, JSON>, l: map<string, JSON>)
    ensures TypeCompatible(Obj(p), Obj(l)) <==> ("type" in l ==> Judged(p, l, "type"))
  {
    FixedExactly(p);
    if "type" in l && l["type"].Str? {
      if "type" in p && p["type"].Str? {
        TypeWithinExactly(p["type"].s, l["type"].s);
      } else {
        forall x ensures HasStoredType(x, l["type"].s) <==> ValueMatchesType(x, l["type"].s) {
          StoredTypeExactly(x, l["type"].s);
        }
      }
    }
  }

  lemma AllowedJudged(p: map<string, JSON>, l: map<string, JSON>)
    ensures AllowedCompatible(Obj(p), Obj(l))
            <==> ("const" in l ==> Judged(p, l, "const")) && ("enum" in l ==> Judged(p, l, "enum"))
  {
    FixedExactly(p);
    FixedExactly(l);
  }

  lemma BoundsJudged(p: map<string, JSON>, l: map<string, JSON>)
    ensures (forall k :: k in LOWER_BOUNDS ==> LowerCompatible(k, Obj(p), Obj(l)))
            <==> forall k :: k in LOWER_BOUNDS && k in l ==> Judged(p, l, k)
    ensures (forall k :: k in UPPER_BOUNDS ==> UpperCompatible(k, Obj(p), Obj(l)))
            <==> forall k :: k in UPPER_BOUNDS && k in l ==> Judged(p, l, k)
  {
    forall k | k in LOWER_BOUNDS ensures LowerCompatible(k, Obj(p), Obj(l)) <==> (k in l ==> Judged(p, l, k)) {
    }
    forall k | k in UPPER_BOUNDS ensures UpperCompatible(k, Obj(p), Obj(l)) <==> (k in l ==> Judged(p, l, k)) {
    }
  }

  lemma RequiredJudged(p: map<string, JSON>, l: map<string, JSON>)
    ensures StringSet(Obj(l), "required") <= StringSet(Obj(p), "required")
            <==> ("required" in l ==> Judged(p, l, "required"))
  {
    var ours, theirs := StringSet(Obj(l), "required"), StringSet(Obj(p), "required");
    if "required" in l && l["required"].Arr? {
      if ours <= theirs {
        forall x | x in l["required"].items && x.Str?
          ensures "required" in p && p["required"].Arr? && x in p["required"].items
        {
          assert x.s in ours && x.s in theirs;
        }
      }
      if Judged(p, l, "required") {
        forall name | name in ours ensures name in theirs {
          assert Str(name) in l["required"].items;
        }
      }
    }
  }

  lemma ObjectJudged(p: map<string, JSON>, l: map<string, JSON>)
    ensures ObjectCompatible(Obj(p), Obj(l))
            <==>
            && PropertiesJudged(p, l)
            && ("required" in l ==> Judged(p, l, "required"))
            && ("additionalProperties" in l ==> Judged(p, l, "additionalProperties"))
  {
    RequiredJudged(p, l);
  }

  /** Two schemas pass exactly if they are equal, or are objects of known keywords, each live
      keyword asks no more than the portable node promises, and each portable property is
      declared and passes. */
  lemma PassesExactly(portable: JSON, live: JSON)
    ensures Compatible(portable, live) <==>
              || portable == live
              || (
                && portable.Obj? && live.Obj?
                && Interpreted(portable.fields) && Interpreted(live.fields)
                && AllJudged(portable.fields, live.fields)
                && PropertiesJudged(portable.fields, live.fields)
              )
  {
    if portable.Obj? && live.Obj? && portable != live {
      var p, l := portable.fields, live.fields;
      TypeJudged(p, l);
      AllowedJudged(p, l);
      BoundsJudged(p, l);
      ObjectJudged(p, l);
      assert ItemsCompatible(portable, live) <==> ("items" in l ==> Judged(p, l, "items"));
      EachKeyword(p, l);
    }
  }

  lemma EachKeyword(p: map<string, JSON>, l: map<string, JSON>)
    ensures AllJudged(p, l)
            <==>
            && ("type" in l ==> Judged(p, l, "type"))
            && ("const" in l ==> Judged(p, l, "const")) && ("enum" in l ==> Judged(p, l, "enum"))
            && (forall k :: k in LOWER_BOUNDS && k in l ==> Judged(p, l, k))
            && (forall k :: k in UPPER_BOUNDS && k in l ==> Judged(p, l, k))
            && ("items" in l ==> Judged(p, l, "items"))
            && ("required" in l ==> Judged(p, l, "required"))
            && ("additionalProperties" in l ==> Judged(p, l, "additionalProperties"))
  {
  }

  // Consequences

  /** A live keyword that can be taken away without changing what the others mean, or how the
      portable properties are looked up. */
  predicate Removable(l: map<string, JSON>, k: string) {
    k != "properties" && (k == "const" ==> "enum" !in l)
  }

  /** A keyword is judged by its own value and by the portable node; an enumeration also by
      whether there is a constant beside it. */
  lemma JudgedAlike(p: map<string, JSON>, l: map<string, JSON>, other: map<string, JSON>, k: string)
    requires k in l && k in other && l[k] == other[k]
    requires k == "enum" ==> ("const" in l <==> "const" in other)
    ensures Judged(p, l, k) <==> Judged(p, other, k)
  {
  }

  lemma JudgedWithout(p: map<string, JSON>, l: map<string, JSON>, k: string)
    requires Removable(l, k) && AllJudged(p, l)
    ensures AllJudged(p, l - {k})
  {
    var fewer := l - {k};
    forall j | j in fewer ensures Judged(p, fewer, j) {
      assert Judged(p, l, j);
      JudgedAlike(p, l, fewer, j);
    }
  }

  lemma PropertiesWithout(p: map<string, JSON>, l: map<string, JSON>, k: string)
    requires k != "properties"
    ensures PropertiesJudged(p, l) <==> PropertiesJudged(p, l - {k})
  {
  }

  /** Fewer live keywords never make a passing pair fail. */
  lemma FewerLiveKeywordsPass(portable: JSON, live: JSON, k: string)
    requires portable.Obj? && live.Obj? && portable != live && Removable(live.fields, k)
    requires Compatible(portable, live)
    ensures Compatible(portable, Obj(live.fields - {k}))
  {
    PassesExactly(portable, live);
    JudgedWithout(portable.fields, live.fields, k);
    PropertiesWithout(portable.fields, live.fields, k);
    PassesExactly(portable, Obj(live.fields - {k}));
  }

  /** A closed portable node passes whatever the live one says about additional properties. */
  lemma ClosedIgnoresAdditional(portable: JSON, live: JSON)
    requires portable.Obj? && "additionalProperties" in portable.fields
    requires portable.fields["additionalProperties"] == Bool(false)
    requires live.Obj? && portable != live && portable != Obj(live.fields - {"additionalProperties"})
    ensures Compatible(portable, live) <==> Compatible(portable, Obj(live.fields - {"additionalProperties"}))
  {
    var p, l, fewer := portable.fields, live.fields, live.fields - {"additionalProperties"};
    JudgedWithoutAdditional(p, l);
    PropertiesWithout(p, l, "additionalProperties");
    assert Interpreted(l) <==> Interpreted(fewer) by {
      assert l.Keys <= fewer.Keys + {"additionalProperties"};
    }
    PassesExactly(portable, live);
    PassesExactly(portable, Obj(fewer));
  }

  lemma JudgedWithoutAdditional(p: map<string, JSON>, l: map<string, JSON>)
    requires "additionalProperties" in p && p["additionalProperties"] == Bool(false)
    ensures AllJudged(p, l) <==> AllJudged(p, l - {"additionalProperties"})
  {
    var fewer := l - {"additionalProperties"};
    forall k | k in fewer ensures Judged(p, l, k) <==> Judged(p, fewer, k) {
      JudgedAlike(p, l, fewer, k);
    }
    if AllJudged(p, fewer) {
      forall k | k in l ensures Judged(p, l, k) {
        if k == "additionalProperties" {
          AdditionalJudged(p, l);
        } else {
          assert Judged(p, fewer, k);
        }
      }
    }
  }

  lemma AdditionalJudged(p: map<string, JSON>, l: map<string, JSON>)
    requires "additionalProperties" in p && p["additionalProperties"] == Bool(false) && "additionalProperties" in l
    ensures Judged(p, l, "additionalProperties")
  {
  }

  /** And an open node that accepts an object is refused rightly beside a closed one. */
  lemma OpenBesideClosed(o: Oracle, portable: JSON, live: JSON, v: JSON)
    requires Plain(portable) && Interpreted(portable.fields) && Rest(portable) == Bool(true)
    requires live.Obj? && Interpreted(live.fields) && Rest(live) == Bool(false)
    requires v.Obj? && Accepts(o, portable, v)
    ensures !Implies(o, portable, live)
  {
    var name := FreshName(Properties(portable.fields).Keys + Properties(live.fields).Keys);
    NewPropertyAccepted(o, portable, v, name, Null);
    var widened := Obj(v.fields[name := Null]);
    if Accepts(o, live, widened) {
      AdditionalReaches(o, live, widened, name);
    }
  }

  lemma AdditionalReaches(o: Oracle, live: JSON, v: JSON, name: string)
    requires live.Obj? && Interpreted(live.fields) && v.Obj? && Accepts(o, live, v)
    requires name in v.fields && name !in Properties(live.fields)
    ensures Accepts(o, Rest(live), v.fields[name])
  {
  }

  /** The keywords of a node pass against themselves. */
  lemma JudgedByItself(p: map<string, JSON>, k: string)
    requires k in p
    requires k in LOWER_BOUNDS + UPPER_BOUNDS ==> p[k].Num?
    requires k == "type" ==> p[k].Str?
    ensures Judged(p, p, k)
  {
  }

  /** The portable node counts only by the keywords of the dialect. */
  lemma JudgedBy(p: map<string, JSON>, other: map<string, JSON>, l: map<string, JSON>, k: string)
    requires k in l
    requires forall j :: j in SUPPORTED_KEYWORDS ==> (j in p <==> j in other) && (j in p ==> p[j] == other[j])
    ensures Judged(p, l, k) <==> Judged(other, l, k)
  {
    if k in {"type", "const", "enum"} {
      ValuesJudgedBy(p, other, l, k);
    }
  }

  lemma ValuesJudgedBy(p: map<string, JSON>, other: map<string, JSON>, l: map<string, JSON>, k: string)
    requires k in l && k in {"type", "const", "enum"}
    requires forall j :: j in {"type", "const", "enum"} ==> (j in p <==> j in other) && (j in p ==> p[j] == other[j])
    ensures Judged(p, l, k) <==> Judged(other, l, k)
  {
    assert "const" in p <==> "const" in other;
    assert "enum" in p <==> "enum" in other;
    assert FixesValues(p) <==> FixesValues(other);
    forall x ensures Fixes(p, x) <==> Fixes(other, x) {
    }
  }

  /** Two schemas that differ in an annotation only, with a single type and numeric bounds. */
  lemma AnnotationsDoNotMatter(schema: map<string, JSON>, key: string, text: JSON)
    requires Interpreted(schema) && key in ANNOTATION_KEYWORDS
    requires forall k :: k in LOWER_BOUNDS + UPPER_BOUNDS && k in schema ==> schema[k].Num?
    requires "type" in schema ==> schema["type"].Str?
    ensures Compatible(Obj(schema), Obj(schema[key := text])) && Compatible(Obj(schema[key := text]), Obj(schema))
  {
    var other := schema[key := text];
    forall k | k in other ensures Judged(schema, other, k) {
      if k != key {
        JudgedByItself(schema, k);
        JudgedAlike(schema, schema, other, k);
      }
    }
    forall k | k in schema ensures Judged(other, schema, k) {
      JudgedByItself(schema, k);
      JudgedBy(schema, other, schema, k);
    }
    PassesExactly(Obj(schema), Obj(other));
    PassesExactly(Obj(other), Obj(schema));
  }
}
