/** What an empty report proves: that the live schema accepts whatever the portable one does.

    The checker promises this for its whole dialect. The promise needs side conditions that
    the checker does not test, because it passes over some keywords of the live schema:
    `NodeExact` says what exactly it passes over at one node, `Guarded` collects conditions
    under which that does no harm, and `Soundness` is the promise under them. */
module CompatibilitySoundness {
  import opened Wrappers
  import opened Json
  import opened JsonSchema
  import opened Compatibility

  // What the checker relies on

  /** Rounding to a float must not hide that the portable lower bound is the smaller one. */
  predicate LowerExact(keyword: string, portable: JSON, live: JSON) {
    match (portable.Get(keyword), live.Get(keyword))
    case (Some(Num(p)), Some(Num(l))) => p.AsF64() <= p.Value() && l.AsF64() >= l.Value()
    case (_, _) => true
  }

  predicate UpperExact(keyword: string, portable: JSON, live: JSON) {
    match (portable.Get(keyword), live.Get(keyword))
    case (Some(Num(p)), Some(Num(l))) => p.AsF64() >= p.Value() && l.AsF64() <= l.Value()
    case (_, _) => true
  }

  /** The keywords of a node that have one of several shapes have one of the dialect. */
  predicate UsualShapes(schema: map<string, JSON>) {
    && ("type" in schema ==> schema["type"].Str? || schema["type"].Arr?)
    && ("enum" in schema ==> schema["enum"].Arr?)
    && ("required" in schema ==> WellFormedRequired(schema["required"]))
    && ("properties" in schema ==> schema["properties"].Obj?)
  }

  ghost predicate NodeReadable(portable: JSON, live: JSON)
    requires portable.Obj? && live.Obj?
  {
    && UsualShapes(live.fields)
    && (forall k :: k in LOWER_BOUNDS ==> LowerExact(k, portable, live))
    && (forall k :: k in UPPER_BOUNDS ==> UpperExact(k, portable, live))
  }

  // What the checker passes over, and when that does no harm

  /** A list of types admits what the portable node fixes: its type, or each of its allowed
      values, by the rules the checker applies to a single live type. */
  ghost predicate ListAdmits(portable: JSON, names: set<string>) {
    || ALL_TYPES <= names
    || match GetStr(portable, "type")
       case Some(declared) => exists name :: name in names && TypesCompatible(declared, name)
       case None =>
         var values := AllowedValues(portable);
         && values.Some?
         && forall x :: x in values.value ==> exists name :: name in names && ValueMatchesType(x, name)
  }

  ghost predicate TypeListGuard(portable: JSON, live: JSON) {
    match GetArr(live, "type")
    case Some(names) => ListAdmits(portable, Strings(names))
    case None => true
  }

  ghost predicate Contains(values: seq<JSON>, value: JSON) {
    exists x :: x in values && JsonEqual(value, x)
  }

  /** A live `enum` beside a `const` contains the constant. */
  ghost predicate EnumGuard(live: JSON) {
    match (live.Get("const"), GetArr(live, "enum"))
    case (Some(value), Some(values)) => Contains(values, value)
    case (_, _) => true
  }

  /** The portable node names every property it lets through. */
  predicate Closed(portable: JSON) {
    !AllowsAdditional(portable)
  }

  /** The schema of the properties that a node does not declare. */
  function Rest(schema: JSON): JSON {
    match schema.Get("additionalProperties")
    case Some(rest) => rest
    case None => Bool(true)
  }

  /** Undeclared properties of the portable node go by a schema that passes against `live`. */
  ghost predicate RestCovers(portable: JSON, live: JSON)
    requires portable.Obj?
    decreases portable, 0
  {
    && "additionalProperties" in portable.fields
    && Compatible(portable.fields["additionalProperties"], live)
    && Guarded(portable.fields["additionalProperties"], live)
  }

  ghost predicate AdditionalGuard(portable: JSON, live: JSON)
    requires portable.Obj?
    decreases portable, 1
  {
    Rest(live).Bool? || Closed(portable) || RestCovers(portable, Rest(live))
  }

  /** The properties only the live node declares. */
  function Undeclared(portable: JSON, live: JSON): set<string>
    requires portable.Obj? && live.Obj?
  {
    Properties(live.fields).Keys - Properties(portable.fields).Keys
  }

  ghost predicate PropertiesGuard(portable: JSON, live: JSON)
    requires portable.Obj? && live.Obj?
    decreases portable, 1
  {
    Closed(portable)
    || forall name :: name in Undeclared(portable, live) ==> RestCovers(portable, Properties(live.fields)[name])
  }

  ghost predicate ChildrenGuarded(portable: JSON, live: JSON)
    requires portable.Obj? && live.Obj?
    decreases portable, 0
  {
    && ("items" in portable.fields && "items" in live.fields ==>
          Guarded(portable.fields["items"], live.fields["items"]))
    && ("properties" in portable.fields && portable.fields["properties"].Obj? ==>
          forall name :: name in portable.fields["properties"].fields && name in Properties(live.fields) ==>
            Guarded(portable.fields["properties"].fields[name], Properties(live.fields)[name]))
  }

  /** The side conditions, at every pair of nodes the checker compares. */
  ghost predicate Guarded(portable: JSON, live: JSON)
    decreases portable, 2
  {
    portable == live || !portable.Obj? || !live.Obj? || (
      && NodeReadable(portable, live)
      && TypeListGuard(portable, live)
      && EnumGuard(live)
      && AdditionalGuard(portable, live)
      && PropertiesGuard(portable, live)
      && ChildrenGuarded(portable, live)
    )
  }

  // The keywords the checker reads

  lemma MatchingValueHasType(value: JSON, v: JSON, name: string)
    requires ValueMatchesType(value, name) && JsonEqual(v, value)
    ensures HasType(v, name)
  {
  }

  /** A value the portable `const` or `enum` lets through equals one of the allowed values. */
  lemma AcceptedIsAllowed(o: Oracle, schema: JSON, v: JSON) returns (value: JSON)
    requires schema.Obj? && FlatAccepts(o, schema.fields, v)
    requires AllowedValues(schema).Some?
    ensures value in AllowedValues(schema).value && JsonEqual(v, value)
  {
    if "const" in schema.fields {
      value := schema.fields["const"];
    } else {
      assert EnumAccepts(o, schema.fields["enum"], v);
      value :| value in schema.fields["enum"].items && JsonEqual(v, value);
    }
  }

  lemma TypeSound(o: Oracle, portable: JSON, live: JSON, v: JSON)
    requires portable.Obj? && live.Obj? && TypeCompatible(portable, live)
    requires FlatAccepts(o, portable.fields, v)
    ensures GetStr(live, "type").Some? ==> TypeAccepts(o, live.fields["type"], v)
  {
    if GetStr(live, "type").Some? && GetStr(portable, "type") == None {
      var value := AcceptedIsAllowed(o, portable, v);
      MatchingValueHasType(value, v, live.fields["type"].s);
    }
  }

  lemma AllowedSound(o: Oracle, portable: JSON, live: JSON, v: JSON)
    requires portable.Obj? && live.Obj? && AllowedCompatible(portable, live)
    requires UsualShapes(live.fields) && FlatAccepts(o, portable.fields, v)
    ensures "const" in live.fields ==> JsonEqual(v, live.fields["const"])
    ensures "enum" in live.fields && "const" !in live.fields ==> EnumAccepts(o, live.fields["enum"], v)
  {
    if AllowedValues(live).Some? {
      var value := AcceptedIsAllowed(o, portable, v);
      assert value in AllowedValues(live).value;
    }
  }

  lemma RequiredSound(o: Oracle, portable: JSON, live: JSON, v: JSON)
    requires portable.Obj? && live.Obj?
    requires StringSet(live, "required") <= StringSet(portable, "required")
    requires UsualShapes(live.fields) && FlatAccepts(o, portable.fields, v)
    ensures "required" in live.fields ==> RequiredAccepts(o, live.fields["required"], v)
  {
  }

  /** Of the keywords without subschemas a compatible live node can refuse a value only by a
      list of types, or by an `enum` beside a `const`. */
  lemma FlatExact(o: Oracle, portable: JSON, live: JSON, v: JSON)
    requires NodeCompatible(portable, live) && NodeReadable(portable, live)
    requires StringSet(live, "required") <= StringSet(portable, "required")
    requires FlatAccepts(o, portable.fields, v)
    ensures FlatAccepts(o, live.fields, v) <==> TypeListAccepts(o, live, v) && BesideConstAccepts(o, live, v)
  {
    TypeSound(o, portable, live, v);
    AllowedSound(o, portable, live, v);
    RequiredSound(o, portable, live, v);
    forall k | k in LOWER_BOUNDS && k in live.fields
      ensures LowerAccepts(o, k, live.fields[k], v)
    {
      assert LowerCompatible(k, portable, live) && LowerExact(k, portable, live);
      assert LowerAccepts(o, k, portable.fields[k], v);
    }
    forall k | k in UPPER_BOUNDS && k in live.fields
      ensures UpperAccepts(o, k, live.fields[k], v)
    {
      assert UpperCompatible(k, portable, live) && UpperExact(k, portable, live);
      assert UpperAccepts(o, k, portable.fields[k], v);
    }
  }

  // The keywords the checker passes over

  ghost predicate TypeListAccepts(o: Oracle, live: JSON, v: JSON) {
    GetArr(live, "type").Some? ==> TypeAccepts(o, live.fields["type"], v)
  }

  ghost predicate BesideConstAccepts(o: Oracle, live: JSON, v: JSON) {
    live.Get("const").Some? && live.Get("enum").Some? ==> EnumAccepts(o, live.fields["enum"], v)
  }

  ghost predicate UndeclaredAccept(o: Oracle, portable: JSON, live: JSON, v: JSON)
    requires portable.Obj? && live.Obj?
  {
    v.Obj? ==>
      forall name :: name in v.fields && name in Undeclared(portable, live) ==>
        Accepts(o, Properties(live.fields)[name], v.fields[name])
  }

  ghost predicate AdditionalAccepts(o: Oracle, live: JSON, v: JSON)
    requires live.Obj?
  {
    v.Obj? && live.Get("additionalProperties").Some? && !live.fields["additionalProperties"].Bool? ==>
      forall name :: name in v.fields && name !in Properties(live.fields) ==>
        Accepts(o, live.fields["additionalProperties"], v.fields[name])
  }

  /** All that can make a live node refuse a value that a compatible portable node accepts. */
  ghost predicate UnreadAccept(o: Oracle, portable: JSON, live: JSON, v: JSON)
    requires portable.Obj? && live.Obj?
  {
    && TypeListAccepts(o, live, v)
    && BesideConstAccepts(o, live, v)
    && UndeclaredAccept(o, portable, live, v)
    && AdditionalAccepts(o, live, v)
  }

  /** Whatever a list of types admits has one of its types. */
  lemma TypeListSound(o: Oracle, portable: JSON, live: JSON, v: JSON)
    requires portable.Obj? && TypeListGuard(portable, live) && FlatAccepts(o, portable.fields, v)
    ensures TypeListAccepts(o, live, v)
  {
    if GetArr(live, "type").Some? {
      var names := Strings(live.fields["type"].items);
      var name: string;
      if ALL_TYPES <= names {
        name :| name in ALL_TYPES && HasType(v, name);
      } else if GetStr(portable, "type").Some? {
        name :| name in names && TypesCompatible(portable.fields["type"].s, name);
      } else {
        var value := AcceptedIsAllowed(o, portable, v);
        name :| name in names && ValueMatchesType(value, name);
        MatchingValueHasType(value, v, name);
      }
      assert Str(name) in live.fields["type"].items && HasType(v, name);
    }
  }

  lemma BesideConstSound(o: Oracle, portable: JSON, live: JSON, v: JSON)
    requires portable.Obj? && live.Obj? && AllowedCompatible(portable, live) && UsualShapes(live.fields)
    requires EnumGuard(live) && FlatAccepts(o, portable.fields, v)
    ensures BesideConstAccepts(o, live, v)
  {
    if live.Get("const").Some? && live.Get("enum").Some? {
      AllowedSound(o, portable, live, v);
      var x :| x in live.fields["enum"].items && JsonEqual(live.fields["const"], x);
      JsonEqualTransitive(v, live.fields["const"], x);
    }
  }

  /** What a closed portable node accepts has only names that both nodes declare. */
  lemma ClosedNames(o: Oracle, portable: JSON, live: JSON, v: JSON)
    requires portable.Obj? && live.Obj? && Interpreted(portable.fields) && ObjectCompatible(portable, live)
    requires v.Obj? && Accepts(o, portable, v) && Closed(portable)
    ensures v.fields.Keys <= Properties(portable.fields).Keys <= Properties(live.fields).Keys
  {
    forall name | name in v.fields ensures name in Properties(portable.fields) {
      assert !Accepts(o, Bool(false), v.fields[name]);
    }
  }

  /** One node: a value that the portable schema accepts is refused by a compatible live one
      exactly if one of the keywords that were passed over refuses it. */
  lemma {:induction false} NodeExact(o: Oracle, portable: JSON, live: JSON, v: JSON)
    requires Compatible(portable, live) && portable != live
    requires NodeReadable(portable, live) && ChildrenGuarded(portable, live)
    requires Accepts(o, portable, v)
    ensures Accepts(o, live, v) <==> UnreadAccept(o, portable, live, v)
    decreases portable, 0
  {
    FlatExact(o, portable, live, v);
    if "items" in live.fields && v.Arr? {
      forall x | x in v.items ensures Accepts(o, live.fields["items"], x) {
        Soundness(o, portable.fields["items"], live.fields["items"], x);
      }
    }
    if v.Obj? {
      var theirs, ours := Properties(portable.fields), Properties(live.fields);
      forall name | name in v.fields && name in ours && name in theirs
        ensures Accepts(o, ours[name], v.fields[name])
      {
        Soundness(o, theirs[name], ours[name], v.fields[name]);
      }
      if live.Get("additionalProperties") == Some(Bool(false)) {
        ClosedNames(o, portable, live, v);
      }
    }
  }

  // The promise

  /** An empty report proves that every value `portable` accepts is accepted by `live`. */
  lemma {:induction false} Soundness(o: Oracle, portable: JSON, live: JSON, v: JSON)
    requires Compatible(portable, live) && Guarded(portable, live)
    requires Accepts(o, portable, v)
    ensures Accepts(o, live, v)
    decreases portable, 1
  {
    if portable != live {
      TypeListSound(o, portable, live, v);
      BesideConstSound(o, portable, live, v);
      PropertiesSound(o, portable, live, v);
      AdditionalSound(o, portable, live, v);
      NodeExact(o, portable, live, v);
    }
  }

  /** What the portable node accepts has undeclared properties by its schema for the rest. */
  lemma RestAccepts(o: Oracle, portable: JSON, live: JSON, v: JSON, name: string)
    requires portable.Obj? && live.Obj? && Interpreted(portable.fields) && ObjectCompatible(portable, live)
    requires Accepts(o, portable, v) && v.Obj? && name in v.fields
    requires name in Undeclared(portable, live) || name !in Properties(live.fields)
    ensures name !in Properties(portable.fields) && Accepts(o, Rest(portable), v.fields[name])
  {
  }

  lemma {:induction false} PropertiesSound(o: Oracle, portable: JSON, live: JSON, v: JSON)
    requires Compatible(portable, live) && portable != live && PropertiesGuard(portable, live)
    requires Accepts(o, portable, v)
    ensures UndeclaredAccept(o, portable, live, v)
    decreases portable, 0
  {
    if v.Obj? {
      forall name | name in v.fields && name in Undeclared(portable, live)
        ensures Accepts(o, Properties(live.fields)[name], v.fields[name])
      {
        RestAccepts(o, portable, live, v, name);
        if RestCovers(portable, Properties(live.fields)[name]) {
          Soundness(o, portable.fields["additionalProperties"], Properties(live.fields)[name], v.fields[name]);
        }
      }
    }
  }

  lemma {:induction false} AdditionalSound(o: Oracle, portable: JSON, live: JSON, v: JSON)
    requires Compatible(portable, live) && portable != live && AdditionalGuard(portable, live)
    requires Accepts(o, portable, v)
    ensures AdditionalAccepts(o, live, v)
    decreases portable, 0
  {
    if v.Obj? && !Rest(live).Bool? {
      forall name | name in v.fields && name !in Properties(live.fields)
        ensures Accepts(o, Rest(live), v.fields[name])
      {
        RestAccepts(o, portable, live, v, name);
        if RestCovers(portable, Rest(live)) {
          Soundness(o, portable.fields["additionalProperties"], Rest(live), v.fields[name]);
        }
      }
    }
  }

  /** The checker's entry point, and the promise as its caller meets it. */
  method SchemaSubsetViolations(portable: JSON, live: JSON) returns (violations: seq<Complaint>)
    ensures forall c :: c in violations <==> Reason(portable, live, c.path, c.reason)
    ensures violations == [] <==> Compatible(portable, live)
    ensures violations == [] && Guarded(portable, live) ==>
              forall o: Oracle :: Implies(o, portable, live)
  {
    var report := new Report();
    CompareSchema([], portable, live, report);
    violations := report.violations;
    if Compatible(portable, live) && Guarded(portable, live) {
      forall o: Oracle, v | Accepts(o, portable, v) ensures Accepts(o, live, v) {
        Soundness(o, portable, live, v);
      }
    }
  }
}
