/** The portable-to-live schema comparison: when it reports nothing, and what it reports.

    `Compatible` says when a pair of schemas is beyond reproach; the methods are the checker
    itself, which walks the pair and appends its complaints to a shared report. */
module Compatibility {
  import opened Wrappers
  import opened Json
  import opened JsonSchema

  datatype Side = Portable | Live

  datatype Violation =
    | NotAnObject(side: Side)
    | UnsupportedKeyword(side: Side, key: string)
    | ValueOutsideLiveType(value: JSON, liveType: string)
    | NoPortableType(liveType: string)
    | TypeNotSubset(portableType: string, liveType: string)
    | NoPortableValues
    | ValueNotLive(value: JSON)
    | BoundNotNumeric(side: Side, keyword: string)
    | NoPortableBound(keyword: string)
    | BroaderBound(keyword: string)
    | NoPortableItems
    | NoLiveProperties
    | MissingProperty(name: string)
    | MayBeOmitted(name: string)
    | AdditionalProperties

  /** A step from a pair of schemas to a pair inside. */
  datatype Down = IntoItems | IntoProperty(name: string)

  datatype Complaint = Complaint(path: seq<Down>, reason: Violation)

  // The pure parts of the checker

  function ValueMatchesType(value: JSON, expected: string): bool {
    match expected
    case "null" => value.Null?
    case "boolean" => value.Bool?
    case "object" => value.Obj?
    case "array" => value.Arr?
    case "number" => value.Num?
    case "integer" => value.Num? && value.n.IsInteger()
    case "string" => value.Str?
    case _ => false
  }

  function AllowedValues(schema: JSON): Option<seq<JSON>> {
    match schema.Get("const")
    case Some(value) => Some([value])
    case None => GetArr(schema, "enum")
  }

  function StringSet(schema: JSON, keyword: string): set<string> {
    match GetArr(schema, keyword)
    case Some(items) => Strings(items)
    case None => {}
  }

  function AllowsAdditional(schema: JSON): bool {
    match schema.Get("additionalProperties")
    case Some(Bool(b)) => b
    case _ => true
  }

  predicate TypesCompatible(portableType: string, liveType: string) {
    portableType == liveType || (portableType == "integer" && liveType == "number")
  }

  // When the checker has nothing to report

  ghost predicate TypeCompatible(portable: JSON, live: JSON) {
    match GetStr(live, "type")
    case None => true
    case Some(liveType) =>
      match GetStr(portable, "type")
      case Some(portableType) => TypesCompatible(portableType, liveType)
      case None =>
        var values := AllowedValues(portable);
        values.Some? && forall x :: x in values.value ==> ValueMatchesType(x, liveType)
  }

  ghost predicate AllowedCompatible(portable: JSON, live: JSON) {
    match AllowedValues(live)
    case None => true
    case Some(liveValues) =>
      var values := AllowedValues(portable);
      values.Some? && forall x :: x in values.value ==> x in liveValues
  }

  predicate LowerCompatible(keyword: string, portable: JSON, live: JSON) {
    match (portable.Get(keyword), live.Get(keyword))
    case (_, None) => true
    case (Some(Num(p)), Some(Num(l))) => p.AsF64() >= l.AsF64()
    case (_, _) => false
  }

  predicate UpperCompatible(keyword: string, portable: JSON, live: JSON) {
    match (portable.Get(keyword), live.Get(keyword))
    case (_, None) => true
    case (Some(Num(p)), Some(Num(l))) => p.AsF64() <= l.AsF64()
    case (_, _) => false
  }

  /** What one node contributes through keywords that hold no schema. */
  ghost predicate NodeCompatible(portable: JSON, live: JSON) {
    && portable.Obj? && live.Obj?
    && Interpreted(portable.fields) && Interpreted(live.fields)
    && TypeCompatible(portable, live)
    && AllowedCompatible(portable, live)
    && (forall k :: k in LOWER_BOUNDS ==> LowerCompatible(k, portable, live))
    && (forall k :: k in UPPER_BOUNDS ==> UpperCompatible(k, portable, live))
  }

  ghost predicate ItemsCompatible(portable: JSON, live: JSON)
    requires portable.Obj? && live.Obj?
    decreases portable, 0
  {
    "items" in live.fields ==>
      && "items" in portable.fields
      && Compatible(portable.fields["items"], live.fields["items"])
  }

  /** The object keywords of one node, with the schemas of the shared properties. */
  ghost predicate ObjectCompatible(portable: JSON, live: JSON)
    requires portable.Obj? && live.Obj?
    decreases portable, 0
  {
    && (GetObj(portable, "properties").Some? ==>
          && GetObj(live, "properties").Some?
          && var theirs := portable.fields["properties"].fields;
             var ours := live.fields["properties"].fields;
             forall name :: name in theirs ==>
               name in ours && Compatible(theirs[name], ours[name]))
    && StringSet(live, "required") <= StringSet(portable, "required")
    && (AllowsAdditional(portable) ==> AllowsAdditional(live))
  }

  ghost predicate Compatible(portable: JSON, live: JSON)
    decreases portable, 1
  {
    || portable == live
    || (
      && NodeCompatible(portable, live)
      && ItemsCompatible(portable, live)
      && ObjectCompatible(portable, live)
    )
  }

  // What the checker has to report

  predicate KeywordReason(side: Side, schema: map<string, JSON>, what: Violation) {
    what.UnsupportedKeyword? && what.side == side && what.key in schema && !KnownKeyword(what.key)
  }

  predicate OutsideType(values: seq<JSON>, liveType: string, what: Violation) {
    && what.ValueOutsideLiveType? && what.liveType == liveType
    && what.value in values && !ValueMatchesType(what.value, liveType)
  }

  predicate TypeReason(portable: JSON, live: JSON, what: Violation) {
    match what
    case ValueOutsideLiveType(value, liveType) =>
      && GetStr(live, "type") == Some(liveType) && GetStr(portable, "type") == None
      && AllowedValues(portable).Some? && OutsideType(AllowedValues(portable).value, liveType, what)
    case NoPortableType(liveType) =>
      && GetStr(live, "type") == Some(liveType) && GetStr(portable, "type") == None
      && AllowedValues(portable) == None
    case TypeNotSubset(portableType, liveType) =>
      && GetStr(live, "type") == Some(liveType) && GetStr(portable, "type") == Some(portableType)
      && portableType != liveType && !(portableType == "integer" && liveType == "number")
    case _ => false
  }

  predicate OutsideValues(values: seq<JSON>, liveValues: seq<JSON>, what: Violation) {
    what.ValueNotLive? && what.value in values && what.value !in liveValues
  }

  predicate ValueReason(portable: JSON, live: JSON, what: Violation) {
    match what
    case NoPortableValues => AllowedValues(live).Some? && AllowedValues(portable) == None
    case ValueNotLive(value) =>
      && AllowedValues(live).Some? && AllowedValues(portable).Some?
      && OutsideValues(AllowedValues(portable).value, AllowedValues(live).value, what)
    case _ => false
  }

  predicate Numeric(bound: Option<JSON>) {
    bound.Some? && bound.value.Num?
  }

  /** A bound that only the live schema has, that is no number, or that is the wider one. */
  predicate BoundReason(keyword: string, portable: JSON, live: JSON, what: Violation) {
    var theirs, ours := portable.Get(keyword), live.Get(keyword);
    match what
    case BoundNotNumeric(Live, name) => name == keyword && ours.Some? && !ours.value.Num?
    case NoPortableBound(name) => name == keyword && Numeric(ours) && theirs == None
    case BoundNotNumeric(Portable, name) =>
      name == keyword && Numeric(ours) && theirs.Some? && !theirs.value.Num?
    case BroaderBound(name) =>
      && name == keyword && Numeric(ours) && Numeric(theirs)
      && if keyword in LOWER_BOUNDS then theirs.value.n.AsF64() < ours.value.n.AsF64()
         else theirs.value.n.AsF64() > ours.value.n.AsF64()
    case _ => false
  }

  predicate ItemsReason(portable: JSON, live: JSON, what: Violation) {
    what == NoPortableItems && live.Get("items").Some? && portable.Get("items") == None
  }

  predicate ObjectReason(portable: JSON, live: JSON, what: Violation) {
    var theirs, ours := GetObj(portable, "properties"), GetObj(live, "properties");
    match what
    case NoLiveProperties => theirs.Some? && ours == None
    case MissingProperty(name) => theirs.Some? && ours.Some? && name in theirs.value && name !in ours.value
    case MayBeOmitted(name) =>
      && (theirs.Some? ==> ours.Some?)
      && name in StringSet(live, "required") && name !in StringSet(portable, "required")
    case AdditionalProperties =>
      (theirs.Some? ==> ours.Some?) && AllowsAdditional(portable) && !AllowsAdditional(live)
    case _ => false
  }

  predicate FlatReason(portable: JSON, live: JSON, what: Violation)
    requires portable.Obj? && live.Obj?
  {
    || KeywordReason(Portable, portable.fields, what) || KeywordReason(Live, live.fields, what)
    || TypeReason(portable, live, what) || ValueReason(portable, live, what)
    || BoundReason("minimum", portable, live, what) || BoundReason("maximum", portable, live, what)
    || BoundReason("minLength", portable, live, what) || BoundReason("maxLength", portable, live, what)
    || BoundReason("minItems", portable, live, what) || BoundReason("maxItems", portable, live, what)
  }

  predicate NodeReason(portable: JSON, live: JSON, what: Violation) {
    if !portable.Obj? then what == NotAnObject(Portable)
    else if !live.Obj? then what == NotAnObject(Live)
    else
      || FlatReason(portable, live, what)
      || ItemsReason(portable, live, what)
      || ObjectReason(portable, live, what)
  }

  /** The pair of schemas one step further down. */
  function PairBelow(portable: JSON, live: JSON, step: Down): (pair: Option<(JSON, JSON)>)
    ensures pair.Some? ==> portable.Obj? && pair.value.0 < portable
  {
    if !portable.Obj? || !live.Obj? then None
    else
      match step
      case IntoItems =>
        if "items" in portable.fields && "items" in live.fields
        then Some((portable.fields["items"], live.fields["items"])) else None
      case IntoProperty(name) =>
        var theirs, ours := GetObj(portable, "properties"), GetObj(live, "properties");
        if theirs.Some? && ours.Some? && name in theirs.value && name in ours.value
        then Some((theirs.value[name], ours.value[name])) else None
  }

  /** `what` is wrong with the pair of schemas that `path` leads to; equal pairs on the way are
      beyond reproach. */
  predicate Reason(portable: JSON, live: JSON, path: seq<Down>, what: Violation)
    decreases |path|
  {
    && portable != live
    && if path == [] then NodeReason(portable, live, what)
       else
         var below := PairBelow(portable, live, path[0]);
         below.Some? && Reason(below.value.0, below.value.1, path[1..], what)
  }

  /** The same, for complaints found at `base` or below. */
  predicate ReasonFrom(portable: JSON, live: JSON, base: seq<Down>, c: Complaint) {
    base <= c.path && Reason(portable, live, c.path[|base|..], c.reason)
  }

  /** All that is wrong at `base` or below. */
  ghost function Complaints(portable: JSON, live: JSON, base: seq<Down>): iset<Complaint> {
    iset c: Complaint | ReasonFrom(portable, live, base, c)
  }

  lemma NoObjectsReason(portable: JSON, live: JSON, base: seq<Down>)
    requires portable != live
    ensures !portable.Obj? ==> Complaints(portable, live, base) == iset{Complaint(base, NotAnObject(Portable))}
    ensures portable.Obj? && !live.Obj? ==> Complaints(portable, live, base) == iset{Complaint(base, NotAnObject(Live))}
  {
    if !portable.Obj? || !live.Obj? {
      forall c | ReasonFrom(portable, live, base, c) ensures c.path == base {
        assert c.path[..|base|] == base;
      }
    }
  }

  /** The same, for complaints found inside the schemas of the items. */
  predicate ReasonInItems(portable: JSON, live: JSON, base: seq<Down>, c: Complaint) {
    var below := PairBelow(portable, live, IntoItems);
    below.Some? && ReasonFrom(below.value.0, below.value.1, base + [IntoItems], c)
  }

  /** What is wrong with the properties of an object, apart from those in `pending`. */
  predicate ReasonInProperties(
      theirs: map<string, JSON>, ours: map<string, JSON>, pending: set<string>, base: seq<Down>, c: Complaint)
  {
    if c.path == base then
      c.reason.MissingProperty? && c.reason.name in theirs.Keys - pending && c.reason.name !in ours
    else
      && base < c.path && c.path[|base|].IntoProperty?
      && var name := c.path[|base|].name;
         name in theirs.Keys - pending && name in ours && Reason(theirs[name], ours[name], c.path[|base| + 1..], c.reason)
  }

  predicate PropertyComplaint(
      theirs: map<string, JSON>, ours: map<string, JSON>, base: seq<Down>, name: string, c: Complaint)
    requires name in theirs
  {
    if name in ours then ReasonFrom(theirs[name], ours[name], base + [IntoProperty(name)], c)
    else c == Complaint(base, MissingProperty(name))
  }

  lemma PropertiesSplit(
      theirs: map<string, JSON>, ours: map<string, JSON>, pending: set<string>, base: seq<Down>, name: string)
    requires name in theirs && name !in pending
    ensures forall c :: ReasonInProperties(theirs, ours, pending, base, c)
              <==> ReasonInProperties(theirs, ours, pending + {name}, base, c)
                   || PropertyComplaint(theirs, ours, base, name, c)
  {
    forall c ensures ReasonInProperties(theirs, ours, pending, base, c)
              <==> ReasonInProperties(theirs, ours, pending + {name}, base, c)
                   || PropertyComplaint(theirs, ours, base, name, c)
    {
      PathBelow(base, IntoProperty(name), c.path);
    }
  }

  lemma PathBelow(base: seq<Down>, step: Down, path: seq<Down>)
    ensures base + [step] <= path <==> base < path && path[|base|] == step
    ensures base < path ==> path[|base|..][1..] == path[|base| + 1..] && path[|base|..][0] == path[|base|]
  {
    if base < path && path[|base|] == step {
      assert path[..|base| + 1] == path[..|base|] + [step];
    }
  }

  predicate ObjectComplaint(portable: JSON, live: JSON, base: seq<Down>, c: Complaint) {
    || (c.path == base && ObjectReason(portable, live, c.reason))
    || (&& GetObj(portable, "properties").Some? && GetObj(live, "properties").Some?
        && ReasonInProperties(GetObj(portable, "properties").value, GetObj(live, "properties").value, {}, base, c))
  }

  predicate ItemsComplaint(portable: JSON, live: JSON, base: seq<Down>, c: Complaint) {
    || (c.path == base && ItemsReason(portable, live, c.reason))
    || ReasonInItems(portable, live, base, c)
  }

  lemma ReasonsSplit(portable: JSON, live: JSON, base: seq<Down>, c: Complaint)
    requires portable != live && portable.Obj? && live.Obj?
    ensures ReasonFrom(portable, live, base, c)
            <==> || (c.path == base && FlatReason(portable, live, c.reason))
                 || ItemsComplaint(portable, live, base, c)
                 || ObjectComplaint(portable, live, base, c)
  {
    if base < c.path {
      PathBelow(base, IntoItems, c.path);
    }
  }

  // The checker

  /** The vector of complaints that every comparison appends to. */
  class Report {
    var violations: seq<Complaint>

    constructor ()
      ensures violations == []
    {
      violations := [];
    }

    method Push(path: seq<Down>, reason: Violation)
      modifies this
      ensures violations == old(violations) + [Complaint(path, reason)]
    {
      violations := violations + [Complaint(path, reason)];
    }
  }

  /** `report` keeps what it held, and holds nothing new exactly when `clean`. */
  twostate predicate Extends(report: Report, clean: bool)
    reads report
  {
    && old(report.violations) <= report.violations
    && (report.violations == old(report.violations) <==> clean)
  }

  /** `report` also holds `complaints`, and nothing else is new. */
  twostate predicate Adds(report: Report, complaints: iset<Complaint>)
    reads report
  {
    forall c :: c in report.violations <==> c in old(report.violations) || c in complaints
  }

  method CompareSchema(path: seq<Down>, portable: JSON, live: JSON, report: Report)
    modifies report
    ensures Extends(report, Compatible(portable, live))
    ensures Adds(report, Complaints(portable, live, path))
    decreases portable, 3
  {
    if portable == live {
      return;
    }
    NoObjectsReason(portable, live, path);
    if !portable.Obj? {
      report.Push(path, NotAnObject(Portable));
      return;
    }
    if !live.Obj? {
      report.Push(path, NotAnObject(Live));
      return;
    }
    CompareFlat(path, portable, live, report);
    CompareItems(path, portable, live, report);
    CompareObject(path, portable, live, report);
    forall c ensures ReasonFrom(portable, live, path, c)
                     <==> || (c.path == path && FlatReason(portable, live, c.reason))
                          || ItemsComplaint(portable, live, path, c)
                          || ObjectComplaint(portable, live, path, c)
    {
      ReasonsSplit(portable, live, path, c);
    }
  }

  /** The keywords that hold no schema. */
  method CompareFlat(path: seq<Down>, portable: JSON, live: JSON, report: Report)
    requires portable.Obj? && live.Obj?
    modifies report
    ensures Extends(report, NodeCompatible(portable, live))
    ensures Adds(report, iset c: Complaint | c.path == path && FlatReason(portable, live, c.reason))
  {
    CheckKeywords(path, Portable, portable.fields, report);
    CheckKeywords(path, Live, live.fields, report);
    CompareType(path, portable, live, report);
    CompareAllowedValues(path, portable, live, report);
    CompareLowerBound(path, "minimum", portable, live, report);
    CompareUpperBound(path, "maximum", portable, live, report);
    CompareLowerBound(path, "minLength", portable, live, report);
    CompareUpperBound(path, "maxLength", portable, live, report);
    CompareLowerBound(path, "minItems", portable, live, report);
    CompareUpperBound(path, "maxItems", portable, live, report);
  }

  method CompareItems(path: seq<Down>, portable: JSON, live: JSON, report: Report)
    requires portable.Obj? && live.Obj?
    modifies report
    ensures Extends(report, ItemsCompatible(portable, live))
    ensures Adds(report, iset c: Complaint | ItemsComplaint(portable, live, path, c))
    decreases portable, 0
  {
    match live.Get("items")
    case None =>
    case Some(liveItems) =>
      match portable.Get("items")
      case Some(portableItems) => CompareSchema(path + [IntoItems], portableItems, liveItems, report);
      case None => report.Push(path, NoPortableItems);
  }

  method CheckKeywords(path: seq<Down>, side: Side, schema: map<string, JSON>, report: Report)
    modifies report
    ensures Extends(report, Interpreted(schema))
    ensures Adds(report, iset c: Complaint | c.path == path && KeywordReason(side, schema, c.reason))
  {
    var keys := schema.Keys;
    while keys != {}
      invariant keys <= schema.Keys
      invariant Extends(report, forall key :: key in schema && key !in keys ==> KnownKeyword(key))
      invariant Adds(report, iset c: Complaint |
                  c.path == path && KeywordReason(side, schema, c.reason) && c.reason.key !in keys)
      decreases keys
    {
      var key :| key in keys;
      keys := keys - {key};
      if key !in SUPPORTED_KEYWORDS && key !in ANNOTATION_KEYWORDS {
        report.Push(path, UnsupportedKeyword(side, key));
      }
    }
  }

  method CompareType(path: seq<Down>, portable: JSON, live: JSON, report: Report)
    modifies report
    ensures Extends(report, TypeCompatible(portable, live))
    ensures Adds(report, iset c: Complaint | c.path == path && TypeReason(portable, live, c.reason))
  {
    var liveType := GetStr(live, "type");
    if liveType == None {
      return;
    }
    var portableType := GetStr(portable, "type");
    if portableType == None {
      var values := AllowedValues(portable);
      if values == None {
        report.Push(path, NoPortableType(liveType.value));
        return;
      }
      CompareValues(path, values.value, liveType.value, report);
      return;
    }
    if !TypesCompatible(portableType.value, liveType.value) {
      report.Push(path, TypeNotSubset(portableType.value, liveType.value));
    }
  }

  /** The loop over the values of a schema without a type. */
  method CompareValues(path: seq<Down>, values: seq<JSON>, liveType: string, report: Report)
    modifies report
    ensures Extends(report, forall x :: x in values ==> ValueMatchesType(x, liveType))
    ensures Adds(report, iset c: Complaint | c.path == path && OutsideType(values, liveType, c.reason))
  {
    for i := 0 to |values|
      invariant Extends(report, forall x :: x in values[..i] ==> ValueMatchesType(x, liveType))
      invariant Adds(report, iset c: Complaint | c.path == path && OutsideType(values[..i], liveType, c.reason))
    {
      assert values[..i + 1] == values[..i] + [values[i]];
      if !ValueMatchesType(values[i], liveType) {
        report.Push(path, ValueOutsideLiveType(values[i], liveType));
      }
    }
    assert values[..|values|] == values;
  }

  method CompareAllowedValues(path: seq<Down>, portable: JSON, live: JSON, report: Report)
    modifies report
    ensures Extends(report, AllowedCompatible(portable, live))
    ensures Adds(report, iset c: Complaint | c.path == path && ValueReason(portable, live, c.reason))
  {
    var liveValues := AllowedValues(live);
    if liveValues == None {
      return;
    }
    var portableValues := AllowedValues(portable);
    if portableValues == None {
      report.Push(path, NoPortableValues);
      return;
    }
    CompareEachValue(path, portableValues.value, liveValues.value, report);
  }

  /** The loop over the values that the portable schema allows. */
  method CompareEachValue(path: seq<Down>, values: seq<JSON>, liveValues: seq<JSON>, report: Report)
    modifies report
    ensures Extends(report, forall x :: x in values ==> x in liveValues)
    ensures Adds(report, iset c: Complaint | c.path == path && OutsideValues(values, liveValues, c.reason))
  {
    for i := 0 to |values|
      invariant Extends(report, forall x :: x in values[..i] ==> x in liveValues)
      invariant Adds(report, iset c: Complaint | c.path == path && OutsideValues(values[..i], liveValues, c.reason))
    {
      assert values[..i + 1] == values[..i] + [values[i]];
      if values[i] !in liveValues {
        report.Push(path, ValueNotLive(values[i]));
      }
    }
    assert values[..|values|] == values;
  }

  method CompareLowerBound(path: seq<Down>, keyword: string, portable: JSON, live: JSON, report: Report)
    requires keyword in LOWER_BOUNDS
    modifies report
    ensures Extends(report, LowerCompatible(keyword, portable, live))
    ensures Adds(report, iset c: Complaint | c.path == path && BoundReason(keyword, portable, live, c.reason))
  {
    var liveValue := live.Get(keyword);
    if liveValue == None {
      return;
    }
    if !liveValue.value.Num? {
      report.Push(path, BoundNotNumeric(Live, keyword));
      return;
    }
    var portableValue := portable.Get(keyword);
    if portableValue == None {
      report.Push(path, NoPortableBound(keyword));
      return;
    }
    if !portableValue.value.Num? {
      report.Push(path, BoundNotNumeric(Portable, keyword));
      return;
    }
    if portableValue.value.n.AsF64() < liveValue.value.n.AsF64() {
      report.Push(path, BroaderBound(keyword));
    }
  }

  method CompareUpperBound(path: seq<Down>, keyword: string, portable: JSON, live: JSON, report: Report)
    requires keyword in UPPER_BOUNDS
    modifies report
    ensures Extends(report, UpperCompatible(keyword, portable, live))
    ensures Adds(report, iset c: Complaint | c.path == path && BoundReason(keyword, portable, live, c.reason))
  {
    var liveValue := live.Get(keyword);
    if liveValue == None {
      return;
    }
    if !liveValue.value.Num? {
      report.Push(path, BoundNotNumeric(Live, keyword));
      return;
    }
    var portableValue := portable.Get(keyword);
    if portableValue == None {
      report.Push(path, NoPortableBound(keyword));
      return;
    }
    if !portableValue.value.Num? {
      report.Push(path, BoundNotNumeric(Portable, keyword));
      return;
    }
    if portableValue.value.n.AsF64() > liveValue.value.n.AsF64() {
      report.Push(path, BroaderBound(keyword));
    }
  }

  method CompareObject(path: seq<Down>, portable: JSON, live: JSON, report: Report)
    requires portable.Obj? && live.Obj?
    modifies report
    ensures Extends(report, ObjectCompatible(portable, live))
    ensures Adds(report, iset c: Complaint | ObjectComplaint(portable, live, path, c))
    decreases portable, 2
  {
    var portableProperties := GetObj(portable, "properties");
    var liveProperties := GetObj(live, "properties");
    if portableProperties.Some? {
      if liveProperties == None {
        report.Push(path, NoLiveProperties);
        return;
      }
      CompareProperties(path, portable, portableProperties.value, liveProperties.value, report);
    }
    CompareRequired(path, StringSet(portable, "required"), StringSet(live, "required"), report);
    if AllowsAdditional(portable) && !AllowsAdditional(live) {
      report.Push(path, AdditionalProperties);
    }
  }

  /** The loop over the properties that the portable schema declares. */
  method CompareProperties(
      path: seq<Down>, ghost portable: JSON, theirs: map<string, JSON>, ours: map<string, JSON>, report: Report)
    requires GetObj(portable, "properties") == Some(theirs)
    modifies report
    ensures Extends(report, forall name :: name in theirs ==> name in ours && Compatible(theirs[name], ours[name]))
    ensures Adds(report, iset c: Complaint | ReasonInProperties(theirs, ours, {}, path, c))
    decreases portable, 1
  {
    var names := theirs.Keys;
    while names != {}
      invariant names <= theirs.Keys
      invariant Extends(report,
                        forall name :: name in theirs && name !in names ==>
                          name in ours && Compatible(theirs[name], ours[name]))
      invariant Adds(report, iset c: Complaint | ReasonInProperties(theirs, ours, names, path, c))
      decreases names
    {
      var name :| name in names;
      names := names - {name};
      CompareProperty(path, portable, theirs, ours, name, report);
      PropertiesSplit(theirs, ours, names, path, name);
    }
  }

  /** The body of that loop. */
  method CompareProperty(
      path: seq<Down>, ghost portable: JSON, theirs: map<string, JSON>, ours: map<string, JSON>, name: string, report: Report)
    requires GetObj(portable, "properties") == Some(theirs) && name in theirs
    modifies report
    ensures Extends(report, name in ours && Compatible(theirs[name], ours[name]))
    ensures Adds(report, iset c: Complaint | PropertyComplaint(theirs, ours, path, name, c))
    decreases portable, 0
  {
    if name !in ours {
      report.Push(path, MissingProperty(name));
    } else {
      CompareSchema(path + [IntoProperty(name)], theirs[name], ours[name], report);
    }
  }

  method CompareRequired(path: seq<Down>, portableRequired: set<string>, liveRequired: set<string>, report: Report)
    modifies report
    ensures Extends(report, liveRequired <= portableRequired)
    ensures Adds(report, iset c: Complaint |
                && c.path == path && c.reason.MayBeOmitted?
                && c.reason.name in liveRequired && c.reason.name !in portableRequired)
  {
    var missing := liveRequired - portableRequired;
    assert missing == {} <==> liveRequired <= portableRequired by {
      assert liveRequired <= missing + portableRequired;
    }
    label Required:
    while missing != {}
      invariant missing <= liveRequired - portableRequired
      invariant old@Required(report.violations) <= report.violations
      invariant report.violations == old@Required(report.violations)
                <==> missing == liveRequired - portableRequired
      invariant Adds(report, iset c: Complaint |
                  && c.path == path && c.reason.MayBeOmitted?
                  && c.reason.name in liveRequired - portableRequired && c.reason.name !in missing)
      decreases missing
    {
      var name :| name in missing;
      missing := missing - {name};
      report.Push(path, MayBeOmitted(name));
    }
  }
}
