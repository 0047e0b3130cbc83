/** The report is empty exactly on compatible pairs: there is a reason for a complaint exactly
    where some part of a pair is not compatible. */
module CompatibilityReasons {
  import opened Wrappers
  import opened Json
  import opened JsonSchema
  import opened Compatibility

  lemma KeywordsExactly(side: Side, schema: map<string, JSON>)
    ensures Interpreted(schema) <==> forall what :: !KeywordReason(side, schema, what)
  {
    forall key | key in schema && !KnownKeyword(key) ensures KeywordReason(side, schema, UnsupportedKeyword(side, key)) {
    }
  }

  lemma TypeExactly(portable: JSON, live: JSON)
    ensures TypeCompatible(portable, live) <==> forall what :: !TypeReason(portable, live, what)
  {
    if GetStr(live, "type").Some? && !TypeCompatible(portable, live) {
      var liveType := GetStr(live, "type").value;
      if GetStr(portable, "type").Some? {
        assert TypeReason(portable, live, TypeNotSubset(GetStr(portable, "type").value, liveType));
      } else if AllowedValues(portable) == None {
        assert TypeReason(portable, live, NoPortableType(liveType));
      } else {
        var x :| x in AllowedValues(portable).value && !ValueMatchesType(x, liveType);
        assert TypeReason(portable, live, ValueOutsideLiveType(x, liveType));
      }
    }
  }

  lemma ValuesExactly(portable: JSON, live: JSON)
    ensures AllowedCompatible(portable, live) <==> forall what :: !ValueReason(portable, live, what)
  {
    if !AllowedCompatible(portable, live) {
      if AllowedValues(portable) == None {
        assert ValueReason(portable, live, NoPortableValues);
      } else {
        var x :| x in AllowedValues(portable).value && x !in AllowedValues(live).value;
        assert ValueReason(portable, live, ValueNotLive(x));
      }
    }
  }

  lemma BoundExactly(keyword: string, portable: JSON, live: JSON)
    requires keyword in LOWER_BOUNDS || keyword in UPPER_BOUNDS
    ensures (if keyword in LOWER_BOUNDS then LowerCompatible(keyword, portable, live)
             else UpperCompatible(keyword, portable, live))
            <==> forall what :: !BoundReason(keyword, portable, live, what)
  {
    var reasons := [BoundNotNumeric(Live, keyword), NoPortableBound(keyword), BoundNotNumeric(Portable, keyword),
                    BroaderBound(keyword)];
    assert (forall what :: !BoundReason(keyword, portable, live, what))
           <==> && !BoundReason(keyword, portable, live, reasons[0]) && !BoundReason(keyword, portable, live, reasons[1])
                && !BoundReason(keyword, portable, live, reasons[2]) && !BoundReason(keyword, portable, live, reasons[3]);
  }

  lemma FlatExactly(portable: JSON, live: JSON)
    requires portable.Obj? && live.Obj?
    ensures NodeCompatible(portable, live) <==> forall what :: !FlatReason(portable, live, what)
  {
    KeywordsExactly(Portable, portable.fields);
    KeywordsExactly(Live, live.fields);
    TypeExactly(portable, live);
    ValuesExactly(portable, live);
    BoundExactly("minimum", portable, live);
    BoundExactly("maximum", portable, live);
    BoundExactly("minLength", portable, live);
    BoundExactly("maxLength", portable, live);
    BoundExactly("minItems", portable, live);
    BoundExactly("maxItems", portable, live);
    if forall what :: !FlatReason(portable, live, what) {
      forall what
        ensures !KeywordReason(Portable, portable.fields, what) && !KeywordReason(Live, live.fields, what)
        ensures !TypeReason(portable, live, what) && !ValueReason(portable, live, what)
        ensures !BoundReason("minimum", portable, live, what) && !BoundReason("maximum", portable, live, what)
        ensures !BoundReason("minLength", portable, live, what) && !BoundReason("maxLength", portable, live, what)
        ensures !BoundReason("minItems", portable, live, what) && !BoundReason("maxItems", portable, live, what)
      {
        assert !FlatReason(portable, live, what);
      }
    }
  }

  /** Nothing is wrong anywhere inside. */
  ghost predicate Flawless(portable: JSON, live: JSON) {
    forall path, what :: !Reason(portable, live, path, what)
  }

  lemma FlawlessInside(portable: JSON, live: JSON, step: Down)
    requires Flawless(portable, live) && portable != live && PairBelow(portable, live, step).Some?
    ensures var (theirs, ours) := PairBelow(portable, live, step).value; Flawless(theirs, ours)
  {
    var (theirs, ours) := PairBelow(portable, live, step).value;
    forall path, what ensures !Reason(theirs, ours, path, what) {
      assert ([step] + path)[1..] == path;
      assert !Reason(portable, live, [step] + path, what);
    }
  }

  lemma FlawlessHere(portable: JSON, live: JSON, what: Violation)
    requires Flawless(portable, live) && portable != live
    ensures !NodeReason(portable, live, what)
  {
    assert !Reason(portable, live, [], what);
  }

  /** A pair is compatible exactly if nothing is wrong with it or inside. */
  lemma {:induction false} NoReasonExactly(portable: JSON, live: JSON)
    ensures Compatible(portable, live) <==> Flawless(portable, live)
    decreases portable
  {
    if Compatible(portable, live) {
      forall path, what ensures !Reason(portable, live, path, what) {
        CompatibleHasNoReason(portable, live, path, what);
      }
    }
    if Flawless(portable, live) && portable != live {
      FlawlessHere(portable, live, NotAnObject(Portable));
      FlawlessHere(portable, live, NotAnObject(Live));
      forall what ensures !FlatReason(portable, live, what) {
        FlawlessHere(portable, live, what);
      }
      FlatExactly(portable, live);
      FlawlessItems(portable, live);
      FlawlessObject(portable, live);
    }
  }

  lemma {:induction false} FlawlessItems(portable: JSON, live: JSON)
    requires portable.Obj? && live.Obj? && portable != live && Flawless(portable, live)
    ensures ItemsCompatible(portable, live)
    decreases portable, 0
  {
    FlawlessHere(portable, live, NoPortableItems);
    if "items" in live.fields {
      FlawlessInside(portable, live, IntoItems);
      NoReasonExactly(portable.fields["items"], live.fields["items"]);
    }
  }

  lemma {:induction false} FlawlessObject(portable: JSON, live: JSON)
    requires portable.Obj? && live.Obj? && portable != live && Flawless(portable, live)
    ensures ObjectCompatible(portable, live)
    decreases portable, 0
  {
    FlawlessHere(portable, live, NoLiveProperties);
    FlawlessHere(portable, live, AdditionalProperties);
    assert !ObjectReason(portable, live, NoLiveProperties);
    forall name | name in StringSet(live, "required") ensures name in StringSet(portable, "required") {
      FlawlessHere(portable, live, MayBeOmitted(name));
      assert !ObjectReason(portable, live, MayBeOmitted(name));
    }
    if GetObj(portable, "properties").Some? {
      var theirs, ours := portable.fields["properties"].fields, live.fields["properties"].fields;
      forall name | name in theirs ensures name in ours && Compatible(theirs[name], ours[name]) {
        FlawlessHere(portable, live, MissingProperty(name));
        FlawlessInside(portable, live, IntoProperty(name));
        NoReasonExactly(theirs[name], ours[name]);
      }
    }
  }

  lemma {:induction false} CompatibleHasNoReason(portable: JSON, live: JSON, path: seq<Down>, what: Violation)
    requires Compatible(portable, live)
    ensures !Reason(portable, live, path, what)
    decreases |path|
  {
    if portable != live {
      if path == [] {
        FlatExactly(portable, live);
      } else {
        var below := PairBelow(portable, live, path[0]);
        if below.Some? {
          CompatibleHasNoReason(below.value.0, below.value.1, path[1..], what);
        }
      }
    }
  }
}
