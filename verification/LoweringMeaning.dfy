/** Lowering keeps what a schema accepts: it never turns an accepted value away unless two
    bounds clash, and accepts nothing new where null is only written as a branch of its own. */
module LoweringMeaning {
  import opened OpenApi

  predicate IsSchema(x: Json) {
    x.Bool? || x.Obj?
  }

  predicate AllSchemas(x: Json) {
    x.Arr? && forall i | 0 <= i < |x.items| :: IsSchema(x.items[i])
  }

  /** The fragment: each keyword, where present, holds what the 3.1 dialect says it holds. Any
      other key is an annotation. */
  predicate WellFormedKey(key: string, x: Json) {
    if IsBound(key) then x.Num?
    else
      match key
      case "type" => x.Str?
      case "properties" => x.Obj? && forall k | k in x.fields :: IsSchema(x.fields[k])
      case "items" => IsSchema(x)
      case "anyOf" => AllSchemas(x)
      case "allOf" => AllSchemas(x)
      case "$ref" => x.Str?
      case _ => true
  }

  /** Holds of a schema and of every schema in it. */
  predicate Everywhere(s: Json, p: Fields -> bool)
    decreases s, 0
  {
    match s
    case Bool(_) => true
    case Obj(m) => p(m) && forall key | key in m :: WellFormedKey(key, m[key]) && EverywhereIn(key, m[key], p)
    case _ => false
  }

  predicate EverywhereIn(key: string, x: Json, p: Fields -> bool)
    decreases x, 1
  {
    match key
    case "properties" => x.Obj? ==> forall k | k in x.fields :: Everywhere(x.fields[k], p)
    case "items" => Everywhere(x, p)
    case "anyOf" => x.Arr? ==> forall i | 0 <= i < |x.items| :: Everywhere(x.items[i], p)
    case "allOf" => x.Arr? ==> forall i | 0 <= i < |x.items| :: Everywhere(x.items[i], p)
    case _ => true
  }

  // ----- Lowering, field by field -----

  function LowerEach(m: Fields): Fields {
    map key | key in m :: Lower(m[key])
  }

  lemma LowerKeepsKinds(x: Json)
    ensures Lower(x).Num? <==> x.Num?
    ensures Lower(x).Bool? <==> x.Bool?
    ensures Lower(x).Obj? <==> x.Obj?
    ensures Lower(x).Str? <==> x.Str?
    ensures x.Num? || x.Bool? || x.Str? ==> Lower(x) == x
  {
  }

  /** Normalised fields have no numeric exclusive bound left. */
  lemma LoweredBoundsAreFlags(m: Fields)
    ensures !HasNum(NormalizeBounds(m), "exclusiveMinimum") && !HasNum(NormalizeBounds(m), "exclusiveMaximum")
  {
    OneBound(m, "minimum", "exclusiveMinimum");
    OneBound(NormalizeBound(m, "minimum", "exclusiveMinimum"), "maximum", "exclusiveMaximum");
  }

  lemma LoweredObjectIsNormal(x: Json)
    requires x.Obj?
    ensures Lower(x).Obj?
    ensures !HasNum(Lower(x).fields, "exclusiveMinimum") && !HasNum(Lower(x).fields, "exclusiveMaximum")
  {
    hide NormalizeBounds;
    var m, transformed := x.fields, LowerEach(x.fields);
    assert Lower(x) == Obj(LowerFields(m, transformed));
    var n := NullBranch(m);
    if n < 2 && transformed["anyOf"].items[1 - n].Obj? {
      var wrapper, alternative := transformed - {"anyOf"}, transformed["anyOf"].items[1 - n].fields;
      LoweredBoundsAreFlags(wrapper["allOf" := Arr([Obj(alternative)])]["nullable" := Bool(true)]);
      LoweredBoundsAreFlags((alternative + wrapper)["nullable" := Bool(true)]);
    } else {
      LoweredBoundsAreFlags((transformed - {"type"})["nullable" := Bool(true)]);
      LoweredBoundsAreFlags(transformed);
    }
  }

  /** A `properties` object is not mistaken for a schema: its values are schemas, so none of
      the rewrites applies to it, whatever the properties are called. */
  lemma PropertiesLowerPointwise(x: Json)
    requires WellFormedKey("properties", x)
    ensures Lower(x) == Obj(LowerEach(x.fields))
  {
    var m, transformed := x.fields, LowerEach(x.fields);
    forall k | k in m
      ensures IsSchema(Lower(m[k]))
    {
      LowerKeepsKinds(m[k]);
    }
    assert NullBranch(m) == 2;
    assert NormalizeBound(transformed, "minimum", "exclusiveMinimum") == transformed;
    assert NormalizeBounds(transformed) == transformed;
    assert Lower(x) == Obj(LowerFields(m, transformed));
  }

  predicate WellFormed(m: Fields) {
    forall key | key in m :: WellFormedKey(key, m[key])
  }

  /** Fields whose numbers were not touched put the same bounds on a value. */
  lemma SameBounds(a: Fields, b: Fields, v: Json)
    requires forall key | IsBound(key) :: (key in a <==> key in b) && (key in a ==> a[key] == b[key])
    ensures InBounds(V31, a, v) == InBounds(V31, b, v)
    ensures InBounds(V30, a, v) == InBounds(V30, b, v)
  {
    assert IsBound("minimum") && IsBound("maximum") && IsBound("exclusiveMinimum") && IsBound("exclusiveMaximum");
  }

  lemma LowerEachKeepsBounds(m: Fields)
    requires WellFormed(m)
    ensures forall key | IsBound(key) ::
      (key in LowerEach(m) <==> key in m) && (key in m ==> LowerEach(m)[key] == m[key])
    ensures ExclusivesAreNumbers(m) && ExclusivesAreNumbers(LowerEach(m))
  {
    assert IsBound("exclusiveMinimum") && IsBound("exclusiveMaximum");
    forall key | key in m && IsBound(key)
      ensures LowerEach(m)[key] == m[key]
    {
      LowerKeepsKinds(m[key]);
    }
  }

  // ----- Clashing bounds -----

  /** A strict bound inside the alternative and a plain one beside the `anyOf` clash when the
      plain one is the tighter: the merge keeps the plain bound and makes it strict. */
  predicate MinimumClashes(wrapper: Fields, alternative: Fields) {
    && HasNum(wrapper, "minimum") && "exclusiveMinimum" !in wrapper
    && IsTrue(alternative, "exclusiveMinimum")
    && (HasNum(alternative, "minimum") ==> wrapper["minimum"].n > alternative["minimum"].n)
  }

  predicate MaximumClashes(wrapper: Fields, alternative: Fields) {
    && HasNum(wrapper, "maximum") && "exclusiveMaximum" !in wrapper
    && IsTrue(alternative, "exclusiveMaximum")
    && (HasNum(alternative, "maximum") ==> wrapper["maximum"].n < alternative["maximum"].n)
  }

  /** The node is one the first rewrite merges. */
  predicate IsNullable(m: Fields) {
    NullBranch(m) < 2 && m["anyOf"].items[1 - NullBranch(m)].Obj?
  }

  function AlternativeOf(m: Fields): Json
    requires NullBranch(m) < 2
  {
    m["anyOf"].items[1 - NullBranch(m)]
  }

  function WrapperOf(m: Fields): Fields {
    LowerEach(m) - {"anyOf"}
  }

  function LoweredAlternative(m: Fields): Fields
    requires IsNullable(m)
  {
    LowerKeepsKinds(AlternativeOf(m));
    Lower(AlternativeOf(m)).fields
  }

  predicate NoClash(m: Fields) {
    Merges(m) ==> !MinimumClashes(m, LoweredAlternative(m)) && !MaximumClashes(m, LoweredAlternative(m))
  }

  /** The keywords of an alternative and of its wrapper end up in one object that counts. */
  predicate Merges(m: Fields) {
    IsNullable(m) && "$ref" !in LoweredAlternative(m) && "$ref" !in m
  }

  /** The value is not the very bound that a clash turns strict. */
  predicate AvoidsClash(m: Fields, v: Json) {
    Merges(m) ==>
      && (MinimumClashes(m, LoweredAlternative(m)) ==> v != m["minimum"])
      && (MaximumClashes(m, LoweredAlternative(m)) ==> v != m["maximum"])
  }

  lemma LowerUnfolds(m: Fields)
    ensures Lower(Obj(m)) == Obj(
      if IsNullable(m) then MergeNullable(WrapperOf(m), LoweredAlternative(m))
      else if "type" in m && m["type"] == Str("null") then
        NormalizeBounds((LowerEach(m) - {"type"})["nullable" := Bool(true)])
      else NormalizeBounds(LowerEach(m)))
  {
    hide NormalizeBounds, MergeNullable;
    assert Lower(Obj(m)) == Obj(LowerFields(m, LowerEach(m)));
    if NullBranch(m) < 2 {
      LowerKeepsKinds(AlternativeOf(m));
      assert LowerEach(m)["anyOf"].items[1 - NullBranch(m)] == Lower(AlternativeOf(m));
    }
    if "type" in m {
      LowerKeepsKinds(m["type"]);
    }
  }

  // ----- Nothing written in a schema is lost -----

  /** An `anyOf` of two branches, of which the one at `i` is null and the other is an object. */
  predicate IsUnion(m: Fields, i: nat) {
    && "anyOf" in m && m["anyOf"].Arr? && |m["anyOf"].items| == 2 && i < 2
    && m["anyOf"].items[i] == Obj(map["type" := Str("null")])
    && m["anyOf"].items[1 - i].Obj?
    && m["anyOf"].items[1 - i] != m["anyOf"].items[i]
  }

  /** The keys of a lowered union, other than the bounds. Annotations beside the `anyOf` stay,
      and win over those of the branch; a branch that is a reference is kept whole in an `allOf`,
      so that it does not hide them; any other branch gives its keys to the union. */
  predicate MergesKey(m: Fields, branch: Fields, out: Fields, key: string) {
    if key == "nullable" then key in out && out[key] == Bool(true)
    else if key == "allOf" && "$ref" in branch then key in out && out[key] == Arr([Obj(branch)])
    else if key in m && key != "anyOf" then key in out && out[key] == Lower(m[key])
    else if "$ref" in branch then key !in out
    else (key in out <==> key in branch) && (key in out ==> out[key] == branch[key])
  }

  lemma UnionKeepsEveryKey(m: Fields, i: nat, key: string)
    requires IsUnion(m, i) && !IsBound(key)
    ensures Lower(m["anyOf"].items[1 - i]).Obj? && Lower(Obj(m)).Obj?
    ensures MergesKey(m, Lower(m["anyOf"].items[1 - i]).fields, Lower(Obj(m)).fields, key)
  {
    hide NormalizeBounds, Lower;
    LowerUnfolds(m);
    LowerKeepsKinds(m["anyOf"].items[1 - i]);
    assert NullBranch(m) == i;
    var w, a := WrapperOf(m), LoweredAlternative(m);
    BoundsKeepTheirMeaning(w["allOf" := Arr([Obj(a)])]["nullable" := Bool(true)]);
    BoundsKeepTheirMeaning((a + w)["nullable" := Bool(true)]);
  }

  /** Any other schema keeps its keys, lowered, but for a null type, which becomes a flag. */
  lemma PlainKeepsEveryKey(m: Fields, key: string)
    requires !IsUnion(m, 0) && !IsUnion(m, 1) && !IsBound(key)
    ensures Lower(Obj(m)).Obj?
    ensures var out := Lower(Obj(m)).fields;
      if "type" in m && m["type"] == Str("null") && (key == "type" || key == "nullable") then
        if key == "type" then key !in out else key in out && out[key] == Bool(true)
      else (key in out <==> key in m) && (key in m ==> out[key] == Lower(m[key]))
  {
    hide NormalizeBounds, Lower;
    LowerUnfolds(m);
    if NullBranch(m) < 2 {
      assert !m["anyOf"].items[1 - NullBranch(m)].Obj?;
    }
    BoundsKeepTheirMeaning((LowerEach(m) - {"type"})["nullable" := Bool(true)]);
    BoundsKeepTheirMeaning(LowerEach(m));
  }

  /** Without a clash, the merged bounds let through whatever both sides let through. */
  lemma MergedMinimum(wrapper: Fields, alternative: Fields, x: real)
    requires !HasNum(alternative, "exclusiveMinimum")
    requires "minimum" in wrapper ==> wrapper["minimum"].Num?
    requires "exclusiveMinimum" in wrapper ==> wrapper["exclusiveMinimum"].Num?
    requires MinimumClashes(wrapper, alternative) ==> x != wrapper["minimum"].n
    requires AboveMinimum(V31, wrapper, x) && AboveMinimum(V30, alternative, x)
    ensures AboveMinimum(V30, NormalizeBounds((alternative + wrapper)["nullable" := Bool(true)]), x)
  {
    var merged := (alternative + wrapper)["nullable" := Bool(true)];
    OneBound(NormalizeBound(merged, "minimum", "exclusiveMinimum"), "maximum", "exclusiveMaximum");
  }

  lemma MergedMaximum(wrapper: Fields, alternative: Fields, x: real)
    requires !HasNum(alternative, "exclusiveMaximum")
    requires "maximum" in wrapper ==> wrapper["maximum"].Num?
    requires "exclusiveMaximum" in wrapper ==> wrapper["exclusiveMaximum"].Num?
    requires MaximumClashes(wrapper, alternative) ==> x != wrapper["maximum"].n
    requires BelowMaximum(V31, wrapper, x) && BelowMaximum(V30, alternative, x)
    ensures BelowMaximum(V30, NormalizeBounds((alternative + wrapper)["nullable" := Bool(true)]), x)
  {
    var merged := (alternative + wrapper)["nullable" := Bool(true)];
    OneBound(merged, "minimum", "exclusiveMinimum");
  }

  // ----- Lowering never narrows -----

  ghost predicate RefsWiden(r31: Refs, r30: Refs) {
    forall name, v :: r31(name, v) ==> r30(name, v)
  }

  /** Acceptance in 3.0, spelled out for a node. */
  lemma AcceptedIn30(m: Fields, v: Json, refs: Refs)
    requires IsRef(m) ==> refs(m["$ref"].s, v)
    requires IsRef(m) || (IsTrue(m, "nullable") && v.Null?)
      || (InBounds(V30, m, v) && forall key | key in m :: KeyAccepts(V30, key, m[key], v, refs))
    ensures Accepts(V30, Obj(m), v, refs)
  {
  }

  lemma BoundsSayNothingElse(key: string, x: Json, v: Json, d: Dialect, refs: Refs)
    requires IsBound(key) || key == "nullable"
    ensures KeyAccepts(d, key, x, v, refs)
  {
  }

  lemma {:induction false} Widens(s: Json, v: Json, r31: Refs, r30: Refs)
    requires RefsWiden(r31, r30) && Everywhere(s, NoClash)
    requires Accepts(V31, s, v, r31)
    ensures Accepts(V30, Lower(s), v, r30)
    decreases s, v, 3
  {
    if s.Obj? {
      NodeWidens(s.fields, v, r31, r30);
    }
  }

  lemma {:induction false} KeyWidens(key: string, x: Json, v: Json, r31: Refs, r30: Refs)
    requires RefsWiden(r31, r30) && WellFormedKey(key, x) && EverywhereIn(key, x, NoClash)
    requires KeyAccepts(V31, key, x, v, r31)
    ensures KeyAccepts(V30, key, Lower(x), v, r30)
    decreases x, v, 0
  {
    hide NoClash;
    match key
    case "properties" =>
      PropertiesLowerPointwise(x);
      if v.Obj? {
        forall k | k in x.fields && k in v.fields
          ensures Accepts(V30, Lower(x.fields[k]), v.fields[k], r30)
        {
          Widens(x.fields[k], v.fields[k], r31, r30);
        }
      }
    case "items" =>
      if v.Arr? {
        forall i | 0 <= i < |v.items|
          ensures Accepts(V30, Lower(x), v.items[i], r30)
        {
          Widens(x, v.items[i], r31, r30);
        }
      }
    case "anyOf" =>
      var i :| 0 <= i < |x.items| && Accepts(V31, x.items[i], v, r31);
      Widens(x.items[i], v, r31, r30);
      assert Lower(x).items[i] == Lower(x.items[i]);
    case "allOf" =>
      forall i | 0 <= i < |x.items|
        ensures Accepts(V30, Lower(x.items[i]), v, r30)
      {
        Widens(x.items[i], v, r31, r30);
      }
    case _ =>
      LowerKeepsKinds(x);
  }

  /** The schemas below a node are in the fragment and free of clashes. */
  predicate ChildrenFit(m: Fields) {
    forall key | key in m :: WellFormedKey(key, m[key]) && EverywhereIn(key, m[key], NoClash)
  }

  lemma {:induction false} FieldsWiden(m: Fields, v: Json, r31: Refs, r30: Refs)
    requires RefsWiden(r31, r30) && ChildrenFit(m)
    requires forall key | key in m :: KeyAccepts(V31, key, m[key], v, r31)
    ensures forall key | key in LowerEach(m) :: KeyAccepts(V30, key, LowerEach(m)[key], v, r30)
    decreases Obj(m), v, 1
  {
    forall key | key in m
      ensures KeyAccepts(V30, key, Lower(m[key]), v, r30)
    {
      assert m[key] < Obj(m);
      KeyWidens(key, m[key], v, r31, r30);
    }
  }

  lemma {:induction false} NodeWidens(m: Fields, v: Json, r31: Refs, r30: Refs)
    requires RefsWiden(r31, r30) && ChildrenFit(m) && AvoidsClash(m, v)
    requires Accepts(V31, Obj(m), v, r31)
    ensures Accepts(V30, Lower(Obj(m)), v, r30)
    decreases Obj(m), v, 2
  {
    hide NoClash, AvoidsClash, EverywhereIn, NormalizeBounds, MergeNullable;
    LowerUnfolds(m);
    FieldsWiden(m, v, r31, r30);
    if IsNullable(m) {
      NullableWidens(m, v, r31, r30);
    } else if "type" in m && m["type"] == Str("null") {
      NullTypeWidens(m, v, r30);
    } else {
      PlainWidens(m, v, r30);
    }
  }

  lemma NullTypeWidens(m: Fields, v: Json, r30: Refs)
    requires WellFormed(m) && InBounds(V31, m, v)
    requires forall key | key in LowerEach(m) :: KeyAccepts(V30, key, LowerEach(m)[key], v, r30)
    ensures Accepts(V30, Obj(NormalizeBounds((LowerEach(m) - {"type"})["nullable" := Bool(true)])), v, r30)
  {
    var t := (LowerEach(m) - {"type"})["nullable" := Bool(true)];
    LowerEachKeepsBounds(m);
    SameBounds(m, t, v);
    BoundsSayNothingElse("nullable", Bool(true), v, V30, r30);
    BoundsOnly(t, v, r30);
  }

  /** A value a null branch and its alternative accept is null or the alternative's. */
  lemma EitherNullOrAlternative(m: Fields, v: Json, refs: Refs)
    requires NullBranch(m) < 2 && KeyAccepts(V31, "anyOf", m["anyOf"], v, refs)
    ensures v.Null? || Accepts(V31, AlternativeOf(m), v, refs)
  {
    var i :| 0 <= i < 2 && Accepts(V31, m["anyOf"].items[i], v, refs);
    if i == NullBranch(m) {
      OnlyNullIsNull(v, refs);
    }
  }

  lemma OnlyNullIsNull(v: Json, refs: Refs)
    ensures Accepts(V31, NULL_SCHEMA, v, refs) ==> v.Null?
  {
    if Accepts(V31, NULL_SCHEMA, v, refs) {
      var fields := NULL_SCHEMA.fields;
      assert "type" in fields;
      assert KeyAccepts(V31, "type", fields["type"], v, refs);
    }
  }

  lemma AlternativeFits(m: Fields)
    requires ChildrenFit(m) && IsNullable(m)
    ensures Everywhere(AlternativeOf(m), NoClash)
  {
    hide NoClash;
    assert EverywhereIn("anyOf", m["anyOf"], NoClash);
  }

  lemma {:induction false} NullableWidens(m: Fields, v: Json, r31: Refs, r30: Refs)
    requires RefsWiden(r31, r30) && ChildrenFit(m) && AvoidsClash(m, v) && IsNullable(m)
    requires InBounds(V31, m, v)
    requires forall key | key in m :: KeyAccepts(V31, key, m[key], v, r31)
    requires forall key | key in LowerEach(m) :: KeyAccepts(V30, key, LowerEach(m)[key], v, r30)
    ensures Accepts(V30, Obj(MergeNullable(WrapperOf(m), LoweredAlternative(m))), v, r30)
    decreases Obj(m), v, 1
  {
    hide NoClash, AvoidsClash, EverywhereIn, NormalizeBounds, NullBranch;
    var a := LoweredAlternative(m);
    EitherNullOrAlternative(m, v, r31);
    if v.Null? {
      NullIsAccepted(m, a, r30);
    } else {
      assert AlternativeOf(m) < Obj(m);
      AlternativeFits(m);
      Widens(AlternativeOf(m), v, r31, r30);
      LowerKeepsKinds(AlternativeOf(m));
      if "$ref" in a {
        ReferenceWidens(m, a, v, r30);
      } else {
        LoweredObjectIsNormal(AlternativeOf(m));
        MergeWidens(m, v, r30);
      }
    }
  }

  lemma ReferenceKeyMeans(x: Json, v: Json, refs: Refs)
    requires x.Str?
    ensures KeyAccepts(V30, "$ref", x, v, refs) <==> refs(x.s, v)
  {
  }

  lemma NullIsAccepted(m: Fields, a: Fields, r30: Refs)
    requires WellFormed(m)
    requires forall key | key in LowerEach(m) :: KeyAccepts(V30, key, LowerEach(m)[key], Null, r30)
    ensures Accepts(V30, Obj(MergeNullable(WrapperOf(m), a)), Null, r30)
  {
    var w := WrapperOf(m);
    var merged := if "$ref" in a then w["allOf" := Arr([Obj(a)])]["nullable" := Bool(true)]
                  else (a + w)["nullable" := Bool(true)];
    var n := NormalizeBounds(merged);
    BoundsKeepTheirMeaning(merged);
    hide NormalizeBounds, KeyAccepts, Accepts, InBounds, Lower, WellFormed;
    assert !IsBound("$ref") && !IsBound("nullable");
    assert IsTrue(n, "nullable");
    if IsRef(n) {
      assert "$ref" in m && n["$ref"] == LowerEach(m)["$ref"];
      ReferenceKeyMeans(LowerEach(m)["$ref"], Null, r30);
    }
    AcceptedIn30(n, Null, r30);
  }

  lemma ReferenceWidens(m: Fields, a: Fields, v: Json, r30: Refs)
    requires WellFormed(m) && InBounds(V31, m, v) && "$ref" in a
    requires forall key | key in LowerEach(m) :: KeyAccepts(V30, key, LowerEach(m)[key], v, r30)
    requires Accepts(V30, Obj(a), v, r30)
    ensures Accepts(V30, Obj(MergeNullable(WrapperOf(m), a)), v, r30)
  {
    hide NormalizeBounds, Lower, HasType;
    var t := WrapperOf(m)["allOf" := Arr([Obj(a)])]["nullable" := Bool(true)];
    LowerEachKeepsBounds(m);
    SameBounds(m, t, v);
    forall key | key in t
      ensures KeyAccepts(V30, key, t[key], v, r30)
    {
      if key == "nullable" {
        BoundsSayNothingElse("nullable", Bool(true), v, V30, r30);
      } else if key == "allOf" {
        assert t[key].items == [Obj(a)];
      }
    }
    BoundsOnly(t, v, r30);
  }

  lemma MergeWidens(m: Fields, v: Json, r30: Refs)
    requires WellFormed(m) && InBounds(V31, m, v) && IsNullable(m) && AvoidsClash(m, v) && !v.Null?
    requires forall key | key in LowerEach(m) :: KeyAccepts(V30, key, LowerEach(m)[key], v, r30)
    requires "$ref" !in LoweredAlternative(m)
    requires !HasNum(LoweredAlternative(m), "exclusiveMinimum") && !HasNum(LoweredAlternative(m), "exclusiveMaximum")
    requires Accepts(V30, Obj(LoweredAlternative(m)), v, r30)
    ensures Accepts(V30, Obj(MergeNullable(WrapperOf(m), LoweredAlternative(m))), v, r30)
  {
    hide NullBranch, IsNullable;
    var a, w := LoweredAlternative(m), WrapperOf(m);
    var merged := (a + w)["nullable" := Bool(true)];
    var n := NormalizeBounds(merged);
    BoundsKeepTheirMeaning(merged);
    hide NormalizeBounds;
    forall key | key in n
      ensures KeyAccepts(V30, key, n[key], v, r30)
    {
      if IsBound(key) || key == "nullable" {
        BoundsSayNothingElse(key, n[key], v, V30, r30);
      }
    }
    if "$ref" in m {
      assert !IsBound("$ref");
      assert KeyAccepts(V30, "$ref", n["$ref"], v, r30);
    } else {
      MergedBounds(m, v);
    }
    AcceptedIn30(n, v, r30);
  }

  lemma MergedBounds(m: Fields, v: Json)
    requires WellFormed(m) && Merges(m) && AvoidsClash(m, v)
    requires !HasNum(LoweredAlternative(m), "exclusiveMinimum") && !HasNum(LoweredAlternative(m), "exclusiveMaximum")
    requires InBounds(V31, m, v) && InBounds(V30, LoweredAlternative(m), v)
    ensures InBounds(V30, NormalizeBounds((LoweredAlternative(m) + WrapperOf(m))["nullable" := Bool(true)]), v)
  {
    hide NormalizeBounds, NullBranch, IsNullable;
    var a, w := LoweredAlternative(m), WrapperOf(m);
    LowerEachKeepsBounds(m);
    SameBounds(m, w, v);
    assert IsBound("minimum") && IsBound("maximum") && IsBound("exclusiveMinimum") && IsBound("exclusiveMaximum");
    if v.Num? {
      MergedMinimum(w, a, v.n);
      MergedMaximum(w, a, v.n);
    }
  }

  lemma PlainWidens(m: Fields, v: Json, r30: Refs)
    requires WellFormed(m) && InBounds(V31, m, v)
    requires forall key | key in LowerEach(m) :: KeyAccepts(V30, key, LowerEach(m)[key], v, r30)
    ensures Accepts(V30, Obj(NormalizeBounds(LowerEach(m))), v, r30)
  {
    var t := LowerEach(m);
    LowerEachKeepsBounds(m);
    SameBounds(m, t, v);
    BoundsOnly(t, v, r30);
  }

  /** Translating the bounds of fields that all accept a value gives a node that does. */
  lemma BoundsOnly(t: Fields, v: Json, refs: Refs)
    requires ExclusivesAreNumbers(t) && InBounds(V31, t, v)
    requires forall key | key in t :: KeyAccepts(V30, key, t[key], v, refs)
    ensures Accepts(V30, Obj(NormalizeBounds(t)), v, refs)
  {
    var n := NormalizeBounds(t);
    BoundsKeepTheirMeaning(t);
    hide NormalizeBounds;
    assert IsRef(n) ==> refs(n["$ref"].s, v) by {
      assert !IsBound("$ref");
      assert IsRef(n) ==> KeyAccepts(V30, "$ref", t["$ref"], v, refs);
    }
    forall key | key in n
      ensures KeyAccepts(V30, key, n[key], v, refs)
    {
      if IsBound(key) {
        BoundsSayNothingElse(key, n[key], v, V30, refs);
      }
    }
    AcceptedIn30(n, v, refs);
  }

  /** Lowering never narrows, exactly: a node whose inner schemas are free of clashes keeps
      every value it accepts if and only if it does not itself accept the bound that a clash
      turns strict, which is one number to try for each of its two bounds. */
  lemma NarrowsExactlyOnAClash(m: Fields, r31: Refs, r30: Refs)
    requires RefsWiden(r31, r30) && ChildrenFit(m)
    ensures (forall v | Accepts(V31, Obj(m), v, r31) :: Accepts(V30, Lower(Obj(m)), v, r30))
        <==> (Merges(m) ==>
          && (MinimumClashes(m, LoweredAlternative(m)) ==> !Accepts(V31, Obj(m), m["minimum"], r31))
          && (MaximumClashes(m, LoweredAlternative(m)) ==> !Accepts(V31, Obj(m), m["maximum"], r31)))
  {
    hide Accepts, Merges, LoweredAlternative, MinimumClashes, MaximumClashes, AvoidsClash;
    NobodyAtAClash(m, r31);
    forall v | Accepts(V31, Obj(m), v, r31)
      ensures AvoidsClash(m, v) <==> Accepts(V30, Lower(Obj(m)), v, r30)
    {
      if AvoidsClash(m, v) {
        NodeWidens(m, v, r31, r30);
      } else {
        ClashIsRefused(m, v, r30);
      }
    }
  }

  lemma NobodyAtAClash(m: Fields, r31: Refs)
    ensures (forall v | Accepts(V31, Obj(m), v, r31) :: AvoidsClash(m, v))
        <==> (Merges(m) ==>
          && (MinimumClashes(m, LoweredAlternative(m)) ==> !Accepts(V31, Obj(m), m["minimum"], r31))
          && (MaximumClashes(m, LoweredAlternative(m)) ==> !Accepts(V31, Obj(m), m["maximum"], r31)))
  {
    hide Accepts, Merges, LoweredAlternative;
  }

  /** The clash as it stands in the schema before lowering: the branch's lower bound is its
      exclusive one, and the plain bound beside the `anyOf` is above it. */
  predicate PlainAboveStrict(m: Fields, branch: Fields) {
    && HasNum(m, "minimum") && "exclusiveMinimum" !in m && HasNum(branch, "exclusiveMinimum")
    && (HasNum(branch, "minimum") ==> branch["exclusiveMinimum"].n >= branch["minimum"].n)
    && m["minimum"].n > branch["exclusiveMinimum"].n
  }

  predicate PlainBelowStrict(m: Fields, branch: Fields) {
    && HasNum(m, "maximum") && "exclusiveMaximum" !in m && HasNum(branch, "exclusiveMaximum")
    && (HasNum(branch, "maximum") ==> branch["exclusiveMaximum"].n <= branch["maximum"].n)
    && m["maximum"].n < branch["exclusiveMaximum"].n
  }

  /** The same read off the schema alone: a nullable node whose branch is not nullable itself
      keeps every value it accepts if and only if there is a reference in the node or its
      branch, or the node refuses the plain bounds that are tighter than strict ones of the
      branch. */
  lemma NarrowsExactlyInTheSource(m: Fields, r31: Refs, r30: Refs)
    requires RefsWiden(r31, r30) && ChildrenFit(m)
    requires IsNullable(m) && !IsNullable(AlternativeOf(m).fields)
    ensures var branch := AlternativeOf(m).fields;
      (forall v | Accepts(V31, Obj(m), v, r31) :: Accepts(V30, Lower(Obj(m)), v, r30))
        <==> ("$ref" !in m && "$ref" !in branch ==>
          && (PlainAboveStrict(m, branch) ==> !Accepts(V31, Obj(m), m["minimum"], r31))
          && (PlainBelowStrict(m, branch) ==> !Accepts(V31, Obj(m), m["maximum"], r31)))
  {
    hide Accepts, IsNullable, NullBranch, MinimumClashes, MaximumClashes, PlainAboveStrict, PlainBelowStrict,
         LoweredAlternative, EverywhereIn, WellFormedKey;
    BranchIsWellFormed(m);
    ClashIsInTheSource(m);
    NarrowsExactlyOnAClash(m, r31, r30);
  }

  lemma BranchIsWellFormed(m: Fields)
    requires ChildrenFit(m) && IsNullable(m)
    ensures WellFormed(AlternativeOf(m).fields)
  {
    hide NoClash;
    AlternativeFits(m);
  }

  lemma ClashIsInTheSource(m: Fields)
    requires IsNullable(m) && WellFormed(AlternativeOf(m).fields) && !IsNullable(AlternativeOf(m).fields)
    ensures var branch := AlternativeOf(m).fields;
      && ("$ref" in LoweredAlternative(m) <==> "$ref" in branch)
      && (MinimumClashes(m, LoweredAlternative(m)) <==> PlainAboveStrict(m, branch))
      && (MaximumClashes(m, LoweredAlternative(m)) <==> PlainBelowStrict(m, branch))
  {
    hide NullBranch, Lower, IsTrue, WellFormed, NormalizeBounds, BranchBounds;
    LoweredBranch(AlternativeOf(m).fields);
    SameClash(m, AlternativeOf(m).fields, LoweredAlternative(m));
  }

  lemma SameClash(m: Fields, branch: Fields, lowered: Fields)
    requires BranchBounds(branch, lowered)
    ensures MinimumClashes(m, lowered) <==> PlainAboveStrict(m, branch)
    ensures MaximumClashes(m, lowered) <==> PlainBelowStrict(m, branch)
  {
    hide IsTrue;
  }

  /** The strict bounds a lowered branch has, and where they come from. */
  predicate BranchBounds(branch: Fields, lowered: Fields) {
    && (IsTrue(lowered, "exclusiveMinimum") <==>
          HasNum(branch, "exclusiveMinimum")
          && (HasNum(branch, "minimum") ==> branch["exclusiveMinimum"].n >= branch["minimum"].n))
    && (IsTrue(lowered, "exclusiveMaximum") <==>
          HasNum(branch, "exclusiveMaximum")
          && (HasNum(branch, "maximum") ==> branch["exclusiveMaximum"].n <= branch["maximum"].n))
    && (IsTrue(lowered, "exclusiveMinimum") ==>
          HasNum(lowered, "minimum") && lowered["minimum"] == branch["exclusiveMinimum"])
    && (IsTrue(lowered, "exclusiveMaximum") ==>
          HasNum(lowered, "maximum") && lowered["maximum"] == branch["exclusiveMaximum"])
  }

  lemma LoweredBranch(branch: Fields)
    requires WellFormed(branch) && !IsNullable(branch)
    ensures Lower(Obj(branch)).Obj? && BranchBounds(branch, Lower(Obj(branch)).fields)
    ensures "$ref" in Lower(Obj(branch)).fields <==> "$ref" in branch
  {
    hide IsNullable, Lower, NormalizeBounds, BranchBounds, WellFormed;
    LowerUnfolds(branch);
    LowerEachKeepsBounds(branch);
    var t := if "type" in branch && branch["type"] == Str("null")
             then (LowerEach(branch) - {"type"})["nullable" := Bool(true)] else LowerEach(branch);
    assert !IsBound("type") && !IsBound("nullable") && !IsBound("$ref");
    BoundsOfNormal(branch, t);
    BoundsKeepTheirMeaning(t);
  }

  /** What translating the bounds makes of them. */
  lemma BoundsOfNormal(branch: Fields, t: Fields)
    requires WellFormed(branch)
    requires forall key | IsBound(key) :: (key in t <==> key in branch) && (key in t ==> t[key] == branch[key])
    ensures BranchBounds(branch, NormalizeBounds(t))
  {
    assert IsBound("minimum") && IsBound("maximum") && IsBound("exclusiveMinimum") && IsBound("exclusiveMaximum");
  }

  /** The value at a clashing bound is turned away. */
  lemma ClashIsRefused(m: Fields, v: Json, refs: Refs)
    requires WellFormed(m) && !AvoidsClash(m, v)
    ensures !Accepts(V30, Lower(Obj(m)), v, refs)
  {
    hide NormalizeBounds, NullBranch, Lower, InBounds, Accepts, MinimumClashes, MaximumClashes, IsBound;
    LowerUnfolds(m);
    ClashIsOutOfBounds(m, v);
    OutOfBoundsIsRefused(NormalizeBounds((LoweredAlternative(m) + WrapperOf(m))["nullable" := Bool(true)]), v, refs);
  }

  lemma ClashIsOutOfBounds(m: Fields, v: Json)
    requires WellFormed(m) && !AvoidsClash(m, v)
    ensures var n := NormalizeBounds((LoweredAlternative(m) + WrapperOf(m))["nullable" := Bool(true)]);
      v.Num? && !InBounds(V30, n, v) && !IsRef(n)
  {
    hide NormalizeBounds, NullBranch, AboveMinimum, BelowMaximum, Lower;
    var a, w := LoweredAlternative(m), WrapperOf(m);
    LoweredObjectIsNormal(AlternativeOf(m));
    LowerEachKeepsBounds(m);
    BoundsKeepTheirMeaning((a + w)["nullable" := Bool(true)]);
    assert IsBound("minimum") && IsBound("maximum") && IsBound("exclusiveMinimum") && IsBound("exclusiveMaximum");
    assert !IsBound("$ref");
    ClashedBounds(w, a, v.n);
  }

  lemma OutOfBoundsIsRefused(n: Fields, v: Json, refs: Refs)
    requires v.Num? && !InBounds(V30, n, v) && !IsRef(n)
    ensures !Accepts(V30, Obj(n), v, refs)
  {
  }

  lemma ClashedBounds(w: Fields, a: Fields, x: real)
    requires !HasNum(a, "exclusiveMinimum") && !HasNum(a, "exclusiveMaximum")
    requires "exclusiveMinimum" in w ==> w["exclusiveMinimum"].Num?
    requires "exclusiveMaximum" in w ==> w["exclusiveMaximum"].Num?
    requires (MinimumClashes(w, a) && x == w["minimum"].n) || (MaximumClashes(w, a) && x == w["maximum"].n)
    ensures var n := NormalizeBounds((a + w)["nullable" := Bool(true)]);
      !AboveMinimum(V30, n, x) || !BelowMaximum(V30, n, x)
  {
    var merged := (a + w)["nullable" := Bool(true)];
    OneBound(merged, "minimum", "exclusiveMinimum");
    OneBound(NormalizeBound(merged, "minimum", "exclusiveMinimum"), "maximum", "exclusiveMaximum");
  }

  /** Lowering never narrows a schema of the fragment without clashing bounds. */
  lemma LoweringNeverNarrows(s: Json, v: Json, r31: Refs, r30: Refs)
    requires RefsWiden(r31, r30) && Everywhere(s, NoClash)
    ensures Accepts(V31, s, v, r31) ==> Accepts(V30, Lower(s), v, r30)
  {
    if Accepts(V31, s, v, r31) {
      Widens(s, v, r31, r30);
    }
  }

  /** A clash that turns a value away: beside a nullable `anyOf`, `minimum: 3`; inside it,
      `exclusiveMinimum: 0`. Three is accepted before and refused after. */
  lemma AClashNarrows(refs: Refs) returns (s: Json, v: Json)
    ensures Accepts(V31, s, v, refs) && !Accepts(V30, Lower(s), v, refs)
  {
    hide NullBranch, Lower, NormalizeBounds, Accepts;
    s, v := Obj(OUTER), Num(3.0);
    OuterMerges();
    InnerAlternative();
    OuterAccepts(refs);
    ClashIsRefused(OUTER, v, refs);
  }

  lemma OuterMerges()
    ensures NullBranch(OUTER) == 1 && AlternativeOf(OUTER) == Obj(INNER)
    ensures WellFormed(OUTER) && "$ref" !in OUTER && "exclusiveMinimum" !in OUTER && OUTER["minimum"] == Num(3.0)
  {
    var branches := OUTER["anyOf"].items;
    assert branches == [Obj(INNER), NULL_SCHEMA];
    assert "type" !in INNER && "type" in NULL_SCHEMA.fields;
  }

  lemma OuterAccepts(refs: Refs)
    ensures Accepts(V31, Obj(OUTER), Num(3.0), refs)
  {
    var v := Num(3.0);
    InnerAccepts(refs);
    var branches := OUTER["anyOf"].items;
    assert branches[0] == Obj(INNER);
    assert KeyAccepts(V31, "anyOf", OUTER["anyOf"], v, refs) by {
      assert Accepts(V31, branches[0], v, refs);
    }
    assert KeyAccepts(V31, "minimum", OUTER["minimum"], v, refs);
  }

  const OUTER: Fields := map["minimum" := Num(3.0), "anyOf" := Arr([Obj(INNER), NULL_SCHEMA])]
  const INNER: Fields := map["exclusiveMinimum" := Num(0.0)]

  lemma InnerAlternative()
    ensures Lower(Obj(INNER)).Obj?
    ensures var a := Lower(Obj(INNER)).fields;
      "$ref" !in a && IsTrue(a, "exclusiveMinimum") && HasNum(a, "minimum") && a["minimum"].n == 0.0
  {
    LowerUnfolds(INNER);
    assert LowerEach(INNER) == INNER;
    var middle := NormalizeBound(INNER, "minimum", "exclusiveMinimum");
    OneBound(middle, "maximum", "exclusiveMaximum");
  }

  lemma InnerAccepts(refs: Refs)
    ensures Accepts(V31, Obj(INNER), Num(3.0), refs)
  {
  }

  // ----- Lowering is exact where null is a branch of its own -----

  predicate IsConstraint(key: string) {
    || IsBound(key)
    || key == "type" || key == "properties" || key == "items" || key == "anyOf" || key == "allOf"
    || key == "$ref" || key == "nullable"
  }

  predicate OnlyConstraint(m: Fields, key: string) {
    forall k | k in m && k != key :: !IsConstraint(k)
  }

  /** Null is written only as one branch of a two-branch `anyOf` whose other keys are
      annotations, and a `$ref` stands alone. */
  predicate FaithfulNode(m: Fields) {
    && "nullable" !in m
    && ("$ref" in m ==> OnlyConstraint(m, "$ref"))
    && (if IsNullable(m) then OnlyConstraint(m, "anyOf") else !("type" in m && m["type"] == Str("null")))
  }

  predicate Faithful(s: Json)
    decreases s, 0
  {
    match s
    case Bool(_) => true
    case Obj(m) =>
      && FaithfulNode(m)
      && (if IsNullable(m) then Faithful(AlternativeOf(m))
          else forall key | key in m :: WellFormedKey(key, m[key]) && FaithfulIn(key, m[key]))
    case _ => false
  }

  predicate FaithfulIn(key: string, x: Json)
    decreases x, 1
  {
    match key
    case "properties" => x.Obj? ==> forall k | k in x.fields :: Faithful(x.fields[k])
    case "items" => Faithful(x)
    case "anyOf" => x.Arr? ==> forall i | 0 <= i < |x.items| :: Faithful(x.items[i])
    case "allOf" => x.Arr? ==> forall i | 0 <= i < |x.items| :: Faithful(x.items[i])
    case _ => true
  }

  /** Lowering accepts exactly the same values where null is faithful, references meaning the
      same before and after. */
  lemma {:induction false} LoweringIsExact(s: Json, v: Json, refs: Refs)
    requires Faithful(s)
    ensures Accepts(V30, Lower(s), v, refs) <==> Accepts(V31, s, v, refs)
    decreases s, v, 3
  {
    if s.Obj? {
      var m := s.fields;
      if IsNullable(m) {
        LoweringIsExact(AlternativeOf(m), v, refs);
        NullableIsExact(m, v, refs);
      } else {
        FieldsAreExact(m, v, refs);
        PlainIsExact(m, v, refs);
      }
    }
  }

  lemma {:induction false} FieldsAreExact(m: Fields, v: Json, refs: Refs)
    requires forall key | key in m :: WellFormedKey(key, m[key]) && FaithfulIn(key, m[key])
    ensures forall key | key in m ::
      KeyAccepts(V30, key, Lower(m[key]), v, refs) <==> KeyAccepts(V31, key, m[key], v, refs)
    decreases Obj(m), v, 2
  {
    forall key | key in m
      ensures KeyAccepts(V30, key, Lower(m[key]), v, refs) <==> KeyAccepts(V31, key, m[key], v, refs)
    {
      assert m[key] < Obj(m);
      KeyIsExact(key, m[key], v, refs);
    }
  }

  lemma {:induction false} KeyIsExact(key: string, x: Json, v: Json, refs: Refs)
    requires WellFormedKey(key, x) && FaithfulIn(key, x)
    ensures KeyAccepts(V30, key, Lower(x), v, refs) <==> KeyAccepts(V31, key, x, v, refs)
    decreases x, v, 1
  {
    hide FaithfulNode, IsNullable;
    match key
    case "properties" =>
      PropertiesLowerPointwise(x);
      if v.Obj? {
        forall k | k in x.fields && k in v.fields
          ensures Accepts(V30, Lower(x.fields[k]), v.fields[k], refs)
             <==> Accepts(V31, x.fields[k], v.fields[k], refs)
        {
          LoweringIsExact(x.fields[k], v.fields[k], refs);
        }
      }
    case "items" =>
      if v.Arr? {
        forall i | 0 <= i < |v.items|
          ensures Accepts(V30, Lower(x), v.items[i], refs) <==> Accepts(V31, x, v.items[i], refs)
        {
          LoweringIsExact(x, v.items[i], refs);
        }
      }
    case "anyOf" =>
      BranchesAreExact(x, v, refs);
    case "allOf" =>
      BranchesAreExact(x, v, refs);
    case _ =>
      LowerKeepsKinds(x);
  }

  lemma {:induction false} BranchesAreExact(x: Json, v: Json, refs: Refs)
    requires AllSchemas(x) && forall i | 0 <= i < |x.items| :: Faithful(x.items[i])
    ensures Lower(x).Arr? && |Lower(x).items| == |x.items|
    ensures forall i | 0 <= i < |x.items| ::
      Accepts(V30, Lower(x).items[i], v, refs) <==> Accepts(V31, x.items[i], v, refs)
    decreases x, v, 0
  {
    forall i | 0 <= i < |x.items|
      ensures Accepts(V30, Lower(x.items[i]), v, refs) <==> Accepts(V31, x.items[i], v, refs)
    {
      LoweringIsExact(x.items[i], v, refs);
    }
  }

  lemma AnnotationsAcceptAll(d: Dialect, key: string, x: Json, v: Json, refs: Refs)
    requires !IsConstraint(key) || IsBound(key)
    ensures KeyAccepts(d, key, x, v, refs)
  {
  }

  lemma PlainIsExact(m: Fields, v: Json, refs: Refs)
    requires WellFormed(m) && FaithfulNode(m) && !IsNullable(m)
    requires forall key | key in m ::
      KeyAccepts(V30, key, Lower(m[key]), v, refs) <==> KeyAccepts(V31, key, m[key], v, refs)
    ensures Accepts(V30, Lower(Obj(m)), v, refs) <==> Accepts(V31, Obj(m), v, refs)
  {
    hide IsNullable, KeyAccepts, InBounds, NullBranch, MergeNullable, OnlyConstraint, Lower, LowerFields;
    var t := LowerEach(m);
    var n := NormalizeBounds(t);
    LowerUnfolds(m);
    LowerEachKeepsBounds(m);
    SameBounds(m, t, v);
    BoundsKeepTheirMeaning(t);
    hide NormalizeBounds;
    assert !IsBound("$ref") && !IsBound("nullable");
    if "$ref" in m {
      ReferenceStandsAlone(m, v, refs);
      assert IsRef(n) && n["$ref"] == m["$ref"] by {
        LowerKeepsKinds(m["$ref"]);
      }
    } else {
      KeysAgree(m, n, v, refs);
    }
  }

  lemma ReferenceStandsAlone(m: Fields, v: Json, refs: Refs)
    requires WellFormed(m) && "$ref" in m && OnlyConstraint(m, "$ref")
    ensures Accepts(V31, Obj(m), v, refs) <==> refs(m["$ref"].s, v)
  {
    assert IsConstraint("minimum") && IsConstraint("maximum");
    assert IsConstraint("exclusiveMinimum") && IsConstraint("exclusiveMaximum");
    assert InBounds(V31, m, v);
    forall key | key in m && key != "$ref"
      ensures KeyAccepts(V31, key, m[key], v, refs)
    {
      AnnotationsAcceptAll(V31, key, m[key], v, refs);
    }
    assert KeyAccepts(V31, "$ref", m["$ref"], v, refs) <==> refs(m["$ref"].s, v);
  }

  lemma KeysAgree(m: Fields, n: Fields, v: Json, refs: Refs)
    requires forall key | key in m ::
      KeyAccepts(V30, key, Lower(m[key]), v, refs) <==> KeyAccepts(V31, key, m[key], v, refs)
    requires forall key | !IsBound(key) ::
      (key in n <==> key in LowerEach(m)) && (key in n ==> n[key] == LowerEach(m)[key])
    requires InBounds(V30, n, v) == InBounds(V31, m, v)
    requires "$ref" !in m && "nullable" !in m
    ensures Accepts(V30, Obj(n), v, refs) <==> Accepts(V31, Obj(m), v, refs)
  {
    hide KeyAccepts, InBounds, Lower;
    assert !IsBound("$ref") && !IsBound("nullable");
    assert (forall key | key in n :: KeyAccepts(V30, key, n[key], v, refs))
      <==> (forall key | key in m :: KeyAccepts(V31, key, m[key], v, refs)) by {
      forall key | key in n && IsBound(key)
        ensures KeyAccepts(V30, key, n[key], v, refs)
      {
        AnnotationsAcceptAll(V30, key, n[key], v, refs);
      }
      forall key | key in m && IsBound(key)
        ensures KeyAccepts(V31, key, m[key], v, refs)
      {
        AnnotationsAcceptAll(V31, key, m[key], v, refs);
      }
    }
  }

  lemma NullableIsExact(m: Fields, v: Json, refs: Refs)
    requires IsNullable(m) && OnlyConstraint(m, "anyOf")
    requires Accepts(V30, Lower(AlternativeOf(m)), v, refs) <==> Accepts(V31, AlternativeOf(m), v, refs)
    ensures Accepts(V30, Lower(Obj(m)), v, refs) <==> Accepts(V31, Obj(m), v, refs)
  {
    hide NullBranch, NormalizeBounds, MergeNullable, Lower;
    LowerUnfolds(m);
    NullableMeans(m, v, refs);
    LowerKeepsKinds(AlternativeOf(m));
    LoweredObjectIsNormal(AlternativeOf(m)) by {
      AlternativeIsObject(m);
    }
    MergedMeans(WrapperOf(m), LoweredAlternative(m), v, refs);
  }

  lemma AlternativeIsObject(m: Fields)
    requires IsNullable(m)
    ensures AlternativeOf(m).Obj?
  {
  }

  /** A nullable `anyOf` among annotations accepts null and what its alternative accepts. */
  lemma NullableMeans(m: Fields, v: Json, refs: Refs)
    requires IsNullable(m) && OnlyConstraint(m, "anyOf")
    ensures Accepts(V31, Obj(m), v, refs) <==> v.Null? || Accepts(V31, AlternativeOf(m), v, refs)
  {
    hide NullBranch;
    assert IsConstraint("minimum") && IsConstraint("maximum");
    assert IsConstraint("exclusiveMinimum") && IsConstraint("exclusiveMaximum");
    assert InBounds(V31, m, v);
    forall key | key in m && key != "anyOf"
      ensures KeyAccepts(V31, key, m[key], v, refs)
    {
      AnnotationsAcceptAll(V31, key, m[key], v, refs);
    }
    AnyOfMeans(m, v, refs);
  }

  lemma AnyOfMeans(m: Fields, v: Json, refs: Refs)
    requires NullBranch(m) < 2
    ensures KeyAccepts(V31, "anyOf", m["anyOf"], v, refs)
       <==> v.Null? || Accepts(V31, AlternativeOf(m), v, refs)
  {
    var branches := m["anyOf"].items;
    if KeyAccepts(V31, "anyOf", m["anyOf"], v, refs) {
      EitherNullOrAlternative(m, v, refs);
    }
    if v.Null? {
      NullSchemaTakesNull(refs);
      assert Accepts(V31, branches[NullBranch(m)], v, refs);
    }
    if Accepts(V31, AlternativeOf(m), v, refs) {
      assert Accepts(V31, branches[1 - NullBranch(m)], v, refs);
    }
  }

  lemma NullSchemaTakesNull(refs: Refs)
    ensures Accepts(V31, NULL_SCHEMA, Null, refs)
  {
    assert KeyAccepts(V31, "type", Str("null"), Null, refs);
  }

  /** So does what the merge makes of it, when the wrapper holds annotations only. */
  lemma MergedMeans(w: Fields, a: Fields, v: Json, refs: Refs)
    requires OnlyConstraint(w, "anyOf") && "anyOf" !in w
    requires !HasNum(a, "exclusiveMinimum") && !HasNum(a, "exclusiveMaximum")
    ensures Accepts(V30, Obj(MergeNullable(w, a)), v, refs) <==> v.Null? || Accepts(V30, Obj(a), v, refs)
  {
    assert IsConstraint("minimum") && IsConstraint("maximum");
    assert IsConstraint("exclusiveMinimum") && IsConstraint("exclusiveMaximum");
    assert IsConstraint("$ref") && IsConstraint("allOf");
    if "$ref" in a {
      var merged := w["allOf" := Arr([Obj(a)])]["nullable" := Bool(true)];
      assert NormalizeBounds(merged) == merged;
      AllOfOneMeans(w, a, v, refs);
    } else {
      var merged := (a + w)["nullable" := Bool(true)];
      assert NormalizeBounds(merged) == merged;
      MergeOfAnnotations(w, a, v, refs);
    }
  }

  lemma AllOfOneMeans(w: Fields, a: Fields, v: Json, refs: Refs)
    requires forall k | k in w :: !IsConstraint(k)
    ensures Accepts(V30, Obj(w["allOf" := Arr([Obj(a)])]["nullable" := Bool(true)]), v, refs)
       <==> v.Null? || Accepts(V30, Obj(a), v, refs)
  {
    var merged := w["allOf" := Arr([Obj(a)])]["nullable" := Bool(true)];
    assert IsConstraint("minimum") && IsConstraint("maximum") && IsConstraint("$ref");
    assert InBounds(V30, merged, v) && !IsRef(merged);
    assert KeyAccepts(V30, "allOf", merged["allOf"], v, refs) <==> Accepts(V30, Obj(a), v, refs) by {
      assert merged["allOf"].items == [Obj(a)];
      assert merged["allOf"].items[0] == Obj(a);
    }
    forall key | key in merged && key != "allOf"
      ensures KeyAccepts(V30, key, merged[key], v, refs)
    {
      if key == "nullable" {
        BoundsSayNothingElse(key, merged[key], v, V30, refs);
      } else {
        AnnotationsAcceptAll(V30, key, merged[key], v, refs);
      }
    }
  }

  lemma MergeOfAnnotations(w: Fields, a: Fields, v: Json, refs: Refs)
    requires forall k | k in w :: !IsConstraint(k)
    requires "$ref" !in a
    ensures Accepts(V30, Obj((a + w)["nullable" := Bool(true)]), v, refs)
       <==> v.Null? || Accepts(V30, Obj(a), v, refs)
  {
    hide KeyAccepts, InBounds;
    var merged := (a + w)["nullable" := Bool(true)];
    assert IsConstraint("minimum") && IsConstraint("maximum") && IsConstraint("$ref");
    assert IsConstraint("exclusiveMinimum") && IsConstraint("exclusiveMaximum");
    SameBounds(a, merged, v) by {
      forall key | IsBound(key)
        ensures (key in a <==> key in merged) && (key in a ==> a[key] == merged[key])
      {
        assert IsConstraint(key);
      }
    }
    assert (forall key | key in merged :: KeyAccepts(V30, key, merged[key], v, refs))
      <==> (forall key | key in a :: KeyAccepts(V30, key, a[key], v, refs)) by {
      forall key | key in merged && (key !in a || merged[key] != a[key])
        ensures KeyAccepts(V30, key, merged[key], v, refs)
      {
        if key == "nullable" {
          BoundsSayNothingElse(key, merged[key], v, V30, refs);
        } else {
          AnnotationsAcceptAll(V30, key, merged[key], v, refs);
        }
      }
      forall key | key in a && merged[key] != a[key]
        ensures KeyAccepts(V30, key, a[key], v, refs)
      {
        if key == "nullable" {
          BoundsSayNothingElse(key, a[key], v, V30, refs);
        } else {
          AnnotationsAcceptAll(V30, key, a[key], v, refs);
        }
      }
    }
  }

  /** The side condition is needed: a bare null schema lowers to one that accepts everything. */
  lemma BareNullWidens(v: Json, refs: Refs)
    ensures Accepts(V30, Lower(NULL_SCHEMA), v, refs)
    ensures Accepts(V31, NULL_SCHEMA, v, refs) ==> v.Null?
  {
    var m := NULL_SCHEMA.fields;
    var t := (LowerEach(m) - {"type"})["nullable" := Bool(true)];
    LowerUnfolds(m);
    OnlyNullIsNull(v, refs);
    assert t == map["nullable" := Bool(true)];
    assert NormalizeBounds(t) == t;
    BoundsSayNothingElse("nullable", Bool(true), v, V30, refs);
  }
}
