/** Lowering OpenAPI 3.1 schemas to the 3.0 subset, and what a schema means before and after. */
module OpenApi {

  datatype Json =
    | Null
    | Bool(flag: bool)
    | Num(n: real)
    | Str(s: string)
    | Arr(items: seq<Json>)
    | Obj(fields: map<string, Json>)

  type Fields = map<string, Json>

  predicate HasNum(m: Fields, key: string) {
    key in m && m[key].Num?
  }

  // ----- Numeric bounds -----

  predicate MoreRestrictive(bound: string, threshold: real, current: real) {
    if bound == "minimum" then threshold >= current else threshold <= current
  }

  /** One of the two turns of the loop over the bounds. */
  function NormalizeBound(m: Fields, bound: string, exclusive: string): Fields {
    if !HasNum(m, exclusive) then m
    else
      var threshold := m[exclusive];
      var popped := m - {exclusive};
      if HasNum(popped, bound) && !MoreRestrictive(bound, threshold.n, popped[bound].n) then popped
      else popped[bound := threshold][exclusive := Bool(true)]
  }

  function NormalizeBounds(m: Fields): Fields {
    NormalizeBound(NormalizeBound(m, "minimum", "exclusiveMinimum"), "maximum", "exclusiveMaximum")
  }

  /** `_normalize_openapi_30_bounds`, which pops and sets keys of a copy. */
  method NormalizeInPlace(schema: Fields) returns (normalized: Fields)
    ensures normalized == NormalizeBounds(schema)
  {
    normalized := schema;
    var pairs := [("minimum", "exclusiveMinimum"), ("maximum", "exclusiveMaximum")];
    for i := 0 to 2
      invariant i == 0 ==> normalized == schema
      invariant i == 1 ==> normalized == NormalizeBound(schema, "minimum", "exclusiveMinimum")
      invariant i == 2 ==> normalized == NormalizeBounds(schema)
    {
      var (bound, exclusive) := pairs[i];
      if !HasNum(normalized, exclusive) {
        continue;
      }
      var threshold := normalized[exclusive];
      normalized := normalized - {exclusive};
      if !HasNum(normalized, bound) {
        normalized := normalized[bound := threshold];
        normalized := normalized[exclusive := Bool(true)];
        continue;
      }
      if MoreRestrictive(bound, threshold.n, normalized[bound].n) {
        normalized := normalized[bound := threshold];
        normalized := normalized[exclusive := Bool(true)];
      }
    }
  }

  // ----- Lowering -----

  const NULL_SCHEMA := Obj(map["type" := Str("null")])

  /** The position of the one exact null branch of a two-branch `anyOf`, or two. */
  function NullBranch(m: Fields): (i: nat)
    ensures i < 2 ==> "anyOf" in m && m["anyOf"].Arr? && |m["anyOf"].items| == 2
  {
    if "anyOf" in m && m["anyOf"].Arr? && |m["anyOf"].items| == 2 then
      var branches := m["anyOf"].items;
      if branches[0] == NULL_SCHEMA && branches[1] != NULL_SCHEMA then 0
      else if branches[0] != NULL_SCHEMA && branches[1] == NULL_SCHEMA then 1
      else 2
    else 2
  }

  /** `_native_openapi_value` */
  function Lower(value: Json): Json
    decreases value
  {
    match value
    case Arr(items) => Arr(seq(|items|, i requires 0 <= i < |items| => Lower(items[i])))
    case Obj(m) => Obj(LowerFields(m, map key | key in m :: Lower(m[key])))
    case _ => value
  }

  /** What is made of a schema's fields once each has been lowered. */
  function LowerFields(m: Fields, transformed: Fields): Fields
    requires transformed.Keys == m.Keys
    requires NullBranch(m) < 2 ==> transformed["anyOf"].Arr? && |transformed["anyOf"].items| == 2
  {
    var nullBranch := NullBranch(m);
    if nullBranch < 2 && transformed["anyOf"].items[1 - nullBranch].Obj? then
      MergeNullable(transformed - {"anyOf"}, transformed["anyOf"].items[1 - nullBranch].fields)
    else if "type" in transformed && transformed["type"] == Str("null") then
      NormalizeBounds((transformed - {"type"})["nullable" := Bool(true)])
    else
      NormalizeBounds(transformed)
  }

  function MergeNullable(wrapper: Fields, alternative: Fields): Fields {
    if "$ref" in alternative then
      NormalizeBounds(wrapper["allOf" := Arr([Obj(alternative)])]["nullable" := Bool(true)])
    else
      NormalizeBounds((alternative + wrapper)["nullable" := Bool(true)])
  }

  // ----- Meaning -----

  datatype Dialect = V31 | V30

  /** What a named component accepts. */
  type Refs = (string, Json) -> bool

  predicate HasType(name: string, v: Json) {
    match name
    case "null" => v.Null?
    case "boolean" => v.Bool?
    case "number" => v.Num?
    case "integer" => v.Num? && v.n.Floor as real == v.n
    case "string" => v.Str?
    case "array" => v.Arr?
    case "object" => v.Obj?
    case _ => false
  }

  /** The lower bound a schema puts on a number: in 3.1 (JSON Schema Validation 2020-12,
      sections 6.2.2 to 6.2.5) the two keywords are two bounds; in 3.0 (OpenAPI 3.0.3, section
      4.7.24) the exclusive keyword is a flag on the other. */
  predicate AboveMinimum(d: Dialect, m: Fields, x: real) {
    match d
    case V31 =>
      && (HasNum(m, "minimum") ==> x >= m["minimum"].n)
      && (HasNum(m, "exclusiveMinimum") ==> x > m["exclusiveMinimum"].n)
    case V30 =>
      HasNum(m, "minimum") ==>
        if IsTrue(m, "exclusiveMinimum") then x > m["minimum"].n else x >= m["minimum"].n
  }

  predicate BelowMaximum(d: Dialect, m: Fields, x: real) {
    match d
    case V31 =>
      && (HasNum(m, "maximum") ==> x <= m["maximum"].n)
      && (HasNum(m, "exclusiveMaximum") ==> x < m["exclusiveMaximum"].n)
    case V30 =>
      HasNum(m, "maximum") ==>
        if IsTrue(m, "exclusiveMaximum") then x < m["maximum"].n else x <= m["maximum"].n
  }

  predicate InBounds(d: Dialect, m: Fields, v: Json) {
    v.Num? ==> AboveMinimum(d, m, v.n) && BelowMaximum(d, m, v.n)
  }

  predicate IsTrue(m: Fields, key: string) {
    key in m && m[key] == Bool(true)
  }

  predicate IsRef(m: Fields) {
    "$ref" in m && m["$ref"].Str?
  }

  /** Which values a schema accepts. In 3.0 a `$ref` replaces everything beside it, and
      `nullable: true` adds null to whatever else the node accepts. */
  ghost predicate Accepts(d: Dialect, s: Json, v: Json, refs: Refs)
    decreases s, v, 1
  {
    match s
    case Bool(flag) => flag
    case Obj(m) =>
      if d.V30? && IsRef(m) then refs(m["$ref"].s, v)
      else
        || (d.V30? && IsTrue(m, "nullable") && v.Null?)
        || (InBounds(d, m, v) && forall key | key in m :: KeyAccepts(d, key, m[key], v, refs))
    case _ => true
  }

  /** What one keyword demands. */
  ghost predicate KeyAccepts(d: Dialect, key: string, x: Json, v: Json, refs: Refs)
    decreases x, v, 0
  {
    match key
    case "type" => x.Str? ==> HasType(x.s, v)
    case "properties" =>
      x.Obj? && v.Obj? ==>
        forall k | k in x.fields && k in v.fields :: Accepts(d, x.fields[k], v.fields[k], refs)
    case "items" => v.Arr? ==> forall i | 0 <= i < |v.items| :: Accepts(d, x, v.items[i], refs)
    case "anyOf" => x.Arr? ==> exists i | 0 <= i < |x.items| :: Accepts(d, x.items[i], v, refs)
    case "allOf" => x.Arr? ==> forall i | 0 <= i < |x.items| :: Accepts(d, x.items[i], v, refs)
    case "$ref" => x.Str? ==> refs(x.s, v)
    case _ => true
  }

  // ----- Bounds keep their meaning -----

  predicate IsBound(key: string) {
    key == "minimum" || key == "maximum" || key == "exclusiveMinimum" || key == "exclusiveMaximum"
  }

  /** Exclusive bounds are spelled the 3.1 way, as numbers. */
  predicate ExclusivesAreNumbers(m: Fields) {
    && ("exclusiveMinimum" in m ==> m["exclusiveMinimum"].Num?)
    && ("exclusiveMaximum" in m ==> m["exclusiveMaximum"].Num?)
  }

  /** Translating the bounds changes the spelling and not the numbers let through; doing it
      again changes nothing; other keywords stay. */
  lemma BoundsKeepTheirMeaning(m: Fields)
    ensures ExclusivesAreNumbers(m) ==> forall v :: InBounds(V30, NormalizeBounds(m), v) == InBounds(V31, m, v)
    ensures NormalizeBounds(NormalizeBounds(m)) == NormalizeBounds(m)
    ensures forall key | !IsBound(key) ::
      (key in NormalizeBounds(m) <==> key in m) && (key in m ==> NormalizeBounds(m)[key] == m[key])
  {
    OneBound(m, "minimum", "exclusiveMinimum");
    OneBound(NormalizeBound(m, "minimum", "exclusiveMinimum"), "maximum", "exclusiveMaximum");
    if ExclusivesAreNumbers(m) {
      forall v
        ensures InBounds(V30, NormalizeBounds(m), v) == InBounds(V31, m, v)
      {
        if v.Num? {
          NumbersKept(m, v.n);
        }
      }
    }
  }

  lemma OneBound(m: Fields, bound: string, exclusive: string)
    requires bound != exclusive
    ensures var n := NormalizeBound(m, bound, exclusive);
      && !HasNum(n, exclusive)
      && NormalizeBound(n, bound, exclusive) == n
      && (forall key | key != bound && key != exclusive ::
            (key in n <==> key in m) && (key in m ==> n[key] == m[key]))
  {
  }

  lemma NumbersKept(m: Fields, x: real)
    requires ExclusivesAreNumbers(m)
    ensures AboveMinimum(V30, NormalizeBounds(m), x) == AboveMinimum(V31, m, x)
    ensures BelowMaximum(V30, NormalizeBounds(m), x) == BelowMaximum(V31, m, x)
  {
    var middle := NormalizeBound(m, "minimum", "exclusiveMinimum");
    OneBound(m, "minimum", "exclusiveMinimum");
    OneBound(middle, "maximum", "exclusiveMaximum");
  }
}
