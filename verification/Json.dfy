/** JSON documents and their validation by JSON Schema 2020-12. */
module Json {
  import opened Prelude

  /** A parsed JSON value. Object members are unordered and their names are unique. */
  datatype Json =
    | Null
    | Bool(b: bool)
    | Num(n: real)
    | Str(s: string)
    | Arr(items: seq<Json>)
    | Obj(members: map<string, Json>)

  type Members = map<string, Json>

  function Get(m: Members, key: string): Option<Json> {
    if key in m then Some(m[key]) else None
  }

  /** The sum of a map's values; the order in which they are added does not matter. */
  ghost function SumValues(m: map<string, nat>): nat {
    if m == map[] then 0 else
      var k :| k in m;
      m[k] + SumValues(m - {k})
  }

  lemma {:induction false} SumValuesExtract(m: map<string, nat>, key: string)
    requires key in m
    ensures SumValues(m) == m[key] + SumValues(m - {key})
    decreases |m|
  {
    var k :| k in m && SumValues(m) == m[k] + SumValues(m - {k});
    if k != key {
      SumValuesExtract(m - {k}, key);
      SumValuesExtract(m - {key}, k);
      assert m - {k} - {key} == m - {key} - {k};
    }
  }

  lemma SumValuesNext(m: map<string, nat>, done: set<string>, key: string)
    requires key in m && key !in done
    ensures SumValues(m - done) == m[key] + SumValues(m - (done + {key}))
  {
    SumValuesExtract(m - done, key);
    assert m - done - {key} == m - (done + {key});
  }

  lemma {:induction false} SumValuesZero(m: map<string, nat>)
    ensures SumValues(m) == 0 <==> forall k <- m :: m[k] == 0
    decreases |m|
  {
    if key :| key in m {
      var rest := m - {key};
      SumValuesExtract(m, key);
      SumValuesZero(rest);
      assert forall k <- m :: k == key || (k in rest && rest[k] == m[k]);
      assert forall k <- rest :: k in m && rest[k] == m[k];
    } else {
      assert m == map[];
    }
  }
}

/**
 * Validation of an instance against a schema: every keyword of a schema object is an
 * assertion on its own, and the object accepts when all of them do (JSON Schema Core
 * 2020-12, section 7.6.1). References into the document's component schemas are followed at
 * most `fuel` times, since a schema may refer to itself.
 */
module JsonSchema {
  import opened Json
  import opened Prelude

  const REF_PREFIX := "#/components/schemas/"

  /** The keywords this validator gives a meaning; every other keyword is an annotation. */
  const ASSERTIONS: set<string> := {
    "type", "enum", "const", "minimum", "maximum", "minLength", "maxLength", "minItems", "maxItems",
    "required", "items", "properties", "additionalProperties", "not", "allOf", "anyOf", "oneOf", "$ref"}

  function ComponentSchemas(doc: Json): Members {
    if doc.Obj? && "components" in doc.members && doc.members["components"].Obj? &&
       "schemas" in doc.members["components"].members &&
       doc.members["components"].members["schemas"].Obj?
    then doc.members["components"].members["schemas"].members
    else map[]
  }

  function Resolve(doc: Json, ref: Json): Option<Json> {
    if ref.Str? && REF_PREFIX <= ref.s
    then Get(ComponentSchemas(doc), ref.s[|REF_PREFIX|..])
    else None
  }

  /** A reference names a component schema. */
  lemma ReferenceNamesComponent(doc: Json, name: string)
    ensures Resolve(doc, Str("#/components/schemas/" + name)) == Get(ComponentSchemas(doc), name)
  {
    assert ("#/components/schemas/" + name)[|REF_PREFIX|..] == name;
  }

  predicate HasType(name: string, x: Json) {
    match x
    case Null => name == "null"
    case Bool(_) => name == "boolean"
    case Num(n) => name == "number" || (name == "integer" && n == n.Floor as real)
    case Str(_) => name == "string"
    case Arr(_) => name == "array"
    case Obj(_) => name == "object"
  }

  /** `type` holds a name or an array of names (JSON Schema Validation 2020-12, section 6.1.1). */
  predicate TypeAccepts(v: Json, x: Json) {
    match v
    case Str(name) => HasType(name, x)
    case Arr(names) => exists t <- names :: t.Str? && HasType(t.s, x)
    case _ => false
  }

  /** The names listed under `properties`, which `additionalProperties` beside it skips. */
  function DeclaredProperties(m: Members): set<string> {
    if "properties" in m && m["properties"].Obj? then m["properties"].members.Keys else {}
  }

  /** How a composition keyword combines the verdicts of its members (section 10.2.1). */
  predicate Combined(key: string, verdicts: seq<bool>) {
    if key == "allOf" then forall i | 0 <= i < |verdicts| :: verdicts[i]
    else if key == "anyOf" then exists i | 0 <= i < |verdicts| :: verdicts[i]
    else exists i | 0 <= i < |verdicts| :: verdicts[i] && forall j | 0 <= j < |verdicts| && j != i :: !verdicts[j]
  }

  /** Of two members all, any, or exactly one must accept. */
  lemma CombinesTwo(a: bool, b: bool)
    ensures Combined("allOf", [a, b]) <==> a && b
    ensures Combined("anyOf", [a, b]) <==> a || b
    ensures Combined("oneOf", [a, b]) <==> a != b
  {
    var verdicts := [a, b];
    assert verdicts[0] == a && verdicts[1] == b;
  }

  ghost predicate Accepts(doc: Json, fuel: nat, schema: Json, x: Json)
    decreases fuel, schema, 0
  {
    match schema
    case Bool(b) => b
    case Obj(m) => forall k <- m :: KeywordAccepts(doc, fuel, k, m[k], DeclaredProperties(m), x)
    case _ => false
  }

  ghost predicate KeywordAccepts(doc: Json, fuel: nat, key: string, v: Json, declared: set<string>, x: Json)
    decreases fuel, v, 1
  {
    if key == "type" then TypeAccepts(v, x)
    else if key == "enum" then v.Arr? ==> x in v.items
    else if key == "const" then x == v
    else if key == "minimum" then v.Num? && x.Num? ==> v.n <= x.n
    else if key == "maximum" then v.Num? && x.Num? ==> x.n <= v.n
    else if key == "minLength" then v.Num? && x.Str? ==> v.n <= |x.s| as real
    else if key == "maxLength" then v.Num? && x.Str? ==> |x.s| as real <= v.n
    else if key == "minItems" then v.Num? && x.Arr? ==> v.n <= |x.items| as real
    else if key == "maxItems" then v.Num? && x.Arr? ==> |x.items| as real <= v.n
    else if key == "required" then v.Arr? && x.Obj? ==> forall p <- v.items :: p.Str? ==> p.s in x.members
    else if key == "items" then x.Arr? ==> forall e <- x.items :: Accepts(doc, fuel, v, e)
    else if key == "properties" then
      v.Obj? && x.Obj? ==>
        forall p <- v.members :: p in x.members ==> Accepts(doc, fuel, v.members[p], x.members[p])
    else if key == "additionalProperties" then
      x.Obj? ==> forall p <- x.members :: p !in declared ==> Accepts(doc, fuel, v, x.members[p])
    else if key == "not" then !Accepts(doc, fuel, v, x)
    else if key in {"allOf", "anyOf", "oneOf"} then
      v.Arr? ==> Combined(key, seq(|v.items|, i requires 0 <= i < |v.items| => Accepts(doc, fuel, v.items[i], x)))
    else if key == "$ref" then
      fuel > 0 && Resolve(doc, v).Some? && Accepts(doc, fuel - 1, Resolve(doc, v).value, x)
    else true
  }
}
