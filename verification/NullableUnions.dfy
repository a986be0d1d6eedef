/**
 * tools/openapi_export.py: folding every `<type> | null` union of a document into a type
 * array, in place, without changing which instances the document's schemas accept.
 */
module NullableUnions {
  import opened Json
  import opened JsonSchema
  import opened Prelude

  const COMPOSITION_KEYWORDS := {"allOf", "anyOf", "oneOf", "$ref"}

  // ----- The rewrite -----

  predicate IsNullMember(b: Json) {
    b.Obj? && Get(b.members, "type") == Some(Str("null"))
  }

  function Typed(branches: seq<Json>): seq<Json> {
    if branches == [] then []
    else (if IsNullMember(branches[0]) then [] else [branches[0]]) + Typed(branches[1..])
  }

  predicate IsPlainTyped(b: Json) {
    && b.Obj?
    && "type" in b.members && b.members["type"].Str?
    && b.members.Keys !! COMPOSITION_KEYWORDS
  }

  /** `_nullable_union_branch`: the one plain typed branch left beside the null members. */
  function UnionBranch(union: Option<Json>): (r: Option<Members>) {
    match union
    case Some(Arr(branches)) =>
      var typed := Typed(branches);
      if (exists b <- branches :: IsNullMember(b)) && |typed| == 1 && IsPlainTyped(typed[0])
      then Some(typed[0].members)
      else None
    case _ => None
  }

  predicate Folds(m: Members) {
    UnionBranch(Get(m, "anyOf")).Some? || UnionBranch(Get(m, "oneOf")).Some?
  }

  /** The keyword whose union a node folds: `anyOf` first, and never both. */
  function FoldedKeyword(m: Members): string
    requires Folds(m)
  {
    if UnionBranch(Get(m, "anyOf")).Some? then "anyOf" else "oneOf"
  }

  function FoldedBranch(m: Members): Members
    requires Folds(m)
  {
    UnionBranch(Get(m, FoldedKeyword(m))).value
  }

  /** The node after its own fold: the branch's keywords move up, the parent's own win. */
  function Fold(m: Members): Members {
    if !Folds(m) then m else
      var branch := FoldedBranch(m);
      assert IsPlainTyped(Obj(branch)) by { FoldedBranchAt(m); }
      (branch - {"type"}) + (m - {FoldedKeyword(m)})["type" := Arr([branch["type"], Str("null")])]
  }

  predicate IsFoldedType(m: Members, key: string) {
    Folds(m) && key == "type"
  }

  /**
   * The whole walk: fold a node, then walk the values it now holds. The type array a fold
   * writes holds two strings, in which there is nothing to walk.
   */
  function Collapse(j: Json): Json
    decreases j
  {
    match j
    case Arr(items) => Arr(seq(|items|, i requires 0 <= i < |items| => Collapse(items[i])))
    case Obj(m) =>
      var f := Fold(m);
      Obj(map k | k in f :: if IsFoldedType(m, k) then f[k] else (FoldedValueIsSmaller(m, k); Collapse(f[k])))
    case _ => j
  }

  /** How many unions the walk folds. */
  ghost function Count(j: Json): nat
    decreases j, 2
  {
    match j
    case Arr(items) => CountItems(items)
    case Obj(m) => (if Folds(m) then 1 else 0) + SumValues(CountsBelow(m))
    case _ => 0
  }

  ghost function CountsBelow(m: Members): map<string, nat>
    decreases Obj(m), 1
  {
    map k | k in Fold(m) :: CountAt(m, k)
  }

  ghost function CountAt(m: Members, k: string): nat
    requires k in Fold(m)
    decreases Obj(m), 0
  {
    if IsFoldedType(m, k) then 0 else (FoldedValueIsSmaller(m, k); Count(Fold(m)[k]))
  }

  ghost function CountItems(items: seq<Json>): nat
    decreases items
  {
    if items == [] then 0 else CountItems(items[..|items| - 1]) + Count(items[|items| - 1])
  }

  lemma {:induction false} TypedAt(branches: seq<Json>)
    requires |Typed(branches)| == 1
    ensures exists i ::
              && 0 <= i < |branches|
              && branches[i] == Typed(branches)[0]
              && forall j | 0 <= j < |branches| :: IsNullMember(branches[j]) <==> j != i
  {
    if IsNullMember(branches[0]) {
      TypedAt(branches[1..]);
      var i :| && 0 <= i < |branches| - 1
               && branches[1..][i] == Typed(branches[1..])[0]
               && forall j | 0 <= j < |branches| - 1 :: IsNullMember(branches[1..][j]) <==> j != i;
      assert forall j | 0 < j < |branches| :: branches[j] == branches[1..][j - 1];
      assert branches[i + 1] == Typed(branches)[0];
    } else {
      AllNull(branches[1..]);
      assert forall j | 0 < j < |branches| :: branches[j] == branches[1..][j - 1];
      assert branches[0] == Typed(branches)[0];
    }
  }

  lemma {:induction false} AllNull(branches: seq<Json>)
    ensures Typed(branches) == [] <==> forall b <- branches :: IsNullMember(b)
  {
    if branches != [] {
      AllNull(branches[1..]);
      assert forall b <- branches :: b == branches[0] || b in branches[1..];
    }
  }

  /** Where a qualifying union holds its branch: every other member is a null member. */
  ghost predicate BranchAt(union: Option<Json>, branch: Members, i: nat) {
    && union.Some? && union.value.Arr?
    && i < |union.value.items|
    && union.value.items[i] == Obj(branch) && IsPlainTyped(Obj(branch))
    && (forall j | 0 <= j < |union.value.items| :: IsNullMember(union.value.items[j]) <==> j != i)
    && |union.value.items| > 1
  }

  lemma BranchIndex(union: Option<Json>) returns (i: nat)
    requires UnionBranch(union).Some?
    ensures BranchAt(union, UnionBranch(union).value, i)
  {
    var branches := union.value.items;
    TypedAt(branches);
    i :| && 0 <= i < |branches|
         && branches[i] == Typed(branches)[0]
         && forall j | 0 <= j < |branches| :: IsNullMember(branches[j]) <==> j != i;
    var b :| b in branches && IsNullMember(b);
  }

  lemma BranchQualifies(union: Option<Json>, branch: Members, i: nat)
    requires BranchAt(union, branch, i)
    ensures UnionBranch(union) == Some(branch)
  {
    var branches := union.value.items;
    TypedOne(branches, i);
    assert exists b <- branches :: IsNullMember(b) by {
      var j := if i == 0 then 1 else 0;
      assert IsNullMember(branches[j]) && branches[j] in branches;
    }
  }

  lemma {:induction false} TypedOne(branches: seq<Json>, i: nat)
    requires i < |branches|
    requires forall j | 0 <= j < |branches| :: IsNullMember(branches[j]) <==> j != i
    ensures Typed(branches) == [branches[i]]
  {
    if i == 0 {
      AllNull(branches[1..]);
    } else {
      assert forall j | 0 <= j < |branches| - 1 :: branches[1..][j] == branches[j + 1];
      TypedOne(branches[1..], i - 1);
    }
  }

  /**
   * A union that folds, in the document's own terms: an array of two or more members of which all but one are
   * objects of type "null", and that one is an object of one other type without a composition keyword.
   */
  ghost predicate IsNullableUnion(m: Members, keyword: string, i: nat) {
    && keyword in m && m[keyword].Arr? && i < |m[keyword].items| && |m[keyword].items| >= 2
    && (forall j | 0 <= j < |m[keyword].items| && j != i ::
          var b := m[keyword].items[j];
          b.Obj? && "type" in b.members && b.members["type"] == Str("null"))
    && var b := m[keyword].items[i];
       && b.Obj? && "type" in b.members && b.members["type"].Str? && b.members["type"] != Str("null")
       && "allOf" !in b.members && "anyOf" !in b.members && "oneOf" !in b.members && "$ref" !in b.members
  }

  lemma PlainTypedExactly(b: Json)
    ensures IsPlainTyped(b) <==>
            && b.Obj? && "type" in b.members && b.members["type"].Str?
            && "allOf" !in b.members && "anyOf" !in b.members && "oneOf" !in b.members && "$ref" !in b.members
  {
  }

  lemma QualifiesExactly(m: Members, keyword: string)
    ensures UnionBranch(Get(m, keyword)).Some? <==> exists i: nat :: IsNullableUnion(m, keyword, i)
    ensures forall i: nat :: IsNullableUnion(m, keyword, i) ==>
              UnionBranch(Get(m, keyword)) == Some(m[keyword].items[i].members)
  {
    hide UnionBranch, IsPlainTyped;
    var union := Get(m, keyword);
    if UnionBranch(union).Some? {
      var i := BranchIndex(union);
      PlainTypedExactly(union.value.items[i]);
      assert forall j | 0 <= j < |union.value.items| && j != i :: IsNullMember(union.value.items[j]);
      assert IsNullableUnion(m, keyword, i);
    }
    forall i: nat | IsNullableUnion(m, keyword, i)
      ensures UnionBranch(union) == Some(m[keyword].items[i].members)
    {
      PlainTypedExactly(m[keyword].items[i]);
      assert forall j | 0 <= j < |m[keyword].items| && j != i :: IsNullMember(m[keyword].items[j]);
      BranchQualifies(union, m[keyword].items[i].members, i);
    }
  }

  /** Which nodes fold: those whose `anyOf` or `oneOf` is such a union, and no others. */
  lemma FoldsExactly(m: Members)
    ensures Folds(m) <==> exists i: nat :: IsNullableUnion(m, "anyOf", i) || IsNullableUnion(m, "oneOf", i)
  {
    hide IsNullableUnion, UnionBranch;
    QualifiesExactly(m, "anyOf");
    QualifiesExactly(m, "oneOf");
  }

  /**
   * What a folded node holds, keyword by keyword: the type array, what the parent had beside the union, what only
   * the branch had, and nothing else. Of two such unions the `anyOf` folds.
   */
  lemma FoldedNodeExactly(m: Members, keyword: string, i: nat)
    requires IsNullableUnion(m, keyword, i)
    requires keyword == "anyOf" || (keyword == "oneOf" && forall j: nat :: !IsNullableUnion(m, "anyOf", j))
    ensures
      var branch, node := m[keyword].items[i].members, Fold(m);
      && "type" in node && node["type"] == Arr([branch["type"], Str("null")])
      && (forall k :: k in node <==> k == "type" || (k in m && k != keyword) || k in branch)
      && (forall k | k in m && k != keyword && k != "type" :: node[k] == m[k])
      && (forall k | k in branch && k !in m && k != "type" :: node[k] == branch[k])
  {
    hide IsPlainTyped, UnionBranch;
    QualifiesExactly(m, "anyOf");
    QualifiesExactly(m, "oneOf");
    assert FoldedKeyword(m) == keyword;
    assert FoldedBranch(m) == m[keyword].items[i].members;
  }

  lemma FoldedBranchAt(m: Members)
    requires Folds(m)
    ensures FoldedKeyword(m) in m && IsPlainTyped(Obj(FoldedBranch(m)))
    ensures exists i: nat :: BranchAt(Get(m, FoldedKeyword(m)), FoldedBranch(m), i)
  {
    var i := BranchIndex(Get(m, FoldedKeyword(m)));
  }

  lemma FoldedValueIsSmaller(m: Members, k: string)
    requires k in Fold(m) && !IsFoldedType(m, k)
    ensures Fold(m)[k] < Obj(m)
  {
    if Folds(m) && k !in m {
      FoldedBranchAt(m);
      var i: nat :| BranchAt(Get(m, FoldedKeyword(m)), FoldedBranch(m), i);
      assert Obj(FoldedBranch(m)) < m[FoldedKeyword(m)];
      assert m[FoldedKeyword(m)] < Obj(m);
    }
  }

  /** The walk over the type array a fold wrote would change and count nothing. */
  lemma TypeArrayIsSettled(name: string)
    ensures Collapse(Arr([Str(name), Str("null")])) == Arr([Str(name), Str("null")])
    ensures Count(Arr([Str(name), Str("null")])) == 0
  {
    var t := Arr([Str(name), Str("null")]);
    assert Count(t) == CountItems(t.items);
    assert CountItems(t.items) == CountItems(t.items[..1]) + Count(t.items[1]);
    assert CountItems(t.items[..1]) == CountItems([]) + Count(t.items[0]);
  }

  // ----- The walk as the exporter runs it -----

  /** One export: the counter every visited node bumps when it folds. */
  class Collapser {
    var collapsed: nat

    constructor ()
      ensures collapsed == 0
    {
      collapsed := 0;
    }

    /** The keyword loop of one node: the first union that qualifies is folded, then it stops. */
    method FoldNode(members: Members) returns (m: Members, folded: bool)
      modifies this
      ensures m == Fold(members) && folded == Folds(members)
      ensures collapsed == old(collapsed) + (if folded then 1 else 0)
    {
      m, folded := members, false;
      var keywords := ["anyOf", "oneOf"];
      for i := 0 to |keywords|
        invariant m == members && !folded && collapsed == old(collapsed)
        invariant i > 0 ==> UnionBranch(Get(members, "anyOf")).None?
        invariant i > 1 ==> UnionBranch(Get(members, "oneOf")).None?
      {
        var keyword := keywords[i];
        var branch := UnionBranch(Get(m, keyword));
        if branch.None? {
          continue;
        }
        assert Folds(members) && FoldedKeyword(members) == keyword && FoldedBranch(members) == branch.value;
        FoldParts(members);
        m := (m - {keyword})["type" := Arr([branch.value["type"], Str("null")])];
        m := SetDefaults(m, branch.value - {"type"});
        assert m == Fold(members);
        collapsed, folded := collapsed + 1, true;
        break;
      }
    }

    /** `walk`: rewrite a node and everything below it. */
    method Walk(node: Json) returns (out: Json)
      modifies this
      ensures out == Collapse(node)
      ensures collapsed == old(collapsed) + Count(node)
      decreases node, 1
    {
      match node
      case Arr(items) =>
        var walked := WalkItems(items);
        out := Arr(walked);
      case Obj(members) =>
        var m, folded := FoldNode(members);
        m := WalkValues(members, m, if folded then {"type"} else {});
        out := Obj(m);
      case _ =>
        out := node;
    }

    /** The loop over a folded node's values; the type array just written has nothing to walk. */
    method WalkValues(ghost members: Members, f: Members, settled: set<string>) returns (m: Members)
      requires f == Fold(members) && settled == if Folds(members) then {"type"} else {}
      modifies this
      ensures m == Collapse(Obj(members)).members
      ensures collapsed == old(collapsed) + SumValues(CountsBelow(members))
      decreases Obj(members), 0
    {
      hide Fold, Folds, Count, CountsBelow, Collapse, PartlyWalked, Unwalked, SumValues;
      WalkStart(members, settled);
      m := f;
      ghost var done := settled;
      var todo := f.Keys - settled;
      while todo != {}
        invariant todo !! done && todo + done == f.Keys
        invariant PartlyWalked(members, m, done)
        invariant collapsed + Unwalked(members, done) == old(collapsed) + SumValues(CountsBelow(members))
        decreases todo
      {
        var k :| k in todo;
        WalkStep(members, m, done, k);
        var value := Walk(m[k]);
        m := m[k := value];
        todo, done := todo - {k}, done + {k};
      }
      WalkEnd(members, m, done);
    }

    method WalkItems(items: seq<Json>) returns (walked: seq<Json>)
      modifies this
      ensures walked == Collapse(Arr(items)).items
      ensures collapsed == old(collapsed) + CountItems(items)
      decreases items, 0
    {
      walked := [];
      for i := 0 to |items|
        invariant |walked| == i && forall j | 0 <= j < i :: walked[j] == Collapse(items[j])
        invariant collapsed == old(collapsed) + CountItems(items[..i])
      {
        var w := Walk(items[i]);
        walked := walked + [w];
        assert items[..i + 1][..i] == items[..i];
      }
      assert items[..|items|] == items;
    }
  }

  /** The keys in `done` hold their walked values, the others still hold the folded node's. */
  ghost predicate PartlyWalked(members: Members, m: Members, done: set<string>) {
    && m.Keys == Fold(members).Keys
    && (Folds(members) ==> "type" in done)
    && forall k <- m :: m[k] == if k in done then Collapse(Obj(members)).members[k] else Fold(members)[k]
  }

  ghost function Unwalked(members: Members, done: set<string>): nat {
    SumValues(CountsBelow(members) - done)
  }

  lemma WalkStart(members: Members, settled: set<string>)
    requires settled == if Folds(members) then {"type"} else {}
    ensures settled <= Fold(members).Keys
    ensures PartlyWalked(members, Fold(members), settled)
    ensures Unwalked(members, settled) == SumValues(CountsBelow(members))
  {
    var counts := CountsBelow(members);
    if Folds(members) {
      FoldParts(members);
      SumValuesExtract(counts, "type");
    } else {
      assert counts - settled == counts;
    }
  }

  lemma WalkStep(members: Members, m: Members, done: set<string>, k: string)
    requires PartlyWalked(members, m, done) && k in Fold(members) && k !in done
    ensures k in m && m[k] == Fold(members)[k] && m[k] < Obj(members)
    ensures PartlyWalked(members, m[k := Collapse(m[k])], done + {k})
    ensures Unwalked(members, done) == Count(m[k]) + Unwalked(members, done + {k})
  {
    hide Folds, Fold, Count, Collapse;
    FoldedValueIsSmaller(members, k);
    CollapsedAt(members, k);
    assert CountsBelow(members)[k] == Count(m[k]) by { CountBelowAt(members, k); }
    SumValuesNext(CountsBelow(members), done, k);
  }

  lemma CollapsedAt(members: Members, k: string)
    requires k in Fold(members) && !IsFoldedType(members, k)
    ensures Collapse(Obj(members)).Obj? && k in Collapse(Obj(members)).members
    ensures Collapse(Obj(members)).members[k] == Collapse(Fold(members)[k])
  {
    hide Fold, Folds;
    FoldedValueIsSmaller(members, k);
  }

  lemma CountBelowAt(members: Members, k: string)
    requires k in Fold(members) && !IsFoldedType(members, k)
    ensures k in CountsBelow(members) && CountsBelow(members)[k] == Count(Fold(members)[k])
  {
    FoldedValueIsSmaller(members, k);
  }

  lemma WalkEnd(members: Members, m: Members, done: set<string>)
    requires PartlyWalked(members, m, done) && done == Fold(members).Keys
    ensures m == Collapse(Obj(members)).members
    ensures Unwalked(members, done) == 0
  {
    hide Folds, Fold;
    assert CountsBelow(members) - done == map[];
  }

  /** `setdefault` for every pair of the branch: a key the parent already holds stays. */
  method SetDefaults(node: Members, defaults: Members) returns (m: Members)
    ensures m == defaults + node
  {
    m := node;
    var todo := defaults.Keys;
    while todo != {}
      invariant todo <= defaults.Keys
      invariant m == (defaults - todo) + node
    {
      var key :| key in todo;
      if key !in m {
        m := m[key := defaults[key]];
      }
      todo := todo - {key};
    }
    assert defaults - todo == defaults;
  }

  // ----- One node: when the fold keeps the meaning -----

  ghost predicate AllAccept(doc: Json, fuel: nat, keywords: Members, declared: set<string>, x: Json) {
    forall k <- keywords :: KeywordAccepts(doc, fuel, k, keywords[k], declared, x)
  }

  /** What the node asserts beside its union, and what the branch asserts beside its type. */
  function Parent(m: Members): Members
    requires Folds(m)
  {
    m - {FoldedKeyword(m)}
  }

  function Rest(m: Members): Members
    requires Folds(m)
  {
    FoldedBranch(m) - {"type"}
  }

  /**
   * The branch's assertions and the parent's fit on one node: the parent has no type of its
   * own, a keyword both carry has one value, and neither side's `additionalProperties` meets
   * `properties` that were not beside it before.
   */
  predicate FitsBesideParent(m: Members)
    requires Folds(m)
  {
    var branch := FoldedBranch(m);
    && "type" !in m
    && (forall k <- Rest(m) :: k in m && k in ASSERTIONS ==> m[k] == branch[k])
    && ("additionalProperties" in m && "properties" in branch ==> "properties" in m)
    && ("additionalProperties" in branch && "properties" in m ==> "properties" in branch)
  }

  /** The union's verdict on null and the verdict of the branch's other keywords on null. */
  ghost predicate UnionAcceptsNull(doc: Json, fuel: nat, m: Members)
    requires Folds(m)
  {
    FoldedBranchAt(m);
    KeywordAccepts(doc, fuel, FoldedKeyword(m), m[FoldedKeyword(m)], {}, Null)
  }

  ghost predicate RestAcceptsNull(doc: Json, fuel: nat, m: Members)
    requires Folds(m)
  {
    Accepts(doc, fuel, Obj(Rest(m)), Null)
  }

  lemma NullMemberRejects(doc: Json, fuel: nat, b: Json, x: Json)
    requires IsNullMember(b) && x != Null
    ensures !Accepts(doc, fuel, b, x)
  {
    assert !KeywordAccepts(doc, fuel, "type", b.members["type"], DeclaredProperties(b.members), x);
  }

  lemma BranchSplits(doc: Json, fuel: nat, branch: Members, x: Json)
    requires IsPlainTyped(Obj(branch))
    ensures Accepts(doc, fuel, Obj(branch), x) <==>
            HasType(branch["type"].s, x) &&
            AllAccept(doc, fuel, branch - {"type"}, DeclaredProperties(branch), x)
  {
    hide KeywordAccepts;
    NamedTypeVerdict(doc, fuel, branch["type"], DeclaredProperties(branch), x);
    assert forall k <- branch :: k == "type" || k in branch - {"type"};
  }

  lemma NamedTypeVerdict(doc: Json, fuel: nat, v: Json, declared: set<string>, x: Json)
    requires v.Str?
    ensures KeywordAccepts(doc, fuel, "type", v, declared, x) <==> HasType(v.s, x)
  {
  }

  ghost function Verdicts(doc: Json, fuel: nat, items: seq<Json>, x: Json): seq<bool> {
    seq(|items|, i requires 0 <= i < |items| => Accepts(doc, fuel, items[i], x))
  }

  lemma UnionVerdict(doc: Json, fuel: nat, k: string, v: Json, declared: set<string>, x: Json)
    requires k in {"allOf", "anyOf", "oneOf"} && v.Arr?
    ensures KeywordAccepts(doc, fuel, k, v, declared, x) <==> Combined(k, Verdicts(doc, fuel, v.items, x))
  {
    hide Accepts, Combined;
    assert Verdicts(doc, fuel, v.items, x)
        == seq(|v.items|, i requires 0 <= i < |v.items| => Accepts(doc, fuel, v.items[i], x));
  }

  /** On a non-null instance the union says what its branch says. */
  lemma UnionOnNonNull(doc: Json, fuel: nat, m: Members, declared: set<string>, x: Json)
    requires Folds(m) && x != Null
    ensures FoldedKeyword(m) in m
    ensures KeywordAccepts(doc, fuel, FoldedKeyword(m), m[FoldedKeyword(m)], declared, x) <==>
            Accepts(doc, fuel, Obj(FoldedBranch(m)), x)
  {
    hide Accepts, KeywordAccepts;
    var i := BranchIndex(Get(m, FoldedKeyword(m)));
    var items := m[FoldedKeyword(m)].items;
    UnionVerdict(doc, fuel, FoldedKeyword(m), m[FoldedKeyword(m)], declared, x);
    forall j | 0 <= j < |items| && j != i
      ensures !Accepts(doc, fuel, items[j], x)
    {
      NullMemberRejects(doc, fuel, items[j], x);
    }
    var verdicts := Verdicts(doc, fuel, items, x);
    assert items[i] == Obj(FoldedBranch(m));
    assert forall j | 0 <= j < |verdicts| && j != i :: !verdicts[j];
    assert verdicts[i] <==> Accepts(doc, fuel, Obj(FoldedBranch(m)), x);
  }

  lemma BranchRejectsNull(doc: Json, fuel: nat, m: Members)
    requires Folds(m)
    ensures IsPlainTyped(Obj(FoldedBranch(m)))
    ensures !HasType(FoldedBranch(m)["type"].s, Null)
    ensures !Accepts(doc, fuel, Obj(FoldedBranch(m)), Null)
  {
    var i := BranchIndex(Get(m, FoldedKeyword(m)));
    var branch := FoldedBranch(m);
    assert !IsNullMember(Obj(branch));
    assert !KeywordAccepts(doc, fuel, "type", branch["type"], DeclaredProperties(branch), Null);
  }

  lemma FoldParts(m: Members)
    requires Folds(m)
    ensures IsPlainTyped(Obj(FoldedBranch(m)))
    ensures Fold(m) == (Rest(m) + Parent(m))["type" := Arr([FoldedBranch(m)["type"], Str("null")])]
    ensures FoldedKeyword(m) !in Fold(m)
  {
    FoldedBranchAt(m);
    assert FoldedBranch(m) - {"type"} == Rest(m);
  }

  lemma SameVerdict(doc: Json, fuel: nat, k: string, v: Json, d1: set<string>, d2: set<string>, x: Json)
    requires k == "additionalProperties" ==> d1 == d2
    ensures KeywordAccepts(doc, fuel, k, v, d1, x) <==> KeywordAccepts(doc, fuel, k, v, d2, x)
  {
  }

  lemma TypeVerdict(doc: Json, fuel: nat, v: Json, declared: set<string>, x: Json)
    ensures KeywordAccepts(doc, fuel, "type", v, declared, x) <==> TypeAccepts(v, x)
  {
  }

  lemma AnnotationAccepts(doc: Json, fuel: nat, k: string, v: Json, declared: set<string>, x: Json)
    requires k !in ASSERTIONS
    ensures KeywordAccepts(doc, fuel, k, v, declared, x)
  {
  }

  lemma FoldKeepsParent(doc: Json, fuel: nat, m: Members, x: Json)
    requires Folds(m) && FitsBesideParent(m)
    ensures forall k <- Parent(m) :: k in Fold(m) && Fold(m)[k] == m[k]
    ensures AllAccept(doc, fuel, Parent(m), DeclaredProperties(Fold(m)), x) <==>
            AllAccept(doc, fuel, Parent(m), DeclaredProperties(m), x)
  {
    hide KeywordAccepts;
    FoldParts(m);
    var both := DeclaredProperties(Fold(m));
    assert "properties" in Parent(m) <==> "properties" in m;
    forall k <- Parent(m)
      ensures KeywordAccepts(doc, fuel, k, m[k], both, x)
              <==> KeywordAccepts(doc, fuel, k, m[k], DeclaredProperties(m), x)
    {
      SameVerdict(doc, fuel, k, m[k], both, DeclaredProperties(m), x);
    }
  }

  lemma FoldKeepsRestAt(doc: Json, fuel: nat, m: Members, k: string, x: Json)
    requires Folds(m) && FitsBesideParent(m) && k in Rest(m)
    ensures k in Fold(m)
    ensures KeywordAccepts(doc, fuel, k, Fold(m)[k], DeclaredProperties(Fold(m)), x) <==>
            KeywordAccepts(doc, fuel, k, Rest(m)[k], DeclaredProperties(FoldedBranch(m)), x)
  {
    hide KeywordAccepts;
    FoldParts(m);
    var v, branch := Fold(m)[k], FoldedBranch(m);
    if k in ASSERTIONS {
      assert v == branch[k];
      SameVerdict(doc, fuel, k, v, DeclaredProperties(Fold(m)), DeclaredProperties(branch), x);
    } else {
      AnnotationAccepts(doc, fuel, k, v, DeclaredProperties(Fold(m)), x);
      AnnotationAccepts(doc, fuel, k, branch[k], DeclaredProperties(branch), x);
    }
  }

  /** The folded node asserts the type array, the parent's keywords and the branch's others. */
  lemma FoldedNodeSplits(doc: Json, fuel: nat, m: Members, x: Json)
    requires Folds(m) && FitsBesideParent(m)
    ensures IsPlainTyped(Obj(FoldedBranch(m)))
    ensures Accepts(doc, fuel, Obj(Fold(m)), x) <==>
            && (HasType(FoldedBranch(m)["type"].s, x) || x == Null)
            && AllAccept(doc, fuel, Parent(m), DeclaredProperties(m), x)
            && AllAccept(doc, fuel, Rest(m), DeclaredProperties(FoldedBranch(m)), x)
  {
    hide KeywordAccepts, Fold, Folds, FoldedBranch, FoldedKeyword, FitsBesideParent, DeclaredProperties, HasType,
      TypeAccepts;
    FoldParts(m);
    FoldKeepsParent(doc, fuel, m, x);
    var f, branch := Fold(m), FoldedBranch(m);
    forall k <- Rest(m) {
      FoldKeepsRestAt(doc, fuel, m, k, x);
    }
    TypeArrayAccepts(branch["type"].s, x);
    TypeVerdict(doc, fuel, f["type"], DeclaredProperties(f), x);
    assert forall k <- f :: k == "type" || k in Parent(m) || k in Rest(m);
  }

  lemma TypeArrayAccepts(name: string, x: Json)
    ensures TypeAccepts(Arr([Str(name), Str("null")]), x) <==> HasType(name, x) || x == Null
  {
    var names := [Str(name), Str("null")];
    assert names[0] in names && names[1] in names;
  }

  lemma NodeSplits(doc: Json, fuel: nat, m: Members, x: Json)
    requires Folds(m)
    ensures FoldedKeyword(m) in m
    ensures Accepts(doc, fuel, Obj(m), x) <==>
            && KeywordAccepts(doc, fuel, FoldedKeyword(m), m[FoldedKeyword(m)], {}, x)
            && AllAccept(doc, fuel, Parent(m), DeclaredProperties(m), x)
  {
    hide KeywordAccepts;
    FoldedBranchAt(m);
    var kw := FoldedKeyword(m);
    SameVerdict(doc, fuel, kw, m[kw], {}, DeclaredProperties(m), x);
    assert forall k <- m :: k == kw || k in Parent(m);
  }

  // What a fold changes, whatever stands on the node.

  /** The folded keywords whose verdict depends on nothing a fold changes. */
  function Stable(m: Members): Members
    requires Folds(m)
  {
    Fold(m) - {"type", "additionalProperties"}
  }

  /** What the node asserted and the folded one does not. */
  ghost predicate LostAccepts(doc: Json, fuel: nat, m: Members, x: Json)
    requires Folds(m)
  {
    var parent, branch := Parent(m), FoldedBranch(m);
    // The parent's own type is overwritten.
    && ("type" in parent ==> KeywordAccepts(doc, fuel, "type", parent["type"], {}, x))
    // A branch keyword the parent carries too is dropped.
    && (forall k <- Rest(m) :: k in parent ==> KeywordAccepts(doc, fuel, k, Rest(m)[k], DeclaredProperties(branch), x))
    // Either side's `additionalProperties` knew only its own properties.
    && ("additionalProperties" in parent ==>
          KeywordAccepts(doc, fuel, "additionalProperties", parent["additionalProperties"], DeclaredProperties(m), x))
    && ("additionalProperties" in Rest(m) ==>
          KeywordAccepts(doc, fuel, "additionalProperties", Rest(m)["additionalProperties"],
              DeclaredProperties(branch), x))
  }

  /** What the folded node asserts and the node did not: its `additionalProperties` beside its properties. */
  ghost predicate GainedAccepts(doc: Json, fuel: nat, m: Members, x: Json)
    requires Folds(m)
  {
    var f := Fold(m);
    "additionalProperties" in f ==>
      KeywordAccepts(doc, fuel, "additionalProperties", f["additionalProperties"], DeclaredProperties(f), x)
  }

  lemma FoldedNodeParts(doc: Json, fuel: nat, m: Members, x: Json)
    requires Folds(m)
    ensures IsPlainTyped(Obj(FoldedBranch(m)))
    ensures Accepts(doc, fuel, Obj(Fold(m)), x) <==>
            && (HasType(FoldedBranch(m)["type"].s, x) || x == Null)
            && AllAccept(doc, fuel, Stable(m), {}, x) && GainedAccepts(doc, fuel, m, x)
  {
    hide KeywordAccepts, Fold, Folds, FoldedBranch, FoldedKeyword, DeclaredProperties, HasType, TypeAccepts;
    FoldParts(m);
    var f := Fold(m);
    var declared := DeclaredProperties(f);
    TypeArrayAccepts(FoldedBranch(m)["type"].s, x);
    TypeVerdict(doc, fuel, f["type"], declared, x);
    forall k <- Stable(m)
      ensures KeywordAccepts(doc, fuel, k, f[k], declared, x) <==> KeywordAccepts(doc, fuel, k, f[k], {}, x)
    {
      SameVerdict(doc, fuel, k, f[k], declared, {}, x);
    }
    assert forall k <- f :: k == "type" || k == "additionalProperties" || k in Stable(m);
    assert forall k <- Stable(m) :: k in f;
  }

  /** The keywords the folded node takes from the parent, and those it takes from the branch. */
  function FromParent(m: Members): Members
    requires Folds(m)
  {
    Parent(m) - {"type", "additionalProperties"}
  }

  function FromBranch(m: Members): Members
    requires Folds(m)
  {
    Rest(m) - Parent(m).Keys - {"additionalProperties"}
  }

  lemma StableParts(doc: Json, fuel: nat, m: Members, x: Json)
    requires Folds(m)
    ensures AllAccept(doc, fuel, Stable(m), {}, x) <==>
            AllAccept(doc, fuel, FromParent(m), {}, x) && AllAccept(doc, fuel, FromBranch(m), {}, x)
  {
    hide KeywordAccepts, Folds, FoldedBranch, FoldedKeyword, Fold;
    FoldParts(m);
    assert Stable(m) == FromBranch(m) + FromParent(m);
    assert FromBranch(m).Keys !! FromParent(m).Keys;
    JoinAccepts(doc, fuel, FromBranch(m), FromParent(m), x);
  }

  lemma JoinAccepts(doc: Json, fuel: nat, a: Members, b: Members, x: Json)
    requires a.Keys !! b.Keys
    ensures AllAccept(doc, fuel, a + b, {}, x) <==> AllAccept(doc, fuel, a, {}, x) && AllAccept(doc, fuel, b, {}, x)
  {
    hide KeywordAccepts;
    assert forall k <- a :: k in a + b && (a + b)[k] == a[k];
    assert forall k <- b :: k in a + b && (a + b)[k] == b[k];
  }

  /** Keywords set apart, `additionalProperties`, and the others, which no declared set concerns. */
  lemma PartsAccept(doc: Json, fuel: nat, all: Members, apart: set<string>, declared: set<string>, x: Json)
    ensures AllAccept(doc, fuel, all, declared, x) <==>
            && (forall k <- all :: k in apart ==> KeywordAccepts(doc, fuel, k, all[k], declared, x))
            && ("additionalProperties" in all ==>
                  KeywordAccepts(doc, fuel, "additionalProperties", all["additionalProperties"], declared, x))
            && AllAccept(doc, fuel, all - apart - {"additionalProperties"}, {}, x)
  {
    hide KeywordAccepts;
    var others := all - apart - {"additionalProperties"};
    forall k <- others
      ensures KeywordAccepts(doc, fuel, k, all[k], declared, x) <==> KeywordAccepts(doc, fuel, k, all[k], {}, x)
    {
      SameVerdict(doc, fuel, k, all[k], declared, {}, x);
    }
    assert forall k <- all :: k in apart || k == "additionalProperties" || k in others;
  }

  lemma ParentParts(doc: Json, fuel: nat, m: Members, x: Json)
    requires Folds(m)
    ensures AllAccept(doc, fuel, Parent(m), DeclaredProperties(m), x) <==>
            && ("type" in Parent(m) ==> KeywordAccepts(doc, fuel, "type", Parent(m)["type"], {}, x))
            && ("additionalProperties" in Parent(m) ==>
                  KeywordAccepts(doc, fuel, "additionalProperties", Parent(m)["additionalProperties"],
                      DeclaredProperties(m), x))
            && AllAccept(doc, fuel, FromParent(m), {}, x)
  {
    hide KeywordAccepts, AllAccept, Folds, FoldedBranch, FoldedKeyword, DeclaredProperties;
    var parent := Parent(m);
    PartsAccept(doc, fuel, parent, {"type"}, DeclaredProperties(m), x);
    if "type" in parent {
      SameVerdict(doc, fuel, "type", parent["type"], DeclaredProperties(m), {}, x);
    }
    assert parent - {"type"} - {"additionalProperties"} == FromParent(m);
  }

  lemma RestParts(doc: Json, fuel: nat, m: Members, x: Json)
    requires Folds(m)
    ensures
      var declared := DeclaredProperties(FoldedBranch(m));
      AllAccept(doc, fuel, Rest(m), declared, x) <==>
      && (forall k <- Rest(m) :: k in Parent(m) ==> KeywordAccepts(doc, fuel, k, Rest(m)[k], declared, x))
      && ("additionalProperties" in Rest(m) ==>
            KeywordAccepts(doc, fuel, "additionalProperties", Rest(m)["additionalProperties"], declared, x))
      && AllAccept(doc, fuel, FromBranch(m), {}, x)
  {
    hide KeywordAccepts, AllAccept, Folds, FoldedBranch, FoldedKeyword, DeclaredProperties;
    PartsAccept(doc, fuel, Rest(m), Parent(m).Keys, DeclaredProperties(FoldedBranch(m)), x);
  }

  /** The parent and the branch beside its type, told apart by what the fold keeps and what it loses. */
  lemma SourceParts(doc: Json, fuel: nat, m: Members, x: Json)
    requires Folds(m)
    ensures AllAccept(doc, fuel, Parent(m), DeclaredProperties(m), x) &&
            AllAccept(doc, fuel, Rest(m), DeclaredProperties(FoldedBranch(m)), x) <==>
            AllAccept(doc, fuel, Stable(m), {}, x) && LostAccepts(doc, fuel, m, x)
  {
    hide KeywordAccepts, AllAccept, Folds, FoldedBranch, FoldedKeyword, DeclaredProperties, Fold, Stable, FromParent,
      FromBranch;
    StableParts(doc, fuel, m, x);
    ParentParts(doc, fuel, m, x);
    RestParts(doc, fuel, m, x);
  }

  /**
   * Exactly when a fold keeps the verdict on an instance other than null, whatever stands beside the union:
   * what it loses would have been accepted wherever the folded node accepts, and what it gains is accepted
   * wherever the node did.
   */
  lemma FoldKeepsVerdictExactly(doc: Json, fuel: nat, m: Members, x: Json)
    requires Folds(m) && x != Null
    ensures (Accepts(doc, fuel, Obj(Fold(m)), x) <==> Accepts(doc, fuel, Obj(m), x)) <==>
            && (Accepts(doc, fuel, Obj(Fold(m)), x) ==> LostAccepts(doc, fuel, m, x))
            && (Accepts(doc, fuel, Obj(m), x) ==> GainedAccepts(doc, fuel, m, x))
  {
    hide Accepts, KeywordAccepts, LostAccepts, GainedAccepts, AllAccept, Fold, Folds, FoldedBranch;
    FoldedNodeParts(doc, fuel, m, x);
    NodeSplits(doc, fuel, m, x);
    UnionOnNonNull(doc, fuel, m, {}, x);
    BranchSplits(doc, fuel, FoldedBranch(m), x);
    SourceParts(doc, fuel, m, x);
  }

  /** The parent beside its own type, and the branch keywords it does not hide. */
  function UntypedParent(m: Members): Members
    requires Folds(m)
  {
    Parent(m) - {"type"}
  }

  function VisibleRest(m: Members): Members
    requires Folds(m)
  {
    Rest(m) - Parent(m).Keys
  }

  /**
   * On null: the rest of the parent rejects it anyway, or the union and the parent's type accept it just when
   * the visible keywords of the branch do.
   */
  ghost predicate KeepsNull(doc: Json, fuel: nat, m: Members)
    requires Folds(m)
  {
    AllAccept(doc, fuel, UntypedParent(m), {}, Null) ==>
      (UnionAcceptsNull(doc, fuel, m) && ("type" in m ==> TypeAccepts(m["type"], Null)) <==>
       AllAccept(doc, fuel, VisibleRest(m), {}, Null))
  }

  /** `additionalProperties` says nothing about null, so no declared set matters there. */
  lemma NullVerdict(doc: Json, fuel: nat, k: string, v: Json, d1: set<string>, d2: set<string>)
    ensures KeywordAccepts(doc, fuel, k, v, d1, Null) <==> KeywordAccepts(doc, fuel, k, v, d2, Null)
    ensures k == "additionalProperties" ==> KeywordAccepts(doc, fuel, k, v, d1, Null)
  {
  }

  lemma FoldedOnNull(doc: Json, fuel: nat, m: Members)
    requires Folds(m)
    ensures Accepts(doc, fuel, Obj(Fold(m)), Null) <==>
            AllAccept(doc, fuel, UntypedParent(m), {}, Null) && AllAccept(doc, fuel, VisibleRest(m), {}, Null)
  {
    hide KeywordAccepts, Folds, FoldedBranch, FoldedKeyword, DeclaredProperties, Fold;
    FoldParts(m);
    var f := Fold(m);
    TypeArrayAccepts(FoldedBranch(m)["type"].s, Null);
    TypeVerdict(doc, fuel, f["type"], DeclaredProperties(f), Null);
    forall k <- f
      ensures k == "type" || k in UntypedParent(m) || k in VisibleRest(m)
      ensures KeywordAccepts(doc, fuel, k, f[k], DeclaredProperties(f), Null) <==>
          KeywordAccepts(doc, fuel, k, f[k], {}, Null)
    {
      NullVerdict(doc, fuel, k, f[k], DeclaredProperties(f), {});
    }
    assert forall k <- UntypedParent(m) :: k in f && f[k] == UntypedParent(m)[k];
    assert forall k <- VisibleRest(m) :: k in f && f[k] == VisibleRest(m)[k];
  }

  lemma NodeOnNull(doc: Json, fuel: nat, m: Members)
    requires Folds(m)
    ensures Accepts(doc, fuel, Obj(m), Null) <==>
            && UnionAcceptsNull(doc, fuel, m) && ("type" in m ==> TypeAccepts(m["type"], Null))
            && AllAccept(doc, fuel, UntypedParent(m), {}, Null)
  {
    hide KeywordAccepts, Folds, FoldedBranch, DeclaredProperties, TypeAccepts;
    NodeSplits(doc, fuel, m, Null);
    KeywordIsNoType(m);
    forall k <- Parent(m)
      ensures k == "type" || k in UntypedParent(m)
      ensures KeywordAccepts(doc, fuel, k, m[k], DeclaredProperties(m), Null) <==>
          KeywordAccepts(doc, fuel, k, m[k], {}, Null)
    {
      NullVerdict(doc, fuel, k, m[k], DeclaredProperties(m), {});
    }
    if "type" in m {
      TypeVerdict(doc, fuel, m["type"], {}, Null);
    }
    assert forall k <- UntypedParent(m) :: k in Parent(m);
  }

  lemma KeywordIsNoType(m: Members)
    requires Folds(m)
    ensures FoldedKeyword(m) != "type"
  {
  }

  /**
   * Exactly when one fold keeps the meaning of a node, with nothing assumed of its parent: on every other
   * instance nothing that is lost or gained decides, and null keeps its verdict.
   */
  lemma FoldKeepsMeaningExactly(doc: Json, fuel: nat, m: Members)
    requires Folds(m)
    ensures (forall x :: Accepts(doc, fuel, Obj(Fold(m)), x) <==> Accepts(doc, fuel, Obj(m), x)) <==>
            && KeepsNull(doc, fuel, m)
            && forall x | x != Null ::
                 && (Accepts(doc, fuel, Obj(Fold(m)), x) ==> LostAccepts(doc, fuel, m, x))
                 && (Accepts(doc, fuel, Obj(m), x) ==> GainedAccepts(doc, fuel, m, x))
  {
    hide Accepts, KeywordAccepts, LostAccepts, GainedAccepts, AllAccept, Fold, Folds, FoldedBranch, UnionAcceptsNull,
      TypeAccepts;
    FoldedOnNull(doc, fuel, m);
    NodeOnNull(doc, fuel, m);
    var same := Accepts(doc, fuel, Obj(Fold(m)), Null) <==> Accepts(doc, fuel, Obj(m), Null);
    assert same <==> KeepsNull(doc, fuel, m);
    forall x | x != Null {
      FoldKeepsVerdictExactly(doc, fuel, m, x);
    }
  }

  // When branch and parent fit on one node.

  /** Beside a fitting parent a fold never changes the verdict on an instance other than null. */
  lemma FoldKeepsNonNull(doc: Json, fuel: nat, m: Members, x: Json)
    requires Folds(m) && FitsBesideParent(m) && x != Null
    ensures Accepts(doc, fuel, Obj(Fold(m)), x) <==> Accepts(doc, fuel, Obj(m), x)
  {
    FoldedNodeSplits(doc, fuel, m, x);
    NodeSplits(doc, fuel, m, x);
    UnionOnNonNull(doc, fuel, m, {}, x);
    BranchSplits(doc, fuel, FoldedBranch(m), x);
  }

  /**
   * Exactly when one fold beside a fitting parent keeps the meaning of a node: the parent rejects null anyway,
   * or the union accepts null just when the branch's keywords other than its type do.
   */
  lemma FittingFoldKeepsMeaningExactly(doc: Json, fuel: nat, m: Members)
    requires Folds(m) && FitsBesideParent(m)
    ensures (forall x :: Accepts(doc, fuel, Obj(Fold(m)), x) <==> Accepts(doc, fuel, Obj(m), x)) <==>
            (AllAccept(doc, fuel, Parent(m), DeclaredProperties(m), Null) ==>
               (UnionAcceptsNull(doc, fuel, m) <==> RestAcceptsNull(doc, fuel, m)))
  {
    FoldedNodeSplits(doc, fuel, m, Null);
    NodeSplits(doc, fuel, m, Null);
    RestDeclares(doc, fuel, m, Null);
    forall x | x != Null {
      FoldKeepsNonNull(doc, fuel, m, x);
    }
    var same := Accepts(doc, fuel, Obj(Fold(m)), Null) <==> Accepts(doc, fuel, Obj(m), Null);
    assert same <==> forall x :: Accepts(doc, fuel, Obj(Fold(m)), x) <==> Accepts(doc, fuel, Obj(m), x);
  }

  lemma RestDeclares(doc: Json, fuel: nat, m: Members, x: Json)
    requires Folds(m)
    ensures Accepts(doc, fuel, Obj(Rest(m)), x) <==>
            AllAccept(doc, fuel, Rest(m), DeclaredProperties(FoldedBranch(m)), x)
  {
    assert DeclaredProperties(Rest(m)) == DeclaredProperties(FoldedBranch(m));
  }

  // ----- The whole document: what the walk keeps -----

  /** The null members say nothing but their type, and no `not` sits beside the branch's type. */
  predicate BareNulls(m: Members)
    requires Folds(m)
  {
    && "not" !in Rest(m)
    && FoldedKeyword(m) in m && m[FoldedKeyword(m)].Arr?
    && forall b <- m[FoldedKeyword(m)].items :: IsNullMember(b) ==> b.members.Keys * ASSERTIONS == {"type"}
  }

  /** `enum` and `const`, the two keywords of a branch that null does not pass unexamined, name it. */
  predicate NamesNull(rest: Members) {
    && ("enum" in rest && rest["enum"].Arr? ==> Null in rest["enum"].items)
    && ("const" in rest ==> rest["const"] == Null)
  }

  /** Null passes the union: an `anyOf`, or a `oneOf` with a single null member. */
  predicate UnionNamesNullOnce(m: Members)
    requires Folds(m) && BareNulls(m)
  {
    FoldedKeyword(m) == "anyOf" || |m["oneOf"].items| == 2
  }

  /** Every schema the validator can reach from `s` without a reference may be folded safely. */
  ghost predicate SafeSchema(s: Json)
    decreases s, 0
  {
    match s
    case Obj(m) =>
      && (Folds(m) ==> BareNulls(m) && FitsBesideParent(m) && (UnionNamesNullOnce(m) <==> NamesNull(Rest(m))))
      && forall k <- Fold(m) :: IsFoldedType(m, k) || (FoldedValueIsSmaller(m, k); SafeKeyword(k, Fold(m)[k]))
    case _ => true
  }

  ghost predicate SafeKeyword(k: string, v: Json)
    decreases v, 1
  {
    if k in {"enum", "const"} then Collapse(v) == v
    else if k in {"items", "additionalProperties", "not"} then SafeSchema(v)
    else if k == "properties" then
      v.Obj? ==> !Folds(v.members) && forall p <- v.members :: SafeSchema(v.members[p])
    else if k in {"allOf", "anyOf", "oneOf"} then
      v.Arr? ==> forall b <- v.items :: SafeSchema(b)
    else true
  }

  /** No union sits beside the component schemas themselves, and each of them is safe. */
  ghost predicate SafeDocument(doc: Json) {
    && (doc.Obj? ==> !Folds(doc.members))
    && (doc.Obj? && "components" in doc.members && doc.members["components"].Obj? ==>
          var components := doc.members["components"].members;
          && !Folds(components)
          && ("schemas" in components && components["schemas"].Obj? ==>
                !Folds(components["schemas"].members)))
    && forall name <- ComponentSchemas(doc) :: SafeSchema(ComponentSchemas(doc)[name])
  }

  lemma RestOnNull(doc: Json, fuel: nat, m: Members)
    requires Folds(m) && BareNulls(m)
    ensures RestAcceptsNull(doc, fuel, m) <==> NamesNull(Rest(m))
  {
    hide Accepts;
    FoldedBranchAt(m);
    var rest := Rest(m);
    RestDeclares(doc, fuel, m, Null);
    forall k <- rest
      ensures KeywordAccepts(doc, fuel, k, rest[k], DeclaredProperties(FoldedBranch(m)), Null) <==>
              NamesNullAt(k, rest[k])
    {
      assert k !in COMPOSITION_KEYWORDS + {"type", "not"};
    }
  }

  predicate NamesNullAt(k: string, v: Json) {
    && (k == "enum" && v.Arr? ==> Null in v.items)
    && (k == "const" ==> v == Null)
  }

  lemma BareNullAccepts(doc: Json, fuel: nat, b: Json)
    requires IsNullMember(b) && b.members.Keys * ASSERTIONS == {"type"}
    ensures Accepts(doc, fuel, b, Null)
  {
    forall k <- b.members
      ensures KeywordAccepts(doc, fuel, k, b.members[k], DeclaredProperties(b.members), Null)
    {
      if k == "type" {
        TypeVerdict(doc, fuel, b.members[k], DeclaredProperties(b.members), Null);
      } else {
        assert k in b.members.Keys * ASSERTIONS || k !in ASSERTIONS;
        AnnotationAccepts(doc, fuel, k, b.members[k], DeclaredProperties(b.members), Null);
      }
    }
  }

  lemma UnionOnNull(doc: Json, fuel: nat, m: Members)
    requires Folds(m) && BareNulls(m)
    ensures UnionAcceptsNull(doc, fuel, m) <==> UnionNamesNullOnce(m)
  {
    hide Accepts, KeywordAccepts;
    var i := BranchIndex(Get(m, FoldedKeyword(m)));
    var items := m[FoldedKeyword(m)].items;
    UnionVerdict(doc, fuel, FoldedKeyword(m), m[FoldedKeyword(m)], {}, Null);
    BranchRejectsNull(doc, fuel, m);
    forall j | 0 <= j < |items| && j != i
      ensures Accepts(doc, fuel, items[j], Null)
    {
      assert items[j] in items;
      BareNullAccepts(doc, fuel, items[j]);
    }
    var verdicts := Verdicts(doc, fuel, items, Null);
    assert forall j | 0 <= j < |verdicts| :: verdicts[j] <==> j != i;
    var n := if i == 0 then 1 else 0;
    assert verdicts[n];
    if |items| == 2 {
      assert forall j | 0 <= j < |verdicts| && j != n :: !verdicts[j];
    } else {
      forall n' | 0 <= n' < |verdicts| && verdicts[n']
        ensures exists j :: 0 <= j < |verdicts| && j != n' && verdicts[j]
      {
        var j := if i != 0 && n' != 0 then 0 else if i != 1 && n' != 1 then 1 else 2;
        assert verdicts[j];
      }
    }
  }

  /**
   * Exactly when a fold with bare null members beside annotations keeps the meaning: the union
   * names null once and the branch's `enum` and `const` name it, or neither.
   */
  lemma FoldKeepsMeaningAroundNull(doc: Json, fuel: nat, m: Members)
    requires Folds(m) && BareNulls(m) && Parent(m).Keys !! ASSERTIONS
    ensures (forall x :: Accepts(doc, fuel, Obj(Fold(m)), x) <==> Accepts(doc, fuel, Obj(m), x)) <==>
            (UnionNamesNullOnce(m) <==> NamesNull(Rest(m)))
  {
    hide Accepts, KeywordAccepts, UnionAcceptsNull, RestAcceptsNull;
    RestOnNull(doc, fuel, m);
    UnionOnNull(doc, fuel, m);
    assert forall k <- m :: k == FoldedKeyword(m) || k in Parent(m);
    forall k <- Parent(m)
      ensures KeywordAccepts(doc, fuel, k, m[k], DeclaredProperties(m), Null)
    {
      AnnotationAccepts(doc, fuel, k, m[k], DeclaredProperties(m), Null);
    }
    FittingFoldKeepsMeaningExactly(doc, fuel, m);
  }

  lemma SafeFold(doc: Json, fuel: nat, m: Members, x: Json)
    requires SafeSchema(Obj(m))
    ensures Accepts(doc, fuel, Obj(Fold(m)), x) <==> Accepts(doc, fuel, Obj(m), x)
  {
    hide Accepts, KeywordAccepts, UnionAcceptsNull, RestAcceptsNull;
    if Folds(m) {
      RestOnNull(doc, fuel, m);
      UnionOnNull(doc, fuel, m);
      FittingFoldKeepsMeaningExactly(doc, fuel, m);
    }
  }

  /** `published` names the same component schemas as `doc`, each of them collapsed. */
  ghost predicate PublishesComponents(published: Json, doc: Json) {
    && ComponentSchemas(published).Keys == ComponentSchemas(doc).Keys
    && forall name <- ComponentSchemas(doc) ::
         && SafeSchema(ComponentSchemas(doc)[name])
         && ComponentSchemas(published)[name] == Collapse(ComponentSchemas(doc)[name])
  }

  lemma CollapsePublishesComponents(doc: Json)
    requires SafeDocument(doc)
    ensures PublishesComponents(Collapse(doc), doc)
  {
    hide SafeSchema;
    if doc.Obj? && "components" in doc.members && doc.members["components"].Obj? {
      var components := doc.members["components"].members;
      assert Collapse(doc).members["components"] == Collapse(Obj(components));
      if "schemas" in components {
        assert Collapse(Obj(components)).members["schemas"] == Collapse(components["schemas"]);
      }
    }
  }

  lemma CollapsedDeclares(m: Members)
    requires SafeSchema(Obj(m))
    ensures DeclaredProperties(Collapse(Obj(m)).members) == DeclaredProperties(Fold(m))
  {
    if "properties" in Fold(m) && Fold(m)["properties"].Obj? {
      FoldedValueIsSmaller(m, "properties");
      var props := Fold(m)["properties"];
      assert SafeKeyword("properties", props);
      assert Collapse(props).members.Keys == props.members.Keys;
    }
  }

  lemma ResolvePublished(doc: Json, published: Json, ref: Json)
    requires PublishesComponents(published, doc)
    ensures Resolve(doc, ref).None? ==> Resolve(published, Collapse(ref)).None?
    ensures Resolve(doc, ref).Some? ==>
              && SafeSchema(Resolve(doc, ref).value)
              && Resolve(published, Collapse(ref)) == Some(Collapse(Resolve(doc, ref).value))
  {
    hide SafeSchema, ComponentSchemas;
  }

  lemma {:induction false} SchemaKeepsMeaning(doc: Json, published: Json, fuel: nat, s: Json, x: Json)
    requires PublishesComponents(published, doc) && SafeSchema(s)
    ensures Accepts(published, fuel, Collapse(s), x) <==> Accepts(doc, fuel, s, x)
    decreases fuel, s, 0
  {
    hide KeywordAccepts, SafeKeyword, Fold, DeclaredProperties, PublishesComponents;
    if s.Obj? {
      var m := s.members;
      var f, c := Fold(m), Collapse(s).members;
      SafeFold(doc, fuel, m, x);
      CollapsedDeclares(m);
      var declared := DeclaredProperties(f);
      forall k <- f
        ensures k in c
        ensures KeywordAccepts(published, fuel, k, c[k], declared, x)
                <==> KeywordAccepts(doc, fuel, k, f[k], declared, x)
      {
        if IsFoldedType(m, k) {
          TypeVerdict(doc, fuel, f[k], declared, x);
          TypeVerdict(published, fuel, f[k], declared, x);
        } else {
          FoldedValueIsSmaller(m, k);
          KeywordKeepsMeaning(doc, published, fuel, k, f[k], declared, x);
        }
      }
      assert c.Keys == f.Keys;
    }
  }

  lemma {:induction false} KeywordKeepsMeaning(doc: Json, published: Json, fuel: nat, k: string, v: Json,
                                               declared: set<string>, x: Json)
    requires PublishesComponents(published, doc) && SafeKeyword(k, v)
    ensures KeywordAccepts(published, fuel, k, Collapse(v), declared, x) <==>
            KeywordAccepts(doc, fuel, k, v, declared, x)
    decreases fuel, v, 2
  {
    hide Accepts, KeywordAccepts, SafeSchema, PublishesComponents;
    var w := Collapse(v);
    if k in {"allOf", "anyOf", "oneOf"} {
      if v.Arr? {
        forall i | 0 <= i < |v.items| {
          SchemaKeepsMeaning(doc, published, fuel, v.items[i], x);
        }
        UnionVerdict(doc, fuel, k, v, declared, x);
        UnionVerdict(published, fuel, k, w, declared, x);
        assert Verdicts(doc, fuel, v.items, x) == Verdicts(published, fuel, w.items, x);
      } else {
        NoUnionVerdict(doc, fuel, k, v, declared, x);
        NoUnionVerdict(published, fuel, k, w, declared, x);
      }
    } else if k == "properties" {
      if v.Obj? && x.Obj? {
        forall p <- v.members | p in x.members {
          SchemaKeepsMeaning(doc, published, fuel, v.members[p], x.members[p]);
        }
      }
      PropertiesVerdict(doc, published, fuel, v, w, declared, x);
    } else if k in {"items", "additionalProperties", "not"} {
      SubschemaKeepsMeaning(doc, published, fuel, k, v, declared, x);
    } else if k == "$ref" {
      ResolvePublished(doc, published, v);
      if fuel > 0 && Resolve(doc, v).Some? {
        SchemaKeepsMeaning(doc, published, fuel - 1, Resolve(doc, v).value, x);
      }
      RefVerdict(doc, fuel, v, declared, x);
      RefVerdict(published, fuel, w, declared, x);
    } else if k in {"enum", "const"} {
      DataVerdict(doc, published, fuel, k, v, declared, x);
    } else if k in {"type", "required"} {
      NamesVerdict(doc, published, fuel, k, v, declared, x);
    } else {
      BoundVerdict(doc, published, fuel, k, v, declared, x);
    }
  }

  // How each keyword's verdict follows from those of its subschemas.

  lemma NoUnionVerdict(doc: Json, fuel: nat, k: string, v: Json, declared: set<string>, x: Json)
    requires k in {"allOf", "anyOf", "oneOf"} && !v.Arr?
    ensures KeywordAccepts(doc, fuel, k, v, declared, x)
  {
  }

  lemma PropertiesVerdict(doc: Json, published: Json, fuel: nat, v: Json, w: Json, declared: set<string>, x: Json)
    requires v.Obj? <==> w.Obj?
    requires v.Obj? && x.Obj? ==>
               && v.members.Keys == w.members.Keys
               && forall p <- v.members | p in x.members ::
                    Accepts(published, fuel, w.members[p], x.members[p]) <==>
                    Accepts(doc, fuel, v.members[p], x.members[p])
    ensures KeywordAccepts(published, fuel, "properties", w, declared, x) <==>
            KeywordAccepts(doc, fuel, "properties", v, declared, x)
  {
    hide Accepts;
  }

  /** The keywords that hold a single schema. */
  lemma {:induction false} SubschemaKeepsMeaning(doc: Json, published: Json, fuel: nat, k: string, v: Json,
                                                 declared: set<string>, x: Json)
    requires PublishesComponents(published, doc) && SafeSchema(v) && k in {"items", "additionalProperties", "not"}
    ensures KeywordAccepts(published, fuel, k, Collapse(v), declared, x) <==>
            KeywordAccepts(doc, fuel, k, v, declared, x)
    decreases fuel, v, 1
  {
    hide Accepts, KeywordAccepts, SafeSchema, PublishesComponents, Collapse;
    var w := Collapse(v);
    if k == "items" {
      ItemsSchemaVerdict(doc, fuel, v, declared, x);
      ItemsSchemaVerdict(published, fuel, w, declared, x);
      if x.Arr? {
        forall e | e in x.items {
          SchemaKeepsMeaning(doc, published, fuel, v, e);
        }
      }
    } else if k == "not" {
      NotSchemaVerdict(doc, fuel, v, declared, x);
      NotSchemaVerdict(published, fuel, w, declared, x);
      SchemaKeepsMeaning(doc, published, fuel, v, x);
    } else {
      OtherMembersVerdict(doc, fuel, v, declared, x);
      OtherMembersVerdict(published, fuel, w, declared, x);
      if x.Obj? {
        forall p | p in x.members {
          SchemaKeepsMeaning(doc, published, fuel, v, x.members[p]);
        }
      }
    }
  }

  lemma ItemsSchemaVerdict(doc: Json, fuel: nat, v: Json, declared: set<string>, x: Json)
    ensures KeywordAccepts(doc, fuel, "items", v, declared, x) <==>
            (x.Arr? ==> forall e <- x.items :: Accepts(doc, fuel, v, e))
  {
    hide Accepts;
  }

  lemma OtherMembersVerdict(doc: Json, fuel: nat, v: Json, declared: set<string>, x: Json)
    ensures KeywordAccepts(doc, fuel, "additionalProperties", v, declared, x) <==>
            (x.Obj? ==> forall p <- x.members :: p !in declared ==> Accepts(doc, fuel, v, x.members[p]))
  {
    hide Accepts;
  }

  lemma NotSchemaVerdict(doc: Json, fuel: nat, v: Json, declared: set<string>, x: Json)
    ensures KeywordAccepts(doc, fuel, "not", v, declared, x) <==> !Accepts(doc, fuel, v, x)
  {
    hide Accepts;
  }

  lemma RefVerdict(doc: Json, fuel: nat, v: Json, declared: set<string>, x: Json)
    ensures KeywordAccepts(doc, fuel, "$ref", v, declared, x) <==>
            fuel > 0 && Resolve(doc, v).Some? && Accepts(doc, fuel - 1, Resolve(doc, v).value, x)
  {
    hide Accepts, Resolve;
  }

  lemma DataVerdict(doc: Json, published: Json, fuel: nat, k: string, v: Json, declared: set<string>, x: Json)
    requires k in {"enum", "const"} && Collapse(v) == v
    ensures KeywordAccepts(published, fuel, k, Collapse(v), declared, x) <==>
            KeywordAccepts(doc, fuel, k, v, declared, x)
  {
    hide Collapse;
  }

  lemma NamesVerdict(doc: Json, published: Json, fuel: nat, k: string, v: Json, declared: set<string>, x: Json)
    requires k in {"type", "required"}
    ensures KeywordAccepts(published, fuel, k, Collapse(v), declared, x) <==>
            KeywordAccepts(doc, fuel, k, v, declared, x)
  {
    hide HasType, Fold;
    if v.Arr? {
      CollapsedNames(v.items);
    }
    if k == "type" {
      hide KeywordAccepts;
      TypeVerdict(doc, fuel, v, declared, x);
      TypeVerdict(published, fuel, Collapse(v), declared, x);
    }
  }

  /** Walking a list of names leaves every name in it. */
  lemma CollapsedNames(items: seq<Json>)
    ensures forall t: Json | t.Str? :: t in Collapse(Arr(items)).items <==> t in items
  {
    var w := Collapse(Arr(items)).items;
    forall t: Json | t.Str?
      ensures t in w <==> t in items
    {
      if t in items {
        var i :| 0 <= i < |items| && items[i] == t;
        assert w[i] == Collapse(items[i]) && w[i] == t;
        assert w[i] in w;
      }
      if t in w {
        var i :| 0 <= i < |w| && w[i] == t;
        assert Collapse(items[i]) == t;
      }
    }
  }

  lemma BoundVerdict(doc: Json, published: Json, fuel: nat, k: string, v: Json, declared: set<string>, x: Json)
    requires k !in {"allOf", "anyOf", "oneOf", "not", "items", "additionalProperties", "properties", "$ref", "enum",
                    "const", "type", "required"}
    ensures KeywordAccepts(published, fuel, k, Collapse(v), declared, x) <==>
            KeywordAccepts(doc, fuel, k, v, declared, x)
  {
    hide Accepts, Fold;
  }

  /**
   * Folding every nullable union of a safe document keeps the meaning of each of its schemas:
   * the collapsed schema, read against the collapsed document, accepts the same instances.
   */
  lemma CollapseKeepsMeaning(doc: Json, fuel: nat, s: Json, x: Json)
    requires SafeDocument(doc) && SafeSchema(s)
    ensures Accepts(Collapse(doc), fuel, Collapse(s), x) <==> Accepts(doc, fuel, s, x)
  {
    hide Accepts, SafeSchema;
    CollapsePublishesComponents(doc);
    SchemaKeepsMeaning(doc, Collapse(doc), fuel, s, x);
  }

  /** A limit on the parent hides the branch's own: a string between the two is newly accepted. */
  lemma SharedKeywordIsLost(doc: Json, fuel: nat, own: nat, outer: nat, x: Json)
    requires own < outer && x.Str? && own < |x.s| <= outer
    ensures
      var branch := map["type" := Str("string"), "maxLength" := Num(own as real)];
      var m := map["anyOf" := Arr([Obj(branch), Obj(map["type" := Str("null")])]), "maxLength" := Num(outer as real)];
      !Accepts(doc, fuel, Obj(m), x) && Accepts(doc, fuel, Collapse(Obj(m)), x)
  {
    hide Accepts, KeywordAccepts;
    var branch := map["type" := Str("string"), "maxLength" := Num(own as real)];
    var items := [Obj(branch), Obj(map["type" := Str("null")])];
    var m := map["anyOf" := Arr(items), "maxLength" := Num(outer as real)];
    BranchQualifies(Get(m, "anyOf"), branch, 0);
    UnionOnNonNull(doc, fuel, m, {}, x);
    NodeSplits(doc, fuel, m, x);
    MaxLengthVerdict(doc, fuel, branch, x);
    var f := Fold(m);
    assert f == map["type" := Arr([Str("string"), Str("null")]), "maxLength" := Num(outer as real)];
    assert Collapse(Obj(m)) == Obj(f);
    TypeArrayAccepts("string", x);
    MaxLengthVerdict(doc, fuel, f, x);
  }

  lemma MaxLengthVerdict(doc: Json, fuel: nat, m: Members, x: Json)
    requires m.Keys == {"type", "maxLength"} && m["maxLength"].Num? && x.Str?
    ensures Accepts(doc, fuel, Obj(m), x) <==> TypeAccepts(m["type"], x) && |x.s| as real <= m["maxLength"].n
  {
    assert forall k <- m :: k == "type" || k == "maxLength";
    assert "type" in m && "maxLength" in m;
  }

  // The two ways a constraint is lost, each with its exact condition.

  /** `anyOf: [branch, {type: null}]` beside the parent's keywords. */
  function Optional(branch: Members, parent: Members): Members {
    parent["anyOf" := Arr([Obj(branch), Obj(map["type" := Str("null")])])]
  }

  lemma OptionalFolds(branch: Members, parent: Members)
    requires IsPlainTyped(Obj(branch)) && branch["type"] != Str("null") && parent.Keys !! COMPOSITION_KEYWORDS
    ensures var m := Optional(branch, parent);
            && Folds(m) && FoldedKeyword(m) == "anyOf" && FoldedBranch(m) == branch && Parent(m) == parent
            && Fold(m) == ((branch - {"type"}) + parent)["type" := Arr([branch["type"], Str("null")])]
  {
    var m := Optional(branch, parent);
    BranchQualifies(Get(m, "anyOf"), branch, 0);
    assert m - {"anyOf"} == parent;
    FoldParts(m);
    assert Rest(m) == branch - {"type"};
  }

  /** The union accepts null and whatever its branch accepts. */
  lemma OptionalAccepts(doc: Json, fuel: nat, branch: Members, parent: Members, x: Json)
    requires IsPlainTyped(Obj(branch)) && branch["type"] != Str("null") && parent.Keys !! COMPOSITION_KEYWORDS
    ensures Accepts(doc, fuel, Obj(Optional(branch, parent)), x) <==>
            && (Accepts(doc, fuel, Obj(branch), x) || x == Null)
            && AllAccept(doc, fuel, parent, DeclaredProperties(parent), x)
  {
    hide Accepts, KeywordAccepts, AllAccept, Folds, Fold, FoldedKeyword, FoldedBranch, Parent;
    var m := Optional(branch, parent);
    OptionalFolds(branch, parent);
    NodeSplits(doc, fuel, m, x);
    assert DeclaredProperties(m) == DeclaredProperties(parent);
    if x == Null {
      var items := [Obj(branch), Obj(map["type" := Str("null")])];
      UnionVerdict(doc, fuel, "anyOf", m["anyOf"], {}, x);
      BareNullAccepts(doc, fuel, items[1]);
      assert Verdicts(doc, fuel, items, x)[1];
    } else {
      UnionOnNonNull(doc, fuel, m, {}, x);
    }
  }

  const UPPER_BOUNDS := {"maximum", "maxLength", "maxItems"}
  const LOWER_BOUNDS := {"minimum", "minLength", "minItems"}

  /** The type a bound is about, and what it measures of an instance of that type. */
  function BoundedType(k: string): string {
    if k in {"maxLength", "minLength"} then "string" else if k in {"maxItems", "minItems"} then "array" else "number"
  }

  function Measure(x: Json): real {
    match x
    case Num(n) => n
    case Str(s) => |s| as real
    case Arr(items) => |items| as real
    case _ => 0.0
  }

  predicate Within(k: string, bound: real, x: Json) {
    if k in UPPER_BOUNDS then Measure(x) <= bound else bound <= Measure(x)
  }

  lemma BoundVerdictAt(doc: Json, fuel: nat, k: string, bound: real, declared: set<string>, x: Json)
    requires k in UPPER_BOUNDS + LOWER_BOUNDS
    ensures KeywordAccepts(doc, fuel, k, Num(bound), declared, x) <==>
        (HasType(BoundedType(k), x) ==> Within(k, bound, x))
  {
  }

  /** A node with a type and one bound. */
  lemma TypedBoundAccepts(doc: Json, fuel: nat, t: Json, k: string, bound: real, x: Json)
    requires k in UPPER_BOUNDS + LOWER_BOUNDS
    ensures Accepts(doc, fuel, Obj(map["type" := t, k := Num(bound)]), x) <==>
            TypeAccepts(t, x) && (HasType(BoundedType(k), x) ==> Within(k, bound, x))
  {
    hide KeywordAccepts, TypeAccepts, HasType, Within;
    var m := map["type" := t, k := Num(bound)];
    assert k != "type" && forall key <- m :: key == "type" || key == k;
    assert "type" in m && k in m;
    TypeVerdict(doc, fuel, t, DeclaredProperties(m), x);
    BoundVerdictAt(doc, fuel, k, bound, DeclaredProperties(m), x);
  }

  /** An instance that sits exactly on the bound; a length is a natural number. */
  function OnBound(k: string, bound: real): Json
    requires k in {"minimum", "maximum"} || (bound >= 0.0 && bound == bound.Floor as real)
  {
    if BoundedType(k) == "string" then Str(seq(bound.Floor, _ => 'a'))
    else if BoundedType(k) == "array" then Arr(seq(bound.Floor, _ => Null))
    else Num(bound)
  }

  lemma OnBoundMeasures(k: string, bound: real)
    requires k in UPPER_BOUNDS + LOWER_BOUNDS
    requires k in {"minimum", "maximum"} || (bound >= 0.0 && bound == bound.Floor as real)
    ensures HasType(BoundedType(k), OnBound(k, bound)) && Measure(OnBound(k, bound)) == bound
  {
  }

  lemma SharedBoundVerdicts(doc: Json, fuel: nat, k: string, own: real, outer: real, x: Json)
    requires k in UPPER_BOUNDS + LOWER_BOUNDS
    ensures
      var m := Optional(map["type" := Str(BoundedType(k)), k := Num(own)], map[k := Num(outer)]);
      && (Accepts(doc, fuel, Obj(m), x) <==>
            x == Null || (HasType(BoundedType(k), x) && Within(k, own, x) && Within(k, outer, x)))
      && (Accepts(doc, fuel, Collapse(Obj(m)), x) <==> x == Null || (HasType(BoundedType(k), x) && Within(k, outer, x)))
  {
    hide Accepts, KeywordAccepts, Within, Folds, Fold, COMPOSITION_KEYWORDS;
    var name := BoundedType(k);
    var branch, parent := map["type" := Str(name), k := Num(own)], map[k := Num(outer)];
    BoundIsPlain(k, own, outer);
    OptionalFolds(branch, parent);
    OptionalAccepts(doc, fuel, branch, parent, x);
    TypedBoundAccepts(doc, fuel, Str(name), k, own, x);
    BoundVerdictAt(doc, fuel, k, outer, DeclaredProperties(parent), x);
    assert AllAccept(doc, fuel, parent, DeclaredProperties(parent), x) <==>
           KeywordAccepts(doc, fuel, k, Num(outer), DeclaredProperties(parent), x) by {
      assert k in parent && forall key <- parent :: key == k;
    }
    SharedBoundFolds(k, own, outer);
    TypedBoundAccepts(doc, fuel, Arr([Str(name), Str("null")]), k, outer, x);
    TypeArrayAccepts(name, x);
  }

  lemma BoundIsPlain(k: string, own: real, outer: real)
    requires k in UPPER_BOUNDS + LOWER_BOUNDS
    ensures var branch := map["type" := Str(BoundedType(k)), k := Num(own)];
            && IsPlainTyped(Obj(branch)) && branch["type"] == Str(BoundedType(k)) != Str("null")
            && map[k := Num(outer)].Keys !! COMPOSITION_KEYWORDS && k !in {"type", "anyOf", "oneOf"}
    ensures !HasType(BoundedType(k), Null)
  {
  }

  lemma SharedBoundFolds(k: string, own: real, outer: real)
    requires k in UPPER_BOUNDS + LOWER_BOUNDS
    ensures
      var m := Optional(map["type" := Str(BoundedType(k)), k := Num(own)], map[k := Num(outer)]);
      Collapse(Obj(m)) == Obj(map["type" := Arr([Str(BoundedType(k)), Str("null")]), k := Num(outer)])
  {
    hide COMPOSITION_KEYWORDS;
    var branch, parent := map["type" := Str(BoundedType(k)), k := Num(own)], map[k := Num(outer)];
    var m := Optional(branch, parent);
    BoundIsPlain(k, own, outer);
    OptionalFolds(branch, parent);
    var f := map["type" := Arr([Str(BoundedType(k)), Str("null")]), k := Num(outer)];
    assert Fold(m) == f;
    hide Folds, Fold;
    assert forall key <- f :: key == "type" || f[key] == Num(outer);
    assert Collapse(Obj(m)) == Obj(f);
  }

  /**
   * A bound that the parent shares with its branch: collapsing keeps the meaning exactly when the parent's,
   * the one that stays, is at least as tight.
   */
  lemma SharedBoundKeepsMeaningExactly(doc: Json, fuel: nat, k: string, own: real, outer: real)
    requires k in UPPER_BOUNDS + LOWER_BOUNDS
    requires k in {"minimum", "maximum"} || (outer >= 0.0 && outer == outer.Floor as real)
    ensures
      var m := Optional(map["type" := Str(BoundedType(k)), k := Num(own)], map[k := Num(outer)]);
      (forall x :: Accepts(doc, fuel, Collapse(Obj(m)), x) <==> Accepts(doc, fuel, Obj(m), x)) <==>
      if k in UPPER_BOUNDS then outer <= own else own <= outer
  {
    hide Accepts, Collapse, Optional, HasType, BoundedType, OnBound, Measure;
    var m := Optional(map["type" := Str(BoundedType(k)), k := Num(own)], map[k := Num(outer)]);
    BoundIsPlain(k, own, outer);
    if if k in UPPER_BOUNDS then outer <= own else own <= outer {
      forall x
        ensures Accepts(doc, fuel, Collapse(Obj(m)), x) <==> Accepts(doc, fuel, Obj(m), x)
      {
        SharedBoundVerdicts(doc, fuel, k, own, outer, x);
      }
    } else {
      var edge := OnBound(k, outer);
      OnBoundMeasures(k, outer);
      SharedBoundVerdicts(doc, fuel, k, own, outer, edge);
      assert Accepts(doc, fuel, Collapse(Obj(m)), edge) && !Accepts(doc, fuel, Obj(m), edge);
    }
  }

  const TYPE_NAMES := {"null", "boolean", "number", "integer", "string", "array", "object"}

  function TypeNames(t: Json): set<string> {
    match t
    case Str(name) => {name}
    case Arr(names) => set n <- names | n.Str? :: n.s
    case _ => {}
  }

  /**
   * Every instance of the type is an instance of one of these: it is named, or unknown, or an integer among
   * numbers.
   */
  predicate Covers(names: set<string>, name: string) {
    name !in TYPE_NAMES || name in names || (name == "integer" && "number" in names)
  }

  lemma TypeNamesAccept(t: Json, x: Json)
    ensures TypeAccepts(t, x) <==> exists name <- TypeNames(t) :: HasType(name, x)
  {
    hide HasType;
    match t
    case Arr(names) =>
      assert forall n <- names :: n.Str? ==> n.s in TypeNames(t);
    case _ =>
  }

  /** An instance of that type and of no other that does not hold it whole. */
  function Typical(name: string): Json {
    if name == "boolean" then Bool(true)
    else if name == "number" then Num(0.5)
    else if name == "integer" then Num(1.0)
    else if name == "string" then Str("")
    else if name == "array" then Arr([])
    else if name == "object" then Obj(map[])
    else Null
  }

  lemma TypicalIsTypical(name: string, other: string)
    requires name in TYPE_NAMES
    ensures HasType(name, Typical(name))
    ensures HasType(other, Typical(name)) <==> other == name || (name == "integer" && other == "number")
  {
    assert 0.5.Floor == 0 && 1.0.Floor == 1;
  }

  lemma CoveredInstance(names: set<string>, name: string, x: Json)
    requires Covers(names, name) && HasType(name, x)
    ensures exists n <- names :: HasType(n, x)
  {
    assert name in TYPE_NAMES;
    assert HasType(if name in names then name else "number", x);
  }

  lemma UncoveredInstance(names: set<string>, name: string)
    requires !Covers(names, name)
    ensures HasType(name, Typical(name)) && forall n <- names :: !HasType(n, Typical(name))
  {
    hide HasType, Typical;
    forall n <- names
      ensures !HasType(n, Typical(name))
    {
      TypicalIsTypical(name, n);
    }
    TypicalIsTypical(name, name);
  }

  lemma ParentTypeVerdicts(doc: Json, fuel: nat, t: Json, name: string, x: Json)
    requires name != "null"
    ensures
      var m := Optional(map["type" := Str(name)], map["type" := t]);
      && (Accepts(doc, fuel, Obj(m), x) <==> (HasType(name, x) || x == Null) && TypeAccepts(t, x))
      && (Accepts(doc, fuel, Collapse(Obj(m)), x) <==> HasType(name, x) || x == Null)
  {
    hide Accepts, KeywordAccepts, HasType, TypeAccepts, Optional, Collapse, AllAccept, COMPOSITION_KEYWORDS;
    var branch, parent := map["type" := Str(name)], map["type" := t];
    TypeIsPlain(name, t);
    OptionalAccepts(doc, fuel, branch, parent, x);
    NamedTypeAccepts(doc, fuel, name, x);
    OneTypeAccepts(doc, fuel, t, x);
    ParentTypeFolds(t, name);
    OneTypeAccepts(doc, fuel, Arr([Str(name), Str("null")]), x);
    TypeArrayAccepts(name, x);
  }

  lemma TypeIsPlain(name: string, t: Json)
    ensures IsPlainTyped(Obj(map["type" := Str(name)])) && map["type" := t].Keys !! COMPOSITION_KEYWORDS
  {
  }

  lemma ParentTypeFolds(t: Json, name: string)
    requires name != "null"
    ensures Collapse(Obj(Optional(map["type" := Str(name)], map["type" := t]))) ==
            Obj(map["type" := Arr([Str(name), Str("null")])])
  {
    hide COMPOSITION_KEYWORDS;
    var branch, parent := map["type" := Str(name)], map["type" := t];
    TypeIsPlain(name, t);
    OptionalFolds(branch, parent);
    var f := map["type" := Arr([Str(name), Str("null")])];
    assert Fold(Optional(branch, parent)) == f;
    hide Fold, Folds;
    assert Collapse(Obj(Optional(branch, parent))) == Obj(f);
  }

  lemma NamedTypeAccepts(doc: Json, fuel: nat, name: string, x: Json)
    ensures Accepts(doc, fuel, Obj(map["type" := Str(name)]), x) <==> HasType(name, x)
  {
    hide Accepts, HasType;
    OneTypeAccepts(doc, fuel, Str(name), x);
  }

  lemma OneTypeAccepts(doc: Json, fuel: nat, t: Json, x: Json)
    ensures Accepts(doc, fuel, Obj(map["type" := t]), x) <==> TypeAccepts(t, x)
    ensures var m := map["type" := t]; AllAccept(doc, fuel, m, DeclaredProperties(m), x) <==> TypeAccepts(t, x)
  {
    hide KeywordAccepts, TypeAccepts;
    var m := map["type" := t];
    assert "type" in m && forall key <- m :: key == "type";
    TypeVerdict(doc, fuel, t, DeclaredProperties(m), x);
  }

  /** An instance of the branch's type that the parent's own type rejects is newly accepted. */
  lemma ParentTypeIsLost(doc: Json, fuel: nat, t: Json, name: string, x: Json)
    requires name != "null" && HasType(name, x) && !TypeAccepts(t, x)
    ensures
      var m := Optional(map["type" := Str(name)], map["type" := t]);
      !Accepts(doc, fuel, Obj(m), x) && Accepts(doc, fuel, Collapse(Obj(m)), x)
  {
    hide Accepts, Collapse, Optional, HasType, TypeAccepts;
    ParentTypeVerdicts(doc, fuel, t, name, x);
  }

  /**
   * A type on the parent is overwritten: collapsing keeps the meaning exactly when that type admitted null and
   * every instance of the branch's type anyway.
   */
  lemma ParentTypeKeepsMeaningExactly(doc: Json, fuel: nat, t: Json, name: string)
    requires name != "null"
    ensures
      var m := Optional(map["type" := Str(name)], map["type" := t]);
      (forall x :: Accepts(doc, fuel, Collapse(Obj(m)), x) <==> Accepts(doc, fuel, Obj(m), x)) <==>
      Covers(TypeNames(t), "null") && Covers(TypeNames(t), name)
  {
    hide Accepts, Collapse, Optional, HasType, TypeAccepts, Covers, TypeNames, Typical;
    var m, names := Optional(map["type" := Str(name)], map["type" := t]), TypeNames(t);
    if Covers(names, "null") && Covers(names, name) {
      forall x
        ensures Accepts(doc, fuel, Collapse(Obj(m)), x) <==> Accepts(doc, fuel, Obj(m), x)
      {
        ParentTypeVerdicts(doc, fuel, t, name, x);
        TypeNamesAccept(t, x);
        NullType(x);
        if HasType(name, x) || x == Null {
          CoveredInstance(names, if x == Null then "null" else name, x);
        }
      }
    } else {
      var missed := if Covers(names, "null") then name else "null";
      UncoveredInstance(names, missed);
      var x := Typical(missed);
      ParentTypeVerdicts(doc, fuel, t, name, x);
      TypeNamesAccept(t, x);
      NullType(x);
      assert Accepts(doc, fuel, Collapse(Obj(m)), x) && !Accepts(doc, fuel, Obj(m), x);
    }
  }

  lemma NullType(x: Json)
    ensures HasType("null", x) <==> x == Null
  {
  }

  // ----- A second walk -----

  /**
   * Walking changes a document exactly when it folds something.
   */
  lemma {:induction false} CountsWhatChanges(j: Json)
    ensures Count(j) == 0 <==> Collapse(j) == j
    decreases j
  {
    match j
    case Arr(items) => ItemsCountWhatChanges(items);
    case Obj(m) =>
      var c := Collapse(j).members;
      if Folds(m) {
        FoldParts(m);
        FoldedBranchAt(m);
        assert FoldedKeyword(m) !in c;
      } else {
        forall k <- m {
          CountsWhatChanges(m[k]);
        }
        MembersCountWhatChanges(m);
      }
    case _ =>
  }

  lemma UnfoldedCount(m: Members)
    requires !Folds(m)
    ensures Count(Obj(m)) == 0 <==> forall k <- m :: Count(m[k]) == 0
  {
    hide Folds, SumValues;
    var counts := map k | k in m :: Count(m[k]);
    assert Count(Obj(m)) == SumValues(counts) by {
      assert Fold(m) == m;
      assert counts == CountsBelow(m);
    }
    SumValuesZero(counts);
    assert counts.Keys == m.Keys && forall k <- m :: counts[k] == Count(m[k]);
    assert forall k <- counts :: k in m && counts[k] == Count(m[k]);
  }

  lemma MembersCountWhatChanges(m: Members)
    requires !Folds(m)
    requires forall k <- m :: Count(m[k]) == 0 <==> Collapse(m[k]) == m[k]
    ensures Count(Obj(m)) == 0 <==> Collapse(Obj(m)) == Obj(m)
  {
    hide Folds, Count;
    var c := Collapse(Obj(m)).members;
    UnfoldedCount(m);
    assert c.Keys == m.Keys && forall k <- m :: c[k] == Collapse(m[k]);
    assert c == m <==> forall k <- m :: c[k] == m[k];
  }

  lemma {:induction false} ItemsCountWhatChanges(items: seq<Json>)
    ensures CountItems(items) == 0 <==> Collapse(Arr(items)) == Arr(items)
    decreases items
  {
    var c := Collapse(Arr(items)).items;
    if items != [] {
      var n := |items| - 1;
      ItemsCountWhatChanges(items[..n]);
      CountsWhatChanges(items[n]);
      assert Collapse(Arr(items[..n])).items == c[..n];
      assert items == items[..n] + [items[n]] && c == c[..n] + [c[n]];
    } else {
      assert c == items;
    }
  }

  /** A union that still qualifies once its own members have been walked. */
  predicate QualifiesAfterWalk(union: Option<Json>) {
    && UnionBranch(union).Some?
    && forall b <- union.value.items :: IsNullMember(b) ==> !Folds(b.members)
  }

  /** A node whose fold leaves a second qualifying union behind. */
  predicate HalfCollapsed(m: Members) {
    UnionBranch(Get(m, "anyOf")).Some? && QualifiesAfterWalk(Get(m, "oneOf"))
  }

  ghost predicate NowhereHalfCollapsed(j: Json)
    decreases j
  {
    match j
    case Arr(items) => forall b <- items :: NowhereHalfCollapsed(b)
    case Obj(m) =>
      && !HalfCollapsed(m)
      && forall k <- Fold(m) ::
           IsFoldedType(m, k) || (FoldedValueIsSmaller(m, k); NowhereHalfCollapsed(Fold(m)[k]))
    case _ => true
  }

  lemma CollapsedMember(b: Json)
    ensures IsNullMember(Collapse(b)) <==> IsNullMember(b) && !Folds(b.members)
    ensures IsPlainTyped(Collapse(b)) <==> IsPlainTyped(b)
  {
    if b.Obj? {
      var m, c := b.members, Collapse(b).members;
      if Folds(m) {
        FoldParts(m);
        FoldedBranchAt(m);
        assert c["type"] == Fold(m)["type"];
      } else {
        assert c.Keys == m.Keys;
        assert "type" in m ==> c["type"] == Collapse(m["type"]);
      }
    }
  }

  lemma CollapsedUnion(v: Json)
    ensures UnionBranch(Some(Collapse(v))).Some? <==> QualifiesAfterWalk(Some(v))
  {
    hide Folds, Typed;
    if v.Arr? {
      var w := Collapse(v);
      forall i | 0 <= i < |v.items|
        ensures IsNullMember(w.items[i]) <==> IsNullMember(v.items[i]) && !Folds(v.items[i].members)
        ensures IsPlainTyped(w.items[i]) <==> IsPlainTyped(v.items[i])
      {
        CollapsedMember(v.items[i]);
      }
      if UnionBranch(Some(w)).Some? {
        var i := BranchIndex(Some(w));
        PlainNeverFolds(v.items[i].members);
        BranchQualifies(Some(v), v.items[i].members, i);
      }
      if QualifiesAfterWalk(Some(v)) {
        var i := BranchIndex(Some(v));
        assert forall j | 0 <= j < |v.items| && j != i :: v.items[j] in v.items;
        BranchQualifies(Some(w), w.items[i].members, i);
      }
    }
  }

  lemma PlainNeverFolds(m: Members)
    requires IsPlainTyped(Obj(m))
    ensures !Folds(m)
  {
    assert "anyOf" in COMPOSITION_KEYWORDS && "oneOf" in COMPOSITION_KEYWORDS;
  }

  /** A walked node folds again exactly when its first fold left a second union behind. */
  lemma CollapsedFolds(m: Members)
    ensures Folds(Collapse(Obj(m)).members) <==> HalfCollapsed(m)
  {
    hide UnionBranch, QualifiesAfterWalk;
    var f, c := Fold(m), Collapse(Obj(m)).members;
    NoUnionInNothing();
    if Folds(m) {
      FoldParts(m);
      assert "anyOf" in COMPOSITION_KEYWORDS && "oneOf" in COMPOSITION_KEYWORDS;
      assert FoldedKeyword(m) !in c;
    }
    forall k | k in {"anyOf", "oneOf"} && k in m && !(Folds(m) && k == FoldedKeyword(m))
      ensures k in c
      ensures UnionBranch(Get(c, k)).Some? <==> QualifiesAfterWalk(Get(m, k))
      ensures QualifiesAfterWalk(Get(m, k)) ==> UnionBranch(Get(m, k)).Some?
    {
      assert f[k] == m[k];
      assert c[k] == Collapse(m[k]);
      CollapsedUnion(m[k]);
      QualifiesFirst(Get(m, k));
    }
    assert forall k | k in {"anyOf", "oneOf"} && k !in m :: k !in c;
    QualifiesFirst(Get(m, "oneOf"));
  }

  lemma NoUnionInNothing()
    ensures UnionBranch(None).None?
  {
  }

  lemma QualifiesFirst(union: Option<Json>)
    ensures QualifiesAfterWalk(union) ==> UnionBranch(union).Some?
  {
  }

  lemma {:induction false} SecondWalkCounts(j: Json)
    ensures Count(Collapse(j)) == 0 <==> NowhereHalfCollapsed(j)
    decreases j
  {
    match j
    case Arr(items) => SecondWalkCountsItems(items);
    case Obj(m) =>
      CollapsedFolds(m);
      var f := Fold(m);
      forall k <- f | !IsFoldedType(m, k)
        ensures Count(Collapse(f[k])) == 0 <==> NowhereHalfCollapsed(f[k])
      {
        FoldedValueIsSmaller(m, k);
        SecondWalkCounts(f[k]);
      }
      SecondWalkCountsMembers(m);
    case _ =>
  }

  lemma SecondWalkCountsMembers(m: Members)
    requires Folds(Collapse(Obj(m)).members) <==> HalfCollapsed(m)
    requires forall k <- Fold(m) | !IsFoldedType(m, k) ::
               Count(Collapse(Fold(m)[k])) == 0 <==> NowhereHalfCollapsed(Fold(m)[k])
    ensures Count(Collapse(Obj(m))) == 0 <==> NowhereHalfCollapsed(Obj(m))
  {
    hide Folds, SumValues, HalfCollapsed, Fold;
    var f, c := Fold(m), Collapse(Obj(m)).members;
    if !HalfCollapsed(m) {
      UnfoldedCount(c);
      if IsFoldedType(m, "type") {
        FoldParts(m);
        TypeArrayIsSettled(FoldedBranch(m)["type"].s);
      }
      assert c.Keys == f.Keys;
      hide Count;
      assert forall k <- f :: Count(c[k]) == 0 <==> IsFoldedType(m, k) || NowhereHalfCollapsed(f[k]);
    }
  }

  lemma {:induction false} SecondWalkCountsItems(items: seq<Json>)
    ensures CountItems(Collapse(Arr(items)).items) == 0 <==> forall b <- items :: NowhereHalfCollapsed(b)
    decreases items
  {
    hide Count, NowhereHalfCollapsed, Fold;
    var c := Collapse(Arr(items)).items;
    if items != [] {
      var n := |items| - 1;
      SecondWalkCountsItems(items[..n]);
      SecondWalkCounts(items[n]);
      assert Collapse(Arr(items[..n])).items == c[..n];
      assert forall b <- items :: b in items[..n] || b == items[n];
      assert forall b <- items[..n] :: b in items;
      assert items[n] in items;
    }
  }

  /**
   * A second walk changes nothing and counts nothing exactly when no node the first walk visits
   * holds two qualifying unions.
   */
  lemma CollapseIsIdempotentExactly(j: Json)
    ensures Collapse(Collapse(j)) == Collapse(j) <==> NowhereHalfCollapsed(j)
    ensures Count(Collapse(j)) == 0 <==> NowhereHalfCollapsed(j)
  {
    SecondWalkCounts(j);
    CountsWhatChanges(Collapse(j));
  }

  // ----- The published artefact -----

  /** `published_spec`: the collapsed copy with the placeholder servers. */
  function PublishedSpec(spec: Members, servers: Json): Members {
    Collapse(Obj(spec)).members["servers" := servers]
  }

  /** Every component schema is published under its own name, meaning what it meant. */
  lemma PublishedSchemasKeepMeaning(spec: Members, servers: Json, name: string, fuel: nat, x: Json)
    requires SafeDocument(Obj(spec)) && name in ComponentSchemas(Obj(spec))
    ensures
      var published := Obj(PublishedSpec(spec, servers));
      && "servers" in published.members && published.members["servers"] == servers
      && ComponentSchemas(published).Keys == ComponentSchemas(Obj(spec)).Keys
      && (Accepts(published, fuel, ComponentSchemas(published)[name], x) <==>
          Accepts(Obj(spec), fuel, ComponentSchemas(Obj(spec))[name], x))
  {
    hide Accepts, SafeSchema;
    var doc, published := Obj(spec), Obj(PublishedSpec(spec, servers));
    CollapsePublishesComponents(doc);
    assert ComponentSchemas(published) == ComponentSchemas(Collapse(doc));
    SchemaKeepsMeaning(doc, published, fuel, ComponentSchemas(doc)[name], x);
  }
}
