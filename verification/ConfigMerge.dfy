/**
 * cli/client/config/writer.go: overlaying the encoded typed config on the document it was read
 * from, so that keys the schema does not know survive and deleted entries disappear.
 */
module ConfigMerge {
  import opened Prelude

  /** A YAML node without aliases or merge keys; a mapping keeps its keys in file order. */
  datatype Node =
    | Null(comment: string)
    | Scalar(value: string, comment: string)
    | Sequence(items: seq<Node>)
    | Mapping(entries: seq<Entry>)
  datatype Entry = Entry(key: string, comment: string, value: Node)

  type Entries = seq<Entry>

  /** The sections whose direct children are entries the schema owns. */
  const SECTIONS := {"contexts", "environments", "identities"}

  function KeySet(es: Entries): set<string> {
    set e <- es :: e.key
  }

  ghost predicate DistinctKeys(es: Entries) {
    forall i, j | 0 <= i < j < |es| :: es[i].key != es[j].key
  }

  /** Every mapping of the tree has distinct keys, as the parser demands. */
  ghost predicate UniqueKeys(es: Entries)
    decreases es
  {
    && DistinctKeys(es)
    && forall e <- es :: e.value.Mapping? ==> UniqueKeys(e.value.entries)
  }

  // ----- The overlay, entry by entry -----

  function IndexOfKey(es: Entries, key: string): (i: int)
    ensures -1 <= i < |es|
    ensures i >= 0 ==> es[i].key == key && forall j | 0 <= j < i :: es[j].key != key
    ensures i == -1 ==> forall e <- es :: e.key != key
  {
    if es == [] then -1
    else
      var i := IndexOfKey(es[..|es| - 1], key);
      if i >= 0 then i else if es[|es| - 1].key == key then |es| - 1 else -1
  }

  function Kept(dst: Entries, src: Entries): Entries {
    if dst == [] then []
    else
      var kept := Kept(dst[..|dst| - 1], src);
      if IndexOfKey(src, dst[|dst| - 1].key) >= 0 then kept + [dst[|dst| - 1]] else kept
  }

  function Merge(dst: Entries, src: Entries, prune: bool): Entries
    decreases src, 1
  {
    if prune then Kept(Overlay(dst, src), src) else Overlay(dst, src)
  }

  function Overlay(dst: Entries, src: Entries): Entries
    decreases src, 0
  {
    if src == [] then dst
    else
      var done := Overlay(dst, src[..|src| - 1]);
      var s := src[|src| - 1];
      var i := IndexOfKey(done, s.key);
      if i >= 0 then done[i := done[i].(value := MergeValue(done[i].value, s))] else done + [s]
  }

  function MergeValue(was: Node, s: Entry): Node
    decreases s
  {
    if was.Mapping? && s.value.Mapping?
    then Mapping(Merge(was.entries, s.value.entries, s.key in SECTIONS))
    else s.value
  }

  /** `findKey`. */
  method FindKey(es: Entries, key: string) returns (i: int)
    ensures i == IndexOfKey(es, key)
  {
    i := 0;
    while i < |es|
      invariant 0 <= i <= |es|
      invariant forall j | 0 <= j < i :: es[j].key != key
    {
      if es[i].key == key {
        FirstIndex(es, key, i);
        return;
      }
      i := i + 1;
    }
    i := -1;
  }

  lemma FirstIndex(es: Entries, key: string, i: nat)
    requires i < |es| && es[i].key == key && forall j | 0 <= j < i :: es[j].key != key
    ensures IndexOfKey(es, key) == i
  {
    assert es[i] in es;
  }

  /**
   * `pruneKeysNotIn`: the kept entries are written over the front of the same array, in order;
   * the result is the length of that front.
   */
  method PruneKeysNotIn(content: array<Entry>, src: Entries) returns (n: nat)
    modifies content
    ensures n <= content.Length
    ensures content[..n] == Kept(old(content[..]), src)
  {
    n := 0;
    for i := 0 to content.Length
      invariant n <= i
      invariant content[..n] == Kept(old(content[..i]), src)
      invariant forall j | i <= j < content.Length :: content[j] == old(content[j])
    {
      ghost var kept := content[..n];
      assert old(content[..i + 1])[..i] == old(content[..i]);
      var at := FindKey(src, content[i].key);
      if at >= 0 {
        content[n] := content[i];
        n := n + 1;
        assert content[..n] == kept + [old(content[i])];
      }
    }
    assert old(content[..]) == old(content[..content.Length]);
  }

  /** `mergeMapping`: overlay every source pair, then drop what the source no longer names. */
  method MergeMapping(dst: Entries, src: Entries, pruneMissing: bool) returns (out: Entries)
    ensures out == Merge(dst, src, pruneMissing)
    decreases src
  {
    out := dst;
    for i := 0 to |src|
      invariant out == Overlay(dst, src[..i])
    {
      var s := src[i];
      var childPrune := s.key in SECTIONS;
      assert src[..i + 1][..i] == src[..i];
      var idx := FindKey(out, s.key);
      if idx >= 0 {
        var was := out[idx].value;
        if was.Mapping? && s.value.Mapping? {
          var merged := MergeMapping(was.entries, s.value.entries, childPrune);
          out := out[idx := out[idx].(value := Mapping(merged))];
        } else {
          out := out[idx := out[idx].(value := s.value)];
        }
      } else {
        out := out + [s];
      }
    }
    assert src[..|src|] == src;
    if pruneMissing {
      var content := new Entry[|out|](i requires 0 <= i < |out| => out[i]);
      assert content[..] == out;
      var n := PruneKeysNotIn(content, src);
      out := content[..n];
    }
  }

  // ----- The same merge on maps -----

  /** A document with the order of keys and their comments forgotten. */
  datatype Tree = Leaf(node: Node) | Branch(kids: map<string, Tree>)

  function View(n: Node): Tree
    decreases n
  {
    if n.Mapping? then Branch(ViewAll(n.entries)) else Leaf(n)
  }

  function ViewAll(es: Entries): map<string, Tree>
    decreases es
  {
    if es == [] then map[] else ViewAll(es[..|es| - 1])[es[|es| - 1].key := View(es[|es| - 1].value)]
  }

  function MapMerge(dst: map<string, Tree>, src: map<string, Tree>, prune: bool): map<string, Tree>
    decreases Branch(src)
  {
    map k | k in dst.Keys + src.Keys && (k in src || !prune) ::
      if k !in src then dst[k]
      else if k in dst && dst[k].Branch? && src[k].Branch?
      then Branch(MapMerge(dst[k].kids, src[k].kids, k in SECTIONS))
      else src[k]
  }

  lemma {:induction false} ViewKeys(es: Entries)
    ensures ViewAll(es).Keys == KeySet(es)
    decreases es
  {
    if es != [] {
      ViewKeys(es[..|es| - 1]);
      assert es == es[..|es| - 1] + [es[|es| - 1]];
      assert KeySet(es) == KeySet(es[..|es| - 1]) + {es[|es| - 1].key};
    }
  }

  lemma {:induction false} ViewAt(es: Entries, i: nat)
    requires DistinctKeys(es) && i < |es|
    ensures es[i].key in ViewAll(es) && ViewAll(es)[es[i].key] == View(es[i].value)
    decreases es
  {
    if i < |es| - 1 {
      ViewAt(es[..|es| - 1], i);
    }
  }

  lemma {:induction false} ViewUpdate(es: Entries, i: nat, n: Node)
    requires DistinctKeys(es) && i < |es|
    ensures ViewAll(es[i := es[i].(value := n)]) == ViewAll(es)[es[i].key := View(n)]
    decreases es
  {
    var last := |es| - 1;
    var updated := es[i := es[i].(value := n)];
    if i < last {
      ViewUpdate(es[..last], i, n);
      assert updated[..last] == es[..last][i := es[i].(value := n)];
    } else {
      assert updated[..last] == es[..last];
    }
  }

  lemma ViewAppend(es: Entries, e: Entry)
    ensures ViewAll(es + [e]) == ViewAll(es)[e.key := View(e.value)]
  {
    assert (es + [e])[..|es|] == es;
  }

  lemma {:induction false} KeptIsUnique(dst: Entries, src: Entries)
    requires UniqueKeys(dst)
    ensures UniqueKeys(Kept(dst, src))
    ensures forall e <- Kept(dst, src) :: e in dst
    decreases dst
  {
    hide IndexOfKey;
    if dst != [] {
      var init, last := dst[..|dst| - 1], dst[|dst| - 1];
      KeptIsUnique(init, src);
      assert forall e <- Kept(init, src) :: e.key != last.key;
    }
  }

  lemma {:induction false} ViewKept(dst: Entries, src: Entries)
    requires DistinctKeys(dst)
    ensures ViewAll(Kept(dst, src)) == map k | k in ViewAll(dst) && k in KeySet(src) :: ViewAll(dst)[k]
    decreases dst
  {
    hide View;
    if dst != [] {
      var init, last := dst[..|dst| - 1], dst[|dst| - 1];
      ViewKept(init, src);
      ViewKeys(init);
      assert last.key !in KeySet(init);
      var found := IndexOfKey(src, last.key) >= 0;
      assert found <==> last.key in KeySet(src);
      if found {
        ViewAppend(Kept(init, src), last);
      } else {
        assert Kept(dst, src) == Kept(init, src);
      }
    }
  }

  lemma UniqueUpdate(es: Entries, i: nat, n: Node)
    requires UniqueKeys(es) && i < |es| && (n.Mapping? ==> UniqueKeys(n.entries))
    ensures UniqueKeys(es[i := es[i].(value := n)])
  {
    var updated := es[i := es[i].(value := n)];
    assert forall j | 0 <= j < |es| :: updated[j].key == es[j].key;
    assert forall e <- updated :: e == updated[i] || e in es;
  }

  lemma UniqueAppend(es: Entries, e: Entry)
    requires UniqueKeys(es) && e.key !in KeySet(es) && (e.value.Mapping? ==> UniqueKeys(e.value.entries))
    ensures UniqueKeys(es + [e])
  {
    assert forall i | 0 <= i < |es| :: es[i].key in KeySet(es);
  }

  lemma UniquePrefix(es: Entries, n: nat)
    requires UniqueKeys(es) && n <= |es|
    ensures UniqueKeys(es[..n])
  {
    assert forall e <- es[..n] :: e in es;
  }

  /** The in-place merge of two trees with unique keys is the map merge of their views. */
  lemma {:induction false} MergeIsMapMerge(dst: Entries, src: Entries, prune: bool)
    requires UniqueKeys(dst) && UniqueKeys(src)
    ensures UniqueKeys(Merge(dst, src, prune))
    ensures ViewAll(Merge(dst, src, prune)) == MapMerge(ViewAll(dst), ViewAll(src), prune)
    decreases src, 1
  {
    hide Overlay;
    OverlayIsMapMerge(dst, src);
    if prune {
      KeptIsUnique(Overlay(dst, src), src);
      ViewKept(Overlay(dst, src), src);
      ViewKeys(src);
    }
  }

  lemma {:induction false} OverlayIsMapMerge(dst: Entries, src: Entries)
    requires UniqueKeys(dst) && UniqueKeys(src)
    ensures UniqueKeys(Overlay(dst, src))
    ensures ViewAll(Overlay(dst, src)) == MapMerge(ViewAll(dst), ViewAll(src), false)
    decreases src, 0
  {
    hide UniqueKeys, Merge, MapMerge;
    if src == [] {
      MapMergeNothing(ViewAll(dst));
    } else {
      var init, s := src[..|src| - 1], src[|src| - 1];
      UniquePrefix(src, |src| - 1);
      OverlayIsMapMerge(dst, init);
      assert s.key !in KeySet(init) && (s.value.Mapping? ==> UniqueKeys(s.value.entries)) by { UniqueLast(src); }
      assert ViewAll(src) == ViewAll(init)[s.key := View(s.value)];
      ViewKeys(init);
      MapMergeLast(ViewAll(dst), ViewAll(init), s.key, View(s.value));
      OverlayLast(Overlay(dst, init), s);
    }
  }

  lemma UniqueLast(es: Entries)
    requires UniqueKeys(es) && es != []
    ensures es[|es| - 1].key !in KeySet(es[..|es| - 1])
    ensures es[|es| - 1].value.Mapping? ==> UniqueKeys(es[|es| - 1].value.entries)
  {
    assert es[|es| - 1] in es;
  }

  /** The view of one more source pair laid over what the earlier ones left. */
  lemma {:induction false} OverlayLast(done: Entries, s: Entry)
    requires UniqueKeys(done) && (s.value.Mapping? ==> UniqueKeys(s.value.entries))
    ensures
      var i := IndexOfKey(done, s.key);
      var out := if i >= 0 then done[i := done[i].(value := MergeValue(done[i].value, s))] else done + [s];
      UniqueKeys(out) && ViewAll(out) == ViewAll(done)[s.key := MapMergeValue(ViewAll(done), s.key, View(s.value))]
    decreases s
  {
    hide Overlay, Merge, MapMerge;
    ViewKeys(done);
    var i := IndexOfKey(done, s.key);
    if i >= 0 {
      ViewAt(done, i);
      var was := done[i].value;
      assert done[i] in done;
      if was.Mapping? && s.value.Mapping? {
        MergeIsMapMerge(was.entries, s.value.entries, s.key in SECTIONS);
      }
      UniqueUpdate(done, i, MergeValue(was, s));
      ViewUpdate(done, i, MergeValue(was, s));
    } else {
      UniqueAppend(done, s);
      ViewAppend(done, s);
    }
  }

  function MapMergeValue(dst: map<string, Tree>, k: string, v: Tree): Tree {
    if k in dst && dst[k].Branch? && v.Branch?
    then Branch(MapMerge(dst[k].kids, v.kids, k in SECTIONS))
    else v
  }

  lemma MapMergeNothing(dst: map<string, Tree>)
    ensures MapMerge(dst, map[], false) == dst
  {
  }

  lemma MapMergeLast(dst: map<string, Tree>, init: map<string, Tree>, k: string, v: Tree)
    requires k !in init
    ensures MapMerge(dst, init[k := v], false)
         == MapMerge(dst, init, false)[k := MapMergeValue(MapMerge(dst, init, false), k, v)]
  {
  }

  // ----- Order and paths -----

  /** The keys in file order, each with the comment its key node carries. */
  function Labels(es: Entries): seq<(string, string)> {
    seq(|es|, i requires 0 <= i < |es| => (es[i].key, es[i].comment))
  }

  /** The source pairs whose keys the destination lacks, in source order. */
  function Added(src: Entries, dst: Entries): Entries {
    if src == [] then []
    else
      var added := Added(src[..|src| - 1], dst);
      if src[|src| - 1].key in KeySet(dst) then added else added + [src[|src| - 1]]
  }

  lemma KeySetConcat(a: Entries, b: Entries)
    ensures KeySet(a + b) == KeySet(a) + KeySet(b)
    ensures Labels(a + b) == Labels(a) + Labels(b)
  {
    assert forall e <- a + b :: e in a || e in b;
    assert forall e <- a :: e in a + b;
    assert forall e <- b :: e in a + b;
  }

  lemma KeySetSnoc(es: Entries, e: Entry)
    ensures KeySet(es + [e]) == KeySet(es) + {e.key}
    ensures Labels(es + [e]) == Labels(es) + [(e.key, e.comment)]
  {
    KeySetConcat(es, [e]);
    assert KeySet([e]) == {e.key};
  }

  lemma KeySetLast(es: Entries)
    requires es != []
    ensures KeySet(es) == KeySet(es[..|es| - 1]) + {es[|es| - 1].key}
  {
    KeySetSnoc(es[..|es| - 1], es[|es| - 1]);
    assert es == es[..|es| - 1] + [es[|es| - 1]];
  }

  lemma SameKeySet(a: Entries, b: Entries)
    requires Labels(a) == Labels(b)
    ensures KeySet(a) == KeySet(b)
  {
    LabelledKeys(a);
    LabelledKeys(b);
  }

  lemma LabelledKeys(es: Entries)
    ensures KeySet(es) == set l <- Labels(es) :: l.0
  {
    forall e <- es
      ensures e.key in set l <- Labels(es) :: l.0
    {
      var i :| 0 <= i < |es| && es[i] == e;
      assert Labels(es)[i] in Labels(es) && Labels(es)[i].0 == e.key;
    }
    forall l <- Labels(es)
      ensures l.0 in KeySet(es)
    {
      var i :| 0 <= i < |es| && Labels(es)[i] == l;
      assert es[i] in es && es[i].key == l.0;
    }
  }

  lemma {:induction false} OverlayLabels(dst: Entries, src: Entries)
    requires DistinctKeys(src)
    ensures Labels(Overlay(dst, src)) == Labels(dst) + Labels(Added(src, dst))
    decreases src
  {
    hide MergeValue, IndexOfKey, KeySet, Labels;
    if src == [] {
      NoLabels(dst);
    } else {
      var init, s := src[..|src| - 1], src[|src| - 1];
      OverlayLabels(dst, init);
      var done := Overlay(dst, init);
      AddedKeys(init, dst);
      KeySetConcat(dst, Added(init, dst));
      SameKeySet(done, dst + Added(init, dst));
      assert s.key !in KeySet(init) by { LastIsNew(src); }
      assert DistinctKeys(init);
      OverlayLastLabels(done, s);
      if s.key in KeySet(done) {
        assert Added(src, dst) == Added(init, dst) && Labels(done) + [] == Labels(done);
      } else {
        KeySetConcat(Added(init, dst), [s]);
        assert Labels(dst) + Labels(Added(init, dst)) + Labels([s]) ==
            Labels(dst) + (Labels(Added(init, dst)) + Labels([s]));
      }
    }
  }

  lemma NoLabels(es: Entries)
    ensures Labels(es) + Labels([]) == Labels(es)
  {
  }

  lemma LastIsNew(es: Entries)
    requires DistinctKeys(es) && es != []
    ensures es[|es| - 1].key !in KeySet(es[..|es| - 1])
  {
  }

  lemma OverlayLastLabels(done: Entries, s: Entry)
    ensures
      var i := IndexOfKey(done, s.key);
      var out := if i >= 0 then done[i := done[i].(value := MergeValue(done[i].value, s))] else done + [s];
      Labels(out) == Labels(done) + if s.key in KeySet(done) then [] else Labels([s])
  {
    hide MergeValue;
    assert s.key in KeySet(done) <==> IndexOfKey(done, s.key) >= 0;
    KeySetSnoc(done, s);
  }

  lemma {:induction false} AddedKeys(src: Entries, dst: Entries)
    ensures KeySet(Added(src, dst)) == KeySet(src) - KeySet(dst)
    decreases src
  {
    if src != [] {
      AddedKeys(src[..|src| - 1], dst);
      KeySetLast(src);
      KeySetSnoc(Added(src[..|src| - 1], dst), src[|src| - 1]);
    }
  }

  lemma {:induction false} KeptConcat(a: Entries, b: Entries, src: Entries)
    ensures Kept(a + b, src) == Kept(a, src) + Kept(b, src)
    decreases b
  {
    if b == [] {
      assert a + b == a;
    } else {
      KeptConcat(a, b[..|b| - 1], src);
      assert (a + b)[..|a + b| - 1] == a + b[..|b| - 1];
    }
  }

  lemma {:induction false} KeptLabels(a: Entries, b: Entries, src: Entries)
    requires Labels(a) == Labels(b)
    ensures Labels(Kept(a, src)) == Labels(Kept(b, src))
    decreases a
  {
    assert |a| == |Labels(a)| == |b|;
    if a != [] {
      var n := |a| - 1;
      assert Labels(a)[n] == Labels(b)[n];
      assert Labels(a[..n]) == Labels(a)[..n] == Labels(b)[..n] == Labels(b[..n]);
      KeptLabels(a[..n], b[..n], src);
      KeySetSnoc(Kept(a[..n], src), a[n]);
      KeySetSnoc(Kept(b[..n], src), b[n]);
    }
  }

  lemma {:induction false} KeptAll(es: Entries, src: Entries)
    requires KeySet(es) <= KeySet(src)
    ensures Kept(es, src) == es
    decreases es
  {
    if es != [] {
      var init, last := es[..|es| - 1], es[|es| - 1];
      assert es == init + [last];
      assert KeySet(init) <= KeySet(es) && last.key in KeySet(es);
      KeptAll(init, src);
    }
  }

  /**
   * Kept keys stay in their order with the comments on them, new keys follow in source order,
   * and with pruning exactly the source's keys are left.
   */
  lemma MergeKeepsOrder(dst: Entries, src: Entries, prune: bool)
    requires DistinctKeys(src)
    ensures Labels(Merge(dst, src, prune)) == Labels(if prune then Kept(dst, src) else dst) + Labels(Added(src, dst))
    ensures KeySet(Merge(dst, src, prune)) == if prune then KeySet(src) else KeySet(dst) + KeySet(src)
  {
    hide Overlay, Kept;
    var added := Added(src, dst);
    OverlayLabels(dst, src);
    AddedKeys(src, dst);
    assert Labels(dst) + Labels(added) == Labels(dst + added);
    SameKeySet(Overlay(dst, src), dst + added);
    assert KeySet(dst + added) == KeySet(dst) + KeySet(added);
    if prune {
      KeptLabels(Overlay(dst, src), dst + added, src);
      KeptConcat(dst, added, src);
      KeptAll(added, src);
      assert Labels(Kept(dst, src) + added) == Labels(Kept(dst, src)) + Labels(added);
      KeptKeys(Overlay(dst, src), src);
    }
  }

  lemma {:induction false} KeptKeys(es: Entries, src: Entries)
    ensures KeySet(Kept(es, src)) == KeySet(es) * KeySet(src)
    decreases es
  {
    if es != [] {
      var init, last := es[..|es| - 1], es[|es| - 1];
      KeptKeys(init, src);
      KeySetLast(es);
      KeySetSnoc(Kept(init, src), last);
      assert IndexOfKey(src, last.key) >= 0 <==> last.key in KeySet(src);
    }
  }

  /** The leaf a key path ends at, if it ends at one. */
  function LeafAt(kids: map<string, Tree>, path: seq<string>): Option<Node>
    decreases path
  {
    if path == [] || path[0] !in kids then None
    else match kids[path[0]]
      case Leaf(n) => if |path| == 1 then Some(n) else None
      case Branch(below) => LeafAt(below, path[1..])
  }

  /** A path of one key ends at a leaf under that key; a longer one goes on in the branch there. */
  lemma LeafAtExactly(kids: map<string, Tree>, key: string, rest: seq<string>, n: Node)
    ensures LeafAt(kids, [key] + rest) == Some(n) <==>
            && key in kids
            && if rest == [] then kids[key] == Leaf(n)
               else kids[key].Branch? && LeafAt(kids[key].kids, rest) == Some(n)
  {
    assert ([key] + rest)[1..] == rest;
    assert rest == [] ==> LeafAt(if key in kids && kids[key].Branch? then kids[key].kids else map[], rest) == None;
  }

  predicate IsSectionName(key: string) {
    key == "contexts" || key == "environments" || key == "identities"
  }

  lemma SectionNamesAre()
    ensures forall key :: key in SECTIONS <==> IsSectionName(key)
  {
  }

  /** No step of a destination path is pruned or overwritten. */
  ghost predicate Survives(dst: map<string, Tree>, src: map<string, Tree>, prune: bool, path: seq<string>)
    decreases path
  {
    && path != []
    && if path[0] !in src then !prune
       else
         && path[0] in dst && dst[path[0]].Branch? && src[path[0]].Branch?
         && Survives(dst[path[0]].kids, src[path[0]].kids, IsSectionName(path[0]), path[1..])
  }

  /**
   * Every leaf of the merged tree: the source's leaf at that path or, when no step of the path
   * is pruned or overwritten, the destination's.
   */
  lemma {:induction false} MergedLeafAt(dst: map<string, Tree>, src: map<string, Tree>, prune: bool, path: seq<string>,
                                        n: Node)
    ensures LeafAt(MapMerge(dst, src, prune), path) == Some(n) <==>
            LeafAt(src, path) == Some(n) || (LeafAt(dst, path) == Some(n) && Survives(dst, src, prune, path))
    decreases path
  {
    if path != [] {
      var k, rest := path[0], path[1..];
      if k in src && k in dst && dst[k].Branch? && src[k].Branch? {
        MergedLeafAt(dst[k].kids, src[k].kids, k in SECTIONS, rest, n);
      }
    }
  }

  /**
   * A field the schema does not know survives in an entry the mutator kept, exactly when the
   * entry is not itself named like a section: an entry of that name is pruned like one.
   */
  lemma UnknownFieldSurvivesExactly(doc: map<string, Tree>, typed: map<string, Tree>, section: string, entry: string,
                                    field: string, n: Node)
    requires section == "contexts" || section == "environments" || section == "identities"
    requires LeafAt(doc, [section, entry, field]) == Some(n)
    requires section in typed && typed[section].Branch? && entry in typed[section].kids
    requires typed[section].kids[entry].Branch? && field !in typed[section].kids[entry].kids
    ensures LeafAt(MapMerge(doc, typed, false), [section, entry, field]) == Some(n) <==>
            entry != "contexts" && entry != "environments" && entry != "identities"
  {
    var path := [section, entry, field];
    MergedLeafAt(doc, typed, false, path, n);
    assert path[1..] == [entry, field] && path[1..][1..] == [field];
    var d, t := doc[section].kids, typed[section].kids;
    assert LeafAt(doc, path) == LeafAt(d, [entry, field]) == LeafAt(d[entry].kids, [field]);
    assert Survives(doc, typed, false, path) == Survives(d, t, true, [entry, field]);
    assert Survives(d, t, true, [entry, field]) ==
        Survives(d[entry].kids, t[entry].kids, IsSectionName(entry), [field]);
    assert LeafAt(typed, path) == LeafAt(t, [entry, field]) == LeafAt(t[entry].kids, [field]) == None;
  }

  // ----- The typed config -----

  datatype Config = Config(
    activeContext: string,
    contexts: map<string, Context>,
    environments: map<string, Env>,
    identities: map<string, Identity>,
    theme: string)
  datatype Context = Context(environment: string, identity: string, mode: string)
  datatype Env = Env(baseURL: string, brokerURL: string, caCertPath: string)
  datatype Identity = Identity(typ: string, environments: map<string, EnvRegState>)
  datatype EnvRegState = EnvRegState(clientID: string, status: string)

  type Kids = map<string, Tree>

  function Text(s: string): Tree {
    Leaf(Scalar(s, ""))
  }

  /** A field tagged omit-when-empty. */
  function TextUnlessEmpty(key: string, s: string): Kids {
    if s == "" then map[] else map[key := Text(s)]
  }

  function EncodeContext(c: Context): Kids {
    map["environment" := Text(c.environment), "identity" := Text(c.identity), "mode" := Text(c.mode)]
  }

  function EncodeEnv(e: Env): Kids {
    map["base_url" := Text(e.baseURL)]
    + TextUnlessEmpty("broker_url", e.brokerURL) + TextUnlessEmpty("ca_cert_path", e.caCertPath)
  }

  function EncodeReg(r: EnvRegState): Kids {
    map["client_id" := Text(r.clientID), "status" := Text(r.status)]
  }

  function EncodeRegs(regs: map<string, EnvRegState>): Kids {
    map k | k in regs :: Branch(EncodeReg(regs[k]))
  }

  function EncodeIdentity(i: Identity): Kids {
    map["type" := Text(i.typ)]
    + if i.environments == map[] then map[] else map["environments" := Branch(EncodeRegs(i.environments))]
  }

  function EncodeContexts(contexts: map<string, Context>): Kids {
    map k | k in contexts :: Branch(EncodeContext(contexts[k]))
  }

  function EncodeEnvs(envs: map<string, Env>): Kids {
    map k | k in envs :: Branch(EncodeEnv(envs[k]))
  }

  function EncodeIdentities(ids: map<string, Identity>): Kids {
    map k | k in ids :: Branch(EncodeIdentity(ids[k]))
  }

  function Encode(c: Config): Kids {
    map["active_context" := Text(c.activeContext),
        "contexts" := Branch(EncodeContexts(c.contexts)),
        "environments" := Branch(EncodeEnvs(c.environments)),
        "identities" := Branch(EncodeIdentities(c.identities))]
    + TextUnlessEmpty("theme", c.theme)
  }

  // Decoding: an absent or null field is empty, an unknown one is ignored, and a field of the
  // wrong kind fails the whole document.

  predicate IsText(kids: Kids, key: string) {
    key in kids ==> kids[key].Leaf? && (kids[key].node.Scalar? || kids[key].node.Null?)
  }

  function TextAt(kids: Kids, key: string): string
    requires IsText(kids, key)
  {
    if key in kids && kids[key].node.Scalar? then kids[key].node.value else ""
  }

  predicate IsKeyed(t: Tree) {
    t.Branch? || t.node.Null?
  }

  function KidsOf(t: Tree): Kids {
    if t.Branch? then t.kids else map[]
  }

  predicate IsSection(kids: Kids, key: string, ok: Kids -> bool) {
    key in kids ==> IsKeyed(kids[key]) && AllDecode(KidsOf(kids[key]), ok)
  }

  predicate AllDecode(section: Kids, ok: Kids -> bool) {
    forall k <- section :: IsKeyed(section[k]) && ok(KidsOf(section[k]))
  }

  function SectionAt(kids: Kids, key: string): Kids {
    if key in kids then KidsOf(kids[key]) else map[]
  }

  predicate ContextDecodes(kids: Kids) {
    IsText(kids, "environment") && IsText(kids, "identity") && IsText(kids, "mode")
  }

  function DecodeContext(kids: Kids): Context
    requires ContextDecodes(kids)
  {
    Context(TextAt(kids, "environment"), TextAt(kids, "identity"), TextAt(kids, "mode"))
  }

  predicate EnvDecodes(kids: Kids) {
    IsText(kids, "base_url") && IsText(kids, "broker_url") && IsText(kids, "ca_cert_path")
  }

  function DecodeEnv(kids: Kids): Env
    requires EnvDecodes(kids)
  {
    Env(TextAt(kids, "base_url"), TextAt(kids, "broker_url"), TextAt(kids, "ca_cert_path"))
  }

  predicate RegDecodes(kids: Kids) {
    IsText(kids, "client_id") && IsText(kids, "status")
  }

  function DecodeReg(kids: Kids): EnvRegState
    requires RegDecodes(kids)
  {
    EnvRegState(TextAt(kids, "client_id"), TextAt(kids, "status"))
  }

  predicate IdentityDecodes(kids: Kids) {
    IsText(kids, "type") && IsSection(kids, "environments", RegDecodes)
  }

  function DecodeRegs(section: Kids): map<string, EnvRegState>
    requires AllDecode(section, RegDecodes)
  {
    map k | k in section :: DecodeReg(KidsOf(section[k]))
  }

  function DecodeIdentity(kids: Kids): Identity
    requires IdentityDecodes(kids)
  {
    Identity(TextAt(kids, "type"), DecodeRegs(SectionAt(kids, "environments")))
  }

  predicate Decodes(kids: Kids) {
    && IsText(kids, "active_context")
    && IsSection(kids, "contexts", ContextDecodes)
    && IsSection(kids, "environments", EnvDecodes)
    && IsSection(kids, "identities", IdentityDecodes)
    && IsText(kids, "theme")
  }

  function DecodeContexts(section: Kids): map<string, Context>
    requires AllDecode(section, ContextDecodes)
  {
    map k | k in section :: DecodeContext(KidsOf(section[k]))
  }

  function DecodeEnvs(section: Kids): map<string, Env>
    requires AllDecode(section, EnvDecodes)
  {
    map k | k in section :: DecodeEnv(KidsOf(section[k]))
  }

  function DecodeIdentities(section: Kids): map<string, Identity>
    requires AllDecode(section, IdentityDecodes)
  {
    map k | k in section :: DecodeIdentity(KidsOf(section[k]))
  }

  function Decode(kids: Kids): Config
    requires Decodes(kids)
  {
    Config(
      TextAt(kids, "active_context"),
      DecodeContexts(SectionAt(kids, "contexts")),
      DecodeEnvs(SectionAt(kids, "environments")),
      DecodeIdentities(SectionAt(kids, "identities")),
      TextAt(kids, "theme"))
  }

  predicate ClearsNoField(before: Env, after: Env) {
    && (after.brokerURL == "" ==> before.brokerURL == "")
    && (after.caCertPath == "" ==> before.caCertPath == "")
  }

  /**
   * No mutation empties an omit-when-empty field that was set. An entry named like a section is
   * pruned field by field, so there the emptying does take.
   */
  predicate ClearsNothing(before: Config, after: Config) {
    && (after.theme == "" ==> before.theme == "")
    && (forall k <- after.environments :: k in before.environments && !IsSectionName(k) ==>
          ClearsNoField(before.environments[k], after.environments[k]))
    && (forall k <- after.identities :: k in before.identities && !IsSectionName(k) ==>
          (after.identities[k].environments == map[] ==> before.identities[k].environments == map[]))
  }

  function Save(doc: Kids, after: Config): Kids {
    MapMerge(doc, Encode(after), false)
  }

  lemma TextMerged(doc: Kids, src: Kids, prune: bool, key: string)
    requires IsText(doc, key) && IsText(src, key)
    ensures IsText(MapMerge(doc, src, prune), key)
    ensures TextAt(MapMerge(doc, src, prune), key)
         == if key in src then TextAt(src, key) else if prune then "" else TextAt(doc, key)
  {
  }

  lemma ContextMerged(doc: Kids, c: Context, prune: bool)
    requires ContextDecodes(doc)
    ensures ContextDecodes(MapMerge(doc, EncodeContext(c), prune))
    ensures DecodeContext(MapMerge(doc, EncodeContext(c), prune)) == c
  {
    hide MapMerge;
    TextMerged(doc, EncodeContext(c), prune, "environment");
    TextMerged(doc, EncodeContext(c), prune, "identity");
    TextMerged(doc, EncodeContext(c), prune, "mode");
  }

  lemma EnvMerged(doc: Kids, e: Env, prune: bool)
    requires EnvDecodes(doc)
    ensures EnvDecodes(MapMerge(doc, EncodeEnv(e), prune))
    ensures DecodeEnv(MapMerge(doc, EncodeEnv(e), prune)) == e <==>
            prune || ClearsNoField(DecodeEnv(doc), e)
  {
    hide MapMerge;
    TextMerged(doc, EncodeEnv(e), prune, "base_url");
    TextMerged(doc, EncodeEnv(e), prune, "broker_url");
    TextMerged(doc, EncodeEnv(e), prune, "ca_cert_path");
  }

  lemma RegMerged(doc: Kids, r: EnvRegState, prune: bool)
    requires RegDecodes(doc)
    ensures RegDecodes(MapMerge(doc, EncodeReg(r), prune))
    ensures DecodeReg(MapMerge(doc, EncodeReg(r), prune)) == r
  {
    hide MapMerge;
    TextMerged(doc, EncodeReg(r), prune, "client_id");
    TextMerged(doc, EncodeReg(r), prune, "status");
  }

  ghost predicate AllBranches(kids: Kids) {
    forall k <- kids :: kids[k].Branch?
  }

  /** A merged section holds the source's entries, each merged over the one it replaces. */
  lemma EntriesMerged(doc: Kids, src: Kids)
    requires AllBranches(src)
    ensures MapMerge(doc, src, true).Keys == src.Keys
    ensures forall k <- src ::
              MapMerge(doc, src, true)[k] == Branch(MapMerge(SectionAt(doc, k), src[k].kids, k in SECTIONS))
  {
    forall k <- src {
      MergeOverNothing(src[k].kids, k in SECTIONS);
    }
  }

  lemma MergeOverNothing(src: Kids, prune: bool)
    ensures MapMerge(map[], src, prune) == src
  {
  }

  lemma SectionMerged(doc: Kids, src: Kids, prune: bool, key: string)
    requires key in SECTIONS && key in src && src[key].Branch?
    ensures key in MapMerge(doc, src, prune)
    ensures MapMerge(doc, src, prune)[key] == Branch(MapMerge(SectionAt(doc, key), src[key].kids, true))
  {
    MergeOverNothing(src[key].kids, true);
  }

  lemma NothingDecodes()
    ensures ContextDecodes(map[]) && EnvDecodes(map[]) && RegDecodes(map[]) && IdentityDecodes(map[])
    ensures DecodeEnv(map[]) == Env("", "", "") && DecodeIdentity(map[]) == Identity("", map[])
  {
  }

  lemma Untouched(doc: Kids, src: Kids, prune: bool, key: string)
    requires key !in src
    ensures key in MapMerge(doc, src, prune) <==> key in doc && !prune
    ensures key in doc && !prune ==> MapMerge(doc, src, prune)[key] == doc[key]
  {
  }

  lemma RegsMerged(doc: Kids, regs: map<string, EnvRegState>)
    requires AllDecode(doc, RegDecodes)
    ensures AllDecode(MapMerge(doc, EncodeRegs(regs), true), RegDecodes)
    ensures DecodeRegs(MapMerge(doc, EncodeRegs(regs), true)) == regs
  {
    hide MapMerge, DecodeReg, EncodeReg, RegDecodes;
    EntriesMerged(doc, EncodeRegs(regs));
    NothingDecodes();
    forall k <- regs {
      RegMerged(SectionAt(doc, k), regs[k], k in SECTIONS);
    }
  }

  lemma ContextsMerged(doc: Kids, contexts: map<string, Context>)
    requires AllDecode(doc, ContextDecodes)
    ensures AllDecode(MapMerge(doc, EncodeContexts(contexts), true), ContextDecodes)
    ensures DecodeContexts(MapMerge(doc, EncodeContexts(contexts), true)) == contexts
  {
    hide MapMerge, DecodeContext, EncodeContext, ContextDecodes;
    EntriesMerged(doc, EncodeContexts(contexts));
    NothingDecodes();
    forall k <- contexts {
      ContextMerged(SectionAt(doc, k), contexts[k], k in SECTIONS);
    }
  }

  lemma IdentityMerged(doc: Kids, i: Identity, prune: bool)
    requires IdentityDecodes(doc)
    ensures IdentityDecodes(MapMerge(doc, EncodeIdentity(i), prune))
    ensures DecodeIdentity(MapMerge(doc, EncodeIdentity(i), prune)) == i <==>
            prune || (i.environments == map[] ==> DecodeIdentity(doc).environments == map[])
  {
    hide MapMerge, RegDecodes, EncodeRegs, DecodeReg;
    var src := EncodeIdentity(i);
    TextMerged(doc, src, prune, "type");
    if i.environments == map[] {
      Untouched(doc, src, prune, "environments");
    } else {
      SectionMerged(doc, src, prune, "environments");
      RegsMerged(SectionAt(doc, "environments"), i.environments);
    }
  }

  lemma EnvironmentsMerged(doc: Kids, envs: map<string, Env>)
    requires AllDecode(doc, EnvDecodes)
    ensures AllDecode(MapMerge(doc, EncodeEnvs(envs), true), EnvDecodes)
    ensures DecodeEnvs(MapMerge(doc, EncodeEnvs(envs), true)) == envs <==>
            forall k <- envs :: k in DecodeEnvs(doc) && !IsSectionName(k) ==> ClearsNoField(DecodeEnvs(doc)[k], envs[k])
  {
    SectionNamesAre();
    hide MapMerge, EncodeEnv, EnvDecodes, DecodeEnv, SECTIONS, IsSectionName;
    EntriesMerged(doc, EncodeEnvs(envs));
    NothingDecodes();
    var merged := MapMerge(doc, EncodeEnvs(envs), true);
    forall k <- envs
      ensures EnvDecodes(KidsOf(merged[k]))
      ensures DecodeEnv(KidsOf(merged[k])) == envs[k] <==>
              (k in doc && !IsSectionName(k) ==> ClearsNoField(DecodeEnv(KidsOf(doc[k])), envs[k]))
    {
      EnvMerged(SectionAt(doc, k), envs[k], k in SECTIONS);
    }
    assert DecodeEnvs(merged) == envs <==> forall k <- envs :: DecodeEnvs(merged)[k] == envs[k];
  }

  lemma IdentitiesMerged(doc: Kids, ids: map<string, Identity>)
    requires AllDecode(doc, IdentityDecodes)
    ensures AllDecode(MapMerge(doc, EncodeIdentities(ids), true), IdentityDecodes)
    ensures DecodeIdentities(MapMerge(doc, EncodeIdentities(ids), true)) == ids <==>
            forall k <- ids :: k in DecodeIdentities(doc) && !IsSectionName(k) ==>
              (ids[k].environments == map[] ==> DecodeIdentities(doc)[k].environments == map[])
  {
    SectionNamesAre();
    hide MapMerge, EncodeIdentity, IdentityDecodes, DecodeIdentity, SECTIONS, IsSectionName;
    EntriesMerged(doc, EncodeIdentities(ids));
    NothingDecodes();
    var merged := MapMerge(doc, EncodeIdentities(ids), true);
    forall k <- ids
      ensures IdentityDecodes(KidsOf(merged[k]))
      ensures DecodeIdentity(KidsOf(merged[k])) == ids[k] <==>
              (k in doc && !IsSectionName(k) ==>
                 (ids[k].environments == map[] ==> DecodeIdentity(KidsOf(doc[k])).environments == map[]))
    {
      IdentityMerged(SectionAt(doc, k), ids[k], k in SECTIONS);
    }
    assert DecodeIdentities(merged) == ids <==> forall k <- ids :: DecodeIdentities(merged)[k] == ids[k];
  }

  /**
   * What a mutation leaves on disk reads back as the config it produced, exactly when it empties
   * no omit-when-empty field that was set.
   */
  lemma SavedConfigReadsBackExactly(doc: Kids, after: Config)
    requires Decodes(doc)
    ensures Decodes(Save(doc, after))
    ensures Decode(Save(doc, after)) == after <==> ClearsNothing(Decode(doc), after)
  {
    hide MapMerge, ContextDecodes, EnvDecodes, IdentityDecodes, DecodeContexts, DecodeEnvs, DecodeIdentities,
      EncodeContexts, EncodeEnvs, EncodeIdentities, AllDecode, ClearsNoField, IsSectionName;
    var src := Encode(after);
    SectionMerged(doc, src, false, "contexts");
    SectionMerged(doc, src, false, "environments");
    SectionMerged(doc, src, false, "identities");
    assert AllDecode(map[], ContextDecodes) && AllDecode(map[], EnvDecodes) && AllDecode(map[], IdentityDecodes) by {
      NoEntriesDecode();
    }
    ContextsMerged(SectionAt(doc, "contexts"), after.contexts);
    EnvironmentsMerged(SectionAt(doc, "environments"), after.environments);
    IdentitiesMerged(SectionAt(doc, "identities"), after.identities);
    TextMerged(doc, src, false, "active_context");
    TextMerged(doc, src, false, "theme");
  }

  lemma NoEntriesDecode()
    ensures AllDecode(map[], ContextDecodes) && AllDecode(map[], EnvDecodes) && AllDecode(map[], IdentityDecodes)
  {
  }

  /** A fresh file adopts the encoding whole, and that always reads back. */
  lemma FreshConfigReadsBack(after: Config)
    ensures Decodes(Encode(after)) && Decode(Encode(after)) == after
  {
    hide MapMerge, Encode, ContextDecodes, EnvDecodes, IdentityDecodes, DecodeContext, DecodeEnv, DecodeIdentity;
    SavedConfigReadsBackExactly(map[], after);
    MergeOverNothing(Encode(after), false);
  }

  /** The config file: absent, or a document whose mappings have unique keys. */
  class ConfigFile {
    var doc: Option<Entries>

    ghost predicate Valid()
      reads this
    {
      doc.Some? ==> UniqueKeys(doc.value)
    }

    ghost function Contents(): Kids
      reads this
    {
      if doc.Some? then ViewAll(doc.value) else map[]
    }

    constructor ()
      ensures Valid() && doc == None
    {
      doc := None;
    }

    /**
     * `MutateConfig` under its lock. The mutator either fails or returns the config it made of
     * the one on disk; the encoder lays a config out as a document in an order of its own.
     */
    method MutateConfig(mutator: Config -> Option<Config>, encoder: Config -> Entries) returns (saved: bool)
      requires Valid()
      requires forall c :: UniqueKeys(encoder(c)) && ViewAll(encoder(c)) == Encode(c)
      modifies this
      ensures Valid()
      ensures saved <==> Decodes(old(Contents())) && mutator(Decode(old(Contents()))).Some?
      ensures !saved ==> doc == old(doc)
      ensures saved ==>
                var before := Decode(old(Contents()));
                var after := mutator(before).value;
                && Contents() == Save(old(Contents()), after)
                && Decodes(Contents())
                && (Decode(Contents()) == after <==> ClearsNothing(before, after))
    {
      var view := if doc.Some? then ViewAll(doc.value) else map[];
      if !Decodes(view) {
        return false;
      }
      var mutated := mutator(Decode(view));
      if mutated.None? {
        return false;
      }
      var typed := encoder(mutated.value);
      SavedConfigReadsBackExactly(view, mutated.value);
      if doc.Some? {
        MergeIsMapMerge(doc.value, typed, false);
        var merged := MergeMapping(doc.value, typed, false);
        doc := Some(merged);
      } else {
        MergeOverNothing(Encode(mutated.value), false);
        doc := Some(typed);
      }
      saved := true;
    }
  }
}
