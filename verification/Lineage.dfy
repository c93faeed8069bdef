/** The lineage graph in columns: each model to the right of everything it reads. */
module Lineage {
  import opened Prelude
  import opened Sorting

  datatype Model = Model(name: string, dependsOn: seq<string>)

  /** `{model["name"]: model for model in models}`: the last model of a name counts. */
  function ByName(models: seq<Model>): (m: map<string, Model>)
    ensures m.Keys == set x | x in models :: x.name
    ensures forall n | n in m :: m[n] in models && m[n].name == n
  {
    if models == [] then map[]
    else
      var last := models[|models| - 1];
      assert models == models[..|models| - 1] + [last];
      ByName(models[..|models| - 1])[last.name := last]
  }

  // ----- upstream chains -----

  /** `child` reads `parent`, both being known. */
  predicate Reads(graph: map<string, Model>, child: string, parent: string) {
    child in graph && parent in graph && parent in graph[child].dependsOn
  }

  /** Known models, each reading the next. */
  ghost predicate IsUpstream(graph: map<string, Model>, chain: seq<string>) {
    && chain != [] && (forall n | n in chain :: n in graph)
    && forall i | 0 <= i < |chain| - 1 :: Reads(graph, chain[i], chain[i + 1])
  }

  ghost predicate Acyclic(graph: map<string, Model>) {
    forall chain | IsUpstream(graph, chain) && |chain| > 1 :: chain[0] != chain[|chain| - 1]
  }

  /** The longest chain upstream of `name` makes `d` steps. */
  ghost predicate IsLongest(graph: map<string, Model>, name: string, d: nat) {
    && (exists chain :: IsUpstream(graph, chain) && chain[0] == name && |chain| == d + 1)
    && (forall chain | IsUpstream(graph, chain) && chain[0] == name :: |chain| <= d + 1)
  }

  ghost predicate Reaches(graph: map<string, Model>, from: string, to: string) {
    exists chain :: IsUpstream(graph, chain) && |chain| > 1 && chain[0] == from && chain[|chain| - 1] == to
  }

  lemma ChainCons(graph: map<string, Model>, child: string, chain: seq<string>)
    requires IsUpstream(graph, chain) && Reads(graph, child, chain[0])
    ensures IsUpstream(graph, [child] + chain)
  {
    var longer := [child] + chain;
    forall i | 0 <= i < |longer| - 1 ensures Reads(graph, longer[i], longer[i + 1]) {
      if i > 0 { assert longer[i] == chain[i - 1] && longer[i + 1] == chain[i]; }
    }
  }

  lemma ChainSnoc(graph: map<string, Model>, chain: seq<string>, parent: string)
    requires IsUpstream(graph, chain) && Reads(graph, chain[|chain| - 1], parent)
    ensures IsUpstream(graph, chain + [parent])
  {
    var longer := chain + [parent];
    forall i | 0 <= i < |longer| - 1 ensures Reads(graph, longer[i], longer[i + 1]) {
      if i < |chain| - 1 { assert longer[i] == chain[i] && longer[i + 1] == chain[i + 1]; }
    }
  }

  lemma ChainTail(graph: map<string, Model>, chain: seq<string>, i: nat)
    requires IsUpstream(graph, chain) && i < |chain|
    ensures IsUpstream(graph, chain[i..])
  {
    var tail := chain[i..];
    forall j | 0 <= j < |tail| - 1 ensures Reads(graph, tail[j], tail[j + 1]) {
      assert tail[j] == chain[i + j] && tail[j + 1] == chain[i + j + 1];
    }
    forall n | n in tail ensures n in graph { assert n in chain; }
  }

  lemma ReachesParent(graph: map<string, Model>, from: string, child: string, parent: string)
    requires Reads(graph, child, parent) && (from == child || Reaches(graph, from, child))
    ensures Reaches(graph, from, parent)
  {
    if Reaches(graph, from, child) {
      var chain :| IsUpstream(graph, chain) && |chain| > 1 && chain[0] == from && chain[|chain| - 1] == child;
      ChainSnoc(graph, chain, parent);
      assert (chain + [parent])[0] == from;
    } else {
      assert IsUpstream(graph, [child, parent]);
    }
  }

  /** One more than the deepest parent is the length of the longest chain. */
  lemma LongestFromParents(graph: map<string, Model>, name: string, parents: seq<string>,
                           depths: map<string, nat>, best: int)
    requires name in graph
    requires forall p :: p in parents <==> Reads(graph, name, p)
    requires forall p | p in parents :: p in depths && IsLongest(graph, p, depths[p]) && depths[p] <= best
    requires if parents == [] then best == -1 else exists p :: p in parents && depths[p] == best
    ensures best >= -1 && IsLongest(graph, name, best + 1)
  {
    if parents == [] {
      assert IsUpstream(graph, [name]);
    } else {
      var p :| p in parents && depths[p] == best;
      var chain :| IsUpstream(graph, chain) && chain[0] == p && |chain| == best + 1;
      ChainCons(graph, name, chain);
      assert ([name] + chain)[0] == name;
    }
    forall chain | IsUpstream(graph, chain) && chain[0] == name ensures |chain| <= best + 2 {
      if |chain| > 1 {
        ChainTail(graph, chain, 1);
        assert Reads(graph, chain[0], chain[1]);
        assert chain[1..][0] == chain[1] && chain[1] in parents;
      }
    }
  }

  // ----- the recursion -----

  /** What is memoised is right, provided the graph has no cycle. */
  ghost predicate Memoised(graph: map<string, Model>, depths: map<string, nat>) {
    && depths.Keys <= graph.Keys
    && (Acyclic(graph) ==> forall n | n in depths :: IsLongest(graph, n, depths[n]))
  }

  /** The memo only grows, and not by any model the recursion is still inside of. */
  ghost predicate Grows(before: map<string, nat>, after: map<string, nat>, seen: set<string>) {
    && (forall n | n in before :: n in after && after[n] == before[n])
    && (forall n | n in after && n !in before :: n !in seen)
  }

  /** Without a cycle, every model being visited stands downstream of `name`. */
  ghost predicate Downstream(graph: map<string, Model>, seen: set<string>, name: string) {
    Acyclic(graph) ==> forall s | s in seen :: Reaches(graph, s, name)
  }

  /** Without a cycle, `best` is the depth of the deepest of these parents. */
  ghost predicate IsBest(graph: map<string, Model>, parents: seq<string>, depths: map<string, nat>, best: int) {
    Acyclic(graph) ==>
      && (forall p | p in parents :: p in depths && depths[p] <= best)
      && (if parents == [] then best == -1 else exists p :: p in parents && p in depths && depths[p] == best)
  }

  lemma DownstreamOfParent(graph: map<string, Model>, seen: set<string>, child: string, parent: string)
    requires Downstream(graph, seen, child) && Reads(graph, child, parent)
    ensures Downstream(graph, seen + {child}, parent)
  {
    if Acyclic(graph) {
      forall s | s in seen + {child} ensures Reaches(graph, s, parent) { ReachesParent(graph, s, child, parent); }
    }
  }

  lemma CycleFound(graph: map<string, Model>, name: string)
    requires Reaches(graph, name, name)
    ensures !Acyclic(graph)
  {
    var chain :| IsUpstream(graph, chain) && |chain| > 1 && chain[0] == name && chain[|chain| - 1] == name;
  }

  lemma NotSeenAgain(graph: map<string, Model>, seen: set<string>, name: string)
    requires Downstream(graph, seen, name) && name in seen
    ensures !Acyclic(graph)
  {
    if Acyclic(graph) { CycleFound(graph, name); }
  }

  lemma GrowsThrough(before: map<string, nat>, middle: map<string, nat>, after: map<string, nat>,
                     seen: set<string>, name: string)
    requires Grows(before, middle, seen) && Grows(middle, after, seen + {name}) && name !in middle
    ensures Grows(before, after, seen) && name !in after
  {
  }

  lemma GrowsNot(depths: map<string, nat>, seen: set<string>)
    ensures Grows(depths, depths, seen)
  {
  }

  lemma GrowsByOne(before: map<string, nat>, after: map<string, nat>, seen: set<string>, name: string, d: nat)
    requires Grows(before, after, seen) && name !in after && name !in seen
    ensures Grows(before, after[name := d], seen)
  {
  }

  /** `[dep for dep in by_name[name]["depends_on"] if dep in known]`. */
  function KnownParents(graph: map<string, Model>, name: string): (parents: seq<string>)
    requires name in graph
    ensures forall p :: p in parents <==> Reads(graph, name, p)
    ensures forall p | p in parents :: p in graph
  {
    Filter(graph[name].dependsOn, (dep: string) => dep in graph)
  }

  lemma BestNext(graph: map<string, Model>, parents: seq<string>, before: map<string, nat>, after: map<string, nat>,
                 seen: set<string>, best: int, parent: string, d: nat)
    requires IsBest(graph, parents, before, best) && Grows(before, after, seen)
    requires Acyclic(graph) ==> parent in after && after[parent] == d
    ensures IsBest(graph, parents + [parent], after, if d > best then d else best)
  {
    if Acyclic(graph) {
      var longer, best' := parents + [parent], if d > best then d else best;
      assert parent in longer;
      if best' == best && parents != [] {
        var p :| p in parents && p in before && before[p] == best;
        assert p in longer && after[p] == best';
      }
    }
  }

  lemma MemoiseNext(graph: map<string, Model>, name: string, parents: seq<string>, depths: map<string, nat>, best: int)
    requires name in graph && Memoised(graph, depths) && best >= -1
    requires forall p :: p in parents <==> Reads(graph, name, p)
    requires IsBest(graph, parents, depths, best)
    ensures Memoised(graph, depths[name := best + 1])
  {
    if Acyclic(graph) { LongestFromParents(graph, name, parents, depths, best); }
  }

  class Layering {
    const graph: map<string, Model>
    var depths: map<string, nat>

    constructor (models: seq<Model>)
      ensures graph == ByName(models) && depths == map[]
    {
      graph, depths := ByName(models), map[];
    }

    /** How many models stand upstream of this one, at most. On a cycle the recursion stops
        where it would repeat a model it has `seen`. */
    method Depth(name: string, seen: set<string>) returns (d: nat)
      requires Memoised(graph, depths) && name in graph && Downstream(graph, seen, name)
      modifies this`depths
      ensures Memoised(graph, depths) && Grows(old(depths), depths, seen)
      ensures name in depths ==> d == depths[name]
      ensures name !in seen || Acyclic(graph) ==> name in depths
      decreases graph.Keys - seen
    {
      hide Memoised, Downstream, IsBest, Acyclic, KnownParents, Grows, Reads, IsUpstream;
      GrowsNot(depths, seen);
      if name in depths { return depths[name]; }
      if name in seen {
        NotSeenAgain(graph, seen, name);
        return 0;
      }
      var parents := KnownParents(graph, name);
      var best: int := -1;
      var i := 0;
      assert IsBest(graph, parents[..0], depths, -1) by { NoParentsYet(graph, parents, depths); }
      while i < |parents|
        invariant 0 <= i <= |parents| && best >= -1 && name !in depths
        invariant Memoised(graph, depths) && Grows(old(depths), depths, seen)
        invariant IsBest(graph, parents[..i], depths, best)
      {
        var parent := parents[i];
        assert parent in parents;
        DownstreamOfParent(graph, seen, name, parent);
        ghost var before := depths;
        var upstream := Depth(parent, seen + {name});
        GrowsThrough(old(depths), before, depths, seen, name);
        BestNext(graph, parents[..i], before, depths, seen + {name}, best, parent, upstream);
        assert parents[..i + 1] == parents[..i] + [parent];
        if upstream > best { best := upstream; }
        i := i + 1;
      }
      assert parents[..i] == parents;
      MemoiseNext(graph, name, parents, depths, best);
      d := 1 + best;
      GrowsByOne(old(depths), depths, seen, name, d);
      depths := depths[name := d];
    }
  }

  lemma NoParentsYet(graph: map<string, Model>, parents: seq<string>, depths: map<string, nat>)
    ensures IsBest(graph, parents[..0], depths, -1)
  {
  }

  // ----- the columns -----

  predicate NameLeq(a: Model, b: Model) {
    StringLeq(a.name, b.name)
  }

  /** `sorted(models, key=name)`. */
  function ByNameOrder(models: seq<Model>): seq<Model> {
    Sort(models, NameLeq)
  }

  function AtDepth(depths: map<string, nat>, c: nat): Model -> bool {
    (m: Model) => m.name in depths && depths[m.name] == c
  }

  /** Column `c` holds the models of depth `c`, by name. */
  ghost predicate IsColumns(models: seq<Model>, depths: map<string, nat>, columns: seq<seq<Model>>) {
    forall c | 0 <= c < |columns| :: columns[c] == Filter(ByNameOrder(models), AtDepth(depths, c))
  }

  ghost predicate NamesDistinct(models: seq<Model>) {
    forall i, j | 0 <= i < j < |models| :: models[i].name != models[j].name
  }

  /** What `Levels` returns for an acyclic graph of distinctly named models. */
  ghost predicate IsLayering(models: seq<Model>, depths: map<string, nat>, columns: seq<seq<Model>>) {
    && NamesDistinct(models) && depths.Keys == ByName(models).Keys
    && IsColumns(models, depths, columns)
    && (if models == [] then columns == []
        else exists m :: m in models && m.name in depths && depths[m.name] == |columns| - 1)
    && (forall n | n in depths :: depths[n] < |columns| && IsLongest(ByName(models), n, depths[n]))
  }

  lemma NameOrder()
    ensures TotalPreorder(NameLeq)
  {
    StringOrder();
  }

  /** Of several models of one name the last counts. */
  lemma {:induction false} LastOfNameCounts(models: seq<Model>, i: nat)
    requires i < |models| && forall j | i < j < |models| :: models[j].name != models[i].name
    ensures models[i].name in ByName(models) && ByName(models)[models[i].name] == models[i]
  {
    var n := |models| - 1;
    if i < n { LastOfNameCounts(models[..n], i); }
  }

  /** Within a column the models stand in ascending order of their names, and each stands in
      the column of its depth. */
  lemma ColumnsByName(models: seq<Model>, depths: map<string, nat>, columns: seq<seq<Model>>, c: nat)
    requires IsColumns(models, depths, columns) && c < |columns|
    ensures forall i, j | 0 <= i < j < |columns[c]| :: StringLeq(columns[c][i].name, columns[c][j].name)
    ensures forall m :: m in columns[c] <==> m in models && m.name in depths && depths[m.name] == c
  {
    NameOrder();
    SortCorrect(models, NameLeq);
    var sorted, column := ByNameOrder(models), columns[c];
    FilterPairwise(sorted, AtDepth(depths, c), NameLeq);
    forall i, j | 0 <= i < j < |column| ensures StringLeq(column[i].name, column[j].name) {
      assert NameLeq(column[i], column[j]);
    }
  }

  lemma {:induction false} FlattenAppendTo(columns: seq<seq<Model>>, c: nat, m: Model)
    requires c < |columns|
    ensures multiset(Flatten(columns[c := columns[c] + [m]])) == multiset(Flatten(columns)) + multiset{m}
  {
    var after := columns[c := columns[c] + [m]];
    if c == 0 {
      assert after[1..] == columns[1..];
      assert multiset(columns[0] + [m]) == multiset(columns[0]) + multiset{m};
    } else {
      assert after[1..] == columns[1..][c - 1 := columns[1..][c - 1] + [m]];
      FlattenAppendTo(columns[1..], c - 1, m);
    }
  }

  lemma {:induction false} FlattenEmpty(columns: seq<seq<Model>>)
    requires forall c | 0 <= c < |columns| :: columns[c] == []
    ensures Flatten(columns) == []
  {
    if columns != [] { FlattenEmpty(columns[1..]); }
  }

  /** The models grouped into columns. On any input, cycles and repeated names included,
      every model is placed exactly once; without a cycle its column is its depth. */
  method Levels(models: seq<Model>) returns (columns: seq<seq<Model>>, depths: map<string, nat>)
    ensures multiset(Flatten(columns)) == multiset(models)
    ensures depths.Keys == ByName(models).Keys && IsColumns(models, depths, columns)
    ensures forall m | m in models :: depths[m.name] < |columns|
    ensures NamesDistinct(models) && Acyclic(ByName(models)) ==> IsLayering(models, depths, columns)
  {
    hide IsColumns, Acyclic, IsLongest, NamesDistinct;
    depths := AllDepths(models);
    var deepest := Deepest(models, depths);
    columns := Place(models, depths, deepest + 1);
  }

  /** The recursion started at every model in turn, over one memo. */
  method AllDepths(models: seq<Model>) returns (depths: map<string, nat>)
    ensures depths.Keys == ByName(models).Keys
    ensures Acyclic(ByName(models)) ==> forall n | n in depths :: IsLongest(ByName(models), n, depths[n])
  {
    hide Acyclic, IsLongest;
    var layering := new Layering(models);
    for i := 0 to |models|
      invariant Memoised(layering.graph, layering.depths) && layering.graph == ByName(models)
      invariant forall j | 0 <= j < i :: models[j].name in layering.depths
    {
      hide Memoised;
      assert models[i] in models;
      assert Downstream(layering.graph, {}, models[i].name);
      var d := layering.Depth(models[i].name, {});
    }
    depths := layering.depths;
  }

  /** `max(depths.values(), default=-1)`. */
  method Deepest(models: seq<Model>, depths: map<string, nat>) returns (deepest: int)
    requires forall m | m in models :: m.name in depths
    ensures forall m | m in models :: depths[m.name] <= deepest
    ensures if models == [] then deepest == -1 else exists m :: m in models && depths[m.name] == deepest
  {
    deepest := -1;
    for i := 0 to |models|
      invariant forall j | 0 <= j < i :: depths[models[j].name] <= deepest
      invariant if i == 0 then deepest == -1 else exists j :: 0 <= j < i && depths[models[j].name] == deepest
    {
      if depths[models[i].name] > deepest { deepest := depths[models[i].name]; }
    }
  }

  /** The columns so far hold the models placed so far. */
  ghost predicate PlacedSoFar(placed: seq<Model>, depths: map<string, nat>, columns: seq<seq<Model>>) {
    && (forall c | 0 <= c < |columns| :: columns[c] == Filter(placed, AtDepth(depths, c)))
    && multiset(Flatten(columns)) == multiset(placed)
  }

  lemma NothingPlaced(depths: map<string, nat>, columns: seq<seq<Model>>)
    requires forall c | 0 <= c < |columns| :: columns[c] == []
    ensures PlacedSoFar([], depths, columns)
  {
    FlattenEmpty(columns);
  }

  lemma FilterNext(before: seq<Model>, m: Model, depths: map<string, nat>, c: nat)
    requires m.name in depths
    ensures Filter(before + [m], AtDepth(depths, c))
         == Filter(before, AtDepth(depths, c)) + (if depths[m.name] == c then [m] else [])
  {
    FilterAppend(before, [m], AtDepth(depths, c));
    assert [m][1..] == [];
  }

  lemma PlaceNext(placed: seq<Model>, m: Model, depths: map<string, nat>, columns: seq<seq<Model>>)
    requires PlacedSoFar(placed, depths, columns) && m.name in depths && depths[m.name] < |columns|
    ensures PlacedSoFar(placed + [m], depths, columns[depths[m.name] := columns[depths[m.name]] + [m]])
  {
    hide Filter, AtDepth;
    FlattenAppendTo(columns, depths[m.name], m);
    var after := columns[depths[m.name] := columns[depths[m.name]] + [m]];
    forall c | 0 <= c < |after| ensures after[c] == Filter(placed + [m], AtDepth(depths, c)) {
      FilterNext(placed, m, depths, c);
    }
  }

  method Place(models: seq<Model>, depths: map<string, nat>, width: nat) returns (columns: seq<seq<Model>>)
    requires forall m | m in models :: m.name in depths && depths[m.name] < width
    ensures |columns| == width && IsColumns(models, depths, columns)
    ensures multiset(Flatten(columns)) == multiset(models)
  {
    hide NameLeq, Sort, Filter, AtDepth, Flatten;
    columns := seq(width, c => []);
    NothingPlaced(depths, columns);
    var sorted := ByNameOrder(models);
    NameOrder();
    SortCorrect(models, NameLeq);
    for i := 0 to |sorted|
      invariant |columns| == width && PlacedSoFar(sorted[..i], depths, columns)
    {
      hide PlacedSoFar;
      var m := sorted[i];
      assert m in sorted;
      assert sorted[..i + 1] == sorted[..i] + [m];
      PlaceNext(sorted[..i], m, depths, columns);
      columns := columns[depths[m.name] := columns[depths[m.name]] + [m]];
    }
    assert sorted[..|sorted|] == sorted;
  }

  // ----- what the columns mean -----

  lemma {:induction false} DistinctNamesFind(models: seq<Model>, m: Model)
    requires NamesDistinct(models) && m in models
    ensures m.name in ByName(models) && ByName(models)[m.name] == m
  {
    var last := models[|models| - 1];
    var i :| 0 <= i < |models| && models[i] == m;
    if i < |models| - 1 {
      assert models[..|models| - 1][i] == m;
      DistinctNamesFind(models[..|models| - 1], m);
    }
  }

  lemma LongestUnique(graph: map<string, Model>, name: string, a: nat, b: nat)
    requires IsLongest(graph, name, a) && IsLongest(graph, name, b)
    ensures a == b
  {
  }

  /** A parent's longest chain is shorter than its reader's. */
  lemma ParentIsShallower(graph: map<string, Model>, child: string, parent: string, d: nat, e: nat)
    requires Reads(graph, child, parent) && IsLongest(graph, child, d) && IsLongest(graph, parent, e)
    ensures e < d
  {
    var chain :| IsUpstream(graph, chain) && chain[0] == parent && |chain| == e + 1;
    ChainCons(graph, child, chain);
    assert ([child] + chain)[0] == child;
  }

  /** Along a longest chain the depth falls by one at every step. */
  lemma DepthAlongChain(graph: map<string, Model>, chain: seq<string>, i: nat, e: nat)
    requires IsUpstream(graph, chain) && IsLongest(graph, chain[0], |chain| - 1)
    requires i < |chain| && IsLongest(graph, chain[i], e)
    ensures e == |chain| - 1 - i
  {
    ChainTail(graph, chain, i);
    assert chain[i..][0] == chain[i];
    var longer :| IsUpstream(graph, longer) && longer[0] == chain[i] && |longer| == e + 1;
    ChainSplice(graph, chain, i, longer);
  }

  lemma ChainSplice(graph: map<string, Model>, chain: seq<string>, i: nat, longer: seq<string>)
    requires IsUpstream(graph, chain) && IsUpstream(graph, longer)
    requires i < |chain| && longer[0] == chain[i]
    ensures IsUpstream(graph, chain[..i] + longer) && (chain[..i] + longer)[0] == chain[0]
  {
    var spliced := chain[..i] + longer;
    forall j | 0 <= j < |spliced| - 1 ensures Reads(graph, spliced[j], spliced[j + 1]) {
      if j < i - 1 {
        assert spliced[j] == chain[j] && spliced[j + 1] == chain[j + 1];
      } else if j == i - 1 {
        assert spliced[j] == chain[j] && spliced[j + 1] == chain[i];
      } else {
        assert spliced[j] == longer[j - i] && spliced[j + 1] == longer[j + 1 - i];
      }
    }
    forall n | n in spliced ensures n in graph { assert n in chain || n in longer; }
  }

  lemma ColumnMembers(models: seq<Model>, depths: map<string, nat>, columns: seq<seq<Model>>, c: nat, m: Model)
    requires IsColumns(models, depths, columns) && c < |columns|
    ensures m in columns[c] <==> m in models && m.name in depths && depths[m.name] == c
  {
    NameOrder();
    SortCorrect(models, NameLeq);
  }

  /** Every known dependency of a model stands strictly to its left. */
  lemma DependenciesToTheLeft(models: seq<Model>, depths: map<string, nat>, columns: seq<seq<Model>>,
                              c: nat, m: Model, parent: Model)
    requires IsLayering(models, depths, columns) && c < |columns| && m in columns[c]
    requires parent in models && parent.name in m.dependsOn
    ensures exists b: nat :: b < c && parent in columns[b]
  {
    ColumnMembers(models, depths, columns, c, m);
    DistinctNamesFind(models, m);
    DistinctNamesFind(models, parent);
    ParentIsShallower(ByName(models), m.name, parent.name, c, depths[parent.name]);
    ColumnMembers(models, depths, columns, depths[parent.name], parent);
  }

  /** No column is empty. */
  lemma NoColumnEmpty(models: seq<Model>, depths: map<string, nat>, columns: seq<seq<Model>>, c: nat)
    requires c < |columns|
    ensures IsLayering(models, depths, columns) ==> columns[c] != []
  {
    if IsLayering(models, depths, columns) {
      var graph := ByName(models);
      var deepest :| deepest in models && deepest.name in depths && depths[deepest.name] == |columns| - 1;
      var chain :| IsUpstream(graph, chain) && chain[0] == deepest.name && |chain| == |columns|;
      var i := |columns| - 1 - c;
      assert chain[i] in chain;
      DepthAlongChain(graph, chain, i, depths[chain[i]]);
      ColumnMembers(models, depths, columns, c, graph[chain[i]]);
    }
  }

  /** A model stands in the column of its longest known upstream chain, and in no other. */
  lemma ColumnIsLongestChain(models: seq<Model>, depths: map<string, nat>, columns: seq<seq<Model>>, c: nat, m: Model)
    requires IsLayering(models, depths, columns) && c < |columns| && m in models
    ensures m in columns[c] <==> IsLongest(ByName(models), m.name, c)
  {
    ColumnMembers(models, depths, columns, c, m);
    DistinctNamesFind(models, m);
    if IsLongest(ByName(models), m.name, c) { LongestUnique(ByName(models), m.name, c, depths[m.name]); }
  }
}
