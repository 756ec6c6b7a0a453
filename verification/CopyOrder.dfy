/** internal/datamigration: the order in which tables are copied, so that a table comes
    after every table it references (preflight.go, destination_schema.go). */
module CopyOrder {
  import opened GoStrings

  /** For every table to copy, the other tables it references. */
  type Graph = map<string, set<string>>

  datatype OrderResult =
    | Ordered(tables: seq<string>)
    | MissingTable(table: string, dependency: string)
    | Cyclic
    | Panic(child: string)

  function Elements(s: seq<string>): set<string> { set x | x in s }

  /** Not yet ordered, and waiting for nothing. */
  function Ready(g: Graph, order: seq<string>): set<string> {
    set t | t in g && t !in order && g[t] <= Elements(order)
  }

  /** The elements of a set, sorted. */
  ghost function SortedSeq(s: set<string>): seq<string> {
    if s == {} then [] else var x :| x in s; Insert(SortedSeq(s - {x}), x)
  }

  lemma {:induction false} SortedSeqSorts(s: set<string>)
    ensures Sorted(SortedSeq(s)) && multiset(SortedSeq(s)) == multiset(s)
  {
    if s != {} {
      var x :| x in s && SortedSeq(s) == Insert(SortedSeq(s - {x}), x);
      SortedSeqSorts(s - {x});
      InsertSorts(SortedSeq(s - {x}), x);
      InsertPermutes(SortedSeq(s - {x}), x);
      assert multiset(s) == multiset(s - {x}) + multiset{x};
    }
  }

  predicate Distinct(s: seq<string>) { forall i, j :: 0 <= i < j < |s| ==> s[i] != s[j] }

  lemma EnumerationElements(r: seq<string>, s: set<string>)
    requires multiset(r) == multiset(s)
    ensures |r| == |s| && Elements(r) == s
  {
    assert |multiset(r)| == |r| && |multiset(s)| == |s|;
    assert forall x :: x in r <==> x in multiset(r);
  }

  lemma {:induction false} EnumerationDistinct(r: seq<string>, s: set<string>)
    requires multiset(r) == multiset(s)
    ensures Distinct(r)
    decreases |r|
  {
    if r == [] {
    } else {
      var n := |r| - 1;
      var last := r[n];
      assert r == r[..n] + [last];
      assert multiset(r[..n]) == multiset(s) - multiset{last};
      assert last in multiset(s);
      assert multiset(s) - multiset{last} == multiset(s - {last});
      EnumerationDistinct(r[..n], s - {last});
      EnumerationElements(r[..n], s - {last});
      assert last !in Elements(r[..n]);
    }
  }

  lemma SortedSeqElements(s: set<string>)
    ensures |SortedSeq(s)| == |s| && Elements(SortedSeq(s)) == s && Distinct(SortedSeq(s))
  {
    SortedSeqSorts(s);
    EnumerationElements(SortedSeq(s), s);
    EnumerationDistinct(SortedSeq(s), s);
  }

  /** Layer after layer of tables that are ready, each layer sorted. */
  ghost function Layers(g: Graph, total: nat, order: seq<string>): OrderResult
    decreases total - |order|
  {
    if |order| >= total then Ordered(order)
    else
      var ready := Ready(g, order);
      if ready == {} then Cyclic
      else
        SortedSeqElements(ready);
        Layers(g, total, order + SortedSeq(ready))
  }

  // ----- The loops

  /** One pass over the map of dependencies, in whatever order it is visited. */
  method CollectReady(g: Graph, order: seq<string>) returns (ready: seq<string>)
    ensures multiset(ready) == multiset(Ready(g, order))
  {
    ready := [];
    var unvisited := g.Keys;
    while unvisited != {}
      invariant unvisited <= g.Keys
      invariant multiset(ready) == multiset(Ready(g, order) - unvisited)
      decreases |unvisited|
    {
      var name :| name in unvisited;
      if name in order || exists dependency :: dependency in g[name] && dependency !in order {
        assert Ready(g, order) - (unvisited - {name}) == Ready(g, order) - unvisited;
      } else {
        assert Ready(g, order) - (unvisited - {name}) == Ready(g, order) - unvisited + {name};
        ready := ready + [name];
      }
      unvisited := unvisited - {name};
    }
    assert Ready(g, order) - unvisited == Ready(g, order);
  }

  /** The ordering loop. Its result does not depend on the order of any map iteration. */
  method LayeredOrder(g: Graph, total: nat) returns (r: OrderResult)
    ensures r == Layers(g, total, [])
  {
    var order: seq<string> := [];
    while |order| < total
      invariant Layers(g, total, order) == Layers(g, total, [])
      decreases total - |order|
    {
      var ready := CollectReady(g, order);
      ghost var layer := Ready(g, order);
      SortedSeqElements(layer);
      if |ready| == 0 {
        assert |multiset(ready)| == |ready| && |multiset(layer)| == |layer|;
        return Cyclic;
      }
      SortSorts(ready);
      SortedSeqSorts(layer);
      SortedUnique(SortStrings(ready), SortedSeq(layer));
      assert ready[0] in multiset(ready);
      ready := SortStrings(ready);
      order := order + ready;
    }
    return Ordered(order);
  }

  // ----- A successful order is right

  /** Every table comes after all the tables it references. */
  predicate DependenciesFirst(g: Graph, order: seq<string>) {
    forall i :: 0 <= i < |order| ==> order[i] in g && g[order[i]] <= Elements(order[..i])
  }

  predicate Sound(g: Graph, order: seq<string>) { Distinct(order) && DependenciesFirst(g, order) }

  lemma LayerSound(g: Graph, order: seq<string>)
    requires Sound(g, order)
    ensures Sound(g, order + SortedSeq(Ready(g, order)))
  {
    var layer := SortedSeq(Ready(g, order));
    SortedSeqElements(Ready(g, order));
    var next := order + layer;
    forall i | 0 <= i < |next|
      ensures next[i] in g && g[next[i]] <= Elements(next[..i])
    {
      if i < |order| {
        assert next[..i] == order[..i];
      } else {
        assert next[i] in Elements(layer);
        assert next[..i] == order + layer[..i - |order|];
      }
    }
    forall i, j | 0 <= i < j < |next|
      ensures next[i] != next[j]
    {
      if i < |order| <= j {
        assert next[j] in Elements(layer);
      }
    }
  }

  lemma {:induction false} DistinctCount(s: seq<string>)
    requires Distinct(s)
    ensures |Elements(s)| == |s|
  {
    if s == [] {
    } else {
      var n := |s| - 1;
      DistinctCount(s[..n]);
      assert Elements(s) == Elements(s[..n]) + {s[n]};
    }
  }

  lemma SubsetCount(a: set<string>, b: set<string>)
    requires a <= b
    ensures |a| <= |b| && (|a| == |b| ==> a == b)
  {
    assert b == a + (b - a);
  }

  lemma SoundCount(g: Graph, order: seq<string>)
    requires Sound(g, order)
    ensures Elements(order) <= g.Keys && |order| <= |g|
    ensures |order| == |g| ==> Elements(order) == g.Keys
  {
    DistinctCount(order);
    SubsetCount(Elements(order), g.Keys);
  }

  // ----- Success is acyclicity

  /** Each table of the path references the next. */
  ghost predicate IsPath(g: Graph, path: seq<string>) {
    && (forall i :: 0 <= i < |path| ==> path[i] in g)
    && (forall i, j :: 0 <= i < j < |path| && j == i + 1 ==> path[j] in g[path[i]])
  }

  ghost predicate IsCycle(g: Graph, path: seq<string>) {
    |path| >= 2 && IsPath(g, path) && path[0] == path[|path| - 1]
  }

  ghost predicate Acyclic(g: Graph) { !exists path :: IsCycle(g, path) }

  /** Every referenced table is one of the tables to copy. */
  predicate Closed(g: Graph) { forall t :: t in g ==> g[t] <= g.Keys }

  function IndexIn(order: seq<string>, t: string): (i: nat)
    requires t in order
    ensures i < |order| && order[i] == t
  {
    if order[0] == t then 0 else 1 + IndexIn(order[1..], t)
  }

  lemma DistinctIndex(order: seq<string>, i: nat)
    requires Distinct(order) && i < |order|
    ensures IndexIn(order, order[i]) == i
  {
  }

  /** Along a path, positions in the order go down. */
  lemma {:induction false} PathDescends(g: Graph, order: seq<string>, path: seq<string>)
    requires Sound(g, order) && IsPath(g, path) && |path| >= 2 && path[0] in order
    ensures path[|path| - 1] in order && IndexIn(order, path[|path| - 1]) < IndexIn(order, path[0])
    decreases |path|
  {
    var i := IndexIn(order, path[0]);
    assert path[1] in g[path[0]] && path[1] in Elements(order[..i]);
    var j :| 0 <= j < i && order[j] == path[1];
    DistinctIndex(order, j);
    if |path| > 2 {
      PathDescends(g, order, path[1..]);
    }
  }

  lemma SoundMeansAcyclic(g: Graph, order: seq<string>)
    requires Sound(g, order) && Elements(order) == g.Keys
    ensures Acyclic(g) && Closed(g)
  {
    forall path | IsCycle(g, path)
      ensures false
    {
      assert path[0] in Elements(order);
      PathDescends(g, order, path);
    }
    forall t | t in g
      ensures g[t] <= g.Keys
    {
      assert t in Elements(order);
      var i := IndexIn(order, t);
      assert Elements(order[..i]) <= Elements(order);
    }
  }

  /** The table waits for one of the others. */
  predicate WaitsFor(g: Graph, t: string, others: set<string>) {
    t in g && exists d :: d in g[t] && d in others
  }

  lemma Successor(g: Graph, t: string, others: set<string>) returns (d: string)
    requires WaitsFor(g, t, others)
    ensures t in g && d in g[t] && d in others
  {
    d :| d in g[t] && d in others;
  }

  /** Following the waiting tables gives paths of any length. */
  lemma {:induction false} WaitingPath(g: Graph, rest: set<string>, start: string, steps: nat) returns (path: seq<string>)
    requires start in rest && forall t :: t in rest ==> WaitsFor(g, t, rest)
    ensures |path| == steps + 1 && path[0] == start && IsPath(g, path)
    ensures forall i :: 0 <= i < |path| ==> path[i] in rest
    decreases steps
  {
    hide WaitsFor;
    var d := Successor(g, start, rest);
    if steps == 0 {
      path := [start];
    } else {
      var tail := WaitingPath(g, rest, d, steps - 1);
      path := [start] + tail;
    }
  }

  /** A path longer than the number of tables visits one of them twice. */
  lemma Pigeonhole(path: seq<string>, rest: set<string>)
    requires |path| > |rest| && forall i :: 0 <= i < |path| ==> path[i] in rest
    ensures !Distinct(path)
  {
    if Distinct(path) {
      DistinctCount(path);
      SubsetCount(Elements(path), rest);
    }
  }

  lemma RestWaits(g: Graph, order: seq<string>, t: string)
    requires Closed(g) && Ready(g, order) == {} && t in g.Keys - Elements(order)
    ensures WaitsFor(g, t, g.Keys - Elements(order))
  {
    assert t !in Ready(g, order);
    var d :| d in g[t] && d !in Elements(order);
  }

  lemma CountElements(g: Graph, order: seq<string>)
    requires Sound(g, order) && |order| < |g|
    ensures g.Keys - Elements(order) != {}
  {
    DistinctCount(order);
    SoundCount(g, order);
    assert g.Keys == Elements(order) + (g.Keys - Elements(order));
  }

  lemma StuckMeansCycle(g: Graph, order: seq<string>)
    requires Sound(g, order) && Closed(g) && |order| < |g| && Ready(g, order) == {}
    ensures !Acyclic(g)
  {
    hide WaitsFor, Sound, Ready, Closed, Elements;
    var rest := g.Keys - Elements(order);
    SoundCount(g, order);
    CountElements(g, order);
    forall t | t in rest
      ensures WaitsFor(g, t, rest)
    {
      RestWaits(g, order, t);
    }
    var start :| start in rest;
    var path := WaitingPath(g, rest, start, |rest|);
    Pigeonhole(path, rest);
    var i, j :| 0 <= i < j < |path| && path[i] == path[j];
    assert IsCycle(g, path[i..j + 1]);
  }

  lemma {:induction false} LayersMeaning(g: Graph, total: nat, order: seq<string>)
    requires Sound(g, order) && |g| <= total
    ensures var r := Layers(g, total, order);
      && (r.Ordered? <==> |g| == total && Closed(g) && Acyclic(g))
      && (r.Ordered? ==> Sound(g, r.tables) && Elements(r.tables) == g.Keys && |r.tables| == |g|)
      && !r.MissingTable? && !r.Panic?
    decreases total - |order|
  {
    hide Acyclic, Closed, Sound, Ready;
    SoundCount(g, order);
    if |order| >= total {
      SoundMeansAcyclic(g, order);
    } else if Ready(g, order) == {} {
      if Closed(g) && |g| == total {
        StuckMeansCycle(g, order);
      }
    } else {
      LayerSound(g, order);
      SortedSeqElements(Ready(g, order));
      LayersMeaning(g, total, order + SortedSeq(Ready(g, order)));
    }
  }

  lemma NothingSound(g: Graph)
    ensures Sound(g, [])
  {
  }

  // ----- The SQLite source

  /** The tables that a foreign key of `name` references. */
  function References(foreignKeys: map<string, seq<string>>, name: string): seq<string> {
    if name in foreignKeys then foreignKeys[name] else []
  }

  function Relevant(foreign: seq<string>, name: string, excluded: seq<string>): set<string> {
    set d | d in foreign && d != name && d !in excluded
  }

  /** The dependency graph: no excluded tables, no references to the table itself. */
  function Dependencies(tables: seq<string>, excluded: seq<string>, foreignKeys: map<string, seq<string>>): Graph {
    map t | t in tables && t !in excluded :: Relevant(References(foreignKeys, t), t, excluded)
  }

  predicate IsReference(tables: seq<string>, excluded: seq<string>, foreignKeys: map<string, seq<string>>, t: string, d: string) {
    var g := Dependencies(tables, excluded, foreignKeys);
    t in g && d in g[t]
  }

  lemma ClosedIffKnown(tables: seq<string>, excluded: seq<string>, foreignKeys: map<string, seq<string>>)
    ensures Closed(Dependencies(tables, excluded, foreignKeys)) <==>
      forall t, d :: IsReference(tables, excluded, foreignKeys, t, d) ==> d in tables
  {
    var g := Dependencies(tables, excluded, foreignKeys);
    if Closed(g) {
      forall t, d | IsReference(tables, excluded, foreignKeys, t, d)
        ensures d in tables
      {
        assert d in g.Keys;
      }
    }
    if forall t, d :: IsReference(tables, excluded, foreignKeys, t, d) ==> d in tables {
      forall t, d | t in g && d in g[t]
        ensures d in g.Keys
      {
        assert IsReference(tables, excluded, foreignKeys, t, d);
      }
    }
  }

  /** A foreign key that the copy has to respect: of a table to copy, to another table, that
      is not excluded. */
  predicate ForeignKey(tables: seq<string>, excluded: seq<string>, foreignKeys: map<string, seq<string>>, t: string, d: string) {
    t in tables && t !in excluded && t in foreignKeys && d in foreignKeys[t] && d != t && d !in excluded
  }

  /** Following foreign keys from a table back to itself. */
  ghost predicate ForeignCycle(tables: seq<string>, excluded: seq<string>, foreignKeys: map<string, seq<string>>,
                               path: seq<string>)
  {
    && |path| >= 2 && path[0] == path[|path| - 1]
    && forall i, j :: 0 <= i < j < |path| && j == i + 1 ==> ForeignKey(tables, excluded, foreignKeys, path[i], path[j])
  }

  lemma ReferenceMeaning(tables: seq<string>, excluded: seq<string>, foreignKeys: map<string, seq<string>>, t: string, d: string)
    ensures IsReference(tables, excluded, foreignKeys, t, d) <==> ForeignKey(tables, excluded, foreignKeys, t, d)
  {
  }

  lemma CycleMeaning(tables: seq<string>, excluded: seq<string>, foreignKeys: map<string, seq<string>>, path: seq<string>)
    ensures IsCycle(Dependencies(tables, excluded, foreignKeys), path) <==> ForeignCycle(tables, excluded, foreignKeys, path)
  {
    hide Relevant, References, Dependencies;
    var g := Dependencies(tables, excluded, foreignKeys);
    forall t, d ensures (t in g && d in g[t]) <==> ForeignKey(tables, excluded, foreignKeys, t, d) {
      ReferenceMeaning(tables, excluded, foreignKeys, t, d);
    }
    if ForeignCycle(tables, excluded, foreignKeys, path) {
      forall i | 0 <= i < |path|
        ensures path[i] in g
      {
        if i < |path| - 1 {
          assert ForeignKey(tables, excluded, foreignKeys, path[i], path[i + 1]);
        } else {
          assert ForeignKey(tables, excluded, foreignKeys, path[0], path[1]);
        }
      }
    }
  }

  /** In terms of the foreign keys: the copy order of a database. */
  ghost predicate CopiesInOrder(tables: seq<string>, excluded: seq<string>, foreignKeys: map<string, seq<string>>,
                                order: seq<string>)
  {
    && Distinct(order)
    && (forall t :: t in order <==> t in tables && t !in excluded)
    && (forall i, d :: 0 <= i < |order| && ForeignKey(tables, excluded, foreignKeys, order[i], d) ==> d in order[..i])
  }

  lemma SoundMeaning(tables: seq<string>, excluded: seq<string>, foreignKeys: map<string, seq<string>>, order: seq<string>)
    ensures var g := Dependencies(tables, excluded, foreignKeys);
      Sound(g, order) && Elements(order) == g.Keys ==> CopiesInOrder(tables, excluded, foreignKeys, order)
  {
    hide Relevant, References;
    var g := Dependencies(tables, excluded, foreignKeys);
    if Sound(g, order) && Elements(order) == g.Keys {
      forall t ensures t in order <==> t in tables && t !in excluded {
        assert t in order <==> t in Elements(order);
      }
      forall i, d | 0 <= i < |order| && ForeignKey(tables, excluded, foreignKeys, order[i], d)
        ensures d in order[..i]
      {
        ReferenceMeaning(tables, excluded, foreignKeys, order[i], d);
        assert d in Elements(order[..i]);
      }
    }
  }

  /** The tables to copy, each with no dependencies yet. */
  method TablesToCopy(tables: seq<string>, excluded: seq<string>) returns (dependencies: Graph)
    ensures forall t :: t in dependencies <==> t in tables && t !in excluded
    ensures forall t :: t in dependencies ==> dependencies[t] == {}
  {
    dependencies := map[];
    var next := 0;
    while next < |tables|
      invariant 0 <= next <= |tables|
      invariant forall t :: t in dependencies <==> t in tables[..next] && t !in excluded
      invariant forall t :: t in dependencies ==> dependencies[t] == {}
    {
      assert tables[..next + 1] == tables[..next] + [tables[next]];
      if tables[next] !in excluded {
        dependencies := dependencies[tables[next] := {}];
      }
      next := next + 1;
    }
    assert tables[..next] == tables;
  }

  /** The inner loop over one table's foreign keys; an unknown table stops it. */
  method KnownReferences(foreign: seq<string>, name: string, tables: seq<string>, excluded: seq<string>)
    returns (references: set<string>, unknown: Option<string>)
    ensures unknown.Some? ==> unknown.value in Relevant(foreign, name, excluded) && unknown.value !in tables
    ensures unknown.None? ==> references == Relevant(foreign, name, excluded)
    ensures unknown.None? ==> forall d :: d in references ==> d in tables && d !in excluded
  {
    references, unknown := {}, None;
    var next := 0;
    while next < |foreign|
      invariant 0 <= next <= |foreign|
      invariant references == Relevant(foreign[..next], name, excluded)
      invariant forall d :: d in references ==> d in tables
    {
      var dependency := foreign[next];
      assert foreign[..next + 1] == foreign[..next] + [dependency];
      next := next + 1;
      if dependency != name && dependency !in excluded {
        if dependency !in tables {
          return references, Some(dependency);
        }
        references := references + {dependency};
      }
    }
    assert foreign[..next] == foreign;
  }

  /** Fills the map of dependencies, visiting the tables in any order. */
  method CollectDependencies(tables: seq<string>, excluded: seq<string>, foreignKeys: map<string, seq<string>>)
    returns (missing: Option<(string, string)>, dependencies: Graph)
    ensures missing.Some? ==>
      IsReference(tables, excluded, foreignKeys, missing.value.0, missing.value.1) && missing.value.1 !in tables
    ensures missing.None? ==> dependencies == Dependencies(tables, excluded, foreignKeys) && Closed(dependencies)
  {
    hide Relevant, References;
    ghost var g := Dependencies(tables, excluded, foreignKeys);
    dependencies := TablesToCopy(tables, excluded);
    var unvisited := dependencies.Keys;
    assert dependencies.Keys == g.Keys;
    while unvisited != {}
      invariant dependencies.Keys == g.Keys
      invariant forall t :: t in g && t !in unvisited ==> dependencies[t] == g[t] && g[t] <= g.Keys
      decreases |unvisited|
    {
      var name :| name in unvisited;
      unvisited := unvisited - {name};
      if name in dependencies {
        var references, unknown := KnownReferences(References(foreignKeys, name), name, tables, excluded);
        if unknown.Some? {
          return Some((name, unknown.value)), map[];
        }
        assert references == g[name];
        dependencies := dependencies[name := references];
      }
    }
    missing := None;
    assert dependencies == g;
  }

  /** `sqliteCopyOrder`. It reports a reference to an unknown table if there is one, and
      otherwise succeeds exactly when the graph has no cycle; the order then lists every
      table to copy once, after all the tables it references. */
  method SqliteCopyOrder(tables: seq<string>, excluded: seq<string>, foreignKeys: map<string, seq<string>>)
    returns (r: OrderResult)
    ensures r.MissingTable? ==> IsReference(tables, excluded, foreignKeys, r.table, r.dependency) && r.dependency !in tables
    ensures r.MissingTable? <==> !Closed(Dependencies(tables, excluded, foreignKeys))
    ensures Closed(Dependencies(tables, excluded, foreignKeys)) ==>
      var g := Dependencies(tables, excluded, foreignKeys);
      && r == Layers(g, |g|, [])
      && (r.Ordered? <==> Acyclic(g))
      && (r.Ordered? ==> Sound(g, r.tables) && Elements(r.tables) == g.Keys)
    ensures r.MissingTable? <==> exists t, d :: ForeignKey(tables, excluded, foreignKeys, t, d) && d !in tables
    ensures r.Cyclic? <==> !r.MissingTable? && exists path :: ForeignCycle(tables, excluded, foreignKeys, path)
    ensures r.Ordered? ==> CopiesInOrder(tables, excluded, foreignKeys, r.tables)
    ensures !r.Panic?
  {
    hide Sound, ForeignKey, ForeignCycle, CopiesInOrder, IsReference, Dependencies, IsCycle, Closed;
    ClosedIffKnown(tables, excluded, foreignKeys);
    forall t, d ensures IsReference(tables, excluded, foreignKeys, t, d) <==> ForeignKey(tables, excluded, foreignKeys, t, d) {
      ReferenceMeaning(tables, excluded, foreignKeys, t, d);
    }
    forall path
      ensures IsCycle(Dependencies(tables, excluded, foreignKeys), path) <==> ForeignCycle(tables, excluded, foreignKeys, path)
    {
      CycleMeaning(tables, excluded, foreignKeys, path);
    }
    ghost var g := Dependencies(tables, excluded, foreignKeys);
    var missing, dependencies := CollectDependencies(tables, excluded, foreignKeys);
    if missing.Some? {
      return MissingTable(missing.value.0, missing.value.1);
    }
    NothingSound(g);
    LayersMeaning(g, |g|, []);
    r := LayeredOrder(dependencies, |dependencies|);
    if r.Ordered? {
      SoundMeaning(tables, excluded, foreignKeys, r.tables);
    }
  }

  // ----- The PostgreSQL destination

  /** The tables that the constraints, pairs of child and parent, make `t` reference. */
  function Parents(constraints: seq<(string, string)>, t: string): set<string> {
    if constraints == [] then {}
    else
      var last, parents := constraints[|constraints| - 1], Parents(constraints[..|constraints| - 1], t);
      if last.0 == t && last.1 != t then parents + {last.1} else parents
  }

  /** The graph of `destinationCopyOrder`: every constraint, without self-references. */
  function DestinationGraph(tables: seq<string>, constraints: seq<(string, string)>): Graph {
    map t | t in tables :: Parents(constraints, t)
  }

  /** Without self-references, exactly the constraints of the child. */
  lemma {:induction false} ParentsMeaning(constraints: seq<(string, string)>, t: string, d: string)
    ensures d in Parents(constraints, t) <==> d != t && (t, d) in constraints
  {
    if constraints == [] {
    } else {
      var n := |constraints| - 1;
      ParentsMeaning(constraints[..n], t, d);
      assert constraints == constraints[..n] + [constraints[n]];
    }
  }

  lemma {:induction false} ElementsCount(s: seq<string>)
    ensures |Elements(s)| <= |s|
  {
    if s == [] {
    } else {
      ElementsCount(s[1..]);
      assert Elements(s) == {s[0]} + Elements(s[1..]);
    }
  }

  lemma SubsetTables(g: Graph, tables: seq<string>)
    requires g.Keys == Elements(tables)
    ensures |g| <= |tables|
  {
    ElementsCount(tables);
  }

  /** A constraint whose child is not among the tables, other than a self-reference. */
  predicate Unlisted(tables: seq<string>, constraint: (string, string)) {
    constraint.0 != constraint.1 && constraint.0 !in tables
  }

  /** `destinationCopyOrder`. A constraint whose child is not listed makes it write to a map
      that does not exist, which panics. Otherwise it succeeds exactly without a cycle; a
      parent that is not listed, or a table listed twice, is reported as a cycle. */
  method DestinationCopyOrder(tables: seq<string>, constraints: seq<(string, string)>) returns (r: OrderResult)
    ensures r.Panic? <==> exists c :: c in constraints && Unlisted(tables, c)
    ensures r.Panic? ==> exists c :: c in constraints && Unlisted(tables, c) && c.0 == r.child
    ensures !r.Panic? ==>
      var g := DestinationGraph(tables, constraints);
      && r == Layers(g, |tables|, [])
      && (r.Ordered? <==> |g| == |tables| && Closed(g) && Acyclic(g))
      && (r.Ordered? ==> Sound(g, r.tables) && Elements(r.tables) == g.Keys)
      && !r.MissingTable?
  {
    hide Closed, Acyclic, Sound, Layers;
    var dependencies: Graph := map t | t in tables :: {};
    var next := 0;
    while next < |constraints|
      invariant 0 <= next <= |constraints|
      invariant dependencies == DestinationGraph(tables, constraints[..next])
      invariant forall i :: 0 <= i < next ==> !Unlisted(tables, constraints[i])
    {
      var (child, parent) := constraints[next];
      assert constraints[..next + 1][..next] == constraints[..next];
      if child != parent {
        if child !in dependencies {
          assert Unlisted(tables, constraints[next]);
          return Panic(child);
        }
        dependencies := dependencies[child := dependencies[child] + {parent}];
      }
      next := next + 1;
      assert dependencies == DestinationGraph(tables, constraints[..next]);
    }
    assert constraints[..next] == constraints;
    SubsetTables(dependencies, tables);
    NothingSound(dependencies);
    LayersMeaning(dependencies, |tables|, []);
    r := LayeredOrder(dependencies, |tables|);
  }
}
