/**
 * The build script of the native store walks the checked-out migration sources from their root and
 * collects the migration ids, each of which may be declared once only.
 */
module MigrationGraph {
  import opened Options
  import opened Reachability

  type Path = string

  /** What the script reads in a source: the ids it declares and the sources it imports, in order. */
  datatype Source = Source(ids: seq<string>, imports: seq<Path>)

  type Sources = map<Path, Source>

  datatype State = State(visited: set<Path>, ids: set<string>)

  /** Inserting ids one by one; nothing when one is there already. */
  function AddIds(ids: set<string>, more: seq<string>): Option<set<string>>
    decreases |more|
  {
    if more == [] then Some(ids)
    else if more[0] in ids then None
    else AddIds(ids + {more[0]}, more[1..])
  }

  /** `visit`: nothing stands for the abort on a missing source or a repeated id. */
  function Visit(g: Sources, path: Path, st: State): (r: Option<State>)
    ensures r.Some? ==> st.visited <= r.value.visited
    decreases g.Keys - st.visited, 0
  {
    if path !in g then None
    else if path in st.visited then Some(st)
    else
      match AddIds(st.ids, g[path].ids)
      case None => None
      case Some(ids) => VisitAll(g, g[path].imports, State(st.visited + {path}, ids))
  }

  function VisitAll(g: Sources, paths: seq<Path>, st: State): (r: Option<State>)
    ensures r.Some? ==> st.visited <= r.value.visited
    decreases g.Keys - st.visited, 1 + |paths|
  {
    if paths == [] then Some(st)
    else
      match Visit(g, paths[0], st)
      case None => None
      case Some(next) =>
        assert g.Keys - next.visited <= g.Keys - st.visited;
        assert g.Keys - next.visited != g.Keys - st.visited ==> g.Keys - next.visited < g.Keys - st.visited;
        VisitAll(g, paths[1..], next)
  }

  class Visitor {
    const sources: Sources
    var visited: set<Path>
    var ids: set<string>

    constructor (sources: Sources)
      ensures this.sources == sources && visited == {} && ids == {}
    {
      this.sources := sources;
      visited, ids := {}, {};
    }

    method VisitSource(path: Path) returns (ok: bool)
      modifies this
      ensures ok <==> Visit(sources, path, State(old(visited), old(ids))).Some?
      ensures ok ==> Visit(sources, path, State(old(visited), old(ids))) == Some(State(visited, ids))
      decreases sources.Keys - visited
    {
      if path !in sources { return false; }
      if path in visited { return true; }
      visited := visited + {path};
      var declared := sources[path].ids;
      ghost var before := ids;
      for i := 0 to |declared|
        invariant visited == old(visited) + {path}
        invariant AddIds(before, declared) == AddIds(ids, declared[i..])
      {
        assert declared[i..][1..] == declared[i + 1..];
        if declared[i] in ids { return false; }
        ids := ids + {declared[i]};
      }
      var imports := sources[path].imports;
      ghost var start := State(visited, ids);
      assert Visit(sources, path, State(old(visited), old(ids))) == VisitAll(sources, imports, start);
      for i := 0 to |imports|
        invariant old(visited) + {path} <= visited
        invariant VisitAll(sources, imports, start) == VisitAll(sources, imports[i..], State(visited, ids))
      {
        assert imports[i..][1..] == imports[i + 1..];
        assert path in (sources.Keys - old(visited)) - (sources.Keys - visited);
        var done := VisitSource(imports[i]);
        if !done { return false; }
      }
      ok := true;
    }
  }

  // ---------- what a walk collects ----------

  function Imports(g: Sources): Path -> set<Path> {
    (p: Path) => if p in g then set q | q in g[p].imports else {}
  }

  /** No id is declared twice, in one source or in two. */
  ghost predicate DistinctIds(g: Sources, paths: set<Path>)
    requires paths <= g.Keys
  {
    forall f, h, i, j | f in paths && h in paths && 0 <= i < |g[f].ids| && 0 <= j < |g[h].ids| && (f, i) != (h, j) ::
      g[f].ids[i] != g[h].ids[j]
  }

  ghost predicate Declares(g: Sources, f: Path, id: string) {
    f in g && id in g[f].ids
  }

  ghost predicate DeclaredIn(g: Sources, paths: set<Path>, id: string) {
    exists f :: f in paths && Declares(g, f, id)
  }

  ghost predicate Collected(g: Sources, paths: set<Path>, ids: set<string>) {
    forall id :: id in ids <==> DeclaredIn(g, paths, id)
  }

  ghost predicate Tidy(g: Sources, st: State) {
    st.visited <= g.Keys && DistinctIds(g, st.visited) && Collected(g, st.visited, st.ids)
  }

  /** What was visited since `before` has its imports visited too. */
  ghost predicate ClosedSince(g: Sources, before: set<Path>, after: set<Path>) {
    forall p | p in after - before :: Imports(g)(p) <= after
  }

  lemma {:induction false} AddedIds(ids: set<string>, more: seq<string>)
    ensures AddIds(ids, more).Some?
      <==> ((forall i | 0 <= i < |more| :: more[i] !in ids) && forall i, j | 0 <= i < j < |more| :: more[i] != more[j])
    ensures AddIds(ids, more).Some? ==> AddIds(ids, more).value == ids + set id | id in more
    decreases |more|
  {
    if more != [] && more[0] !in ids {
      var rest := more[1..];
      AddedIds(ids + {more[0]}, rest);
      assert more == [more[0]] + rest;
      if AddIds(ids, more).Some? {
        forall i | 0 <= i < |more| ensures more[i] !in ids {
          if i > 0 { assert more[i] == rest[i - 1]; }
        }
        forall i, j | 0 <= i < j < |more| ensures more[i] != more[j] {
          assert more[j] == rest[j - 1];
          if i > 0 { assert more[i] == rest[i - 1]; }
        }
      }
    }
  }

  /** Entering a source keeps the collection exact. */
  lemma EnterKeepsTidy(g: Sources, path: Path, st: State)
    requires Tidy(g, st) && path in g && path !in st.visited && AddIds(st.ids, g[path].ids).Some?
    ensures Tidy(g, State(st.visited + {path}, AddIds(st.ids, g[path].ids).value))
  {
    var more := g[path].ids;
    AddedIds(st.ids, more);
    forall f, i | f in st.visited && 0 <= i < |g[f].ids| ensures g[f].ids[i] in st.ids {
      assert Declares(g, f, g[f].ids[i]);
    }
    forall id ensures id in st.ids || id in more <==> DeclaredIn(g, st.visited + {path}, id) {
      if id in more { assert Declares(g, path, id); }
    }
  }

  ghost predicate Extends(g: Sources, from: Path, st: State, r: State) {
    && Tidy(g, r) && st.visited <= r.visited && ClosedSince(g, st.visited, r.visited)
    && forall p | p in r.visited - st.visited :: Reaches(Imports(g), from, p)
  }

  /** A walk that ends visits sources below its start only, leaves none of their imports out, and collects their ids. */
  lemma {:induction false} VisitExtends(g: Sources, path: Path, st: State)
    requires Tidy(g, st) && Visit(g, path, st).Some?
    ensures Extends(g, path, st, Visit(g, path, st).value) && path in Visit(g, path, st).value.visited
    decreases g.Keys - st.visited, 0
  {
    if path !in st.visited {
      var ids := AddIds(st.ids, g[path].ids).value;
      var entered := State(st.visited + {path}, ids);
      EnterKeepsTidy(g, path, st);
      VisitAllExtends(g, path, g[path].imports, entered);
      ReachesItself(Imports(g), path);
      var r := VisitAll(g, g[path].imports, entered).value;
      forall p | p in r.visited - st.visited ensures Imports(g)(p) <= r.visited {
        if p == path {
          forall q | q in Imports(g)(p) ensures q in r.visited { assert q in g[path].imports; }
        }
      }
    }
  }

  lemma {:induction false} VisitAllExtends(g: Sources, from: Path, paths: seq<Path>, st: State)
    requires Tidy(g, st) && VisitAll(g, paths, st).Some? && forall q | q in paths :: q in Imports(g)(from)
    ensures Extends(g, from, st, VisitAll(g, paths, st).value)
    ensures forall q | q in paths :: q in VisitAll(g, paths, st).value.visited
    decreases g.Keys - st.visited, 1 + |paths|
  {
    if paths != [] {
      var next := Visit(g, paths[0], st).value;
      VisitExtends(g, paths[0], st);
      assert g.Keys - next.visited <= g.Keys - st.visited;
      assert g.Keys - next.visited != g.Keys - st.visited ==> g.Keys - next.visited < g.Keys - st.visited;
      VisitAllExtends(g, from, paths[1..], next);
      forall p | p in next.visited - st.visited ensures Reaches(Imports(g), from, p) {
        ReachesFrom(Imports(g), from, paths[0], p);
      }
      assert paths == [paths[0]] + paths[1..];
    }
  }

  // ---------- when it ends, and with what ----------

  ghost predicate Below(g: Sources, root: Path, p: Path) {
    Reaches(Imports(g), root, p)
  }

  /** Every source below the root exists, and no id is declared twice below it. */
  ghost predicate Good(g: Sources, root: Path) {
    && (forall p | Below(g, root, p) :: p in g)
    && forall f, h, i, j | Below(g, root, f) && Below(g, root, h) && f in g && h in g
         && 0 <= i < |g[f].ids| && 0 <= j < |g[h].ids| && (f, i) != (h, j) :: g[f].ids[i] != g[h].ids[j]
  }

  lemma BelowStep(g: Sources, root: Path, p: Path, q: Path)
    requires Below(g, root, p) && q in Imports(g)(p)
    ensures Below(g, root, q)
  {
    var w :| Walk(Imports(g), w) && w[0] == root && w[|w| - 1] == p;
    var v := w + [q];
    forall i | 0 <= i < |v| - 1 ensures v[i + 1] in Imports(g)(v[i]) {
      if i + 1 < |w| { assert w[i + 1] in Imports(g)(w[i]); }
    }
    assert Walk(Imports(g), v) && v[0] == root && v[|v| - 1] == q;
  }

  lemma {:induction false} GoodEnds(g: Sources, root: Path, path: Path, st: State)
    requires Good(g, root) && Below(g, root, path) && Tidy(g, st) && forall p | p in st.visited :: Below(g, root, p)
    ensures Visit(g, path, st).Some?
    decreases g.Keys - st.visited, 0
  {
    if path !in st.visited {
      var more := g[path].ids;
      forall i | 0 <= i < |more| ensures more[i] !in st.ids {
        forall f, k | f in st.visited && 0 <= k < |g[f].ids| ensures g[f].ids[k] != more[i] {
          assert (f, k) != (path, i);
        }
      }
      forall i, j | 0 <= i < j < |more| ensures more[i] != more[j] {
        assert (path, i) != (path, j);
      }
      AddedIds(st.ids, more);
      EnterKeepsTidy(g, path, st);
      forall q | q in g[path].imports ensures Below(g, root, q) { BelowStep(g, root, path, q); }
      GoodEndsAll(g, root, g[path].imports, State(st.visited + {path}, AddIds(st.ids, more).value));
    }
  }

  lemma {:induction false} GoodEndsAll(g: Sources, root: Path, paths: seq<Path>, st: State)
    requires Good(g, root) && (forall q | q in paths :: Below(g, root, q))
    requires Tidy(g, st) && forall p | p in st.visited :: Below(g, root, p)
    ensures VisitAll(g, paths, st).Some?
    decreases g.Keys - st.visited, 1 + |paths|
  {
    if paths != [] {
      GoodEnds(g, root, paths[0], st);
      var next := Visit(g, paths[0], st).value;
      VisitExtends(g, paths[0], st);
      assert g.Keys - next.visited <= g.Keys - st.visited;
      assert g.Keys - next.visited != g.Keys - st.visited ==> g.Keys - next.visited < g.Keys - st.visited;
      forall p | p in next.visited ensures Below(g, root, p) {
        if p !in st.visited { BelowThrough(g, root, paths[0], p); }
      }
      GoodEndsAll(g, root, paths[1..], next);
    }
  }

  lemma {:induction false} BelowThrough(g: Sources, root: Path, p: Path, q: Path)
    requires Below(g, root, p) && Reaches(Imports(g), p, q)
    ensures Below(g, root, q)
  {
    var w :| Walk(Imports(g), w) && w[0] == p && w[|w| - 1] == q;
    BelowWalk(g, root, w);
  }

  lemma {:induction false} BelowWalk(g: Sources, root: Path, w: seq<Path>)
    requires Walk(Imports(g), w) && Below(g, root, w[0])
    ensures Below(g, root, w[|w| - 1])
    decreases |w|
  {
    if |w| > 1 {
      var front := w[..|w| - 1];
      forall i | 0 <= i < |front| - 1 ensures front[i + 1] in Imports(g)(front[i]) {
        assert w[i + 1] in Imports(g)(w[i]);
      }
      BelowWalk(g, root, front);
      assert w[(|w| - 2) + 1] in Imports(g)(w[|w| - 2]);
      BelowStep(g, root, front[|front| - 1], w[|w| - 1]);
    }
  }

  /**
   * The walk from the root ends exactly when every source below it exists and no id is declared twice
   * below it; then it has visited those sources and no other, and collected their ids and no other.
   */
  lemma WalkIsExact(g: Sources, root: Path)
    ensures Visit(g, root, State({}, {})).Some? <==> Good(g, root)
    ensures var r := Visit(g, root, State({}, {}));
            r.Some? ==> (forall p :: p in r.value.visited <==> Below(g, root, p))
                        && forall id :: id in r.value.ids <==> exists p :: Below(g, root, p) && Declares(g, p, id)
  {
    var empty := State({}, {});
    ReachesItself(Imports(g), root);
    if Visit(g, root, empty).Some? {
      var r := Visit(g, root, empty).value;
      VisitExtends(g, root, empty);
      forall p ensures p in r.visited <==> Below(g, root, p) {
        if Below(g, root, p) { ClosedContains(Imports(g), r.visited, root, p); }
      }
    }
    if Good(g, root) {
      GoodEnds(g, root, root, empty);
    }
  }

  /** The script: it passes exactly for a good graph whose ids, over a hundred, are those declared in order. */
  method DeriveMigrations(g: Sources, root: Path, ordered: seq<string>) returns (ok: bool, ids: set<string>)
    ensures ok <==> Good(g, root) && |ids| > 100 && ids == set id | id in ordered
    ensures ok ==> forall id :: id in ids <==> exists p :: Below(g, root, p) && Declares(g, p, id)
  {
    WalkIsExact(g, root);
    var v := new Visitor(g);
    var ended := v.VisitSource(root);
    ids := v.ids;
    ok := ended && |ids| > 100 && (set id | id in ordered) == ids;
  }
}
