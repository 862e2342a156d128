/** `collectModuleSurfaces`: the surfaces a package index exposes through its star exports. */
module SurfaceCollection {
  import opened Options
  import opened Reachability
  import opened ExportGraph
  import opened SearchRoutes
  import opened Sequences

  datatype SurfaceKind = NamespaceSurface | TypeSurface | ValueSurface

  datatype Surface = Surface(symbol: string, kind: SurfaceKind, file: File, line: nat)

  /** What one reference that is no star contributes: at most one surface, and the diagnostics it raises. */
  datatype Contribution = Contribution(surface: Option<Surface>, diags: seq<Diag>)

  function Contribute(repo: Repo, file: File, ref: Ref): Contribution
    requires Readable(repo)
  {
    if ref.symbol.None? then Contribution(None, [])
    else if ref.kind.Namespace? then
      Contribution(Some(Surface(ref.symbol.value, NamespaceSurface, file, ref.line)), [])
    else if ref.specifier.None? then
      Contribution(Some(Surface(ref.symbol.value, KindOf(ref.kind.TypeRef?), file, ref.line)), [])
    else
      var target := ResolveModule(repo, file, ref.specifier.value);
      if target.None? || ref.local.None? then Contribution(None, [Diag(file, ref.line, AliasUnresolved)])
      else
        NodesAreUniverse(repo, ref.local.value);
        Found(file, ref, ResolveOrigin(repo, Nodes(repo, ref.local.value), (target.value, ref.local.value), {}))
  }

  function KindOf(isType: bool): SurfaceKind {
    if isType then TypeSurface else ValueSurface
  }

  /** What a search for the symbol comes to: its own diagnostics stay, whether it found an origin or not. */
  function Found(file: File, ref: Ref, r: Search): Contribution
    requires ref.symbol.Some?
  {
    if r.origin.None? then Contribution(None, r.diags + [Diag(file, ref.line, SymbolUnresolved)])
    else
      var o := r.origin.value;
      Contribution(Some(Surface(ref.symbol.value, KindOf(ref.kind.TypeRef? || o.isType), o.file, o.line)), r.diags)
  }

  function Listed(c: Contribution): seq<Surface> {
    if c.surface.Some? then [c.surface.value] else []
  }

  /** What a reference adds by itself; a star that resolves adds its target's collection instead. */
  function Own(repo: Repo, file: File, ref: Ref): Contribution
    requires Readable(repo)
  {
    if !ref.kind.Star? then Contribute(repo, file, ref)
    else if IsStar(ref) && StarTarget(repo, file, ref).None? then
      Contribution(None, [Diag(file, ref.line, StarUnresolved)])
    else Contribution(None, [])
  }

  /** The surfaces a file exposes itself, from its i-th reference on. */
  function OwnSurfaces(repo: Repo, file: File, i: nat): seq<Surface>
    requires Readable(repo) && file in repo.refs && i <= |repo.refs[file]|
    decreases |repo.refs[file]| - i
  {
    if i == |repo.refs[file]| then []
    else Listed(Own(repo, file, repo.refs[file][i])) + OwnSurfaces(repo, file, i + 1)
  }

  /** The diagnostics its own references raise, those of the symbol searches included. */
  function OwnDiags(repo: Repo, file: File, i: nat): seq<Diag>
    requires Readable(repo) && file in repo.refs && i <= |repo.refs[file]|
    decreases |repo.refs[file]| - i
  {
    if i == |repo.refs[file]| then [] else Own(repo, file, repo.refs[file][i]).diags + OwnDiags(repo, file, i + 1)
  }

  function StarSucc(repo: Repo): File -> set<File> {
    (f: File) => StarTargets(repo, f)
  }

  /** `order` lists the files in the order they contributed. */
  datatype Gather = Gather(surfaces: seq<Surface>, visited: set<File>, diags: seq<Diag>, order: seq<File>)

  function CollectFile(repo: Repo, file: File, visited: set<File>): (r: Gather)
    requires Readable(repo) && file in repo.refs && visited <= repo.refs.Keys
    ensures visited <= r.visited <= repo.refs.Keys
    decreases |repo.refs.Keys - visited|, 0
  {
    if file in visited then Gather([], visited, [], [])
    else
      SubsetSmaller(repo.refs.Keys - (visited + {file}), repo.refs.Keys - visited);
      var r := CollectRefs(repo, file, 0, visited + {file});
      r.(order := [file] + r.order)
  }

  /** The loop over the references of a file. */
  function CollectRefs(repo: Repo, file: File, i: nat, visited: set<File>): (r: Gather)
    requires Readable(repo) && file in repo.refs && visited <= repo.refs.Keys && i <= |repo.refs[file]|
    ensures visited <= r.visited <= repo.refs.Keys
    decreases |repo.refs.Keys - visited|, 1 + |repo.refs[file]| - i
  {
    if i == |repo.refs[file]| then Gather([], visited, [], [])
    else
      var ref := repo.refs[file][i];
      match StarTarget(repo, file, ref)
      case None =>
        var c := Own(repo, file, ref);
        var rest := CollectRefs(repo, file, i + 1, visited);
        rest.(surfaces := Listed(c) + rest.surfaces, diags := c.diags + rest.diags)
      case Some(target) =>
        var first := CollectFile(repo, target, visited);
        SubsetNotLarger(repo.refs.Keys - first.visited, repo.refs.Keys - visited);
        var rest := CollectRefs(repo, file, i + 1, first.visited);
        Gather(first.surfaces + rest.surfaces, rest.visited, first.diags + rest.diags, first.order + rest.order)
  }

  // ---------- what the recursion visits ----------

  predicate Distinct(order: seq<File>) {
    forall i, j | 0 <= i < j < |order| :: order[i] != order[j]
  }

  ghost predicate StarsVisited(repo: Repo, file: File, i: nat, visited: set<File>)
    requires file in repo.refs
  {
    forall j | i <= j < |repo.refs[file]| && StarTarget(repo, file, repo.refs[file][j]).Some? ::
      StarTarget(repo, file, repo.refs[file][j]).value in visited
  }

  /** Every file visited since `before` has all its star targets visited. */
  ghost predicate StarsClosed(repo: Repo, before: set<File>, after: set<File>) {
    forall x | x in after - before :: StarTargets(repo, x) <= after
  }

  /** The newly visited files are listed once each, and all lie star-below `from`. */
  ghost predicate Lists(repo: Repo, from: File, order: seq<File>, newly: set<File>) {
    Distinct(order) && (set x | x in order) == newly && forall x | x in order :: Reaches(StarSucc(repo), from, x)
  }

  lemma ListsJoin(a: seq<File>, b: seq<File>)
    requires Distinct(a) && Distinct(b) && forall x | x in a :: x !in b
    ensures Distinct(a + b) && (set x | x in a + b) == (set x | x in a) + (set x | x in b)
  {
    assert forall x :: x in a + b <==> x in a || x in b;
    forall i, j | 0 <= i < j < |a + b| ensures (a + b)[i] != (a + b)[j] {
      if i < |a| <= j {
        assert a[i] in a && b[j - |a|] in b;
      }
    }
  }

  /** Entering a file: itself first, then what its references led to. */
  lemma EnterVisits(repo: Repo, file: File, before: set<File>, after: set<File>, order: seq<File>)
    requires file in repo.refs && file !in before && before + {file} <= after
    requires StarsVisited(repo, file, 0, after) && StarsClosed(repo, before + {file}, after)
    requires Lists(repo, file, order, after - (before + {file}))
    ensures StarsClosed(repo, before, after) && Lists(repo, file, [file] + order, after - before)
  {
    ReachesItself(StarSucc(repo), file);
    forall x | x in order ensures x != file {
      assert x in (set y | y in order);
    }
    ListsJoin([file], order);
    forall x | x in after - before ensures StarTargets(repo, x) <= after {
      if x != file { assert x in after - (before + {file}); }
    }
    assert after - before == {file} + (after - (before + {file}));
    assert (set x | x in [file]) == {file};
  }

  lemma {:induction false} CollectFileVisits(repo: Repo, file: File, visited: set<File>)
    requires Readable(repo) && file in repo.refs && visited <= repo.refs.Keys
    ensures var r := CollectFile(repo, file, visited);
            file in r.visited && StarsClosed(repo, visited, r.visited)
            && Lists(repo, file, r.order, r.visited - visited)
    decreases |repo.refs.Keys - visited|, 0
  {
    if file !in visited {
      SubsetSmaller(repo.refs.Keys - (visited + {file}), repo.refs.Keys - visited);
      CollectRefsVisits(repo, file, 0, visited + {file});
      var r := CollectRefs(repo, file, 0, visited + {file});
      EnterVisits(repo, file, visited, r.visited, r.order);
    }
  }

  lemma {:induction false} CollectRefsVisits(repo: Repo, file: File, i: nat, visited: set<File>)
    requires Readable(repo) && file in repo.refs && visited <= repo.refs.Keys && i <= |repo.refs[file]|
    ensures var r := CollectRefs(repo, file, i, visited);
            StarsVisited(repo, file, i, r.visited) && StarsClosed(repo, visited, r.visited)
            && Lists(repo, file, r.order, r.visited - visited)
    decreases |repo.refs.Keys - visited|, 1 + |repo.refs[file]| - i
  {
    if i < |repo.refs[file]| {
      var ref := repo.refs[file][i];
      match StarTarget(repo, file, ref)
      case None =>
        CollectRefsVisits(repo, file, i + 1, visited);
      case Some(target) =>
        CollectFileVisits(repo, target, visited);
        var first := CollectFile(repo, target, visited);
        SubsetNotLarger(repo.refs.Keys - first.visited, repo.refs.Keys - visited);
        CollectRefsVisits(repo, file, i + 1, first.visited);
        var rest := CollectRefs(repo, file, i + 1, first.visited);
        JoinVisits(repo, file, target, visited, first.visited, rest.visited, first.order, rest.order);
    }
  }

  lemma JoinVisits(repo: Repo, file: File, target: File, before: set<File>, mid: set<File>, after: set<File>,
                   a: seq<File>, b: seq<File>)
    requires before <= mid <= after && target in StarTargets(repo, file)
    requires StarsClosed(repo, before, mid) && StarsClosed(repo, mid, after)
    requires Lists(repo, target, a, mid - before) && Lists(repo, file, b, after - mid)
    ensures StarsClosed(repo, before, after) && Lists(repo, file, a + b, after - before)
  {
    forall x | x in after - before ensures StarTargets(repo, x) <= after {
      if x in mid { assert x in mid - before; } else { assert x in after - mid; }
    }
    var A, B := set y | y in a, set y | y in b;
    assert A == mid - before && B == after - mid && A !! B;
    forall x | x in a ensures x !in b {
      assert x in A && x !in B;
    }
    ListsJoin(a, b);
    forall x | x in a ensures Reaches(StarSucc(repo), file, x) {
      ReachesFrom(StarSucc(repo), file, target, x);
    }
    assert (mid - before) + (after - mid) == after - before;
  }

  // ---------- what it returns ----------

  /** Surfaces and diagnostics, with multiplicity. */
  datatype Tally = Tally(surfaces: multiset<Surface>, diags: multiset<Diag>)

  function Plus(a: Tally, b: Tally): Tally {
    Tally(a.surfaces + b.surfaces, a.diags + b.diags)
  }

  function Count(r: Gather): Tally {
    Tally(multiset(r.surfaces), multiset(r.diags))
  }

  function OwnTally(repo: Repo, file: File, i: nat): Tally
    requires Readable(repo) && file in repo.refs && i <= |repo.refs[file]|
  {
    Tally(multiset(OwnSurfaces(repo, file, i)), multiset(OwnDiags(repo, file, i)))
  }

  /** What the listed files have of their own. */
  function OwnOf(repo: Repo, order: seq<File>): Tally
    requires Readable(repo)
  {
    if order == [] then Tally(multiset{}, multiset{})
    else
      var rest := OwnOf(repo, order[1..]);
      if order[0] in repo.refs then Plus(OwnTally(repo, order[0], 0), rest) else rest
  }

  lemma {:induction false} OwnOfJoin(repo: Repo, a: seq<File>, b: seq<File>)
    requires Readable(repo)
    ensures OwnOf(repo, a + b) == Plus(OwnOf(repo, a), OwnOf(repo, b))
    decreases |a|
  {
    if a == [] {
      assert a + b == b;
    } else {
      assert (a + b)[1..] == a[1..] + b;
      OwnOfJoin(repo, a[1..], b);
    }
  }

  lemma {:induction false} CollectFileTally(repo: Repo, file: File, visited: set<File>)
    requires Readable(repo) && file in repo.refs && visited <= repo.refs.Keys
    ensures Count(CollectFile(repo, file, visited)) == OwnOf(repo, CollectFile(repo, file, visited).order)
    decreases |repo.refs.Keys - visited|, 0
  {
    if file !in visited {
      SubsetSmaller(repo.refs.Keys - (visited + {file}), repo.refs.Keys - visited);
      CollectRefsTally(repo, file, 0, visited + {file});
      var r := CollectRefs(repo, file, 0, visited + {file});
      assert ([file] + r.order)[1..] == r.order;
    }
  }

  lemma {:induction false} CollectRefsTally(repo: Repo, file: File, i: nat, visited: set<File>)
    requires Readable(repo) && file in repo.refs && visited <= repo.refs.Keys && i <= |repo.refs[file]|
    ensures var r := CollectRefs(repo, file, i, visited);
            Count(r) == Plus(OwnTally(repo, file, i), OwnOf(repo, r.order))
    decreases |repo.refs.Keys - visited|, 1 + |repo.refs[file]| - i
  {
    if i < |repo.refs[file]| {
      var ref := repo.refs[file][i];
      match StarTarget(repo, file, ref)
      case None =>
        CollectRefsTally(repo, file, i + 1, visited);
        OwnStepTally(repo, file, i, visited);
      case Some(target) =>
        CollectFileTally(repo, target, visited);
        var first := CollectFile(repo, target, visited);
        SubsetNotLarger(repo.refs.Keys - first.visited, repo.refs.Keys - visited);
        CollectRefsTally(repo, file, i + 1, first.visited);
        StarStepTally(repo, file, i, visited, target);
    }
  }

  lemma PutInFront<T>(c: seq<T>, rest: seq<T>, own: seq<T>, others: multiset<T>)
    requires multiset(rest) == multiset(own) + others
    ensures multiset(c + rest) == multiset(c + own) + others
  {
  }

  /** A reference that is no resolved star puts its own contribution in front. */
  lemma OwnStepTally(repo: Repo, file: File, i: nat, visited: set<File>)
    requires Readable(repo) && file in repo.refs && visited <= repo.refs.Keys && i < |repo.refs[file]|
    requires StarTarget(repo, file, repo.refs[file][i]).None?
    requires var r := CollectRefs(repo, file, i + 1, visited);
             Count(r) == Plus(OwnTally(repo, file, i + 1), OwnOf(repo, r.order))
    ensures var r := CollectRefs(repo, file, i, visited);
            Count(r) == Plus(OwnTally(repo, file, i), OwnOf(repo, r.order))
  {
    var c := Own(repo, file, repo.refs[file][i]);
    var rest := CollectRefs(repo, file, i + 1, visited);
    PutInFront(Listed(c), rest.surfaces, OwnSurfaces(repo, file, i + 1), OwnOf(repo, rest.order).surfaces);
    PutInFront(c.diags, rest.diags, OwnDiags(repo, file, i + 1), OwnOf(repo, rest.order).diags);
  }

  lemma AddUp<T>(first: seq<T>, rest: seq<T>, own: multiset<T>, a: multiset<T>, b: multiset<T>)
    requires multiset(first) == a && multiset(rest) == own + b
    ensures multiset(first + rest) == own + (a + b)
  {
  }

  /** A resolved star puts the target's collection in front. */
  lemma StarStepTally(repo: Repo, file: File, i: nat, visited: set<File>, target: File)
    requires Readable(repo) && file in repo.refs && visited <= repo.refs.Keys && i < |repo.refs[file]|
    requires StarTarget(repo, file, repo.refs[file][i]) == Some(target)
    requires var first := CollectFile(repo, target, visited);
             Count(first) == OwnOf(repo, first.order)
             && var rest := CollectRefs(repo, file, i + 1, first.visited);
                Count(rest) == Plus(OwnTally(repo, file, i + 1), OwnOf(repo, rest.order))
    ensures var r := CollectRefs(repo, file, i, visited);
            Count(r) == Plus(OwnTally(repo, file, i), OwnOf(repo, r.order))
  {
    var first := CollectFile(repo, target, visited);
    var rest := CollectRefs(repo, file, i + 1, first.visited);
    StarStepEquations(repo, file, i, visited, target);
    OwnOfJoin(repo, first.order, rest.order);
    var own, a, b := OwnTally(repo, file, i + 1), OwnOf(repo, first.order), OwnOf(repo, rest.order);
    AddUp(first.surfaces, rest.surfaces, own.surfaces, a.surfaces, b.surfaces);
    AddUp(first.diags, rest.diags, own.diags, a.diags, b.diags);
  }

  lemma StarStepEquations(repo: Repo, file: File, i: nat, visited: set<File>, target: File)
    requires Readable(repo) && file in repo.refs && visited <= repo.refs.Keys && i < |repo.refs[file]|
    requires StarTarget(repo, file, repo.refs[file][i]) == Some(target)
    ensures OwnTally(repo, file, i) == OwnTally(repo, file, i + 1)
    ensures var first := CollectFile(repo, target, visited);
            var rest := CollectRefs(repo, file, i + 1, first.visited);
            CollectRefs(repo, file, i, visited)
            == Gather(first.surfaces + rest.surfaces, rest.visited, first.diags + rest.diags, first.order + rest.order)
  {
    assert Own(repo, file, repo.refs[file][i]) == Contribution(None, []);
    assert [] + OwnSurfaces(repo, file, i + 1) == OwnSurfaces(repo, file, i + 1);
    assert [] + OwnDiags(repo, file, i + 1) == OwnDiags(repo, file, i + 1);
  }

  /**
   * Every file that the index reaches through stars contributes its own surfaces and raises its own
   * diagnostics exactly once, cycles or not, and nothing else is listed or raised.
   */
  lemma CollectionIsExact(repo: Repo, index: File)
    requires Readable(repo) && index in repo.refs
    ensures var r := CollectFile(repo, index, {});
            Distinct(r.order)
            && (forall f :: f in r.order <==> Reaches(StarSucc(repo), index, f))
            && Count(r) == OwnOf(repo, r.order)
  {
    CollectFileVisits(repo, index, {});
    CollectFileTally(repo, index, {});
    var r := CollectFile(repo, index, {});
    assert r.visited - {} == r.visited;
    assert Closed(StarSucc(repo), r.visited);
    forall f | Reaches(StarSucc(repo), index, f) ensures f in r.order {
      ClosedContains(StarSucc(repo), r.visited, index, f);
      assert f in (set x | x in r.order);
    }
  }

  // ---------- when nothing is wrong ----------

  /**
   * What a file's reference must meet: a star resolves; a symbol is declared here, or is re-exported from a
   * file that resolves and where the first route that ends anywhere ends in its declaration.
   */
  ghost predicate RefResolves(repo: Repo, file: File, ref: Ref) {
    if ref.kind.Star? then IsStar(ref) ==> StarTarget(repo, file, ref).Some?
    else ref.symbol.None? || ref.kind.Namespace? || ref.specifier.None?
         || (var target := ResolveModule(repo, file, ref.specifier.value);
             target.Some? && ref.local.Some?
             && FirstEnd(repo, (target.value, ref.local.value), {}, Declaration))
  }

  ghost predicate FileResolves(repo: Repo, file: File) {
    file in repo.refs ==> forall j | 0 <= j < |repo.refs[file]| :: RefResolves(repo, file, repo.refs[file][j])
  }

  lemma RefIsSilent(repo: Repo, file: File, ref: Ref)
    requires Readable(repo)
    ensures Own(repo, file, ref).diags == [] <==> RefResolves(repo, file, ref)
  {
    if !ref.kind.Star? && ref.symbol.Some? && !ref.kind.Namespace? && ref.specifier.Some? && ref.local.Some? {
      var target := ResolveModule(repo, file, ref.specifier.value);
      if target.Some? {
        NodesAreUniverse(repo, ref.local.value);
        CleanSearchExactly(repo, Nodes(repo, ref.local.value), (target.value, ref.local.value));
      }
    }
  }

  lemma {:induction false} FileIsSilent(repo: Repo, file: File, i: nat)
    requires Readable(repo) && file in repo.refs && i <= |repo.refs[file]|
    ensures OwnDiags(repo, file, i) == []
            <==> forall j | i <= j < |repo.refs[file]| :: RefResolves(repo, file, repo.refs[file][j])
    decreases |repo.refs[file]| - i
  {
    if i < |repo.refs[file]| {
      RefIsSilent(repo, file, repo.refs[file][i]);
      FileIsSilent(repo, file, i + 1);
    }
  }

  lemma FirstAndRest(repo: Repo, order: seq<File>)
    requires order != []
    ensures (forall f | f in order :: FileResolves(repo, f))
            <==> FileResolves(repo, order[0]) && forall f | f in order[1..] :: FileResolves(repo, f)
  {
    assert order == [order[0]] + order[1..];
  }

  lemma {:induction false} FilesAreSilent(repo: Repo, order: seq<File>)
    requires Readable(repo)
    ensures OwnOf(repo, order).diags == multiset{} <==> forall f | f in order :: FileResolves(repo, f)
  {
    if order != [] {
      FilesAreSilent(repo, order[1..]);
      FirstAndRest(repo, order);
      if order[0] in repo.refs {
        FileIsSilent(repo, order[0], 0);
        EmptyTally(OwnDiags(repo, order[0], 0), OwnOf(repo, order[1..]).diags);
      }
    }
  }

  lemma EmptyTally<T>(a: seq<T>, b: multiset<T>)
    ensures multiset(a) + b == multiset{} <==> a == [] && b == multiset{}
  {
    if a != [] { assert a[0] in multiset(a) + b; }
    if b != multiset{} {
      var x :| x in b;
      assert x in multiset(a) + b;
    }
  }

  /** The collection raises no diagnostic exactly when every reference of every star-reachable file resolves. */
  lemma SilentExactly(repo: Repo, index: File)
    requires Readable(repo) && index in repo.refs
    ensures CollectFile(repo, index, {}).diags == []
            <==> forall f | Reaches(StarSucc(repo), index, f) :: FileResolves(repo, f)
  {
    CollectionIsExact(repo, index);
    var r := CollectFile(repo, index, {});
    FilesAreSilent(repo, r.order);
    EmptyTally(r.diags, multiset{});
  }

  /** An unresolved star met during a search is raised even where a later star gives the origin. */
  lemma FoundYetRaised(repo: Repo, a: File, ref: Ref, b: File, c: File, star: Ref, next: Ref, decl: Ref)
    requires a != b && b != c && a != c
    requires Readable(repo) && repo.refs.Keys == {a, b, c}
    requires repo.refs[a] == [ref] && repo.refs[b] == [star, next] && repo.refs[c] == [decl]
    requires ref.kind.ValueRef? && ref.symbol.Some? && ref.local.Some? && ref.specifier.Some?
    requires ResolveModule(repo, a, ref.specifier.value) == Some(b)
    requires IsStar(star) && star.symbol.None? && StarTarget(repo, b, star).None?
    requires IsStar(next) && next.symbol.None? && StarTarget(repo, b, next) == Some(c)
    requires decl.kind.ValueRef? && decl.symbol == ref.local && decl.specifier.None?
    ensures CollectFile(repo, a, {}).surfaces == [Surface(ref.symbol.value, ValueSurface, c, decl.line)]
    ensures CollectFile(repo, a, {}).diags == [Diag(b, star.line, StarUnresolved)]
  {
    var local := ref.local.value;
    NodesAreUniverse(repo, local);
    FoundBehindStar(repo, b, c, star, next, decl, local);
    var own := Own(repo, a, ref);
    assert own == Contribution(Some(Surface(ref.symbol.value, ValueSurface, c, decl.line)),
                               [Diag(b, star.line, StarUnresolved)]);
    assert {} + {a} == {a};
    assert CollectRefs(repo, a, 1, {a}) == Gather([], {a}, [], []);
    var r := CollectRefs(repo, a, 0, {a});
    assert r.surfaces == Listed(own) + [] && r.diags == own.diags + [];
  }

  lemma FoundBehindStar(repo: Repo, b: File, c: File, star: Ref, next: Ref, decl: Ref, local: string)
    requires b != c && Readable(repo) && {b, c} <= repo.refs.Keys
    requires repo.refs[b] == [star, next] && repo.refs[c] == [decl]
    requires IsStar(star) && star.symbol.None? && StarTarget(repo, b, star).None?
    requires IsStar(next) && next.symbol.None? && StarTarget(repo, b, next) == Some(c)
    requires decl.kind.ValueRef? && decl.symbol == Some(local) && decl.specifier.None?
    requires Universe(repo, Nodes(repo, local)) && (b, local) in Nodes(repo, local)
    ensures var r := ResolveOrigin(repo, Nodes(repo, local), (b, local), {});
            r.origin == Some(Origin(c, decl.line, false)) && r.diags == [Diag(b, star.line, StarUnresolved)]
  {
    var all, n, m := Nodes(repo, local), (b, local), (c, local);
    assert [star, next][1..] == [next] && [next][1..] == [];
    assert FindNamed(repo, b, [next], local) == NotNamed;
    assert FindNamed(repo, b, [star, next], local) == NotNamed;
    assert FindNamed(repo, c, [decl], local) == Declared(Origin(c, decl.line, false));
    assert m in all;
    var last := ResolveOrigin(repo, all, m, {n});
    assert last.origin == Some(Origin(c, decl.line, false)) && last.diags == [];
    assert ResolveStars(repo, all, n, 1, {n}) == last;
    assert ResolveStars(repo, all, n, 0, {n}).diags == [Diag(b, star.line, StarUnresolved)] + last.diags;
    assert {} + {n} == {n};
  }

  /** The collection as the source runs it: one visited set updated in place, diagnostics on the side. */
  class Collector {
    var visited: set<File>
    const checker: Checker

    constructor (checker: Checker)
      ensures this.checker == checker && visited == {}
    {
      this.checker := checker;
      visited := {};
    }

    method SymbolSurface(repo: Repo, file: File, ref: Ref) returns (surface: Option<Surface>)
      requires Readable(repo)
      modifies checker
      ensures var c := Contribute(repo, file, ref);
              surface == c.surface && checker.diagnostics == old(checker.diagnostics) + c.diags
    {
      assert checker.diagnostics + [] == checker.diagnostics;
      if ref.symbol.None? { return None; }
      if ref.kind.Namespace? { return Some(Surface(ref.symbol.value, NamespaceSurface, file, ref.line)); }
      if ref.specifier.None? { return Some(Surface(ref.symbol.value, KindOf(ref.kind.TypeRef?), file, ref.line)); }
      var target := ResolveModule(repo, file, ref.specifier.value);
      if target.None? || ref.local.None? {
        checker.diagnostics := checker.diagnostics + [Diag(file, ref.line, AliasUnresolved)];
        return None;
      }
      NodesAreUniverse(repo, ref.local.value);
      var origin, _ :=
        checker.ResolveSymbolOrigin(repo, Nodes(repo, ref.local.value), (target.value, ref.local.value), {});
      if origin.None? {
        checker.diagnostics := checker.diagnostics + [Diag(file, ref.line, SymbolUnresolved)];
        return None;
      }
      var o := origin.value;
      surface := Some(Surface(ref.symbol.value, KindOf(ref.kind.TypeRef? || o.isType), o.file, o.line));
    }

    /** One turn of the loop: what a reference adds to the surfaces. */
    method CollectRef(repo: Repo, file: File, ref: Ref) returns (surfaces: seq<Surface>)
      requires Readable(repo) && file in repo.refs && visited <= repo.refs.Keys
      modifies this, checker
      ensures match StarTarget(repo, file, ref)
              case None =>
                var c := Own(repo, file, ref);
                surfaces == Listed(c) && visited == old(visited)
                && checker.diagnostics == old(checker.diagnostics) + c.diags
              case Some(target) =>
                var r := CollectFile(repo, target, old(visited));
                surfaces == r.surfaces && visited == r.visited
                && checker.diagnostics == old(checker.diagnostics) + r.diags
      decreases |repo.refs.Keys - visited|, 1
    {
      surfaces := [];
      assert checker.diagnostics + [] == checker.diagnostics;
      if ref.kind.Star? {
        if ref.specifier.Some? {
          var target := ResolveModule(repo, file, ref.specifier.value);
          if target.None? {
            checker.diagnostics := checker.diagnostics + [Diag(file, ref.line, StarUnresolved)];
          } else {
            surfaces := CollectModuleSurfaces(repo, target.value);
          }
        }
      } else {
        var shown := SymbolSurface(repo, file, ref);
        if shown.Some? { surfaces := [shown.value]; }
      }
    }

    method CollectModuleSurfaces(repo: Repo, file: File) returns (surfaces: seq<Surface>)
      requires Readable(repo) && file in repo.refs && visited <= repo.refs.Keys
      modifies this, checker
      ensures var r := CollectFile(repo, file, old(visited));
              surfaces == r.surfaces && visited == r.visited
              && checker.diagnostics == old(checker.diagnostics) + r.diags
      decreases |repo.refs.Keys - visited|, 0
    {
      assert checker.diagnostics + [] == checker.diagnostics;
      if file in visited {
        return [];
      }
      SubsetSmaller(repo.refs.Keys - (visited + {file}), repo.refs.Keys - visited);
      visited := visited + {file};
      ghost var total := CollectRefs(repo, file, 0, visited);
      var refs := repo.refs[file];
      surfaces := [];
      var i := 0;
      assert [] + total.surfaces == total.surfaces;
      while i < |refs|
        invariant 0 <= i <= |refs| && old(visited) + {file} <= visited <= repo.refs.Keys
        invariant GoesOn(total, CollectRefs(repo, file, i, visited), surfaces, old(checker.diagnostics),
                         checker.diagnostics)
      {
        SubsetNotLarger(repo.refs.Keys - visited, repo.refs.Keys - (old(visited) + {file}));
        Step(repo, file, i, visited, total, surfaces, old(checker.diagnostics), checker.diagnostics);
        var more := CollectRef(repo, file, refs[i]);
        surfaces, i := surfaces + more, i + 1;
      }
      assert surfaces + [] == surfaces && checker.diagnostics + [] == checker.diagnostics;
    }
  }

  /** What is left of a collection agrees with the whole of it. */
  ghost predicate GoesOn(total: Gather, rest: Gather, surfaces: seq<Surface>, start: seq<Diag>, now: seq<Diag>) {
    total.surfaces == surfaces + rest.surfaces && total.visited == rest.visited
    && start + total.diags == now + rest.diags
  }

  lemma StepOwn(repo: Repo, file: File, i: nat, visited: set<File>, total: Gather, surfaces: seq<Surface>,
                start: seq<Diag>, now: seq<Diag>)
    requires Readable(repo) && file in repo.refs && visited <= repo.refs.Keys && i < |repo.refs[file]|
    requires StarTarget(repo, file, repo.refs[file][i]).None?
    requires GoesOn(total, CollectRefs(repo, file, i, visited), surfaces, start, now)
    ensures var c := Own(repo, file, repo.refs[file][i]);
            surfaces + [] == surfaces && now + [] == now
            && GoesOn(total, CollectRefs(repo, file, i + 1, visited), surfaces + Listed(c), start, now + c.diags)
  {
    var c := Own(repo, file, repo.refs[file][i]);
    var rest := CollectRefs(repo, file, i + 1, visited);
    Regroup(surfaces, Listed(c), rest.surfaces);
    Regroup(now, c.diags, rest.diags);
  }

  lemma StepStar(repo: Repo, file: File, i: nat, visited: set<File>, total: Gather, surfaces: seq<Surface>,
                 start: seq<Diag>, now: seq<Diag>, target: File)
    requires Readable(repo) && file in repo.refs && visited <= repo.refs.Keys && i < |repo.refs[file]|
    requires StarTarget(repo, file, repo.refs[file][i]) == Some(target)
    requires GoesOn(total, CollectRefs(repo, file, i, visited), surfaces, start, now)
    ensures var first := CollectFile(repo, target, visited);
            GoesOn(total, CollectRefs(repo, file, i + 1, first.visited), surfaces + first.surfaces, start,
                   now + first.diags)
  {
    var first := CollectFile(repo, target, visited);
    var rest := CollectRefs(repo, file, i + 1, first.visited);
    StarStepEquations(repo, file, i, visited, target);
    Regroup(surfaces, first.surfaces, rest.surfaces);
    Regroup(now, first.diags, rest.diags);
  }

  /** What one reference does to what is left. */
  lemma Step(repo: Repo, file: File, i: nat, visited: set<File>, total: Gather, surfaces: seq<Surface>,
             start: seq<Diag>, now: seq<Diag>)
    requires Readable(repo) && file in repo.refs && visited <= repo.refs.Keys && i < |repo.refs[file]|
    requires GoesOn(total, CollectRefs(repo, file, i, visited), surfaces, start, now)
    ensures match StarTarget(repo, file, repo.refs[file][i])
            case None =>
              var c := Own(repo, file, repo.refs[file][i]);
              GoesOn(total, CollectRefs(repo, file, i + 1, visited), surfaces + Listed(c), start, now + c.diags)
            case Some(target) =>
              var r := CollectFile(repo, target, visited);
              GoesOn(total, CollectRefs(repo, file, i + 1, r.visited), surfaces + r.surfaces, start, now + r.diags)
  {
    match StarTarget(repo, file, repo.refs[file][i])
    case None => StepOwn(repo, file, i, visited, total, surfaces, start, now);
    case Some(target) => StepStar(repo, file, i, visited, total, surfaces, start, now, target);
  }
}
