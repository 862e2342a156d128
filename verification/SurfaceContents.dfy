/** What the collected surfaces and the raised diagnostics say, reference by reference. */
module SurfaceContents {
  import opened Options
  import opened Reachability
  import opened ExportGraph
  import opened SurfaceCollection

  // ---------- the reference that decides ----------

  /** The reference declares the symbol, or re-exports it under a local name. */
  predicate Speaks(ref: Ref, local: string) {
    ref.symbol == Some(local) && (ref.specifier.None? || ref.local.Some?)
  }

  predicate SpeaksFirst(refs: seq<Ref>, i: nat, local: string)
    requires i <= |refs|
  {
    forall j | 0 <= j < i :: !Speaks(refs[j], local)
  }

  /** The first reference that speaks of the symbol decides what the file knows of it. */
  lemma {:induction false} FirstDecides(repo: Repo, file: File, refs: seq<Ref>, local: string)
    ensures FindNamed(repo, file, refs, local).NotNamed? <==> forall i | 0 <= i < |refs| :: !Speaks(refs[i], local)
    ensures forall i | 0 <= i < |refs| && Speaks(refs[i], local) && SpeaksFirst(refs, i, local) ::
              IsNamed(repo, file, refs[i], FindNamed(repo, file, refs, local))
    decreases |refs|
  {
    if refs != [] {
      FirstDecides(repo, file, refs[1..], local);
      assert refs == [refs[0]] + refs[1..];
    }
  }

  /** What the deciding reference says: here is the declaration, or go on there, or nowhere. */
  ghost predicate IsNamed(repo: Repo, file: File, ref: Ref, named: Named) {
    match named
    case Declared(o) =>
      ref.specifier.None? && o.file == file && o.line == ref.line && (o.isType <==> ref.kind.TypeRef?)
    case Alias(found, target) =>
      ref.specifier.Some? && ref.local.Some? && found == ref
      && (target.Some? <==> (file, ref.specifier.value) in repo.modules)
      && (target.Some? ==> target.value == (repo.modules[(file, ref.specifier.value)], ref.local.value))
    case NotNamed => false
  }

  // ---------- surfaces ----------

  /** The search from the file a reference names finds this declaration. */
  ghost predicate Finds(repo: Repo, file: File, ref: Ref, o: Origin)
    requires Readable(repo)
  {
    && ref.specifier.Some? && ref.local.Some? && (file, ref.specifier.value) in repo.modules
    && var n := (repo.modules[(file, ref.specifier.value)], ref.local.value);
       NodesAreUniverse(repo, n.1);
       ResolveOrigin(repo, Nodes(repo, n.1), n, {}).origin == Some(o)
  }

  /**
   * A reference shows a surface under its symbol: a namespace, its own declaration, or the declaration a search
   * finds, at its place. The last two are types when the reference or the declaration found is one.
   */
  ghost predicate ShownBy(repo: Repo, file: File, ref: Ref, s: Surface)
    requires Readable(repo)
  {
    && !ref.kind.Star? && ref.symbol == Some(s.symbol)
    && if ref.kind.Namespace? then s.kind.NamespaceSurface? && s.file == file && s.line == ref.line
       else if ref.specifier.None? then
         s.file == file && s.line == ref.line && s.kind == (if ref.kind.TypeRef? then TypeSurface else ValueSurface)
       else
         exists isType: bool ::
           Finds(repo, file, ref, Origin(s.file, s.line, isType))
           && s.kind == if ref.kind.TypeRef? || isType then TypeSurface else ValueSurface
  }

  lemma OwnShows(repo: Repo, file: File, ref: Ref, s: Surface)
    requires Readable(repo)
    ensures Own(repo, file, ref).surface == Some(s) <==> ShownBy(repo, file, ref, s)
  {
    if Own(repo, file, ref).surface == Some(s) && !ref.kind.Namespace? && ref.specifier.Some? {
      var n := (repo.modules[(file, ref.specifier.value)], ref.local.value);
      NodesAreUniverse(repo, n.1);
      var o := ResolveOrigin(repo, Nodes(repo, n.1), n, {}).origin.value;
      assert Finds(repo, file, ref, Origin(s.file, s.line, o.isType));
    }
  }

  // ---------- diagnostics ----------

  /** What a search raises from a node: an alias or a star of a node it reaches that leads nowhere. */
  ghost predicate RaisedAt(repo: Repo, n: Node, d: Diag) {
    exists m: Node, ref: Ref :: m.0 in repo.refs && Reaches(Succ(repo), n, m) && LeadsNowhere(repo, m, ref, d)
  }

  ghost predicate LeadsNowhere(repo: Repo, m: Node, ref: Ref, d: Diag)
    requires m.0 in repo.refs
  {
    && ref in repo.refs[m.0] && d.file == m.0 && d.line == ref.line
    && ref.specifier.Some? && (m.0, ref.specifier.value) !in repo.modules
    && if Classify(repo, m).NotNamed? then ref.kind.Star? && d.why.StarUnresolved?
       else ref.symbol == Some(m.1) && d.why.AliasUnresolved?
  }

  lemma RaisedFrom(repo: Repo, n: Node, m: Node, d: Diag)
    requires m in Succ(repo)(n) && RaisedAt(repo, m, d)
    ensures RaisedAt(repo, n, d)
  {
    var x: Node, ref: Ref :| x.0 in repo.refs && Reaches(Succ(repo), m, x) && LeadsNowhere(repo, x, ref, d);
    ReachesFrom(Succ(repo), n, m, x);
  }

  lemma RaisedHere(repo: Repo, n: Node, ref: Ref, d: Diag)
    requires n.0 in repo.refs && LeadsNowhere(repo, n, ref, d)
    ensures RaisedAt(repo, n, d)
  {
    ReachesItself(Succ(repo), n);
  }

  lemma {:induction false} AliasIsThere(repo: Repo, file: File, refs: seq<Ref>, local: string)
    requires FindNamed(repo, file, refs, local).Alias?
    ensures FindNamed(repo, file, refs, local).ref in refs
    ensures FindNamed(repo, file, refs, local).ref.symbol == Some(local)
    ensures FindNamed(repo, file, refs, local).ref.specifier.Some?
    ensures FindNamed(repo, file, refs, local).target.None? ==>
              (file, FindNamed(repo, file, refs, local).ref.specifier.value) !in repo.modules
    decreases |refs|
  {
    if !Speaks(refs[0], local) { AliasIsThere(repo, file, refs[1..], local); }
  }

  /** Each diagnostic of a search names a reference that leads nowhere, of a node that the search reaches. */
  lemma {:induction false} SearchRaises(repo: Repo, all: set<Node>, n: Node, visited: set<Node>, d: Diag)
    requires Universe(repo, all) && n in all && visited <= all
    requires d in ResolveOrigin(repo, all, n, visited).diags
    ensures RaisedAt(repo, n, d)
    decreases |all - visited|, 0
  {
    SubsetSmaller(all - (visited + {n}), all - visited);
    match Classify(repo, n)
    case Alias(ref, None) =>
      AliasIsThere(repo, n.0, repo.refs[n.0], n.1);
      RaisedHere(repo, n, ref, d);
    case Alias(_, Some(m)) =>
      assert m in Succ(repo)(n);
      SearchRaises(repo, all, m, visited + {n}, d);
      RaisedFrom(repo, n, m, d);
    case NotNamed => StarsRaise(repo, all, n, 0, visited + {n}, d);
  }

  lemma {:induction false} StarsRaise(repo: Repo, all: set<Node>, n: Node, i: nat, visited: set<Node>, d: Diag)
    requires Universe(repo, all) && n in all && visited <= all && Classify(repo, n).NotNamed?
    requires i <= |repo.refs[n.0]| && d in ResolveStars(repo, all, n, i, visited).diags
    ensures RaisedAt(repo, n, d)
    decreases |all - visited|, 1 + |repo.refs[n.0]| - i
  {
    var ref := repo.refs[n.0][i];
    match StarTarget(repo, n.0, ref)
    case None =>
      if IsStar(ref) && d == Diag(n.0, ref.line, StarUnresolved) {
        RaisedHere(repo, n, ref, d);
      } else {
        StarsRaise(repo, all, n, i + 1, visited, d);
      }
    case Some(file) =>
      StarLeads(repo, n, i);
      var m := (file, n.1);
      var first := ResolveOrigin(repo, all, m, visited);
      if d in first.diags {
        SearchRaises(repo, all, m, visited, d);
        RaisedFrom(repo, n, m, d);
      } else {
        SubsetNotLarger(all - first.visited, all - visited);
        StarsRaise(repo, all, n, i + 1, first.visited, d);
      }
  }

  /** A reference that leads nowhere raises this of its own. */
  ghost predicate RaisesItself(repo: Repo, file: File, ref: Ref, d: Diag)
    requires Readable(repo)
  {
    && d.file == file && d.line == ref.line && ref.specifier.Some?
    && var unresolved := (file, ref.specifier.value) !in repo.modules;
       if ref.kind.Star? then unresolved && d.why.StarUnresolved?
       else
         && ref.symbol.Some? && !ref.kind.Namespace?
         && if unresolved || ref.local.None? then d.why.AliasUnresolved?
            else d.why.SymbolUnresolved? && forall o :: !Finds(repo, file, ref, o)
  }

  ghost predicate SearchedFor(repo: Repo, file: File, ref: Ref, n: Node) {
    && !ref.kind.Star? && !ref.kind.Namespace? && ref.symbol.Some? && ref.specifier.Some? && ref.local.Some?
    && (file, ref.specifier.value) in repo.modules
    && n == (repo.modules[(file, ref.specifier.value)], ref.local.value)
  }

  /** What the search for the reference's symbol raises on its way. */
  ghost predicate SearchRaisesIt(repo: Repo, file: File, ref: Ref, d: Diag)
    requires Readable(repo)
  {
    exists n: Node :: SearchedFor(repo, file, ref, n) && InSearch(repo, n, d)
  }

  ghost predicate InSearch(repo: Repo, n: Node, d: Diag)
    requires Readable(repo) && n.0 in repo.refs
  {
    NodesAreUniverse(repo, n.1);
    d in ResolveOrigin(repo, Nodes(repo, n.1), n, {}).diags
  }

  lemma OwnRaises(repo: Repo, file: File, ref: Ref, d: Diag)
    requires Readable(repo)
    ensures d in Own(repo, file, ref).diags
            <==> RaisesItself(repo, file, ref, d) || SearchRaisesIt(repo, file, ref, d)
  {
    if !ref.kind.Star? && ref.symbol.Some? && !ref.kind.Namespace? && ref.specifier.Some? && ref.local.Some?
       && (file, ref.specifier.value) in repo.modules
    {
      var n := (repo.modules[(file, ref.specifier.value)], ref.local.value);
      NodesAreUniverse(repo, n.1);
      var r := ResolveOrigin(repo, Nodes(repo, n.1), n, {});
      assert SearchedFor(repo, file, ref, n) && (InSearch(repo, n, d) <==> d in r.diags);
      assert r.origin.Some? ==> Finds(repo, file, ref, r.origin.value);
    }
  }

  // ---------- the whole collection ----------

  ghost predicate Raises(repo: Repo, file: File, ref: Ref, d: Diag)
    requires Readable(repo)
  {
    RaisesItself(repo, file, ref, d) || SearchRaisesIt(repo, file, ref, d)
  }

  lemma {:induction false} OwnListed(repo: Repo, file: File, i: nat, s: Surface)
    requires Readable(repo) && file in repo.refs && i <= |repo.refs[file]|
    ensures s in OwnSurfaces(repo, file, i)
            <==> exists j | i <= j < |repo.refs[file]| :: ShownBy(repo, file, repo.refs[file][j], s)
    decreases |repo.refs[file]| - i
  {
    if i < |repo.refs[file]| {
      OwnListed(repo, file, i + 1, s);
      OwnShows(repo, file, repo.refs[file][i], s);
      assert s in Listed(Own(repo, file, repo.refs[file][i])) <==> ShownBy(repo, file, repo.refs[file][i], s);
    }
  }

  lemma {:induction false} OwnRaised(repo: Repo, file: File, i: nat, d: Diag)
    requires Readable(repo) && file in repo.refs && i <= |repo.refs[file]|
    ensures d in OwnDiags(repo, file, i)
            <==> exists j | i <= j < |repo.refs[file]| :: Raises(repo, file, repo.refs[file][j], d)
    decreases |repo.refs[file]| - i
  {
    if i < |repo.refs[file]| {
      OwnRaised(repo, file, i + 1, d);
      OwnRaises(repo, file, repo.refs[file][i], d);
      assert d in Own(repo, file, repo.refs[file][i]).diags <==> Raises(repo, file, repo.refs[file][i], d);
    }
  }

  ghost predicate FileShows(repo: Repo, file: File, s: Surface)
    requires Readable(repo)
  {
    file in repo.refs && exists j | 0 <= j < |repo.refs[file]| :: ShownBy(repo, file, repo.refs[file][j], s)
  }

  ghost predicate FileRaises(repo: Repo, file: File, d: Diag)
    requires Readable(repo)
  {
    file in repo.refs && exists j | 0 <= j < |repo.refs[file]| :: Raises(repo, file, repo.refs[file][j], d)
  }

  ghost predicate OneShows(repo: Repo, order: seq<File>, s: Surface)
    requires Readable(repo)
  {
    exists f :: f in order && FileShows(repo, f, s)
  }

  ghost predicate OneRaises(repo: Repo, order: seq<File>, d: Diag)
    requires Readable(repo)
  {
    exists f :: f in order && FileRaises(repo, f, d)
  }

  lemma OneMoreFile(repo: Repo, order: seq<File>, s: Surface, d: Diag)
    requires Readable(repo) && order != []
    ensures OneShows(repo, order, s) <==> FileShows(repo, order[0], s) || OneShows(repo, order[1..], s)
    ensures OneRaises(repo, order, d) <==> FileRaises(repo, order[0], d) || OneRaises(repo, order[1..], d)
  {
    assert order == [order[0]] + order[1..];
    assert order[0] in order;
  }

  lemma FileLists(repo: Repo, file: File, s: Surface)
    requires Readable(repo) && file in repo.refs
    ensures s in OwnTally(repo, file, 0).surfaces <==> FileShows(repo, file, s)
  {
    OwnListed(repo, file, 0, s);
    assert s in OwnTally(repo, file, 0).surfaces <==> s in OwnSurfaces(repo, file, 0);
  }

  lemma FileRaisesOwn(repo: Repo, file: File, d: Diag)
    requires Readable(repo) && file in repo.refs
    ensures d in OwnTally(repo, file, 0).diags <==> FileRaises(repo, file, d)
  {
    OwnRaised(repo, file, 0, d);
    assert d in OwnTally(repo, file, 0).diags <==> d in OwnDiags(repo, file, 0);
  }

  lemma {:induction false} OrderContents(repo: Repo, order: seq<File>, s: Surface, d: Diag)
    requires Readable(repo)
    ensures s in OwnOf(repo, order).surfaces <==> OneShows(repo, order, s)
    ensures d in OwnOf(repo, order).diags <==> OneRaises(repo, order, d)
    decreases |order|
  {
    if order != [] {
      OrderContents(repo, order[1..], s, d);
      OneMoreFile(repo, order, s, d);
      if order[0] in repo.refs {
        FileLists(repo, order[0], s);
        FileRaisesOwn(repo, order[0], d);
      } else {
        assert !FileShows(repo, order[0], s) && !FileRaises(repo, order[0], d);
      }
    }
  }

  /**
   * A surface is listed exactly when some reference of a file that is star-reachable from the index shows it, and
   * a diagnostic is raised exactly when such a reference raises it.
   */
  lemma ContentsExactly(repo: Repo, index: File, s: Surface, d: Diag)
    requires Readable(repo) && index in repo.refs
    ensures var r := CollectFile(repo, index, {});
            && (s in r.surfaces <==> exists f :: Reaches(StarSucc(repo), index, f) && FileShows(repo, f, s))
            && (d in r.diags <==> exists f :: Reaches(StarSucc(repo), index, f) && FileRaises(repo, f, d))
  {
    CollectionIsExact(repo, index);
    var r := CollectFile(repo, index, {});
    OrderContents(repo, r.order, s, d);
    assert s in r.surfaces <==> s in Count(r).surfaces;
    assert d in r.diags <==> d in Count(r).diags;
  }
}
