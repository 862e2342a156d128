/**
 * Which end a symbol search meets first. The search raises a diagnostic for each reference it cannot
 * resolve and goes on, so a symbol may be found and the check still fail; the routes below say when.
 */
module SearchRoutes {
  import opened Options
  import opened ExportGraph

  datatype End = Declaration | Unresolved | Nowhere

  /** A choice is the index of the star to follow, or 0 where an alias leaves no choice. */
  type Route = seq<nat>

  /** Where a route ends that may not enter a node behind it. */
  ghost function Follow(repo: Repo, n: Node, behind: set<Node>, route: Route): End
    decreases |route|, 1
  {
    if n in behind || n.0 !in repo.refs then Nowhere
    else match Classify(repo, n)
      case Declared(_) => if route == [] then Declaration else Nowhere
      case Alias(_, None) => if route == [] then Unresolved else Nowhere
      case Alias(_, Some(m)) =>
        if route != [] && route[0] == 0 then Follow(repo, m, behind + {n}, route[1..]) else Nowhere
      case NotNamed => if route == [] then Nowhere else Choose(repo, n, behind + {n}, route)
  }

  /** The route from a node that only has stars, with the node itself behind. */
  ghost function Choose(repo: Repo, n: Node, behind: set<Node>, route: Route): End
    requires n.0 in repo.refs && route != []
    decreases |route|, 0
  {
    if route[0] >= |repo.refs[n.0]| || !IsStar(repo.refs[n.0][route[0]]) then Nowhere
    else match StarTarget(repo, n.0, repo.refs[n.0][route[0]])
      case None => if |route| == 1 then Unresolved else Nowhere
      case Some(file) => Follow(repo, (file, n.1), behind, route[1..])
  }

  /** Lexicographic order: the order in which the search tries routes. */
  predicate Before(p: Route, q: Route) {
    if p == [] || q == [] then q != []
    else p[0] < q[0] || (p[0] == q[0] && Before(p[1..], q[1..]))
  }

  lemma {:induction false} NotBoth(p: Route, q: Route)
    requires Before(p, q)
    ensures !Before(q, p)
  {
    if p != [] && p[0] == q[0] { NotBoth(p[1..], q[1..]); }
  }

  ghost predicate EndsFirst(repo: Repo, n: Node, behind: set<Node>, end: End, first: Route) {
    Follow(repo, n, behind, first) == end
    && forall p | Follow(repo, n, behind, p) != Nowhere && Follow(repo, n, behind, p) != end :: Before(first, p)
  }

  /** The first route that ends anywhere ends so. */
  ghost predicate FirstEnd(repo: Repo, n: Node, behind: set<Node>, end: End) {
    exists first :: EndsFirst(repo, n, behind, end, first)
  }

  ghost predicate NoEnd(repo: Repo, n: Node, behind: set<Node>) {
    forall p :: Follow(repo, n, behind, p) == Nowhere
  }

  /** The same for the routes from the i-th reference on. */
  ghost predicate ChoosesFirst(repo: Repo, n: Node, i: nat, behind: set<Node>, end: End, first: Route)
    requires n.0 in repo.refs
  {
    first != [] && first[0] >= i && Choose(repo, n, behind, first) == end
    && forall p: Route | p != [] && p[0] >= i && Choose(repo, n, behind, p) != Nowhere
                         && Choose(repo, n, behind, p) != end :: Before(first, p)
  }

  ghost predicate FirstChoice(repo: Repo, n: Node, i: nat, behind: set<Node>, end: End)
    requires n.0 in repo.refs
  {
    exists first :: ChoosesFirst(repo, n, i, behind, end, first)
  }

  ghost predicate NoChoice(repo: Repo, n: Node, i: nat, behind: set<Node>)
    requires n.0 in repo.refs
  {
    forall p: Route | p != [] && p[0] >= i :: Choose(repo, n, behind, p) == Nowhere
  }

  /** A node that ends no route itself, and from which all routes stay inside `done` or end behind. */
  ghost predicate Settles(repo: Repo, x: Node, behind: set<Node>, done: set<Node>) {
    x.0 in repo.refs && Succ(repo)(x) <= done + behind
    && match Classify(repo, x)
       case Declared(_) => false
       case Alias(_, target) => target.Some?
       case NotNamed => StarsResolve(repo, x.0)
  }

  ghost predicate StarsResolve(repo: Repo, file: File)
    requires file in repo.refs
  {
    forall i | 0 <= i < |repo.refs[file]| && IsStar(repo.refs[file][i]) ::
      StarTarget(repo, file, repo.refs[file][i]).Some?
  }

  ghost predicate Settled(repo: Repo, behind: set<Node>, done: set<Node>) {
    forall x | x in done :: Settles(repo, x, behind, done)
  }

  lemma {:induction false} SettledEndsNowhere(repo: Repo, behind: set<Node>, done: set<Node>, further: set<Node>,
                                              x: Node, route: Route)
    requires Settled(repo, behind, done) && behind <= further && x in done + behind
    ensures Follow(repo, x, further, route) == Nowhere
    decreases |route|
  {
    if x !in further && route != [] {
      assert Settles(repo, x, behind, done);
      match Classify(repo, x)
      case Alias(_, target) =>
        assert target.value in Succ(repo)(x);
        SettledEndsNowhere(repo, behind, done, further + {x}, target.value, route[1..]);
      case NotNamed =>
        if route[0] < |repo.refs[x.0]| && IsStar(repo.refs[x.0][route[0]]) {
          var file := StarTarget(repo, x.0, repo.refs[x.0][route[0]]).value;
          assert file in StarTargets(repo, x.0) && (file, x.1) in Succ(repo)(x);
          SettledEndsNowhere(repo, behind, done, further + {x}, (file, x.1), route[1..]);
        }
    }
  }

  lemma VisitedEndsNowhere(repo: Repo, behind: set<Node>, visited: set<Node>, n: Node)
    requires behind <= visited && Settled(repo, behind, visited - behind) && n in visited
    ensures NoEnd(repo, n, behind)
  {
    forall p ensures Follow(repo, n, behind, p) == Nowhere {
      SettledEndsNowhere(repo, behind, visited - behind, behind, n, p);
    }
  }

  // one reference of the loop

  lemma SkipChoice(repo: Repo, n: Node, i: nat, behind: set<Node>)
    requires n.0 in repo.refs
    requires forall p: Route | p != [] && p[0] == i :: Choose(repo, n, behind, p) == Nowhere
    ensures NoChoice(repo, n, i + 1, behind) ==> NoChoice(repo, n, i, behind)
    ensures forall end :: FirstChoice(repo, n, i + 1, behind, end) ==> FirstChoice(repo, n, i, behind, end)
  {
    forall end | FirstChoice(repo, n, i + 1, behind, end) ensures FirstChoice(repo, n, i, behind, end) {
      var first :| ChoosesFirst(repo, n, i + 1, behind, end, first);
      assert ChoosesFirst(repo, n, i, behind, end, first);
    }
  }

  lemma UnresolvedChoice(repo: Repo, n: Node, i: nat, behind: set<Node>)
    requires n.0 in repo.refs && i < |repo.refs[n.0]| && IsStar(repo.refs[n.0][i])
    requires StarTarget(repo, n.0, repo.refs[n.0][i]).None?
    ensures FirstChoice(repo, n, i, behind, Unresolved)
  {
    assert ChoosesFirst(repo, n, i, behind, Unresolved, [i]);
  }

  lemma TakenChoice(repo: Repo, n: Node, i: nat, behind: set<Node>, file: File, end: End)
    requires n.0 in repo.refs && i < |repo.refs[n.0]| && IsStar(repo.refs[n.0][i])
    requires StarTarget(repo, n.0, repo.refs[n.0][i]) == Some(file)
    requires FirstEnd(repo, (file, n.1), behind, end)
    ensures FirstChoice(repo, n, i, behind, end)
  {
    var rest :| EndsFirst(repo, (file, n.1), behind, end, rest);
    var first: Route := [i] + rest;
    assert first[1..] == rest;
    assert ChoosesFirst(repo, n, i, behind, end, first);
  }

  lemma EmptyChoice(repo: Repo, n: Node, i: nat, behind: set<Node>, file: File)
    requires n.0 in repo.refs && i < |repo.refs[n.0]| && IsStar(repo.refs[n.0][i])
    requires StarTarget(repo, n.0, repo.refs[n.0][i]) == Some(file) && NoEnd(repo, (file, n.1), behind)
    ensures forall p: Route | p != [] && p[0] == i :: Choose(repo, n, behind, p) == Nowhere
  {
  }

  // entering a node

  lemma ChoicesAreEnds(repo: Repo, n: Node, behind: set<Node>)
    requires n.0 in repo.refs && n !in behind && Classify(repo, n).NotNamed?
    ensures NoChoice(repo, n, 0, behind + {n}) ==> NoEnd(repo, n, behind)
    ensures forall end | end != Nowhere ::
              FirstChoice(repo, n, 0, behind + {n}, end) ==> FirstEnd(repo, n, behind, end)
  {
    forall end | end != Nowhere && FirstChoice(repo, n, 0, behind + {n}, end) ensures FirstEnd(repo, n, behind, end) {
      var first :| ChoosesFirst(repo, n, 0, behind + {n}, end, first);
      assert EndsFirst(repo, n, behind, end, first);
    }
  }

  lemma AliasEnds(repo: Repo, n: Node, behind: set<Node>, m: Node)
    requires n.0 in repo.refs && n !in behind && Classify(repo, n).Alias? && Classify(repo, n).target == Some(m)
    ensures NoEnd(repo, m, behind + {n}) ==> NoEnd(repo, n, behind)
    ensures forall end | end != Nowhere :: FirstEnd(repo, m, behind + {n}, end) ==> FirstEnd(repo, n, behind, end)
  {
    forall end | end != Nowhere && FirstEnd(repo, m, behind + {n}, end) ensures FirstEnd(repo, n, behind, end) {
      var rest :| EndsFirst(repo, m, behind + {n}, end, rest);
      var first: Route := [0] + rest;
      assert first[1..] == rest;
      assert EndsFirst(repo, n, behind, end, first);
    }
  }

  lemma LeafEnds(repo: Repo, n: Node, behind: set<Node>)
    requires n.0 in repo.refs && n !in behind
    ensures Classify(repo, n).Declared? ==> FirstEnd(repo, n, behind, Declaration)
    ensures Classify(repo, n).Alias? && Classify(repo, n).target.None? ==> FirstEnd(repo, n, behind, Unresolved)
  {
    if Classify(repo, n).Declared? { assert EndsFirst(repo, n, behind, Declaration, []); }
    if Classify(repo, n).Alias? && Classify(repo, n).target.None? { assert EndsFirst(repo, n, behind, Unresolved, []); }
  }

  lemma SettleNode(repo: Repo, n: Node, behind: set<Node>, visited: set<Node>)
    requires n !in behind && behind + {n} <= visited && Settled(repo, behind + {n}, visited - (behind + {n}))
    requires n.0 in repo.refs && Succ(repo)(n) <= visited
    requires match Classify(repo, n)
             case Declared(_) => false
             case Alias(_, target) => target.Some?
             case NotNamed => StarsResolve(repo, n.0)
    ensures Settled(repo, behind, visited - behind)
  {
    forall x | x in visited - behind ensures Settles(repo, x, behind, visited - behind) {
      assert visited - behind + behind == visited;
      if x != n {
        assert Settles(repo, x, behind + {n}, visited - (behind + {n}));
        assert visited - (behind + {n}) + (behind + {n}) == visited;
      }
    }
  }

  /** What a finished search says of the routes from its node. */
  ghost predicate Tells(repo: Repo, n: Node, behind: set<Node>, r: Search) {
    if r.diags != [] then FirstEnd(repo, n, behind, Unresolved)
    else if r.origin.Some? then FirstEnd(repo, n, behind, Declaration)
    else n in r.visited && NoEnd(repo, n, behind) && behind <= r.visited && Settled(repo, behind, r.visited - behind)
  }

  ghost predicate StarsTell(repo: Repo, n: Node, i: nat, behind: set<Node>, r: Search)
    requires n.0 in repo.refs
  {
    if r.diags != [] then FirstChoice(repo, n, i, behind, Unresolved)
    else if r.origin.Some? then FirstChoice(repo, n, i, behind, Declaration)
    else
      NoChoice(repo, n, i, behind) && behind <= r.visited && Settled(repo, behind, r.visited - behind)
      && StarsCovered(repo, n, i, r.visited)
      && forall j | i <= j < |repo.refs[n.0]| && IsStar(repo.refs[n.0][j]) ::
           StarTarget(repo, n.0, repo.refs[n.0][j]).Some?
  }

  /** The search from a node, with the nodes it is inside of behind it and all others it visited settled. */
  lemma {:induction false} SearchTells(repo: Repo, all: set<Node>, n: Node, behind: set<Node>, visited: set<Node>)
    requires Universe(repo, all) && n in all && behind <= visited <= all
    requires Settled(repo, behind, visited - behind)
    ensures Tells(repo, n, behind, ResolveOrigin(repo, all, n, visited))
    decreases |all - visited|, 0
  {
    if n in visited {
      VisitedEndsNowhere(repo, behind, visited, n);
    } else {
      SubsetSmaller(all - (visited + {n}), all - visited);
      LeafEnds(repo, n, behind);
      assert visited + {n} - (behind + {n}) == visited - behind;
      SettledFurther(repo, behind, n, visited - behind);
      match Classify(repo, n)
      case Declared(_) =>
      case Alias(_, target) =>
        if target.Some? {
          assert target.value in Succ(repo)(n);
          SearchTells(repo, all, target.value, behind + {n}, visited + {n});
          AliasTells(repo, n, behind, target.value, ResolveOrigin(repo, all, target.value, visited + {n}));
        }
      case NotNamed =>
        StarsAreTold(repo, all, n, 0, behind + {n}, visited + {n});
        EnterTells(repo, n, behind, ResolveStars(repo, all, n, 0, visited + {n}));
    }
  }

  lemma SettledFurther(repo: Repo, behind: set<Node>, n: Node, done: set<Node>)
    requires Settled(repo, behind, done)
    ensures Settled(repo, behind + {n}, done)
  {
    forall x | x in done ensures Settles(repo, x, behind + {n}, done) {
      assert Settles(repo, x, behind, done);
    }
  }

  lemma AliasTells(repo: Repo, n: Node, behind: set<Node>, m: Node, r: Search)
    requires n.0 in repo.refs && n !in behind && Classify(repo, n).Alias? && Classify(repo, n).target == Some(m)
    requires Tells(repo, m, behind + {n}, r)
    ensures Tells(repo, n, behind, r)
  {
    AliasEnds(repo, n, behind, m);
    if r.diags == [] && r.origin.None? { SettleNode(repo, n, behind, r.visited); }
  }

  lemma EnterTells(repo: Repo, n: Node, behind: set<Node>, r: Search)
    requires n.0 in repo.refs && n !in behind && Classify(repo, n).NotNamed?
    requires StarsTell(repo, n, 0, behind + {n}, r)
    ensures Tells(repo, n, behind, r)
  {
    ChoicesAreEnds(repo, n, behind);
    if r.diags == [] && r.origin.None? {
      StarsCoverSucc(repo, n, r.visited);
      SettleNode(repo, n, behind, r.visited);
    }
  }

  lemma {:induction false} StarsAreTold(repo: Repo, all: set<Node>, n: Node, i: nat, behind: set<Node>,
                                        visited: set<Node>)
    requires Universe(repo, all) && n in all && Classify(repo, n).NotNamed? && i <= |repo.refs[n.0]|
    requires behind <= visited <= all && Settled(repo, behind, visited - behind)
    ensures StarsTell(repo, n, i, behind, ResolveStars(repo, all, n, i, visited))
    decreases |all - visited|, 1 + |repo.refs[n.0]| - i
  {
    if i < |repo.refs[n.0]| {
      var ref := repo.refs[n.0][i];
      if !IsStar(ref) {
        StarsAreTold(repo, all, n, i + 1, behind, visited);
        SkipChoice(repo, n, i, behind);
      } else {
        match StarTarget(repo, n.0, ref)
        case None =>
          UnresolvedChoice(repo, n, i, behind);
        case Some(file) =>
          var m := (file, n.1);
          assert file in StarTargets(repo, n.0) && m in Succ(repo)(n);
          SearchTells(repo, all, m, behind, visited);
          var first := ResolveOrigin(repo, all, m, visited);
          if first.diags != [] {
            TakenChoice(repo, n, i, behind, file, Unresolved);
          } else if first.origin.Some? {
            TakenChoice(repo, n, i, behind, file, Declaration);
          } else {
            SubsetNotLarger(all - first.visited, all - visited);
            StarsAreTold(repo, all, n, i + 1, behind, first.visited);
            EmptyChoice(repo, n, i, behind, file);
            SkipChoice(repo, n, i, behind);
          }
      }
    }
  }

  /**
   * A search finds an origin without a diagnostic exactly when, trying the stars in order and never
   * entering a node twice, the first route that ends anywhere ends in a declaration.
   */
  lemma CleanSearchExactly(repo: Repo, all: set<Node>, n: Node)
    requires Universe(repo, all) && n in all
    ensures var r := ResolveOrigin(repo, all, n, {});
            r.origin.Some? && r.diags == [] <==> FirstEnd(repo, n, {}, Declaration)
  {
    SearchTells(repo, all, n, {}, {});
    if FirstEnd(repo, n, {}, Declaration) && FirstEnd(repo, n, {}, Unresolved) {
      var p :| EndsFirst(repo, n, {}, Declaration, p);
      var q :| EndsFirst(repo, n, {}, Unresolved, q);
      NotBoth(p, q);
    }
  }
}
