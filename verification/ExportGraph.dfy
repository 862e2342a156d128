/**
 * The two depth-first searches of the public-surface check over cyclic re-export graphs.
 */
module ExportGraph {
  import opened Options
  import opened Reachability
  import opened Sequences

  type File = string

  datatype Kind = Star | Namespace | TypeRef | ValueRef

  datatype Ref = Ref(kind: Kind, line: nat, symbol: Option<string>, local: Option<string>, specifier: Option<string>)

  datatype Origin = Origin(file: File, line: nat, isType: bool)

  datatype Why = AliasUnresolved | StarUnresolved | SymbolUnresolved
  datatype Diag = Diag(file: File, line: nat, why: Why)

  /** The parsed export references of every readable file, and `resolveModule`. */
  datatype Repo = Repo(refs: map<File, seq<Ref>>, modules: map<(File, string), File>)

  /** A resolved module is a file that exists. */
  ghost predicate Readable(repo: Repo) {
    forall k | k in repo.modules :: repo.modules[k] in repo.refs
  }

  function ResolveModule(repo: Repo, from: File, specifier: string): Option<File> {
    if (from, specifier) in repo.modules then Some(repo.modules[(from, specifier)]) else None
  }

  /** A symbol as exported by a file. */
  type Node = (File, string)

  datatype Named =
    | Declared(origin: Origin)
    | Alias(ref: Ref, target: Option<Node>)
    | NotNamed

  /** The first loop: the first reference that declares or re-exports the symbol decides, and is committed to. */
  function FindNamed(repo: Repo, file: File, refs: seq<Ref>, local: string): Named
    decreases |refs|
  {
    if refs == [] then NotNamed
    else
      var ref := refs[0];
      if ref.symbol == Some(local) && ref.specifier.None? then
        Declared(Origin(file, ref.line, ref.kind.TypeRef?))
      else if ref.symbol == Some(local) && ref.local.Some? then
        var target := ResolveModule(repo, file, ref.specifier.value);
        Alias(ref, if target.Some? then Some((target.value, ref.local.value)) else None)
      else FindNamed(repo, file, refs[1..], local)
  }

  function Classify(repo: Repo, n: Node): Named
    requires n.0 in repo.refs
  {
    FindNamed(repo, n.0, repo.refs[n.0], n.1)
  }

  predicate IsStar(ref: Ref) {
    ref.kind.Star? && ref.specifier.Some?
  }

  function StarTarget(repo: Repo, file: File, ref: Ref): Option<File> {
    if IsStar(ref) then ResolveModule(repo, file, ref.specifier.value) else None
  }

  function StarTargets(repo: Repo, file: File): set<File> {
    if file in repo.refs
    then set i | 0 <= i < |repo.refs[file]| && StarTarget(repo, file, repo.refs[file][i]).Some? ::
           StarTarget(repo, file, repo.refs[file][i]).value
    else {}
  }

  /** Where the search may go from a symbol: nowhere from a declaration, one way from an alias, every star otherwise. */
  function Succ(repo: Repo): Node -> set<Node> {
    (n: Node) =>
      if n.0 !in repo.refs then {}
      else match Classify(repo, n)
        case Declared(_) => {}
        case Alias(_, target) => if target.Some? then {target.value} else {}
        case NotNamed => set f | f in StarTargets(repo, n.0) :: (f, n.1)
  }

  /** The nodes a search for `local` can meet. */
  function Nodes(repo: Repo, local: string): set<Node> {
    set f, l | f in repo.refs.Keys && l in Locals(repo) + {local} :: (f, l)
  }

  function Locals(repo: Repo): set<string> {
    set f, i | f in repo.refs.Keys && 0 <= i < |repo.refs[f]| && repo.refs[f][i].local.Some? ::
      repo.refs[f][i].local.value
  }

  /** A finite set of nodes the search cannot leave. */
  ghost predicate Universe(repo: Repo, all: set<Node>) {
    Readable(repo) && (forall n | n in all :: n.0 in repo.refs) && Closed(Succ(repo), all)
  }

  lemma {:induction false} AliasLocal(repo: Repo, file: File, refs: seq<Ref>, local: string) returns (i: nat)
    requires FindNamed(repo, file, refs, local).Alias? && FindNamed(repo, file, refs, local).target.Some?
    ensures i < |refs| && refs[i].local == Some(FindNamed(repo, file, refs, local).target.value.1)
    ensures FindNamed(repo, file, refs, local).target.value.0 in repo.modules.Values
    decreases |refs|
  {
    var ref := refs[0];
    if ref.symbol == Some(local) && ref.specifier.Some? && ref.local.Some? {
      i := 0;
    } else {
      var k := AliasLocal(repo, file, refs[1..], local);
      i := k + 1;
    }
  }

  lemma NodesAreUniverse(repo: Repo, local: string)
    requires Readable(repo)
    ensures Universe(repo, Nodes(repo, local))
  {
    var all := Nodes(repo, local);
    forall n | n in all ensures Succ(repo)(n) <= all {
      match Classify(repo, n)
      case Alias(_, target) =>
        if target.Some? {
          var i := AliasLocal(repo, n.0, repo.refs[n.0], n.1);
          assert repo.refs[n.0][i].local.value in Locals(repo);
        }
      case _ =>
    }
  }

  // ---------- resolveSymbolOrigin ----------

  /** What a search returns; `diags` are the diagnostics it adds. */
  datatype Search = Search(origin: Option<Origin>, visited: set<Node>, diags: seq<Diag>)

  function ResolveOrigin(repo: Repo, all: set<Node>, n: Node, visited: set<Node>): (r: Search)
    requires Universe(repo, all) && n in all && visited <= all
    ensures visited <= r.visited <= all
    decreases |all - visited|, 0
  {
    if n in visited then Search(None, visited, [])
    else
      SubsetSmaller(all - (visited + {n}), all - visited);
      match Classify(repo, n)
      case Declared(origin) => Search(Some(origin), visited + {n}, [])
      case Alias(ref, None) => Search(None, visited + {n}, [Diag(n.0, ref.line, AliasUnresolved)])
      case Alias(_, Some(m)) =>
        assert m in Succ(repo)(n);
        ResolveOrigin(repo, all, m, visited + {n})
      case NotNamed => ResolveStars(repo, all, n, 0, visited + {n})
  }

  /** The second loop, from the i-th reference on. */
  function ResolveStars(repo: Repo, all: set<Node>, n: Node, i: nat, visited: set<Node>): (r: Search)
    requires Universe(repo, all) && n in all && visited <= all && Classify(repo, n).NotNamed?
    requires i <= |repo.refs[n.0]|
    ensures visited <= r.visited <= all
    decreases |all - visited|, 1 + |repo.refs[n.0]| - i
  {
    if i == |repo.refs[n.0]| then Search(None, visited, [])
    else
      var ref := repo.refs[n.0][i];
      if !IsStar(ref) then ResolveStars(repo, all, n, i + 1, visited)
      else match StarTarget(repo, n.0, ref)
        case None =>
          var rest := ResolveStars(repo, all, n, i + 1, visited);
          rest.(diags := [Diag(n.0, ref.line, StarUnresolved)] + rest.diags)
        case Some(file) =>
          assert file in StarTargets(repo, n.0) && (file, n.1) in Succ(repo)(n);
          var first := ResolveOrigin(repo, all, (file, n.1), visited);
          if first.origin.Some? then first
          else
            SubsetNotLarger(all - first.visited, all - visited);
            var rest := ResolveStars(repo, all, n, i + 1, first.visited);
            rest.(diags := first.diags + rest.diags)
  }

  lemma {:induction false} SubsetSmaller<T>(a: set<T>, b: set<T>)
    requires a < b
    ensures |a| < |b|
  {
    var x :| x in b && x !in a;
    assert a <= b - {x};
    SubsetNotLarger(a, b - {x});
  }

  lemma {:induction false} SubsetNotLarger<T>(a: set<T>, b: set<T>)
    requires a <= b
    ensures |a| <= |b|
    decreases a
  {
    if a != {} {
      var x :| x in a;
      SubsetNotLarger(a - {x}, b - {x});
    }
  }

  /** Some chain of aliases and stars from n ends at this declaration. */
  ghost predicate Declares(repo: Repo, n: Node, o: Origin) {
    exists m: Node :: m.0 in repo.refs && Reaches(Succ(repo), n, m) && Classify(repo, m) == Declared(o)
  }

  /** A finished node: visited, no declaration, and everything it leads to visited too. */
  ghost predicate Exhausted(repo: Repo, x: Node, visited: set<Node>) {
    x.0 in repo.refs && !Classify(repo, x).Declared? && Succ(repo)(x) <= visited
  }

  /** Every node visited since `before` is finished. */
  ghost predicate NewExhausted(repo: Repo, before: set<Node>, after: set<Node>) {
    forall x | x in after - before :: Exhausted(repo, x, after)
  }

  /** The stars of n from the i-th reference on lead to visited nodes. */
  ghost predicate StarsCovered(repo: Repo, n: Node, i: nat, visited: set<Node>)
    requires n.0 in repo.refs
  {
    forall j | i <= j < |repo.refs[n.0]| && StarTarget(repo, n.0, repo.refs[n.0][j]).Some? ::
      (StarTarget(repo, n.0, repo.refs[n.0][j]).value, n.1) in visited
  }

  lemma NewExhaustedThen(repo: Repo, before: set<Node>, mid: set<Node>, after: set<Node>)
    requires before <= mid <= after && NewExhausted(repo, before, mid) && NewExhausted(repo, mid, after)
    ensures NewExhausted(repo, before, after)
  {
    forall x | x in after - before ensures Exhausted(repo, x, after) {
      if x in mid {
        assert x in mid - before;
      } else {
        assert x in after - mid;
      }
    }
  }

  lemma StarsCoverSucc(repo: Repo, n: Node, visited: set<Node>)
    requires n.0 in repo.refs && Classify(repo, n).NotNamed? && StarsCovered(repo, n, 0, visited)
    ensures Succ(repo)(n) <= visited
  {
  }

  lemma DeclaresFrom(repo: Repo, n: Node, m: Node, o: Origin)
    requires m in Succ(repo)(n) && Declares(repo, m, o)
    ensures Declares(repo, n, o)
  {
    var d: Node :| d.0 in repo.refs && Reaches(Succ(repo), m, d) && Classify(repo, d) == Declared(o);
    ReachesFrom(Succ(repo), n, m, d);
  }

  /**
   * The search from any visited set: an origin it returns is reachable, and when it returns none it has
   * exhausted every node it newly visited. Nodes visited before are the caller's affair, which is why a
   * shared visited set hides nothing.
   */
  lemma {:induction false} ResolveExplores(repo: Repo, all: set<Node>, n: Node, visited: set<Node>)
    requires Universe(repo, all) && n in all && visited <= all
    ensures var r := ResolveOrigin(repo, all, n, visited);
            (r.origin.Some? ==> Declares(repo, n, r.origin.value))
            && (r.origin.None? ==> n in r.visited && NewExhausted(repo, visited, r.visited))
    decreases |all - visited|, 0
  {
    if n !in visited {
      SubsetSmaller(all - (visited + {n}), all - visited);
      match Classify(repo, n)
      case Declared(origin) => ReachesItself(Succ(repo), n);
      case Alias(ref, target) =>
        if target.Some? {
          var m := target.value;
          assert m in Succ(repo)(n);
          ResolveExplores(repo, all, m, visited + {n});
          var r := ResolveOrigin(repo, all, m, visited + {n});
          if r.origin.Some? {
            DeclaresFrom(repo, n, m, r.origin.value);
          } else {
            NodeExhausted(repo, n, visited, r.visited);
          }
        }
      case NotNamed =>
        StarsExplore(repo, all, n, 0, visited + {n});
        var r := ResolveStars(repo, all, n, 0, visited + {n});
        if r.origin.None? {
          StarsCoverSucc(repo, n, r.visited);
          NodeExhausted(repo, n, visited, r.visited);
        }
    }
  }

  lemma NodeExhausted(repo: Repo, n: Node, before: set<Node>, after: set<Node>)
    requires n.0 in repo.refs && !Classify(repo, n).Declared? && Succ(repo)(n) <= after
    requires NewExhausted(repo, before + {n}, after)
    ensures NewExhausted(repo, before, after)
  {
    forall x | x in after - before ensures Exhausted(repo, x, after) {
      if x != n { assert x in after - (before + {n}); }
    }
  }

  lemma {:induction false} StarsExplore(repo: Repo, all: set<Node>, n: Node, i: nat, visited: set<Node>)
    requires Universe(repo, all) && n in all && visited <= all && Classify(repo, n).NotNamed?
    requires i <= |repo.refs[n.0]|
    ensures var r := ResolveStars(repo, all, n, i, visited);
            (r.origin.Some? ==> Declares(repo, n, r.origin.value))
            && (r.origin.None? ==> NewExhausted(repo, visited, r.visited) && StarsCovered(repo, n, i, r.visited))
    decreases |all - visited|, 1 + |repo.refs[n.0]| - i
  {
    if i < |repo.refs[n.0]| {
      var ref := repo.refs[n.0][i];
      match StarTarget(repo, n.0, ref)
      case None =>
        StarsExplore(repo, all, n, i + 1, visited);
      case Some(file) =>
        var m := (file, n.1);
        assert file in StarTargets(repo, n.0) && m in Succ(repo)(n);
        ResolveExplores(repo, all, m, visited);
        var first := ResolveOrigin(repo, all, m, visited);
        if first.origin.Some? {
          DeclaresFrom(repo, n, m, first.origin.value);
        } else {
          SubsetNotLarger(all - first.visited, all - visited);
          StarsExplore(repo, all, n, i + 1, first.visited);
          var r := ResolveStars(repo, all, n, i + 1, first.visited);
          if r.origin.None? {
            NewExhaustedThen(repo, visited, first.visited, r.visited);
          }
        }
    }
  }

  /** With a fresh visited set the search is complete: it finds an origin exactly when a declaration is reachable. */
  lemma ResolveFindsExactly(repo: Repo, all: set<Node>, n: Node)
    requires Universe(repo, all) && n in all
    ensures var r := ResolveOrigin(repo, all, n, {});
            (r.origin.Some? ==> Declares(repo, n, r.origin.value))
            && (r.origin.None? ==> forall o :: !Declares(repo, n, o))
  {
    ResolveExplores(repo, all, n, {});
    var r := ResolveOrigin(repo, all, n, {});
    if r.origin.None? {
      assert r.visited - {} == r.visited;
      NothingDeclared(repo, r.visited, n);
    }
  }

  lemma NothingDeclared(repo: Repo, s: set<Node>, n: Node)
    requires n in s && forall x | x in s :: Exhausted(repo, x, s)
    ensures forall o :: !Declares(repo, n, o)
  {
    assert Closed(Succ(repo), s);
    forall o | Declares(repo, n, o) ensures false {
      var d: Node :| d.0 in repo.refs && Reaches(Succ(repo), n, d) && Classify(repo, d) == Declared(o);
      ClosedContains(Succ(repo), s, n, d);
    }
  }

  // ---------- the searches as the source runs them ----------

  class Checker {
    var diagnostics: seq<Diag>

    constructor ()
      ensures diagnostics == []
    {
      diagnostics := [];
    }

    /** The first loop of `resolveSymbolOrigin`. */
    method ScanNames(repo: Repo, file: File, refs: seq<Ref>, local: string) returns (found: Named)
      ensures found == FindNamed(repo, file, refs, local)
    {
      var i := 0;
      assert refs[0..] == refs;
      while i < |refs|
        invariant 0 <= i <= |refs|
        invariant FindNamed(repo, file, refs, local) == FindNamed(repo, file, refs[i..], local)
      {
        var ref := refs[i];
        assert refs[i..][1..] == refs[i + 1..];
        if ref.symbol == Some(local) {
          if ref.specifier.None? {
            return Declared(Origin(file, ref.line, ref.kind.TypeRef?));
          }
          if ref.local.Some? {
            var target := ResolveModule(repo, file, ref.specifier.value);
            return Alias(ref, if target.Some? then Some((target.value, ref.local.value)) else None);
          }
        }
        i := i + 1;
      }
      assert refs[i..] == [];
      found := NotNamed;
    }

    method ResolveSymbolOrigin(repo: Repo, ghost all: set<Node>, n: Node, visited: set<Node>)
      returns (origin: Option<Origin>, seen: set<Node>)
      requires Universe(repo, all) && n in all && visited <= all
      modifies this
      ensures var r := ResolveOrigin(repo, all, n, visited);
              origin == r.origin && seen == r.visited && diagnostics == old(diagnostics) + r.diags
      decreases |all - visited|, 0
    {
      assert diagnostics + [] == diagnostics;
      if n in visited {
        return None, visited;
      }
      seen := visited + {n};
      SubsetSmaller(all - seen, all - visited);
      var found := ScanNames(repo, n.0, repo.refs[n.0], n.1);
      match found
      case Declared(o) => origin := Some(o);
      case Alias(ref, None) =>
        diagnostics := diagnostics + [Diag(n.0, ref.line, AliasUnresolved)];
        origin := None;
      case Alias(_, Some(m)) =>
        assert m in Succ(repo)(n);
        origin, seen := ResolveSymbolOrigin(repo, all, m, seen);
      case NotNamed =>
        origin, seen := FollowStars(repo, all, n, seen);
    }

    /** One reference of the second loop. */
    method FollowStar(repo: Repo, ghost all: set<Node>, n: Node, ref: Ref, visited: set<Node>)
      returns (origin: Option<Origin>, seen: set<Node>)
      requires Universe(repo, all) && visited <= all
      requires StarTarget(repo, n.0, ref).Some? ==> (StarTarget(repo, n.0, ref).value, n.1) in all
      modifies this
      ensures Followed(repo, all, n, ref, visited, Search(origin, seen, []), old(diagnostics), diagnostics)
      decreases |all - visited|, 1
    {
      origin, seen := None, visited;
      assert diagnostics + [] == diagnostics;
      if IsStar(ref) {
        var target := ResolveModule(repo, n.0, ref.specifier.value);
        if target.None? {
          diagnostics := diagnostics + [Diag(n.0, ref.line, StarUnresolved)];
        } else {
          origin, seen := ResolveSymbolOrigin(repo, all, (target.value, n.1), visited);
        }
      }
    }

    /** The second loop: the stars in order, all sharing one visited set. */
    method FollowStars(repo: Repo, ghost all: set<Node>, n: Node, visited: set<Node>)
      returns (origin: Option<Origin>, seen: set<Node>)
      requires Universe(repo, all) && n in all && visited <= all && Classify(repo, n).NotNamed?
      modifies this
      ensures var r := ResolveStars(repo, all, n, 0, visited);
              origin == r.origin && seen == r.visited && diagnostics == old(diagnostics) + r.diags
      decreases |all - visited|, 2
    {
      var refs := repo.refs[n.0];
      seen := visited;
      var i := 0;
      ghost var total := ResolveStars(repo, all, n, 0, visited);
      assert diagnostics + total.diags == old(diagnostics) + total.diags;
      while i < |refs|
        invariant 0 <= i <= |refs| && visited <= seen <= all
        invariant Continues(total, ResolveStars(repo, all, n, i, seen), old(diagnostics), diagnostics)
      {
        ghost var before, now := seen, diagnostics;
        NextStar(repo, all, n, i, visited, seen);
        origin, seen := FollowStar(repo, all, n, refs[i], seen);
        SearchStep(repo, all, n, i, before, total, old(diagnostics), now, Search(origin, seen, []), diagnostics);
        if origin.Some? {
          return;
        }
        i := i + 1;
      }
      origin := None;
      assert diagnostics + [] == diagnostics;
    }
  }

  /** What is left of a search agrees with the whole of it. */
  ghost predicate Continues(total: Search, rest: Search, start: seq<Diag>, now: seq<Diag>) {
    total.origin == rest.origin && total.visited == rest.visited && start + total.diags == now + rest.diags
  }

  lemma StarLeads(repo: Repo, n: Node, i: nat)
    requires n.0 in repo.refs && i < |repo.refs[n.0]| && StarTarget(repo, n.0, repo.refs[n.0][i]).Some?
    requires Classify(repo, n).NotNamed?
    ensures (StarTarget(repo, n.0, repo.refs[n.0][i]).value, n.1) in Succ(repo)(n)
  {
    assert StarTarget(repo, n.0, repo.refs[n.0][i]).value in StarTargets(repo, n.0);
  }

  lemma NextStar(repo: Repo, all: set<Node>, n: Node, i: nat, visited: set<Node>, seen: set<Node>)
    requires Universe(repo, all) && n in all && Classify(repo, n).NotNamed? && i < |repo.refs[n.0]|
    requires visited <= seen
    ensures StarTarget(repo, n.0, repo.refs[n.0][i]).Some? ==>
              (StarTarget(repo, n.0, repo.refs[n.0][i]).value, n.1) in all
    ensures |all - seen| <= |all - visited|
  {
    if StarTarget(repo, n.0, repo.refs[n.0][i]).Some? { StarLeads(repo, n, i); }
    SubsetNotLarger(all - seen, all - visited);
  }

  /** What following one reference finds, visits and adds to the diagnostics. */
  ghost predicate Followed(repo: Repo, all: set<Node>, n: Node, ref: Ref, visited: set<Node>, found: Search,
                           before: seq<Diag>, after: seq<Diag>)
    requires Universe(repo, all) && visited <= all
    requires StarTarget(repo, n.0, ref).Some? ==> (StarTarget(repo, n.0, ref).value, n.1) in all
  {
    match StarTarget(repo, n.0, ref)
    case None =>
      found.origin == None && found.visited == visited
      && after == before + if IsStar(ref) then [Diag(n.0, ref.line, StarUnresolved)] else []
    case Some(file) =>
      var r := ResolveOrigin(repo, all, (file, n.1), visited);
      found.origin == r.origin && found.visited == r.visited && after == before + r.diags
  }

  /** What one reference of the second loop does to what is left of the search. */
  lemma SearchStep(repo: Repo, all: set<Node>, n: Node, i: nat, seen: set<Node>, total: Search, start: seq<Diag>,
                   now: seq<Diag>, found: Search, after: seq<Diag>)
    requires Universe(repo, all) && n in all && seen <= all && Classify(repo, n).NotNamed? && i < |repo.refs[n.0]|
    requires StarTarget(repo, n.0, repo.refs[n.0][i]).Some? ==>
               (StarTarget(repo, n.0, repo.refs[n.0][i]).value, n.1) in all
    requires Continues(total, ResolveStars(repo, all, n, i, seen), start, now)
    requires Followed(repo, all, n, repo.refs[n.0][i], seen, found, now, after) && found.diags == []
    ensures seen <= found.visited <= all
    ensures if found.origin.Some? then Continues(total, found, start, after)
            else Continues(total, ResolveStars(repo, all, n, i + 1, found.visited), start, after)
  {
    var ref := repo.refs[n.0][i];
    match StarTarget(repo, n.0, ref)
    case None =>
      assert now + [] == now;
      if IsStar(ref) {
        Regroup(now, [Diag(n.0, ref.line, StarUnresolved)], ResolveStars(repo, all, n, i + 1, seen).diags);
      }
    case Some(file) =>
      var first := ResolveOrigin(repo, all, (file, n.1), seen);
      if first.origin.None? {
        Regroup(now, first.diags, ResolveStars(repo, all, n, i + 1, first.visited).diags);
      } else {
        assert after + [] == after;
      }
  }
}
