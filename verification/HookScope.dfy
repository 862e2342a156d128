/**
 * The gate that decides whether a git hook runs code validation. It may skip only a push that deletes
 * refs and does nothing else, or a change set every path of which the ignore list covers.
 */
module HookScope {
  import opened Options

  /** What git answers for the commits of an update; nothing when the command fails. */
  type Git = (string, string) -> Option<seq<string>>

  // ---------- object names ----------

  predicate HexDigit(c: char) {
    '0' <= c <= '9' || 'a' <= c <= 'f'
  }

  predicate ValidOid(oid: string) {
    (|oid| == 40 || |oid| == 64) && forall i | 0 <= i < |oid| :: HexDigit(oid[i])
  }

  predicate ZeroOid(oid: string) {
    ValidOid(oid) && forall i | 0 <= i < |oid| :: oid[i] == '0'
  }

  // ---------- one update line, as its fields ----------

  type Update = seq<string>

  predicate HasOids(u: Update) {
    |u| == 4 && ValidOid(u[1]) && ValidOid(u[3]) && "refs/" <= u[2]
  }

  predicate Deletion(u: Update) {
    HasOids(u) && u[0] == "(delete)" && ZeroOid(u[1]) && !ZeroOid(u[3])
  }

  predicate Pushes(u: Update) {
    HasOids(u) && "refs/" <= u[0] && !ZeroOid(u[1])
  }

  predicate Malformed(u: Update) {
    !Deletion(u) && !Pushes(u)
  }

  // ---------- the scope of a push ----------

  datatype Scope = Scope(paths: set<string>, deletionOnly: bool, ambiguous: bool)

  const UNKNOWN := Scope({}, false, true)

  /** The loop over the updates from the `i`-th on. */
  function ScopeFrom(updates: seq<Update>, i: nat, paths: set<string>, sawPush: bool, git: Git): Scope
    requires i <= |updates|
    decreases |updates| - i
  {
    if i == |updates| then Scope(paths, i > 0 && !sawPush, i == 0)
    else
      var u := updates[i];
      if !HasOids(u) then UNKNOWN
      else if Deletion(u) then ScopeFrom(updates, i + 1, paths, sawPush, git)
      else if !("refs/" <= u[0]) || ZeroOid(u[1]) then UNKNOWN
      else
        match git(u[1], u[3])
        case None => UNKNOWN
        case Some(touched) => ScopeFrom(updates, i + 1, paths + SetOf(touched), true, git)
  }

  function SetOf(paths: seq<string>): set<string> {
    set p | p in paths
  }

  method PrePushScope(updates: seq<Update>, git: Git) returns (r: Scope)
    ensures r == ScopeFrom(updates, 0, {}, false, git)
  {
    if |updates| == 0 { return UNKNOWN; }
    var paths: set<string> := {};
    var sawUpdate, sawNonDeletion := false, false;
    for i := 0 to |updates|
      invariant sawUpdate <==> i > 0
      invariant ScopeFrom(updates, 0, {}, false, git) == ScopeFrom(updates, i, paths, sawNonDeletion, git)
    {
      var fields := updates[i];
      if |fields| != 4 { return UNKNOWN; }
      if !ValidOid(fields[1]) || !ValidOid(fields[3]) || !("refs/" <= fields[2]) { return UNKNOWN; }
      sawUpdate := true;
      if fields[0] == "(delete)" && ZeroOid(fields[1]) && !ZeroOid(fields[3]) { continue; }
      if !("refs/" <= fields[0]) || ZeroOid(fields[1]) { return UNKNOWN; }
      sawNonDeletion := true;
      var touched := git(fields[1], fields[3]);
      if touched.None? { return UNKNOWN; }
      paths := paths + SetOf(touched.value);
    }
    r := Scope(paths, sawUpdate && !sawNonDeletion, !sawUpdate);
  }

  // ---------- the ignore list ----------

  /** A rule of the list: its patterns, and whether it takes paths back in. */
  datatype Rule = Rule(negated: bool, globs: seq<string>)

  /** Whether a pattern matches a path, letter case aside. */
  type Glob = (string, string) -> bool

  predicate Matches(rule: Rule, path: string, glob: Glob) {
    exists i | 0 <= i < |rule.globs| :: glob(rule.globs[i], path)
  }

  /** Ignored exactly when the last rule that matches covers the path. */
  ghost predicate Ignored(rules: seq<Rule>, path: string, glob: Glob) {
    path != "" && exists i ::
      && 0 <= i < |rules| && Matches(rules[i], path, glob) && !rules[i].negated
      && forall j | i < j < |rules| :: !Matches(rules[j], path, glob)
  }

  method Ignores(rules: seq<Rule>, path: string, glob: Glob) returns (ignored: bool)
    ensures ignored <==> Ignored(rules, path, glob)
  {
    if path == "" { return false; }
    ignored := false;
    ghost var last := -1;
    for k := 0 to |rules|
      invariant -1 <= last < k
      invariant forall j | last < j < k :: !Matches(rules[j], path, glob)
      invariant last >= 0 ==> Matches(rules[last], path, glob)
      invariant ignored <==> last >= 0 && !rules[last].negated
    {
      if Matches(rules[k], path, glob) {
        ignored := !rules[k].negated;
        last := k;
      }
    }
  }

  /** A pattern of the rule at i matches the path. */
  ghost predicate Hit(rules: seq<Rule>, i: nat, path: string, glob: Glob) {
    i < |rules| && exists g :: g in rules[i].globs && glob(g, path)
  }

  /** Said by patterns: the last rule with one that matches does not take the path back in. */
  lemma LastHitDecides(rules: seq<Rule>, path: string, glob: Glob)
    ensures Ignored(rules, path, glob)
      <==> path != "" && exists i: nat ::
             Hit(rules, i, path, glob) && !rules[i].negated && forall j: nat | j > i :: !Hit(rules, j, path, glob)
  {
    forall i: nat | i < |rules| ensures Hit(rules, i, path, glob) <==> Matches(rules[i], path, glob) {
      if k :| 0 <= k < |rules[i].globs| && glob(rules[i].globs[k], path) {
        assert rules[i].globs[k] in rules[i].globs;
      }
    }
    if Ignored(rules, path, glob) {
      var i: nat :| i < |rules| && Matches(rules[i], path, glob) && !rules[i].negated
                    && forall j | i < j < |rules| :: !Matches(rules[j], path, glob);
      assert Hit(rules, i, path, glob);
    }
  }

  /** A rule added at the end decides every path it matches and no other. */
  lemma LastRuleDecides(rules: seq<Rule>, rule: Rule, path: string, glob: Glob)
    ensures Ignored(rules + [rule], path, glob)
      <==> path != "" && if Matches(rule, path, glob) then !rule.negated else Ignored(rules, path, glob)
  {
    var all := rules + [rule];
    assert all[|rules|] == rule && forall i | 0 <= i < |rules| :: all[i] == rules[i];
    if Ignored(rules, path, glob) && !Matches(rule, path, glob) {
      var i :| 0 <= i < |rules| && Matches(rules[i], path, glob) && !rules[i].negated
               && forall j | i < j < |rules| :: !Matches(rules[j], path, glob);
      assert Matches(all[i], path, glob);
    }
    if path != "" && Matches(rule, path, glob) && !rule.negated {
      assert Matches(all[|rules|], path, glob);
    }
  }

  // ---------- the decision ----------

  datatype Hook = PreCommit(staged: Option<seq<string>>) | PrePush(updates: seq<Update>)

  datatype Kind = Code | Documentation | DeletionOnly | NoChange | Ambiguous

  function ChangeScope(hook: Hook, git: Git): Scope {
    match hook
    case PreCommit(staged) => if staged.None? then UNKNOWN else Scope(SetOf(staged.value), false, false)
    case PrePush(updates) => ScopeFrom(updates, 0, {}, false, git)
  }

  ghost predicate AllIgnored(paths: set<string>, rules: seq<Rule>, glob: Glob) {
    forall p | p in paths :: Ignored(rules, p, glob)
  }

  ghost function ClassifyChange(scope: Scope, rules: seq<Rule>, glob: Glob): Kind {
    if scope.ambiguous then Ambiguous
    else if scope.deletionOnly then DeletionOnly
    else if scope.paths == {} then NoChange
    else if AllIgnored(scope.paths, rules, glob) then Documentation else Code
  }

  ghost function KindOf(hook: Hook, rules: seq<Rule>, git: Git, glob: Glob): Kind {
    ClassifyChange(ChangeScope(hook, git), rules, glob)
  }

  ghost predicate Skips(hook: Hook, rules: seq<Rule>, git: Git, glob: Glob) {
    KindOf(hook, rules, git, glob) in {DeletionOnly, Documentation}
  }

  method RunIfCodeChanged(hook: Hook, rules: seq<Rule>, git: Git, glob: Glob) returns (kind: Kind, skipped: bool)
    ensures kind == KindOf(hook, rules, git, glob)
    ensures skipped <==> Skips(hook, rules, git, glob)
  {
    var scope;
    match hook {
      case PreCommit(staged) => scope := if staged.None? then UNKNOWN else Scope(SetOf(staged.value), false, false);
      case PrePush(updates) => scope := PrePushScope(updates, git);
    }
    kind := Classify(scope, rules, glob);
    skipped := kind == DeletionOnly || kind == Documentation;
  }

  method Classify(scope: Scope, rules: seq<Rule>, glob: Glob) returns (kind: Kind)
    ensures kind == ClassifyChange(scope, rules, glob)
  {
    if scope.ambiguous { return Ambiguous; }
    if scope.deletionOnly { return DeletionOnly; }
    if scope.paths == {} { return NoChange; }
    var todo := scope.paths;
    while todo != {}
      invariant todo <= scope.paths && forall p | p in scope.paths - todo :: Ignored(rules, p, glob)
      decreases todo
    {
      var path :| path in todo;
      var ignored := Ignores(rules, path, glob);
      if !ignored { return Code; }
      todo := todo - {path};
    }
    kind := Documentation;
  }

  // ---------- when it skips ----------

  predicate Answered(u: Update, git: Git) {
    Deletion(u) || (Pushes(u) && git(u[1], u[3]).Some?)
  }

  ghost predicate Touches(updates: seq<Update>, path: string, git: Git) {
    exists i | 0 <= i < |updates| ::
      Pushes(updates[i]) && git(updates[i][1], updates[i][3]).Some? && path in git(updates[i][1], updates[i][3]).value
  }

  ghost predicate TouchesFrom(updates: seq<Update>, from: nat, path: string, git: Git) {
    exists i | from <= i < |updates| ::
      Pushes(updates[i]) && git(updates[i][1], updates[i][3]).Some? && path in git(updates[i][1], updates[i][3]).value
  }

  /** The loop, said without its order: what makes it give up, and what it collects otherwise. */
  lemma {:induction false} ScopeFromMeans(updates: seq<Update>, i: nat, paths: set<string>, sawPush: bool, git: Git)
    requires i <= |updates|
    ensures var r := ScopeFrom(updates, i, paths, sawPush, git);
            && (r.ambiguous <==> updates == [] || exists j | i <= j < |updates| :: !Answered(updates[j], git))
            && (r.deletionOnly <==> !r.ambiguous && !sawPush && forall j | i <= j < |updates| :: Deletion(updates[j]))
            && (!r.ambiguous ==> forall p :: p in r.paths <==> p in paths || TouchesFrom(updates, i, p, git))
    decreases |updates| - i
  {
    if i < |updates| && Answered(updates[i], git) {
      var u := updates[i];
      assert !(Deletion(u) && Pushes(u));
      var touched := if Deletion(u) then {} else SetOf(git(u[1], u[3]).value);
      ScopeFromMeans(updates, i + 1, paths + touched, sawPush || Pushes(u), git);
      assert paths + {} == paths;
      forall p ensures p in touched || TouchesFrom(updates, i + 1, p, git) <==> TouchesFrom(updates, i, p, git) {
      }
    }
  }

  /** What an object name is: forty or sixty-four lower-case hexadecimal digits. */
  predicate IsOid(oid: string) {
    |oid| in {40, 64} && forall c | c in oid :: c in "0123456789abcdef"
  }

  predicate OnlyZeros(oid: string) {
    forall c | c in oid :: c == '0'
  }

  lemma OidMeans(oid: string)
    ensures ValidOid(oid) <==> IsOid(oid)
    ensures ZeroOid(oid) <==> IsOid(oid) && OnlyZeros(oid)
  {
    forall i | 0 <= i < |oid| ensures oid[i] in oid && (HexDigit(oid[i]) <==> oid[i] in "0123456789abcdef") {
      HexDigits(oid[i]);
    }
  }

  lemma HexDigits(c: char)
    ensures HexDigit(c) <==> c in "0123456789abcdef"
  {
    var digits := "0123456789abcdef";
    if '0' <= c <= '9' { assert digits[c as int - '0' as int] == c; }
    if 'a' <= c <= 'f' { assert digits[c as int - 'a' as int + 10] == c; }
  }

  /** The two forms of an update, from its fields: local ref, local object, remote ref, remote object. */
  lemma UpdateForms(u: Update)
    ensures Deletion(u) <==>
              && |u| == 4 && u[0] == "(delete)" && "refs/" <= u[2]
              && IsOid(u[1]) && OnlyZeros(u[1]) && IsOid(u[3]) && !OnlyZeros(u[3])
    ensures Pushes(u) <==>
              && |u| == 4 && "refs/" <= u[0] && "refs/" <= u[2]
              && IsOid(u[1]) && !OnlyZeros(u[1]) && IsOid(u[3])
  {
    if |u| == 4 {
      OidMeans(u[1]);
      OidMeans(u[3]);
    }
  }

  ghost predicate AllAnswered(updates: seq<Update>, git: Git) {
    updates != [] && forall i | 0 <= i < |updates| :: Answered(updates[i], git)
  }

  /**
   * How a push is classified: ambiguous when it is empty or some update is malformed or not answered by git;
   * else a deletion when all updates delete; else by the paths it touches. The order of the updates is not in it.
   */
  lemma PushKinds(updates: seq<Update>, rules: seq<Rule>, git: Git, glob: Glob)
    ensures var kind := KindOf(PrePush(updates), rules, git, glob);
            && (kind.Ambiguous? <==> !AllAnswered(updates, git))
            && (kind.DeletionOnly? <==> updates != [] && forall i | 0 <= i < |updates| :: Deletion(updates[i]))
            && (kind.NoChange? <==>
                && AllAnswered(updates, git) && (exists i | 0 <= i < |updates| :: Pushes(updates[i]))
                && forall p :: !Touches(updates, p, git))
            && (kind.Documentation? <==>
                && AllAnswered(updates, git) && (exists p :: Touches(updates, p, git))
                && forall p | Touches(updates, p, git) :: Ignored(rules, p, glob))
            && (kind.Code? <==>
                AllAnswered(updates, git) && exists p :: Touches(updates, p, git) && !Ignored(rules, p, glob))
  {
    ScopeFromMeans(updates, 0, {}, false, git);
    var scope := ScopeFrom(updates, 0, {}, false, git);
    forall p ensures TouchesFrom(updates, 0, p, git) <==> Touches(updates, p, git) {
    }
    forall i | 0 <= i < |updates| ensures !(Deletion(updates[i]) && Pushes(updates[i])) {
    }
    if p :| !scope.ambiguous && p in scope.paths {
      assert Touches(updates, p, git);
    }
  }

  /** How a pre-commit is classified: by what is staged alone, and never as a deletion. */
  lemma PreCommitKinds(staged: Option<seq<string>>, rules: seq<Rule>, git: Git, glob: Glob)
    ensures var kind := KindOf(PreCommit(staged), rules, git, glob);
            && (kind.Ambiguous? <==> staged.None?)
            && !kind.DeletionOnly?
            && (kind.NoChange? <==> staged == Some([]))
            && (kind.Documentation? <==>
                staged.Some? && staged.value != [] && forall p | p in staged.value :: Ignored(rules, p, glob))
            && (kind.Code? <==> staged.Some? && exists p :: p in staged.value && !Ignored(rules, p, glob))
  {
    if staged.Some? {
      var paths := SetOf(staged.value);
      assert staged.value != [] ==> staged.value[0] in paths;
      assert forall p :: p in paths <==> p in staged.value;
    }
  }

  /** A pre-commit skips exactly when git answered, something is staged and all of it is ignored. */
  lemma PreCommitSkipsExactly(staged: Option<seq<string>>, rules: seq<Rule>, git: Git, glob: Glob)
    ensures Skips(PreCommit(staged), rules, git, glob)
      <==> staged.Some? && staged.value != [] && forall p | p in staged.value :: Ignored(rules, p, glob)
  {
    PreCommitKinds(staged, rules, git, glob);
  }

  /** Without rules, which is what an unreadable list gives, only pushes that delete and nothing else skip. */
  lemma NoRulesSkipDeletionsOnly(hook: Hook, git: Git, glob: Glob)
    ensures Skips(hook, [], git, glob)
      <==> hook.PrePush? && hook.updates != [] && forall i | 0 <= i < |hook.updates| :: Deletion(hook.updates[i])
  {
    match hook
    case PreCommit(staged) =>
      PreCommitKinds(staged, [], git, glob);
      assert staged.Some? && staged.value != [] ==> staged.value[0] in staged.value;
    case PrePush(updates) => PushKinds(updates, [], git, glob);
  }

  /**
   * A push skips validation exactly when every update is well formed and answered by git, and either all
   * of them delete or they touch something and only ignored paths.
   */
  lemma PushSkipsExactly(updates: seq<Update>, rules: seq<Rule>, git: Git, glob: Glob)
    ensures Skips(PrePush(updates), rules, git, glob)
      <==> (&& updates != [] && (forall i | 0 <= i < |updates| :: Answered(updates[i], git))
            && (|| (forall i | 0 <= i < |updates| :: Deletion(updates[i]))
                || (&& (exists p :: Touches(updates, p, git))
                    && forall p | Touches(updates, p, git) :: Ignored(rules, p, glob))))
  {
    PushKinds(updates, rules, git, glob);
  }

  /** A malformed update forces validation, wherever it stands and whatever comes with it. */
  lemma MalformedNeverSkips(updates: seq<Update>, i: nat, rules: seq<Rule>, git: Git, glob: Glob)
    requires i < |updates| && Malformed(updates[i])
    ensures !Skips(PrePush(updates), rules, git, glob)
  {
    PushSkipsExactly(updates, rules, git, glob);
  }

  /** So does a commit that touches one path the last matching rule does not ignore. */
  lemma CodePathNeverSkips(updates: seq<Update>, path: string, rules: seq<Rule>, git: Git, glob: Glob)
    requires Touches(updates, path, git) && !Ignored(rules, path, glob)
    ensures !Skips(PrePush(updates), rules, git, glob)
  {
    PushSkipsExactly(updates, rules, git, glob);
    var i :| 0 <= i < |updates| && Pushes(updates[i]) && git(updates[i][1], updates[i][3]).Some?
             && path in git(updates[i][1], updates[i][3]).value;
    assert !Deletion(updates[i]);
  }

  lemma SameUpdates(a: seq<Update>, b: seq<Update>, i: nat) returns (j: nat)
    requires multiset(a) == multiset(b) && i < |a|
    ensures j < |b| && b[j] == a[i]
  {
    assert a[i] in multiset(b);
    j :| 0 <= j < |b| && b[j] == a[i];
  }

  lemma SameTouches(a: seq<Update>, b: seq<Update>, path: string, git: Git)
    requires multiset(a) == multiset(b) && Touches(a, path, git)
    ensures Touches(b, path, git)
  {
    var i :| 0 <= i < |a| && Pushes(a[i]) && git(a[i][1], a[i][3]).Some? && path in git(a[i][1], a[i][3]).value;
    var j := SameUpdates(a, b, i);
  }

  lemma SameUpdatesSkip(a: seq<Update>, b: seq<Update>, rules: seq<Rule>, git: Git, glob: Glob)
    requires multiset(a) == multiset(b) && Skips(PrePush(a), rules, git, glob)
    ensures Skips(PrePush(b), rules, git, glob)
  {
    PushSkipsExactly(a, rules, git, glob);
    PushSkipsExactly(b, rules, git, glob);
    assert |a| == |multiset(a)| && |b| == |multiset(b)|;
    forall j | 0 <= j < |b| ensures b[j] in a { var i := SameUpdates(b, a, j); }
    forall p | Touches(b, p, git) ensures Touches(a, p, git) { SameTouches(b, a, p, git); }
    if p :| Touches(a, p, git) { SameTouches(a, b, p, git); }
  }

  /** The order of the updates does not change the decision. */
  lemma OrderDoesNotMatter(a: seq<Update>, b: seq<Update>, rules: seq<Rule>, git: Git, glob: Glob)
    requires multiset(a) == multiset(b)
    ensures Skips(PrePush(a), rules, git, glob) == Skips(PrePush(b), rules, git, glob)
  {
    if Skips(PrePush(a), rules, git, glob) { SameUpdatesSkip(a, b, rules, git, glob); }
    if Skips(PrePush(b), rules, git, glob) { SameUpdatesSkip(b, a, rules, git, glob); }
  }
}
