/**
 * Why the protocol cares about the order of release ids. The daemon's startup prune looks for the lock once
 * and then deletes older ids without it, so an install whose id sorts before the release of that daemon can
 * lose its tree after the cutover. For any quiet host and any set of installed ids, this says exactly when.
 */
module StaleRelease {
  import opened Options
  import opened InstallProtocol
  import opened InstallSafety
  import opened ReleaseWindow
  import opened LockSafety

  const SOME_BUILD := Build("1.0.0", "0000000000000000000000000000000000000000")

  /** Every install of the run makes one of the given releases. */
  predicate InstallsOnly(steps: seq<Step>, ids: set<ReleaseId>) {
    forall i | 0 <= i < |steps| :: steps[i].1.StartInstall? ==> steps[i].1.id in ids
  }

  ghost predicate Reaches(s: Sys, t: Sys, ids: set<ReleaseId>) {
    exists steps :: InstallsOnly(steps, ids) && Run(s, steps) == Some(t)
  }

  /** Some interleaving that installs only these leaves the link dangling or a daemon without its tree. */
  ghost predicate CanBreak(s: Sys, ids: set<ReleaseId>) {
    exists t :: Reaches(s, t, ids) && !(CurrentOk(t) && TreesKept(t))
  }

  lemma Go(s: Sys, t: Sys, ids: set<ReleaseId>, p: Pid, e: Event) returns (u: Sys)
    requires Reaches(s, t, ids) && Next(t, p, e).Some? && (e.StartInstall? ==> e.id in ids)
    ensures Reaches(s, u, ids) && Next(t, p, e) == Some(u)
  {
    u := Next(t, p, e).value;
    var steps :| InstallsOnly(steps, ids) && Run(s, steps) == Some(t);
    RunSnoc(s, steps, t, p, e);
    assert InstallsOnly(steps + [(p, e)], ids);
  }

  // ---------- an install on an idle host ----------

  /** Processes that are all gone, with ids below n. */
  ghost predicate Gone(procs: map<Pid, Proc>, n: Pid) {
    forall q | q in procs :: q < n && procs[q].Dead?
  }

  ghost predicate Idle(t: Sys, n: Pid) {
    t.lock.None? && t.owner.None? && CurrentOk(t) && Gone(t.procs, n)
  }

  /** Installer n alone, inside the lock, at phase ph. */
  ghost predicate Alone(t: Sys, gone: map<Pid, Proc>, n: Pid, x: ReleaseId, ph: InstallPhase) {
    t.lock == Some(n) && t.owner == Some(n) && Gone(gone, n) && t.procs == gone[n := Installer(x, ph)]
  }

  /** An installer's own action, with the rest of the processes as they were. */
  lemma Act(s: Sys, t: Sys, ids: set<ReleaseId>, rest: map<Pid, Proc>, n: Pid, x: ReleaseId, ph: InstallPhase, e: Event)
    returns (u: Sys)
    requires Reaches(s, t, ids) && t.procs == rest[n := Installer(x, ph)]
    requires !e.StartInstall? && !e.StartPublish? && !e.StartDaemon? && InstallNext(t, n, x, ph, e).Some?
    ensures Reaches(s, u, ids) && InstallNext(t, n, x, ph, e) == Some(u)
    ensures n in u.procs && u.procs == rest[n := u.procs[n]]
  {
    assert Next(t, n, e) == InstallNext(t, n, x, ph, e);
    u := Go(s, t, ids, n, e);
    InstallTouchesOnlyItself(t, n, e, u);
    assert t.procs[n := u.procs[n]] == rest[n := u.procs[n]];
  }

  /** A daemon's own action. */
  lemma Prune(s: Sys, t: Sys, ids: set<ReleaseId>, rest: map<Pid, Proc>, n: Pid, d: Proc, e: Event) returns (u: Sys)
    requires Reaches(s, t, ids) && d.Daemon? && t.procs == rest[n := d]
    requires !e.StartInstall? && !e.StartPublish? && !e.StartDaemon? && DaemonNext(t, n, d, e).Some?
    ensures Reaches(s, u, ids) && DaemonNext(t, n, d, e) == Some(u)
    ensures n in u.procs && u.procs == rest[n := u.procs[n]]
  {
    assert Next(t, n, e) == DaemonNext(t, n, d, e);
    u := Go(s, t, ids, n, e);
    OneProcessMoves(t, n, e, u);
    assert t.procs[n := u.procs[n]] == rest[n := u.procs[n]];
  }

  lemma AloneBegins(s: Sys, t: Sys, ids: set<ReleaseId>, n: Pid, x: ReleaseId) returns (u: Sys)
    requires Reaches(s, t, ids) && Idle(t, n) && x in ids
    ensures Reaches(s, u, ids) && Alone(u, t.procs, n, x, Begin) && u.current == t.current && u.releases == t.releases
  {
    u := Go(s, t, ids, n, StartInstall(x));
    u := Go(s, u, ids, n, WriteOwner);
  }

  lemma AloneBuilds(s: Sys, t: Sys, ids: set<ReleaseId>, gone: map<Pid, Proc>, n: Pid, x: ReleaseId) returns (u: Sys)
    requires Reaches(s, t, ids) && Alone(t, gone, n, x, Begin) && CurrentOk(t) && x !in t.releases
    ensures Reaches(s, u, ids) && Alone(u, gone, n, x, Manifested)
    ensures u.releases == t.releases[x := Dir(Some(Manifest(x, SOME_BUILD)), false)]
  {
    u := AloneMakes(s, t, ids, gone, n, x);
    u := Act(s, u, ids, gone, n, x, Created, WriteManifest(SOME_BUILD));
  }

  lemma AloneMakes(s: Sys, t: Sys, ids: set<ReleaseId>, gone: map<Pid, Proc>, n: Pid, x: ReleaseId) returns (u: Sys)
    requires Reaches(s, t, ids) && Alone(t, gone, n, x, Begin) && CurrentOk(t) && x !in t.releases
    ensures Reaches(s, u, ids) && Alone(u, gone, n, x, Created)
    ensures u.releases == t.releases[x := Dir(None, false)]
  {
    u := Act(s, t, ids, gone, n, x, Begin, Bootstrap(""));
    u := Act(s, u, ids, gone, n, x, Booted, MakeRelease);
  }

  lemma AloneCutsOver(s: Sys, t: Sys, ids: set<ReleaseId>, gone: map<Pid, Proc>, n: Pid, x: ReleaseId) returns (u: Sys)
    requires Reaches(s, t, ids) && Alone(t, gone, n, x, Manifested)
    requires x in t.releases && t.releases[x] == Dir(Some(Manifest(x, SOME_BUILD)), false)
    ensures Reaches(s, u, ids) && Alone(u, gone, n, x, CutOver) && u.current == Some(Release(x))
    ensures u.releases == t.releases[x := Dir(Some(Manifest(x, SOME_BUILD)), true)]
  {
    u := Act(s, t, ids, gone, n, x, Manifested, Validate);
    u := Act(s, u, ids, gone, n, x, Checked, Rename);
  }

  /** Where no daemon runs, nothing is kept. */
  lemma NoTrees(t: Sys)
    requires forall q | q in t.procs :: !t.procs[q].Daemon?
    ensures HomeTrees(t) == {} && ScratchTrees(t) == {}
  {
  }

  lemma AloneLists(s: Sys, t: Sys, ids: set<ReleaseId>, gone: map<Pid, Proc>, n: Pid, x: ReleaseId) returns (u: Sys)
    requires Reaches(s, t, ids) && Alone(t, gone, n, x, CutOver) && t.current == Some(Release(x))
    ensures Reaches(s, u, ids) && Alone(u, gone, n, x, Deleting(t.releases.Keys - {x}))
    ensures u.current == t.current && u.releases == t.releases
  {
    NoTrees(t);
    u := Act(s, t, ids, gone, n, x, CutOver, AskStatus);
    u := AloneProbes(s, u, ids, gone, n, x);
  }

  lemma AloneProbes(s: Sys, t: Sys, ids: set<ReleaseId>, gone: map<Pid, Proc>, n: Pid, x: ReleaseId) returns (u: Sys)
    requires Reaches(s, t, ids) && Alone(t, gone, n, x, Asked({})) && t.current == Some(Release(x))
    ensures Reaches(s, u, ids) && Alone(u, gone, n, x, Deleting(t.releases.Keys - {x}))
    ensures u.current == t.current && u.releases == t.releases
  {
    var listed := t.releases.Keys - {x};
    assert t.releases.Keys - {x} - {} == listed;
    u := Act(s, t, ids, gone, n, x, Asked({}), ListCandidates);
    NoTrees(u);
    u := Act(s, u, ids, gone, n, x, Listed(listed), Probe({}));
    assert listed - {} == listed;
  }

  lemma AloneEnds(s: Sys, t: Sys, ids: set<ReleaseId>, gone: map<Pid, Proc>, n: Pid, x: ReleaseId,
                  doomed: set<ReleaseId>)
    returns (u: Sys)
    requires Reaches(s, t, ids) && Alone(t, gone, n, x, Deleting(doomed)) && CurrentOk(t)
    ensures Reaches(s, u, ids) && Idle(u, n + 1) && u.current == t.current && u.releases == t.releases
  {
    u := Act(s, t, ids, gone, n, x, Deleting(doomed), EndPrune);
    u := AloneUnlocks(s, u, ids, gone, n, x);
  }

  lemma AloneUnlocks(s: Sys, t: Sys, ids: set<ReleaseId>, gone: map<Pid, Proc>, n: Pid, x: ReleaseId) returns (u: Sys)
    requires Reaches(s, t, ids) && Alone(t, gone, n, x, Finishing(true)) && CurrentOk(t)
    ensures Reaches(s, u, ids) && Idle(u, n + 1) && u.current == t.current && u.releases == t.releases
  {
    u := Act(s, t, ids, gone, n, x, Finishing(true), Unlock);
  }

  lemma AloneDeletes(s: Sys, t: Sys, ids: set<ReleaseId>, gone: map<Pid, Proc>, n: Pid, x: ReleaseId, y: ReleaseId)
    returns (u: Sys)
    requires Reaches(s, t, ids) && Alone(t, gone, n, x, Deleting(t.releases.Keys - {x})) && CurrentOk(t)
    requires t.current == Some(Release(x)) && y != x
    ensures Reaches(s, u, ids) && Idle(u, n + 1) && u.current == Some(Release(x)) && y !in u.releases
  {
    var doomed := t.releases.Keys - {x};
    if y in t.releases {
      u := Act(s, t, ids, gone, n, x, Deleting(doomed), Delete(y));
      u := AloneEnds(s, u, ids, gone, n, x, doomed - {y});
    } else {
      u := AloneEnds(s, t, ids, gone, n, x, doomed);
    }
  }

  /** On an idle host x can be installed, and y, if it was there, is pruned by the way. */
  lemma InstallOver(s: Sys, t: Sys, ids: set<ReleaseId>, n: Pid, x: ReleaseId, y: ReleaseId) returns (u: Sys)
    requires Reaches(s, t, ids) && Idle(t, n) && x in ids && x !in t.releases && y != x
    ensures Reaches(s, u, ids) && Idle(u, n + 1) && u.current == Some(Release(x)) && y !in u.releases
  {
    u := AloneBegins(s, t, ids, n, x);
    u := AloneBuilds(s, u, ids, t.procs, n, x);
    u := AloneCutsOver(s, u, ids, t.procs, n, x);
    u := AloneLists(s, u, ids, t.procs, n, x);
    u := AloneDeletes(s, u, ids, t.procs, n, x, y);
  }

  // ---------- the race ----------

  /** Daemon n, running from the current release, at `dp` of its startup prune. */
  ghost predicate Watched(t: Sys, gone: map<Pid, Proc>, n: Pid, cur: ReleaseId, dp: PrunePhase) {
    && t.lock.None? && t.owner.None? && t.current == Some(Release(cur)) && cur in t.releases
    && Gone(gone, n) && t.procs == gone[n := Daemon(Release(cur), true, dp)]
  }

  /** The same with an installer inside the lock. */
  ghost predicate Racing(t: Sys, gone: map<Pid, Proc>, n: Pid, cur: ReleaseId, id: ReleaseId, dp: PrunePhase,
                         ip: InstallPhase) {
    && t.lock == Some(n + 1) && t.current == Some(Release(cur)) && cur in t.releases
    && Gone(gone, n) && t.procs == gone[n := Daemon(Release(cur), true, dp)][n + 1 := Installer(id, ip)]
  }

  /** One event of the daemon's prune, which may change the directories. */
  lemma Turn(s: Sys, t: Sys, ids: set<ReleaseId>, gone: map<Pid, Proc>, n: Pid, cur: ReleaseId, dp: PrunePhase,
             e: Event, next: PrunePhase, left: map<ReleaseId, Dir>)
    returns (u: Sys)
    requires Reaches(s, t, ids) && Watched(t, gone, n, cur, dp) && cur in left
    requires !e.StartInstall? && !e.StartPublish? && !e.StartDaemon?
    requires DaemonNext(t, n, Daemon(Release(cur), true, dp), e)
             == Some(Set(t, n, Daemon(Release(cur), true, next)).(releases := left))
    ensures Reaches(s, u, ids) && Watched(u, gone, n, cur, next) && u.releases == left
  {
    u := Prune(s, t, ids, gone, n, Daemon(Release(cur), true, dp), e);
  }

  lemma DaemonStarts(s: Sys, t: Sys, ids: set<ReleaseId>, n: Pid, cur: ReleaseId) returns (u: Sys)
    requires Reaches(s, t, ids) && Idle(t, n) && t.current == Some(Release(cur))
    ensures Reaches(s, u, ids) && Watched(u, t.procs, n, cur, NotPruning) && u.releases == t.releases
  {
    u := Go(s, t, ids, n, StartDaemon(true));
  }

  lemma DaemonLooks(s: Sys, t: Sys, ids: set<ReleaseId>, gone: map<Pid, Proc>, n: Pid, cur: ReleaseId) returns (u: Sys)
    requires Reaches(s, t, ids) && Watched(t, gone, n, cur, NotPruning)
    ensures Reaches(s, u, ids) && Watched(u, gone, n, cur, Matched) && u.releases == t.releases
  {
    u := Turn(s, t, ids, gone, n, cur, NotPruning, SeeLockFree, LockFree, t.releases);
    u := Turn(s, u, ids, gone, n, cur, LockFree, SeeCurrent, Matched, u.releases);
  }

  /** Alone, the daemon's startup prune can delete an older directory that was there. */
  lemma DaemonClears(s: Sys, t: Sys, ids: set<ReleaseId>, gone: map<Pid, Proc>, n: Pid, cur: ReleaseId, id: ReleaseId)
    returns (u: Sys)
    requires Reaches(s, t, ids) && Watched(t, gone, n, cur, NotPruning) && Older(id, cur)
    ensures Reaches(s, u, ids) && Watched(u, gone, n, cur, NotPruning) && id !in u.releases
  {
    u := t;
    if id in t.releases {
      OlderIrreflexive(cur);
      u := DaemonLooks(s, t, ids, gone, n, cur);
      var listed := set x | x in u.releases && Older(x, cur);
      u := Turn(s, u, ids, gone, n, cur, Matched, ListCandidates, DListed(listed), u.releases);
      u := DaemonSpares(s, u, ids, gone, n, cur, listed);
      u := DaemonDeletes(s, u, ids, gone, n, cur, id, listed - {cur});
    }
  }

  lemma OnlyTree(t: Sys, n: Pid, cur: ReleaseId)
    requires n in t.procs && t.procs[n].Daemon? && t.procs[n].tree == Release(cur)
    requires forall q | q in t.procs && q != n :: !t.procs[q].Daemon?
    ensures ScratchTrees(t) + HomeTrees(t) <= {cur}
  {
  }

  /** Nobody holds what it listed: it has only its own release to spare. */
  lemma DaemonSpares(s: Sys, t: Sys, ids: set<ReleaseId>, gone: map<Pid, Proc>, n: Pid, cur: ReleaseId,
                     listed: set<ReleaseId>)
    returns (u: Sys)
    requires Reaches(s, t, ids) && Watched(t, gone, n, cur, DListed(listed))
    ensures Reaches(s, u, ids) && Watched(u, gone, n, cur, DDeleting(listed - {cur})) && u.releases == t.releases
  {
    OnlyTree(t, n, cur);
    u := Turn(s, t, ids, gone, n, cur, DListed(listed), Probe({cur}), DDeleting(listed - {cur}), t.releases);
  }

  lemma DaemonDeletes(s: Sys, t: Sys, ids: set<ReleaseId>, gone: map<Pid, Proc>, n: Pid, cur: ReleaseId, id: ReleaseId,
                      doomed: set<ReleaseId>)
    returns (u: Sys)
    requires Reaches(s, t, ids) && Watched(t, gone, n, cur, DDeleting(doomed)) && id in doomed && id != cur
    ensures Reaches(s, u, ids) && Watched(u, gone, n, cur, NotPruning) && id !in u.releases
  {
    u := Turn(s, t, ids, gone, n, cur, DDeleting(doomed), Delete(id), DDeleting(doomed - {id}), t.releases - {id});
    u := Turn(s, u, ids, gone, n, cur, DDeleting(doomed - {id}), EndPrune, NotPruning, u.releases);
  }

  lemma InstallJoins(s: Sys, t: Sys, ids: set<ReleaseId>, gone: map<Pid, Proc>, n: Pid, cur: ReleaseId, id: ReleaseId)
    returns (u: Sys)
    requires Reaches(s, t, ids) && Watched(t, gone, n, cur, Matched) && id in ids && id !in t.releases
    ensures Reaches(s, u, ids) && Racing(u, gone, n, cur, id, Matched, Booted) && id !in u.releases
  {
    var rest := gone[n := Daemon(Release(cur), true, Matched)];
    u := Go(s, t, ids, n + 1, StartInstall(id));
    assert u.procs == rest[n + 1 := Installer(id, LockDir)];
    u := Act(s, u, ids, rest, n + 1, id, LockDir, WriteOwner);
    u := Act(s, u, ids, rest, n + 1, id, Begin, Bootstrap(""));
  }

  /** The daemon's turn while the installer waits. */
  lemma PruneBeside(s: Sys, t: Sys, ids: set<ReleaseId>, gone: map<Pid, Proc>, n: Pid, cur: ReleaseId, id: ReleaseId,
                    dp: PrunePhase, ip: InstallPhase, e: Event)
    returns (u: Sys)
    requires Reaches(s, t, ids) && Racing(t, gone, n, cur, id, dp, ip)
    requires !e.StartInstall? && !e.StartPublish? && !e.StartDaemon?
    requires DaemonNext(t, n, Daemon(Release(cur), true, dp), e).Some?
    ensures Reaches(s, u, ids) && DaemonNext(t, n, Daemon(Release(cur), true, dp), e) == Some(u)
    ensures n in u.procs && u.procs == gone[n := u.procs[n]][n + 1 := Installer(id, ip)]
  {
    var rest := gone[n + 1 := Installer(id, ip)];
    Swap(gone, n, Daemon(Release(cur), true, dp), n + 1, Installer(id, ip));
    u := Prune(s, t, ids, rest, n, Daemon(Release(cur), true, dp), e);
    Swap(gone, n, u.procs[n], n + 1, Installer(id, ip));
  }

  lemma Swap(procs: map<Pid, Proc>, p: Pid, a: Proc, q: Pid, b: Proc)
    requires p != q
    ensures procs[p := a][q := b] == procs[q := b][p := a]
  {
  }

  /** The daemon now lists every older directory, the one being built among them. */
  lemma DaemonLists(s: Sys, t: Sys, ids: set<ReleaseId>, gone: map<Pid, Proc>, n: Pid, cur: ReleaseId, id: ReleaseId)
    returns (u: Sys, doomed: set<ReleaseId>)
    requires Reaches(s, t, ids) && Racing(t, gone, n, cur, id, Matched, Booted) && id !in t.releases && Older(id, cur)
    ensures Reaches(s, u, ids) && Racing(u, gone, n, cur, id, DListed(doomed), Created)
    ensures id in u.releases && id in doomed
  {
    u := Act(s, t, ids, gone[n := Daemon(Release(cur), true, Matched)], n + 1, id, Booted, MakeRelease);
    doomed := set x | x in u.releases && Older(x, cur);
    u := PruneBeside(s, u, ids, gone, n, cur, id, Matched, Created, ListCandidates);
  }

  lemma DaemonProbes(s: Sys, t: Sys, ids: set<ReleaseId>, gone: map<Pid, Proc>, n: Pid, cur: ReleaseId, id: ReleaseId,
                     doomed: set<ReleaseId>)
    returns (u: Sys)
    requires Reaches(s, t, ids) && Racing(t, gone, n, cur, id, DListed(doomed), Created) && id in t.releases
    ensures Reaches(s, u, ids) && Racing(u, gone, n, cur, id, DDeleting(doomed - {cur}), Created) && id in u.releases
  {
    OnlyTree(t, n, cur);
    u := PruneBeside(s, t, ids, gone, n, cur, id, DListed(doomed), Created, Probe({cur}));
  }

  /** The installer goes on to its cutover, whatever the daemon is about to delete. */
  lemma InstallSelects(s: Sys, t: Sys, ids: set<ReleaseId>, rest: map<Pid, Proc>, n: Pid, id: ReleaseId)
      returns (u: Sys)
    requires Reaches(s, t, ids) && t.procs == rest[n := Installer(id, Created)] && id in t.releases
    ensures Reaches(s, u, ids) && u.procs == rest[n := Installer(id, CutOver)] && u.current == Some(Release(id))
  {
    u := Act(s, t, ids, rest, n, id, Created, WriteManifest(SOME_BUILD));
    u := Act(s, u, ids, rest, n, id, Manifested, Validate);
    u := Act(s, u, ids, rest, n, id, Checked, Rename);
  }

  /** Then the install cuts over, and the daemon deletes what the link now names. */
  lemma DaemonHits(s: Sys, t: Sys, ids: set<ReleaseId>, gone: map<Pid, Proc>, n: Pid, cur: ReleaseId, id: ReleaseId,
                   victims: set<ReleaseId>)
    requires Reaches(s, t, ids) && Racing(t, gone, n, cur, id, DDeleting(victims), Created)
    requires id in t.releases && id in victims
    ensures CanBreak(s, ids)
  {
    var d := Daemon(Release(cur), true, DDeleting(victims));
    var u := InstallSelects(s, t, ids, gone[n := d], n + 1, id);
    assert u.procs == gone[n + 1 := Installer(id, CutOver)][n := d];
    u := Prune(s, u, ids, gone[n + 1 := Installer(id, CutOver)], n, d, Delete(id));
    assert !CurrentOk(u);
  }

  /** An idle host whose current release is newer than an id that may be installed can break. */
  lemma OlderIdDangles(s: Sys, t: Sys, ids: set<ReleaseId>, n: Pid, cur: ReleaseId, id: ReleaseId)
    requires Reaches(s, t, ids) && Idle(t, n) && t.current == Some(Release(cur)) && id in ids && Older(id, cur)
    ensures CanBreak(s, ids)
  {
    OlderIrreflexive(cur);
    var gone := t.procs;
    var u := DaemonStarts(s, t, ids, n, cur);
    u := DaemonClears(s, u, ids, gone, n, cur, id);
    u := DaemonLooks(s, u, ids, gone, n, cur);
    u := InstallJoins(s, u, ids, gone, n, cur, id);
    var doomed;
    u, doomed := DaemonLists(s, u, ids, gone, n, cur, id);
    u := DaemonProbes(s, u, ids, gone, n, cur, id, doomed);
    DaemonHits(s, u, ids, gone, n, cur, id, doomed - {cur});
  }

  lemma {:induction false} OlderTotal(a: ReleaseId, b: ReleaseId)
    requires a != b
    ensures Older(a, b) || Older(b, a)
  {
    if |a| > 0 && |b| > 0 && a[0] == b[0] {
      assert a == [a[0]] + a[1..] && b == [b[0]] + b[1..];
      OlderTotal(a[1..], b[1..]);
    }
  }

  /** A new id and a second one are enough: install one, then the older one under the newer. */
  lemma TwoIdsDangle(s: Sys, ids: set<ReleaseId>, x: ReleaseId, y: ReleaseId)
    requires Quiet(s) && CurrentOk(s) && x in ids && y in ids && x != y && x !in s.releases
    ensures CanBreak(s, ids)
  {
    assert Run(s, []) == Some(s) && InstallsOnly([], ids);
    var t := InstallOver(s, s, ids, 0, x, y);
    if Older(y, x) {
      OlderIdDangles(s, t, ids, 1, x, y);
    } else {
      OlderTotal(x, y);
      t := InstallOver(s, t, ids, 1, y, x);
      OlderIdDangles(s, t, ids, 2, y, x);
    }
  }

  // ---------- and nothing else breaks ----------

  /** Only ids of `ids` are installed, and only releases of `trees` are selected or run from. */
  ghost predicate Within(t: Sys, ids: set<ReleaseId>, trees: set<ReleaseId>) {
    && (t.current.Some? && t.current.value.Release? ==> t.current.value.id in trees)
    && forall q | q in t.procs ::
         && (t.procs[q].Installer? ==> t.procs[q].id in ids)
         && (t.procs[q].Daemon? && t.procs[q].tree.Release? ==> t.procs[q].tree.id in trees)
  }

  ghost predicate NoneOlder(ids: set<ReleaseId>, trees: set<ReleaseId>) {
    forall a, b | a in ids && b in trees :: !Older(a, b)
  }

  lemma WithinStep(t: Sys, ids: set<ReleaseId>, trees: set<ReleaseId>, p: Pid, e: Event, u: Sys)
    requires Within(t, ids, trees) && Next(t, p, e) == Some(u) && (e.StartInstall? ==> e.id in ids)
    requires e.Rename? ==> ids <= trees
    ensures Within(u, ids, trees)
  {
    OneProcessMoves(t, p, e, u);
    if !e.StartInstall? && !e.StartPublish? && !e.StartDaemon? {
      match t.procs[p]
      case Installer(id, ph) => InstallerStaysWithin(t, ids, trees, p, id, ph, e, u);
      case Publisher(pk, ph) => PublisherStays(t, p, pk, ph, e, u);
      case Daemon(_, _, _) => DaemonStays(t, p, t.procs[p], e, u);
    }
  }

  lemma InstallerStaysWithin(t: Sys, ids: set<ReleaseId>, trees: set<ReleaseId>, p: Pid, id: ReleaseId,
                             ph: InstallPhase, e: Event, u: Sys)
    requires Within(t, ids, trees) && p in t.procs && t.procs[p] == Installer(id, ph)
    requires InstallNext(t, p, id, ph, e) == Some(u) && (e.Rename? ==> ids <= trees)
    ensures Within(u, ids, trees)
  {
    InstallTouchesOnlyItself(t, p, e, u);
    LinkAfter(t, p, id, ph, e, u);
  }

  lemma LinkAfter(t: Sys, p: Pid, id: ReleaseId, ph: InstallPhase, e: Event, u: Sys)
    requires InstallNext(t, p, id, ph, e) == Some(u)
    ensures u.current == t.current || (e.Rename? && u.current == Some(Release(id)))
            || (e.Bootstrap? && u.current.Some? && u.current.value.Checkout?)
  {
  }

  lemma PublisherStays(t: Sys, p: Pid, pk: seq<string>, ph: PublishPhase, e: Event, u: Sys)
    requires PublishNext(t, p, pk, ph, e) == Some(u)
    ensures u.current == t.current && u.releases == t.releases
    ensures p in u.procs && !u.procs[p].Installer? && !u.procs[p].Daemon?
  {
  }

  lemma DaemonStays(t: Sys, p: Pid, d: Proc, e: Event, u: Sys)
    requires d.Daemon? && DaemonNext(t, p, d, e) == Some(u)
    ensures u.current == t.current && p in u.procs && !u.procs[p].Installer?
    ensures u.procs[p].Daemon? ==> u.procs[p].tree == d.tree
  {
  }

  lemma {:induction false} WithinIsFresh(t: Sys, ids: set<ReleaseId>, trees: set<ReleaseId>, steps: seq<Step>)
    requires Within(t, ids, trees) && NoneOlder(ids, trees) && ids <= trees && InstallsOnly(steps, ids)
    ensures FreshRun(t, steps)
    decreases |steps|
  {
    if steps != [] {
      var p, e := steps[0].0, steps[0].1;
      if Next(t, p, e).Some? {
        WithinStep(t, ids, trees, p, e, Next(t, p, e).value);
        WithinIsFresh(Next(t, p, e).value, ids, trees, steps[1..]);
      }
    }
  }

  /** When every id is there already, no install gets as far as making a directory. */
  ghost predicate Stuck(t: Sys, ids: set<ReleaseId>, trees: set<ReleaseId>) {
    && Within(t, ids, trees) && ids <= t.releases.Keys
    && forall q | q in t.procs :: NeverMade(t.procs[q]) && DoomsOlder(t.procs[q])
  }

  predicate NeverMade(proc: Proc) {
    proc.Installer? ==> proc.phase.LockDir? || proc.phase.Begin? || proc.phase.Booted? || proc.phase.Finishing?
  }

  ghost predicate DoomsOlder(proc: Proc) {
    proc.Daemon? ==>
      match proc.prune
      case DListed(c) => proc.tree.Release? && forall x | x in c :: Older(x, proc.tree.id)
      case DDeleting(c) => proc.tree.Release? && forall x | x in c :: Older(x, proc.tree.id)
      case _ => true
  }

  lemma StuckInstaller(t: Sys, p: Pid, id: ReleaseId, ph: InstallPhase, e: Event, u: Sys)
    requires InstallNext(t, p, id, ph, e) == Some(u) && NeverMade(Installer(id, ph)) && id in t.releases
    ensures !e.Rename? && u.releases == t.releases && p in u.procs && NeverMade(u.procs[p]) && DoomsOlder(u.procs[p])
  {
  }

  lemma StuckDaemon(t: Sys, p: Pid, d: Proc, e: Event, u: Sys)
    requires d.Daemon? && DaemonNext(t, p, d, e) == Some(u) && DoomsOlder(d)
    ensures p in u.procs && NeverMade(u.procs[p]) && DoomsOlder(u.procs[p])
    ensures forall x | x in t.releases && x !in u.releases :: d.tree.Release? && Older(x, d.tree.id)
  {
  }

  lemma StuckStep(t: Sys, ids: set<ReleaseId>, trees: set<ReleaseId>, p: Pid, e: Event, u: Sys)
    requires Stuck(t, ids, trees) && NoneOlder(ids, trees) && Next(t, p, e) == Some(u)
    requires e.StartInstall? ==> e.id in ids
    ensures Stuck(u, ids, trees)
  {
    OneProcessMoves(t, p, e, u);
    if !e.StartInstall? && !e.StartPublish? && !e.StartDaemon? {
      assert NeverMade(t.procs[p]) && DoomsOlder(t.procs[p]);
      match t.procs[p]
      case Installer(id, ph) => StuckInstaller(t, p, id, ph, e, u);
      case Publisher(pk, ph) =>
        PublisherStays(t, p, pk, ph, e, u);
        assert !e.Rename?;
      case Daemon(_, _, _) => StuckDaemon(t, p, t.procs[p], e, u);
    }
    WithinStep(t, ids, trees, p, e, u);
  }

  lemma {:induction false} StuckIsFresh(t: Sys, ids: set<ReleaseId>, trees: set<ReleaseId>, steps: seq<Step>)
    requires Stuck(t, ids, trees) && NoneOlder(ids, trees) && InstallsOnly(steps, ids)
    ensures FreshRun(t, steps)
    decreases |steps|
  {
    if steps != [] {
      var p, e := steps[0].0, steps[0].1;
      if Next(t, p, e).Some? {
        StuckStep(t, ids, trees, p, e, Next(t, p, e).value);
        StuckIsFresh(Next(t, p, e).value, ids, trees, steps[1..]);
      }
    }
  }

  ghost predicate OlderThanCurrent(s: Sys, ids: set<ReleaseId>) {
    s.current.Some? && s.current.value.Release? && exists id | id in ids :: Older(id, s.current.value.id)
  }

  ghost predicate TwoIdsOneNew(s: Sys, ids: set<ReleaseId>) {
    (exists x | x in ids :: x !in s.releases) && exists a, b | a in ids && b in ids :: a != b
  }

  lemma SafeOtherwise(s: Sys, ids: set<ReleaseId>, steps: seq<Step>, t: Sys)
    requires Quiet(s) && CurrentOk(s) && InstallsOnly(steps, ids) && Run(s, steps) == Some(t)
    requires !OlderThanCurrent(s, ids) && !TwoIdsOneNew(s, ids)
    ensures CurrentOk(t) && TreesKept(t)
  {
    var here := if s.current.Some? && s.current.value.Release? then {s.current.value.id} else {};
    assert NoneOlder(ids, here);
    if exists x | x in ids :: x !in s.releases {
      forall a, b | a in ids && b in here + ids ensures !Older(a, b) {
        if b in ids { OlderIrreflexive(a); }
      }
      WithinIsFresh(s, ids, here + ids, steps);
    } else {
      StuckIsFresh(s, ids, here, steps);
    }
    RunKeeps(s, steps, t);
  }

  /**
   * From a quiet host, installing any ids of a set in any runs, with daemons that prune at startup: the link
   * can be left dangling or a daemon without its tree exactly when some id sorts before the current release,
   * or when one id is new to the host and another one may be installed as well.
   */
  lemma BreaksExactly(s: Sys, ids: set<ReleaseId>)
    requires Quiet(s) && CurrentOk(s)
    ensures CanBreak(s, ids) <==> OlderThanCurrent(s, ids) || TwoIdsOneNew(s, ids)
  {
    assert Run(s, []) == Some(s) && InstallsOnly([], ids);
    if OlderThanCurrent(s, ids) {
      var id :| id in ids && Older(id, s.current.value.id);
      OlderIdDangles(s, s, ids, 0, s.current.value.id, id);
    } else if TwoIdsOneNew(s, ids) {
      var x :| x in ids && x !in s.releases;
      var a, b :| a in ids && b in ids && a != b;
      TwoIdsDangle(s, ids, x, if a == x then b else a);
    } else if CanBreak(s, ids) {
      var t :| Reaches(s, t, ids) && !(CurrentOk(t) && TreesKept(t));
      var steps :| InstallsOnly(steps, ids) && Run(s, steps) == Some(t);
      SafeOtherwise(s, ids, steps, t);
      assert false;
    }
  }
}
