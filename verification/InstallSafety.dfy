/**
 * What every interleaving of the install protocol keeps.
 */
module InstallSafety {
  import opened Options
  import opened InstallProtocol

  /** A live installer or publisher is inside the lock: it acquires first and releases last. */
  predicate Holds(proc: Proc) {
    proc.Installer? || proc.Publisher?
  }

  predicate InFlight(proc: Proc) {
    proc.Installer? && (proc.phase.Created? || proc.phase.Manifested? || proc.phase.Checked? || proc.phase.Cleaning?)
  }

  ghost predicate MutualExclusion(s: Sys) {
    forall q, r :: q in s.procs && r in s.procs && Holds(s.procs[q]) && Holds(s.procs[r]) ==> q == r
  }

  /** The link, when it names a release, names one that exists and whose shape was validated. */
  ghost predicate CurrentOk(s: Sys) {
    s.current.Some? && s.current.value.Release? ==>
      var r := s.current.value.id;
      r in s.releases && s.releases[r].validated && s.releases[r].manifest.Some?
      && s.releases[r].manifest.value.releaseId == r
  }

  /** No daemon, of this runtime root or another, has lost the tree it runs from. */
  ghost predicate TreesKept(s: Sys) {
    forall q :: q in s.procs && s.procs[q].Daemon? && s.procs[q].tree.Release? ==> s.procs[q].tree.id in s.releases
  }

  ghost predicate NoDaemonOn(s: Sys, xs: set<ReleaseId>) {
    forall q :: q in s.procs && s.procs[q].Daemon? && s.procs[q].tree.Release? ==> s.procs[q].tree.id !in xs
  }

  ghost predicate NoHomeDaemonOn(s: Sys, xs: set<ReleaseId>) {
    forall q :: q in s.procs && s.procs[q].Daemon? && s.procs[q].home && s.procs[q].tree.Release? ==>
      s.procs[q].tree.id !in xs
  }

  /** The directory an installer has made and not yet selected. */
  ghost predicate Unselected(s: Sys, id: ReleaseId) {
    id in s.releases && s.current.Some? && s.current != Some(Release(id)) && NoDaemonOn(s, {id})
  }

  predicate HasOwnManifest(s: Sys, id: ReleaseId) {
    id in s.releases && s.releases[id].manifest.Some? && s.releases[id].manifest.value.releaseId == id
  }

  ghost predicate InstallerOk(s: Sys, id: ReleaseId, ph: InstallPhase) {
    match ph
    case LockDir => true
    case Begin => true
    case Booted => s.current.Some?
    case Created => Unselected(s, id)
    case Manifested => Unselected(s, id) && HasOwnManifest(s, id)
    case Checked => Unselected(s, id) && HasOwnManifest(s, id) && s.releases[id].validated
    case Cleaning => Unselected(s, id)
    case CutOver => s.current == Some(Release(id))
    case Asked(keep) =>
      s.current == Some(Release(id)) && NoHomeDaemonOn(s, s.releases.Keys - {id} - keep)
    case Listed(c) => s.current == Some(Release(id)) && id !in c && NoHomeDaemonOn(s, c)
    case Deleting(c) => s.current == Some(Release(id)) && id !in c && NoDaemonOn(s, c)
    case Finishing(done) => done ==> s.current == Some(Release(id))
  }

  /** The selection a publisher made is still the current one, with the manifest it read. */
  ghost predicate SelectionHolds(s: Sys, r: ReleaseId, m: Manifest) {
    s.current == Some(Release(r)) && r in s.releases && s.releases[r].manifest == Some(m)
  }

  ghost predicate PublisherOk(s: Sys, pk: seq<string>, ph: PublishPhase) {
    match ph
    case PLockDir => true
    case PBegin => true
    case Selected(r, m) => SelectionHolds(s, r, m)
    case Loop(r, m, i) => SelectionHolds(s, r, m)
    case Putting(r, m, i, _) => SelectionHolds(s, r, m)
    case Proved(r, m) => SelectionHolds(s, r, m) && AllProved(s, pk, m)
    case PFinishing => true
  }

  /** No release being built sorts before c. */
  ghost predicate BuildsNotOlder(s: Sys, c: ReleaseId) {
    forall q :: q in s.procs && InFlight(s.procs[q]) ==> !Older(s.procs[q].id, c)
  }

  /** Everything selected or being built sorts at or after the release a pruning daemon runs from. */
  ghost predicate NothingOlder(s: Sys, c: ReleaseId) {
    s.current.Some? && s.current.value.Release? && !Older(s.current.value.id, c) && BuildsNotOlder(s, c)
  }

  ghost predicate PruneOk(s: Sys, tree: Root, ph: PrunePhase) {
    match ph
    case NotPruning => true
    case LockFree => tree.Release? && BuildsNotOlder(s, tree.id)
    case Matched => tree.Release? && NothingOlder(s, tree.id)
    case DListed(c) => tree.Release? && NothingOlder(s, tree.id) && forall x :: x in c ==> Older(x, tree.id)
    case DDeleting(c) =>
      tree.Release? && NothingOlder(s, tree.id) && (forall x :: x in c ==> Older(x, tree.id)) && NoDaemonOn(s, c)
  }

  ghost predicate ProcOk(s: Sys, proc: Proc) {
    match proc
    case Installer(id, ph) => InstallerOk(s, id, ph)
    case Publisher(pk, ph) => PublisherOk(s, pk, ph)
    case Daemon(tree, _, ph) => PruneOk(s, tree, ph)
    case Dead => true
  }

  ghost predicate LockOk(s: Sys) {
    (forall q :: q in s.procs && Holds(s.procs[q]) ==> s.lock == Some(q))
    && (s.owner.Some? ==> s.owner == s.lock)
  }

  ghost predicate Inv(s: Sys) {
    LockOk(s) && CurrentOk(s) && TreesKept(s)
    && forall q :: q in s.procs ==> ProcOk(s, s.procs[q])
  }

  /** A daemon whose startup prune has seen the lock free, running from c. */
  ghost predicate PrunesFrom(s: Sys, q: Pid, c: ReleaseId) {
    q in s.procs && s.procs[q].Daemon? && !s.procs[q].prune.NotPruning? && s.procs[q].tree == Release(c)
  }

  /** What a run must be asked: no directory is made that sorts before the release of a daemon then pruning. */
  ghost predicate Fresh(s: Sys, p: Pid, e: Event) {
    e.MakeRelease? && p in s.procs && s.procs[p].Installer? ==>
      forall q, c :: PrunesFrom(s, q, c) ==> !Older(s.procs[p].id, c)
  }

  /** The bounds a pruning daemon relies on survive. */
  ghost predicate KeepsBounds(s: Sys, s': Sys) {
    forall q, c :: PrunesFrom(s, q, c) ==>
      (BuildsNotOlder(s, c) ==> BuildsNotOlder(s', c)) && (NothingOlder(s, c) ==> NothingOlder(s', c))
  }

  lemma {:induction false} OlderIrreflexive(a: ReleaseId)
    ensures !Older(a, a)
  {
    if |a| > 0 {
      OlderIrreflexive(a[1..]);
    }
  }

  lemma AcquireKeeps(s: Sys, p: Pid, proc: Proc, s': Sys)
    requires Inv(s) && Acquire(s, p, proc) == Some(s')
    requires Holds(proc) && !InFlight(proc) && forall t: Sys :: ProcOk(t, proc)
    ensures Inv(s')
  {
    forall q | q in s'.procs ensures ProcOk(s', s'.procs[q]) {
      if q != p {
        assert ProcOk(s, s.procs[q]);
        assert !Holds(s.procs[q]);
        assert forall c :: NothingOlder(s, c) ==> NothingOlder(s', c);
        assert forall c :: NoDaemonOn(s, c) ==> NoDaemonOn(s', c);
      }
    }
  }

  lemma StartDaemonKeeps(s: Sys, p: Pid, e: Event, s': Sys)
    requires Inv(s) && e.StartDaemon? && Next(s, p, e) == Some(s')
    ensures Inv(s')
  {
    forall q | q in s'.procs ensures ProcOk(s', s'.procs[q]) {
      if q != p {
        assert ProcOk(s, s.procs[q]);
        assert forall c :: NothingOlder(s, c) ==> NothingOlder(s', c);
        if s.current.value.Release? {
          var r := s.current.value.id;
          assert forall c :: NoDaemonOn(s, c) && r !in c ==> NoDaemonOn(s', c);
          OlderIrreflexive(r);
        } else {
          assert forall c :: NoDaemonOn(s, c) ==> NoDaemonOn(s', c);
        }
      }
    }
  }

  lemma StartKeeps(s: Sys, p: Pid, e: Event, s': Sys)
    requires Inv(s) && Next(s, p, e) == Some(s')
    requires e.StartInstall? || e.StartPublish? || e.StartDaemon?
    ensures Inv(s')
  {
    if e.StartDaemon? {
      StartDaemonKeeps(s, p, e, s');
    } else {
      AcquireKeeps(s, p, if e.StartInstall? then Installer(e.id, LockDir) else Publisher(e.packages, PLockDir), s');
    }
  }

  lemma InstallTouchesOnlyItself(s: Sys, p: Pid, e: Event, s': Sys)
    requires p in s.procs && s.procs[p].Installer? && InstallNext(s, p, s.procs[p].id, s.procs[p].phase, e) == Some(s')
    ensures p in s'.procs && s'.procs == s.procs[p := s'.procs[p]]
    ensures s'.procs[p].Dead? || (s'.procs[p].Installer? && s'.procs[p].id == s.procs[p].id)
    ensures s'.registry == s.registry
  {
  }

  /** The pruning daemons' bounds survive every installer event: what is made is not older than they are. */
  lemma InstallKeepsBounds(s: Sys, p: Pid, e: Event, s': Sys)
    requires Fresh(s, p, e)
    requires p in s.procs && s.procs[p].Installer? && InstallNext(s, p, s.procs[p].id, s.procs[p].phase, e) == Some(s')
    ensures KeepsBounds(s, s')
  {
    InstallTouchesOnlyItself(s, p, e, s');
    forall q, c | PrunesFrom(s, q, c)
      ensures BuildsNotOlder(s, c) ==> BuildsNotOlder(s', c)
      ensures NothingOlder(s, c) ==> NothingOlder(s', c)
    {
      InstallKeepsBound(s, p, e, s', c);
    }
  }

  lemma InstallKeepsBound(s: Sys, p: Pid, e: Event, s': Sys, c: ReleaseId)
    requires p in s.procs && s.procs[p].Installer? && InstallNext(s, p, s.procs[p].id, s.procs[p].phase, e) == Some(s')
    requires e.MakeRelease? ==> !Older(s.procs[p].id, c)
    ensures BuildsNotOlder(s, c) ==> BuildsNotOlder(s', c)
    ensures NothingOlder(s, c) ==> NothingOlder(s', c)
  {
    InstallTouchesOnlyItself(s, p, e, s');
    if BuildsNotOlder(s, c) {
      InFlightBefore(s, p, e, s');
    }
  }

  /** Only the making of the directory puts a release in the making. */
  lemma InFlightBefore(s: Sys, p: Pid, e: Event, s': Sys)
    requires p in s.procs && s.procs[p].Installer? && InstallNext(s, p, s.procs[p].id, s.procs[p].phase, e) == Some(s')
    ensures InFlight(s'.procs[p]) ==> e.MakeRelease? || InFlight(s.procs[p])
    ensures s'.current == s.current || (e.Rename? && InFlight(s.procs[p]) && s'.current == Some(Release(s.procs[p].id)))
            || s.current.None?
  {
  }

  lemma InstallKeepsLock(s: Sys, p: Pid, e: Event, s': Sys)
    requires LockOk(s)
    requires p in s.procs && s.procs[p].Installer? && InstallNext(s, p, s.procs[p].id, s.procs[p].phase, e) == Some(s')
    ensures (p in s'.procs && Holds(s'.procs[p]) ==> s'.lock == Some(p)) && (s'.owner.Some? ==> s'.owner == s'.lock)
  {
  }

  lemma InstallMakesOnlyItsOwn(s: Sys, p: Pid, id: ReleaseId, ph: InstallPhase, e: Event, s': Sys)
    requires InstallNext(s, p, id, ph, e) == Some(s')
    ensures forall x | x in s'.releases && x != id :: x in s.releases && s'.releases[x] == s.releases[x]
  {
  }

  lemma InstallDeletesUnused(s: Sys, p: Pid, id: ReleaseId, ph: InstallPhase, e: Event, s': Sys)
    requires InstallNext(s, p, id, ph, e) == Some(s') && InstallerOk(s, id, ph)
    ensures forall x | x in s.releases && x !in s'.releases :: s'.current != Some(Release(x)) && NoDaemonOn(s, {x})
  {
  }

  /** An installer's event touches its own directory, unused releases, and the link only at the rename. */
  lemma InstallTouches(s: Sys, p: Pid, e: Event, s': Sys)
    requires p in s.procs && s.procs[p].Installer? && InstallNext(s, p, s.procs[p].id, s.procs[p].phase, e) == Some(s')
    requires InstallerOk(s, s.procs[p].id, s.procs[p].phase)
    ensures s'.current == s.current || (s.current.None? && s'.current.value.Checkout?)
            || (s.procs[p].phase.Checked? && s'.current == Some(Release(s.procs[p].id)))
    ensures forall x | x in s.releases && x !in s'.releases :: s'.current != Some(Release(x)) && NoDaemonOn(s, {x})
    ensures forall x | x in s'.releases && x != s.procs[p].id :: x in s.releases && s'.releases[x] == s.releases[x]
  {
    InstallDeletesUnused(s, p, s.procs[p].id, s.procs[p].phase, e, s');
    InstallMakesOnlyItsOwn(s, p, s.procs[p].id, s.procs[p].phase, e, s');
  }

  /** A lock holder's event leaves every other process, and its invariant, as it was. */
  lemma OthersUnderLock(s: Sys, s': Sys, p: Pid, q: Pid)
    requires Inv(s) && p in s.procs && Holds(s.procs[p])
    requires p in s'.procs && s'.procs == s.procs[p := s'.procs[p]]
    requires !s'.procs[p].Daemon?
    requires KeepsBounds(s, s')
    requires q in s.procs && q != p
    ensures !Holds(s.procs[q]) && ProcOk(s', s.procs[q])
  {
    assert ProcOk(s, s.procs[q]);
    assert s.lock == Some(p);
    if s.procs[q].Daemon? && s.procs[q].tree.Release? {
      assert !s.procs[q].prune.NotPruning? ==> PrunesFrom(s, q, s.procs[q].tree.id);
      var ph := s.procs[q].prune;
      if ph.DDeleting? {
        assert NoDaemonOn(s, ph.victims);
        assert NoDaemonOn(s', ph.victims);
      }
    }
  }

  /** A step of the lock holder keeps the invariant once its own part and the pruning bounds are kept. */
  lemma LockHolderKeeps(s: Sys, s': Sys, p: Pid)
    requires Inv(s) && p in s.procs && Holds(s.procs[p])
    requires p in s'.procs && s'.procs == s.procs[p := s'.procs[p]]
    requires !s'.procs[p].Daemon?
    requires KeepsBounds(s, s')
    requires forall x | x in s.releases && x !in s'.releases :: NoDaemonOn(s, {x})
    requires (Holds(s'.procs[p]) ==> s'.lock == Some(p)) && (s'.owner.Some? ==> s'.owner == s'.lock)
    requires ProcOk(s', s'.procs[p]) && CurrentOk(s')
    ensures Inv(s')
  {
    forall q | q in s.procs && q != p ensures !Holds(s.procs[q]) && ProcOk(s', s.procs[q]) {
      OthersUnderLock(s, s', p, q);
    }
  }

  lemma InstallKeepsBuild(s: Sys, p: Pid, e: Event, s': Sys)
    requires CurrentOk(s) && TreesKept(s) && Fresh(s, p, e)
    requires p in s.procs && s.procs[p].Installer? && InstallNext(s, p, s.procs[p].id, s.procs[p].phase, e) == Some(s')
    requires InstallerOk(s, s.procs[p].id, s.procs[p].phase)
    requires s.procs[p].phase.LockDir? || s.procs[p].phase.Begin? || s.procs[p].phase.Booted? || InFlight(s.procs[p])
    ensures ProcOk(s', s'.procs[p]) && CurrentOk(s')
  {
    InstallTouchesOnlyItself(s, p, e, s');
    InstallBuildCurrent(s, p, e, s');
    if e.MakeRelease? {
      InstallMakesRelease(s, p, e, s');
    } else {
      InstallBuildStep(s, p, e, s');
    }
  }

  lemma InstallMakesRelease(s: Sys, p: Pid, e: Event, s': Sys)
    requires CurrentOk(s) && TreesKept(s) && Fresh(s, p, e) && e.MakeRelease?
    requires p in s.procs && s.procs[p].Installer? && InstallNext(s, p, s.procs[p].id, s.procs[p].phase, e) == Some(s')
    requires InstallerOk(s, s.procs[p].id, s.procs[p].phase)
    ensures ProcOk(s', s'.procs[p])
  {
    assert NoDaemonOn(s', {s.procs[p].id});
  }

  lemma InstallBuildCurrent(s: Sys, p: Pid, e: Event, s': Sys)
    requires CurrentOk(s) && p in s.procs && s.procs[p].Installer?
    requires InstallNext(s, p, s.procs[p].id, s.procs[p].phase, e) == Some(s')
    requires InstallerOk(s, s.procs[p].id, s.procs[p].phase)
    requires s.procs[p].phase.LockDir? || s.procs[p].phase.Begin? || s.procs[p].phase.Booted? || InFlight(s.procs[p])
    ensures CurrentOk(s')
  {
    InstallTouches(s, p, e, s');
  }

  /** Between the making of the directory and the cutover only the phase and the own directory change. */
  lemma InstallBuildStep(s: Sys, p: Pid, e: Event, s': Sys)
    requires CurrentOk(s) && !e.MakeRelease?
    requires p in s.procs && s.procs[p].Installer? && InstallNext(s, p, s.procs[p].id, s.procs[p].phase, e) == Some(s')
    requires p in s'.procs && s'.procs == s.procs[p := s'.procs[p]]
    requires InstallerOk(s, s.procs[p].id, s.procs[p].phase)
    requires s.procs[p].phase.LockDir? || s.procs[p].phase.Begin? || s.procs[p].phase.Booted? || InFlight(s.procs[p])
    ensures ProcOk(s', s'.procs[p])
  {
    if e.Fail? || e.Crash? || e.CleanUp? || e.Unlock? {
      GivingUpIsOk(s, p, s.procs[p].id, s.procs[p].phase, e, s');
    } else {
      BuildingIsOk(s, p, s.procs[p].id, s.procs[p].phase, e, s');
    }
  }

  lemma GivingUpIsOk(s: Sys, p: Pid, id: ReleaseId, ph: InstallPhase, e: Event, s': Sys)
    requires CurrentOk(s) && InstallNext(s, p, id, ph, e) == Some(s') && p in s'.procs && InstallerOk(s, id, ph)
    requires e.Fail? || e.Crash? || e.CleanUp? || e.Unlock?
    requires ph.LockDir? || ph.Begin? || ph.Booted? || InFlight(Installer(id, ph))
    ensures ProcOk(s', s'.procs[p])
  {
  }

  lemma BuildingIsOk(s: Sys, p: Pid, id: ReleaseId, ph: InstallPhase, e: Event, s': Sys)
    requires CurrentOk(s) && InstallNext(s, p, id, ph, e) == Some(s') && p in s'.procs && InstallerOk(s, id, ph)
    requires s'.procs == s.procs[p := s'.procs[p]] && p in s.procs && s.procs[p] == Installer(id, ph)
    requires !e.Fail? && !e.Crash? && !e.CleanUp? && !e.Unlock? && !e.MakeRelease?
    requires ph.LockDir? || ph.Begin? || ph.Booted? || InFlight(Installer(id, ph))
    ensures ProcOk(s', s'.procs[p])
  {
  }

  lemma InstallKeepsPrune(s: Sys, p: Pid, e: Event, s': Sys)
    requires Inv(s)
    requires p in s.procs && s.procs[p].Installer? && InstallNext(s, p, s.procs[p].id, s.procs[p].phase, e) == Some(s')
    requires !(s.procs[p].phase.LockDir? || s.procs[p].phase.Begin? || s.procs[p].phase.Booted? || InFlight(s.procs[p]))
    ensures ProcOk(s', s'.procs[p]) && CurrentOk(s')
  {
    assert ProcOk(s, s.procs[p]);
    InstallTouchesOnlyItself(s, p, e, s');
    InstallTouches(s, p, e, s');
    if e.AskStatus? {
      forall q | q in s.procs && s.procs[q].Daemon? && s.procs[q].home && s.procs[q].tree.Release?
        ensures s.procs[q].tree.id in HomeTrees(s) {
      }
    } else if e.Probe? {
      forall q | q in s.procs && s.procs[q].Daemon? && s.procs[q].tree.Release?
        ensures s.procs[q].tree.id !in s.procs[p].phase.listed - e.seen {
        assert s.procs[q].home || s.procs[q].tree.id in ScratchTrees(s);
      }
    }
  }

  lemma InstallKeeps(s: Sys, p: Pid, e: Event, s': Sys)
    requires Inv(s) && Fresh(s, p, e) && Next(s, p, e) == Some(s')
    requires p in s.procs && s.procs[p].Installer?
    ensures Inv(s')
  {
    assert ProcOk(s, s.procs[p]);
    if s.procs[p].phase.LockDir? || s.procs[p].phase.Begin? || s.procs[p].phase.Booted? || InFlight(s.procs[p]) {
      InstallKeepsBuild(s, p, e, s');
    } else {
      InstallKeepsPrune(s, p, e, s');
    }
    InstallKeepsBounds(s, p, e, s');
    InstallTouchesOnlyItself(s, p, e, s');
    InstallKeepsLock(s, p, e, s');
    assert ProcOk(s, s.procs[p]);
    InstallTouches(s, p, e, s');
    LockHolderKeeps(s, s', p);
  }

  lemma PublishFrame(s: Sys, p: Pid, pk: seq<string>, ph: PublishPhase, e: Event, s': Sys)
    requires PublishNext(s, p, pk, ph, e) == Some(s') && p in s.procs
    ensures s'.releases == s.releases && s'.current == s.current
    ensures p in s'.procs && s'.procs == s.procs[p := s'.procs[p]]
    ensures s'.procs[p].Publisher? || s'.procs[p].Dead?
    ensures (s'.lock == s.lock && (s'.owner == s.owner || s'.owner == Some(p)))
            || (s'.lock.None? && s'.owner.None? && s'.procs[p].Dead?)
  {
  }

  lemma PublishTouchesOnlyItself(s: Sys, p: Pid, e: Event, s': Sys)
    requires LockOk(s) && Next(s, p, e) == Some(s')
    requires p in s.procs && s.procs[p].Publisher?
    ensures s'.releases == s.releases && s'.current == s.current
    ensures p in s'.procs && s'.procs == s.procs[p := s'.procs[p]]
    ensures s'.procs[p].Publisher? || s'.procs[p].Dead?
    ensures (Holds(s'.procs[p]) ==> s'.lock == Some(p)) && (s'.owner.Some? ==> s'.owner == s'.lock)
  {
    PublishFrame(s, p, s.procs[p].packages, s.procs[p].pub, e, s');
  }

  lemma PublishKeepsSelf(s: Sys, p: Pid, e: Event, s': Sys)
    requires p in s.procs && s.procs[p].Publisher? && ProcOk(s, s.procs[p]) && Next(s, p, e) == Some(s')
    requires s'.releases == s.releases && s'.current == s.current && p in s'.procs
    ensures ProcOk(s', s'.procs[p])
  {
    PublisherGoesOn(s, p, s.procs[p].packages, s.procs[p].pub, e, s');
  }

  lemma PublisherGoesOn(s: Sys, p: Pid, pk: seq<string>, ph: PublishPhase, e: Event, s': Sys)
    requires PublishNext(s, p, pk, ph, e) == Some(s') && PublisherOk(s, pk, ph) && p in s'.procs
    ensures ProcOk(s', s'.procs[p])
  {
  }

  lemma PublishKeeps(s: Sys, p: Pid, e: Event, s': Sys)
    requires Inv(s) && Next(s, p, e) == Some(s')
    requires p in s.procs && s.procs[p].Publisher?
    ensures Inv(s')
  {
    PublishTouchesOnlyItself(s, p, e, s');
    assert ProcOk(s, s.procs[p]);
    PublishKeepsSelf(s, p, e, s');
    LockHolderKeeps(s, s', p);
  }

  /** A daemon's event only removes releases that nothing current, running or being built uses. */
  lemma DaemonRemovesNothingUsed(s: Sys, p: Pid, e: Event, s': Sys)
    requires Inv(s) && p in s.procs && s.procs[p].Daemon? && DaemonNext(s, p, s.procs[p], e) == Some(s')
    ensures s'.current == s.current && s'.lock == s.lock && s'.owner == s.owner && s'.registry == s.registry
    ensures p in s'.procs && s'.procs == s.procs[p := s'.procs[p]]
    ensures s'.procs[p].Daemon? ==> s'.procs[p].tree == s.procs[p].tree && s'.procs[p].home == s.procs[p].home
    ensures s'.procs[p].Daemon? || s'.procs[p].Dead?
    ensures s'.releases.Keys <= s.releases.Keys && forall x | x in s'.releases :: s'.releases[x] == s.releases[x]
    ensures forall x | x in s.releases && x !in s'.releases ::
              s.current != Some(Release(x)) && NoDaemonOn(s, {x})
              && forall q | q in s.procs && InFlight(s.procs[q]) :: s.procs[q].id != x
  {
    assert ProcOk(s, s.procs[p]);
  }

  /** Removing releases that nothing current, running or being built uses keeps every other process's part. */
  lemma UnusedRemovalKeeps(s: Sys, s': Sys, p: Pid, q: Pid)
    requires Inv(s) && p in s.procs && s.procs[p].Daemon?
    requires s'.current == s.current && s'.registry == s.registry
    requires p in s'.procs && s'.procs == s.procs[p := s'.procs[p]]
    requires s'.procs[p].Dead? || (s'.procs[p].Daemon? && s'.procs[p].tree == s.procs[p].tree
                                   && s'.procs[p].home == s.procs[p].home)
    requires s'.releases.Keys <= s.releases.Keys && forall x | x in s'.releases :: s'.releases[x] == s.releases[x]
    requires forall x | x in s.releases && x !in s'.releases ::
               s.current != Some(Release(x)) && forall q | q in s.procs && InFlight(s.procs[q]) :: s.procs[q].id != x
    requires q in s.procs && q != p
    ensures ProcOk(s', s.procs[q])
  {
    assert ProcOk(s, s.procs[q]);
    assert forall c :: NoDaemonOn(s, c) ==> NoDaemonOn(s', c);
    assert forall c :: NoHomeDaemonOn(s, c) ==> NoHomeDaemonOn(s', c);
    if s.procs[q].Daemon? {
      assert forall c :: NothingOlder(s, c) ==> NothingOlder(s', c);
    }
  }

  lemma SeeCurrentBounds(s: Sys, p: Pid, s': Sys)
    requires Inv(s) && p in s.procs && s.procs[p].Daemon? && DaemonNext(s, p, s.procs[p], SeeCurrent) == Some(s')
    ensures s.procs[p].tree.Release? && NothingOlder(s', s.procs[p].tree.id)
  {
    var c := s.procs[p].tree.id;
    OlderIrreflexive(c);
    forall q | q in s.procs && InFlight(s.procs[q]) ensures !Older(s.procs[q].id, c) {
      assert ProcOk(s, s.procs[q]);
    }
  }

  lemma DaemonKeepsSelf(s: Sys, p: Pid, e: Event, s': Sys)
    requires Inv(s) && p in s.procs && s.procs[p].Daemon? && DaemonNext(s, p, s.procs[p], e) == Some(s')
    ensures p in s'.procs && ProcOk(s', s'.procs[p])
  {
    DaemonRemovesNothingUsed(s, p, e, s');
    assert ProcOk(s, s.procs[p]);
    if e.SeeCurrent? {
      SeeCurrentBounds(s, p, s');
    } else {
      assert forall c :: NothingOlder(s, c) ==> NothingOlder(s', c);
    }
  }

  lemma DaemonKeeps(s: Sys, p: Pid, e: Event, s': Sys)
    requires Inv(s) && Next(s, p, e) == Some(s')
    requires p in s.procs && s.procs[p].Daemon?
    ensures Inv(s')
  {
    DaemonRemovesNothingUsed(s, p, e, s');
    DaemonKeepsSelf(s, p, e, s');
    forall q | q in s'.procs ensures ProcOk(s', s'.procs[q]) {
      if q != p { UnusedRemovalKeeps(s, s', p, q); }
    }
  }

  /** Every event of every process keeps the invariant. */
  lemma StepKeeps(s: Sys, p: Pid, e: Event, s': Sys)
    requires Inv(s) && Fresh(s, p, e) && Next(s, p, e) == Some(s')
    ensures Inv(s')
  {
    if e.StartInstall? || e.StartPublish? || e.StartDaemon? {
      StartKeeps(s, p, e, s');
    } else if s.procs[p].Installer? {
      InstallKeeps(s, p, e, s');
    } else if s.procs[p].Publisher? {
      PublishKeeps(s, p, e, s');
    } else {
      DaemonKeeps(s, p, e, s');
    }
  }

  /** No directory made along the run sorts before the release of a daemon then pruning. */
  ghost predicate FreshRun(s: Sys, steps: seq<Step>)
    decreases |steps|
  {
    steps == [] ||
    (Fresh(s, steps[0].0, steps[0].1)
     && (Next(s, steps[0].0, steps[0].1).Some? ==> FreshRun(Next(s, steps[0].0, steps[0].1).value, steps[1..])))
  }

  lemma {:induction false} RunKeeps(s: Sys, steps: seq<Step>, s': Sys)
    requires Inv(s) && FreshRun(s, steps) && Run(s, steps) == Some(s')
    ensures Inv(s')
    decreases |steps|
  {
    if steps != [] {
      var t := Next(s, steps[0].0, steps[0].1).value;
      StepKeeps(s, steps[0].0, steps[0].1, t);
      RunKeeps(t, steps[1..], s');
    }
  }
}
