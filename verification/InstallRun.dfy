/**
 * One installer, step by step as the source runs it: flags, early exits and a finally block.
 * Every failure point is a branch of its own, and every path is shown to be a run of the
 * protocol, so what the protocol keeps holds of the real control flow.
 */
module InstallRun {
  import opened Options
  import opened InstallProtocol

  /** Where an install can throw; each is one awaited filesystem or build action. */
  datatype Point =
    | OwnerWrite
    | Bootstrapping
    | LinkingSurface
    | MakingRelease
    | Preparing
    | ManifestWrite
    | Validating
    | Renaming
    | CleaningUp
    | ReleasingLock

  datatype Outcome =
    | Installed
    | InvalidId
    | LockHeld
    | Failed(at: Point, cutover: bool)

  /** What `server status` said after the cutover; a running daemon without an atomic release keeps nothing. */
  datatype StatusAnswer = NoAnswer | Answered(releases: set<ReleaseId>)

  /** The points of the try block before the cutover, in order; the others come before it or in the finally block. */
  function Rank(p: Point): nat {
    match p
    case Bootstrapping => 1
    case LinkingSurface => 2
    case MakingRelease => 3
    case Preparing => 4
    case ManifestWrite => 5
    case Validating => 6
    case Renaming => 7
    case _ => 0
  }

  predicate Dangles(current: Option<Root>, releases: map<ReleaseId, Dir>) {
    current.Some? && current.value.Release? && current.value.id !in releases
  }

  /** What an install starts from: the link, the directories, its id, and which actions fail. */
  datatype Start = Start(current: Option<Root>, releases: map<ReleaseId, Dir>, id: ReleaseId, fails: Point -> bool)

  /** An action breaks by itself, on a link that names nothing, or on a directory that is there already. */
  predicate Broken(st: Start, p: Point) {
    || st.fails(p)
    || (p.Bootstrapping? && Dangles(st.current, st.releases))
    || (p.MakingRelease? && st.id in st.releases)
  }

  /** The first broken action before the cutover. */
  ghost predicate Breaks(st: Start, p: Point) {
    Rank(p) > 0 && Broken(st, p) && forall q: Point | 0 < Rank(q) < Rank(p) :: !Broken(st, q)
  }

  ghost predicate Completes(st: Start) {
    forall p: Point | Rank(p) > 0 :: !Broken(st, p)
  }

  /** What the link and the new directory come to; then the tree, its manifest and its shape; then the rename. */
  function BeginBreak(st: Start): Option<Point> {
    if Broken(st, Bootstrapping) then Some(Bootstrapping)
    else if Broken(st, LinkingSurface) then Some(LinkingSurface)
    else if Broken(st, MakingRelease) then Some(MakingRelease)
    else None
  }

  function PrepareBreak(fails: Point -> bool): Option<Point> {
    if fails(Preparing) then Some(Preparing)
    else if fails(ManifestWrite) then Some(ManifestWrite)
    else if fails(Validating) then Some(Validating)
    else None
  }

  function BuildBreak(st: Start): Option<Point> {
    if BeginBreak(st).Some? then BeginBreak(st) else PrepareBreak(st.fails)
  }

  function TryBreak(st: Start): Option<Point> {
    if BuildBreak(st).Some? then BuildBreak(st) else if st.fails(Renaming) then Some(Renaming) else None
  }

  predicate Made(p: Point) {
    Rank(p) > Rank(MakingRelease)
  }

  /** How an install ends, told from where it starts. */
  function InstallOutcome(st: Start, locked: bool): Outcome {
    if !ValidReleaseId(st.id) then InvalidId
    else if locked then LockHeld
    else if st.fails(OwnerWrite) then Failed(OwnerWrite, false)
    else EndOutcome(TryBreak(st), st.fails)
  }

  function EndOutcome(failure: Option<Point>, fails: Point -> bool): Outcome {
    match failure
    case None => if fails(ReleasingLock) then Failed(ReleasingLock, true) else Installed
    case Some(p) =>
      if Made(p) && fails(CleaningUp) then Failed(CleaningUp, false)
      else Failed(if fails(ReleasingLock) then ReleasingLock else p, false)
  }

  lemma TryBreakIsFirst(st: Start)
    ensures TryBreak(st).None? <==> Completes(st)
    ensures TryBreak(st).Some? ==> Rank(TryBreak(st).value) > 0
    ensures forall p: Point :: TryBreak(st) == Some(p) <==> Breaks(st, p)
  {
    if TryBreak(st).Some? {
      var f := TryBreak(st).value;
      assert Breaks(st, f) by {
        forall q: Point | 0 < Rank(q) < Rank(f) ensures !Broken(st, q) { match q case _ => }
      }
      forall p: Point ensures TryBreak(st) == Some(p) <==> Breaks(st, p) {
        if Breaks(st, p) { RankIsOnce(p, f); }
      }
    } else {
      forall p: Point | Rank(p) > 0 ensures !Broken(st, p) { match p case _ => }
    }
  }

  lemma RankIsOnce(p: Point, q: Point)
    ensures Rank(p) == Rank(q) > 0 ==> p == q
  {
  }

  /**
   * An install succeeds exactly when its id is valid, the lock is free, no action breaks and the lock is given
   * back; it fails after its cutover exactly when only the last of these fails; it reports the first broken
   * action unless the clean-up or the giving back of the lock fails after it.
   */
  lemma OutcomeExactly(st: Start, locked: bool)
    ensures var r := InstallOutcome(st, locked);
            var entered := ValidReleaseId(st.id) && !locked && !st.fails(OwnerWrite);
            var stays := st.fails(CleaningUp) && exists p: Point :: Made(p) && Breaks(st, p);
            && (r.Installed? <==> entered && Completes(st) && !st.fails(ReleasingLock))
            && (r.Failed? && r.cutover <==> entered && Completes(st) && st.fails(ReleasingLock))
            && (r.Failed? && r.at == OwnerWrite <==> ValidReleaseId(st.id) && !locked && st.fails(OwnerWrite))
            && (r.Failed? && r.at == CleaningUp <==> entered && stays)
            && (r.Failed? && r.at == ReleasingLock <==> entered && !stays && st.fails(ReleasingLock))
            && forall p: Point | Rank(p) > 0 ::
                 (r.Failed? && r.at == p <==> entered && Breaks(st, p) && !stays && !st.fails(ReleasingLock))
  {
    TryBreakIsFirst(st);
  }

  predicate IdChar(c: char) {
    'A' <= c <= 'Z' || 'a' <= c <= 'z' || '0' <= c <= '9' || c == '.' || c == '_' || c == '-'
  }

  const ID_PREFIX := "release-"

  predicate ValidReleaseId(id: ReleaseId) {
    |id| > |ID_PREFIX| && ID_PREFIX <= id && forall i | |ID_PREFIX| <= i < |id| :: IdChar(id[i])
  }

  lemma TreesCarryOver(s: Sys, t: Sys, me: Pid)
    requires me in s.procs && !s.procs[me].Daemon? && me in t.procs && t.procs == s.procs[me := t.procs[me]]
    ensures ScratchTrees(s) <= ScratchTrees(t) && HomeTrees(s) <= HomeTrees(t)
  {
    forall x | x in ScratchTrees(s) ensures x in ScratchTrees(t) {
      var q :| q in s.procs && s.procs[q].Daemon? && !s.procs[q].home && s.procs[q].tree == Release(x);
      assert t.procs[q] == s.procs[q];
    }
    forall x | x in HomeTrees(s) ensures x in HomeTrees(t) {
      var q :| q in s.procs && s.procs[q].Daemon? && s.procs[q].home && s.procs[q].tree == Release(x);
      assert t.procs[q] == s.procs[q];
    }
  }

  /** An installer's own moves change nothing about which releases daemons run from. */
  lemma InstallerTrees(s: Sys, t: Sys, me: Pid)
    requires me in s.procs && s.procs[me].Installer? && me in t.procs && t.procs[me].Installer?
    requires t.procs == s.procs[me := t.procs[me]]
    ensures SameTrees(s, t)
  {
    TreesCarryOver(s, t, me);
    assert s.procs == t.procs[me := s.procs[me]];
    TreesCarryOver(t, s, me);
  }

  /** Nor does the end of an installer. */
  lemma InstallerLeaves(s: Sys, t: Sys, me: Pid)
    requires me in s.procs && s.procs[me].Installer? && me in t.procs && !t.procs[me].Daemon?
    requires t.procs == s.procs[me := t.procs[me]]
    ensures SameTrees(s, t)
  {
    TreesCarryOver(s, t, me);
    assert s.procs == t.procs[me := s.procs[me]];
    TreesCarryOver(t, s, me);
  }

  lemma StartTrees(s: Sys, t: Sys, me: Pid)
    requires me !in s.procs && me in t.procs && !t.procs[me].Daemon? && t.procs == s.procs[me := t.procs[me]]
    ensures SameTrees(s, t)
  {
    forall x | x in ScratchTrees(s) ensures x in ScratchTrees(t) {
      var q :| q in s.procs && s.procs[q].Daemon? && !s.procs[q].home && s.procs[q].tree == Release(x);
      assert t.procs[q] == s.procs[q];
    }
    forall x | x in HomeTrees(s) ensures x in HomeTrees(t) {
      var q :| q in s.procs && s.procs[q].Daemon? && s.procs[q].home && s.procs[q].tree == Release(x);
      assert t.procs[q] == s.procs[q];
    }
  }

  /** The daemons, of this runtime root and of others, run from the same releases in both states. */
  ghost predicate SameTrees(s: Sys, t: Sys) {
    ScratchTrees(s) == ScratchTrees(t) && HomeTrees(s) == HomeTrees(t)
  }

  /** Status, when it answers, names this root's tree; the holder probe, when it has evidence, all the others. */
  ghost predicate Truthful(status: StatusAnswer, held: Option<set<ReleaseId>>, s: Sys) {
    (status.Answered? ==> status.releases == HomeTrees(s)) && (held.Some? ==> ScratchTrees(s) <= held.value)
  }

  /** What the prune removes of the directories that were there before the install. */
  function Pruned(before: set<ReleaseId>, status: StatusAnswer, held: Option<set<ReleaseId>>, rmFails: set<ReleaseId>)
    : set<ReleaseId>
  {
    if status.NoAnswer? || held.None? then {} else before - status.releases - held.value - rmFails
  }

  /** What lets an old release stay: no status, no evidence of holders, or being reported, held or not removable. */
  ghost predicate Stays(x: ReleaseId, status: StatusAnswer, held: Option<set<ReleaseId>>, rmFails: set<ReleaseId>) {
    status.NoAnswer? || held.None? || x in status.releases || x in held.value || x in rmFails
  }

  /** After the cutover: the new release, and of the old ones those that stay, as they were. */
  ghost predicate Remains(releases: map<ReleaseId, Dir>, before: map<ReleaseId, Dir>, id: ReleaseId,
                          status: StatusAnswer, held: Option<set<ReleaseId>>, rmFails: set<ReleaseId>) {
    && (forall x :: x in releases <==> x == id || (x in before && Stays(x, status, held, rmFails)))
    && forall x | x in releases && x != id :: releases[x] == before[x]
  }

  lemma PruneLeaves(before: map<ReleaseId, Dir>, id: ReleaseId, dir: Dir, status: StatusAnswer,
                    held: Option<set<ReleaseId>>, rmFails: set<ReleaseId>)
    requires id !in before
    ensures Remains(before[id := dir] - Pruned(before.Keys, status, held, rmFails), before, id, status, held, rmFails)
  {
  }

  /** The release ids are the prefix and one or more of these characters: each is one name inside the release root. */
  lemma ValidIdIsAName(id: ReleaseId)
    ensures ValidReleaseId(id) <==>
              exists name: string :: name != "" && id == ID_PREFIX + name && forall c | c in name :: IdChar(c)
    ensures ValidReleaseId(id) ==> '/' !in id && id != "." && id != ".."
  {
    if ValidReleaseId(id) {
      var name := id[|ID_PREFIX|..];
      assert id == ID_PREFIX + name && forall i | 0 <= i < |name| :: name[i] == id[|ID_PREFIX| + i];
      assert id[0] == 'r' && '/' !in ID_PREFIX && '/' !in name;
    }
    if name: string :| name != "" && id == ID_PREFIX + name && forall c | c in name :: IdChar(c) {
      assert forall i | |ID_PREFIX| <= i < |id| :: id[i] == name[i - |ID_PREFIX|];
    }
  }

  /** Writing one directory twice. */
  lemma Overwrite(dirs: map<ReleaseId, Dir>, id: ReleaseId, a: Dir, b: Dir)
    ensures dirs[id := a][id := b] == dirs[id := b]
  {
  }

  /** One candidate done. */
  lemma OneDone(all: set<ReleaseId>, candidates: set<ReleaseId>, rmFails: set<ReleaseId>, x: ReleaseId)
    requires candidates <= all && x in candidates
    ensures all - (candidates - {x}) - rmFails
            == if x in rmFails then all - candidates - rmFails else all - candidates - rmFails + {x}
  {
  }

  lemma OneGone(dirs: map<ReleaseId, Dir>, removed: set<ReleaseId>, x: ReleaseId)
    ensures dirs - removed - {x} == dirs - (removed + {x})
  {
  }

  class InstallHost {
    var lock: Option<Pid>
    var owner: Option<Pid>
    var current: Option<Root>
    var releases: map<ReleaseId, Dir>
    ghost var sys: Sys

    ghost predicate Valid()
      reads this
    {
      sys.lock == lock && sys.owner == owner && sys.current == current && sys.releases == releases
    }

    /** The installer `me` of release `id` is in phase `ph` of a run that began in `start`. */
    ghost predicate At(start: Sys, me: Pid, id: ReleaseId, ph: InstallPhase)
      reads this
    {
      Valid() && RunBy(start, me, sys) && me in sys.procs && sys.procs[me] == Installer(id, ph)
    }

    /** The next action of the installer, as an event of the protocol. */
    ghost method Take(start: Sys, me: Pid, id: ReleaseId, ph: InstallPhase, e: Event)
      requires RunBy(start, me, sys) && me in sys.procs && sys.procs[me] == Installer(id, ph)
      requires !e.StartInstall? && !e.StartPublish? && !e.StartDaemon?
      requires InstallNext(sys, me, id, ph, e).Some?
      modifies this`sys
      ensures RunBy(start, me, sys) && sys == InstallNext(old(sys), me, id, ph, e).value
    {
      assert Next(sys, me, e) == InstallNext(sys, me, id, ph, e);
      RunByNext(start, me, sys, e);
      sys := InstallNext(sys, me, id, ph, e).value;
    }

    /** The deletion loop: one candidate at a time, a failed removal is recorded and skipped. */
    method DeleteCandidates(ghost start: Sys, me: Pid, id: ReleaseId, all: set<ReleaseId>, rmFails: set<ReleaseId>)
      returns (removed: set<ReleaseId>)
      requires At(start, me, id, Deleting(all))
      modifies this
      ensures At(start, me, id, Deleting({}))
      ensures lock == old(lock) && owner == old(owner) && current == old(current)
      ensures removed == all - rmFails && releases == old(releases) - removed
    {
      removed := {};
      var candidates := all;
      while candidates != {}
        invariant At(start, me, id, Deleting(candidates))
        invariant lock == old(lock) && owner == old(owner) && current == old(current)
        invariant candidates <= all && removed == all - candidates - rmFails
        invariant releases == old(releases) - removed
        decreases candidates
      {
        var name :| name in candidates;
        OneDone(all, candidates, rmFails, name);
        if name in rmFails {
          Take(start, me, id, Deleting(candidates), DeleteFails(name));
        } else {
          Take(start, me, id, Deleting(candidates), Delete(name));
          OneGone(old(releases), removed, name);
          releases := releases - {name};
          removed := removed + {name};
        }
        candidates := candidates - {name};
      }
    }

    /** The directory listing of the prune. */
    ghost method ListReleases(start: Sys, me: Pid, id: ReleaseId, keep: set<ReleaseId>)
      requires At(start, me, id, Asked(keep)) && current == Some(Release(id))
      modifies this`sys
      ensures At(start, me, id, Listed(releases.Keys - {id} - keep)) && SameTrees(old(sys), sys)
    {
      Take(start, me, id, Asked(keep), ListCandidates);
      InstallerTrees(old(sys), sys, me);
    }

    /**
     * `pruneReleaseDirs` as the installer calls it: everything but the new release, the reported one
     * and the held ones goes, and without live-holder evidence nothing does.
     */
    method PruneReleaseDirs(ghost start: Sys, me: Pid, id: ReleaseId, keep: set<ReleaseId>,
                            held: Option<set<ReleaseId>>, rmFails: set<ReleaseId>)
      returns (removed: set<ReleaseId>)
      requires At(start, me, id, Asked(keep)) && current == Some(Release(id))
      requires held.Some? ==> ScratchTrees(sys) <= held.value
      modifies this
      ensures At(start, me, id, Finishing(true))
      ensures lock == old(lock) && owner == old(owner) && current == old(current)
      ensures removed == if held.None? then {} else old(releases).Keys - {id} - keep - held.value - rmFails
      ensures releases == old(releases) - removed
    {
      var candidates := releases.Keys - {id} - keep;
      ListReleases(start, me, id, keep);
      if held.None? {
        Take(start, me, id, Listed(candidates), EndPrune);
        removed := {};
        assert releases == old(releases) - {};
      } else {
        removed := RemoveUnheld(start, me, id, candidates, held.value, rmFails);
      }
    }

    /** The holder probe and the deletions after it. */
    method RemoveUnheld(ghost start: Sys, me: Pid, id: ReleaseId, candidates: set<ReleaseId>, held: set<ReleaseId>,
                        rmFails: set<ReleaseId>)
      returns (removed: set<ReleaseId>)
      requires At(start, me, id, Listed(candidates)) && ScratchTrees(sys) <= held
      modifies this
      ensures At(start, me, id, Finishing(true))
      ensures lock == old(lock) && owner == old(owner) && current == old(current)
      ensures removed == candidates - held - rmFails && releases == old(releases) - removed
    {
      Take(start, me, id, Listed(candidates), Probe(held));
      removed := DeleteCandidates(start, me, id, candidates - held, rmFails);
      Take(start, me, id, Deleting({}), EndPrune);
    }

    /** `pruneAfterCutover`: an unanswered status prunes nothing, and no failure here fails the install. */
    method PruneAfterCutover(ghost start: Sys, me: Pid, id: ReleaseId, status: StatusAnswer,
                             held: Option<set<ReleaseId>>, rmFails: set<ReleaseId>)
      returns (removed: set<ReleaseId>)
      requires At(start, me, id, CutOver) && current == Some(Release(id))
      requires Truthful(status, held, sys)
      modifies this
      ensures At(start, me, id, Finishing(true))
      ensures lock == old(lock) && owner == old(owner) && current == old(current)
      ensures removed == Pruned(old(releases).Keys - {id}, status, held, rmFails)
      ensures releases == old(releases) - removed
    {
      if status.NoAnswer? {
        Take(start, me, id, CutOver, EndPrune);
        removed := {};
        assert releases == old(releases) - {};
      } else {
        Take(start, me, id, CutOver, AskStatus);
        InstallerTrees(old(sys), sys, me);
        removed := PruneReleaseDirs(start, me, id, status.releases, held, rmFails);
      }
    }

    /** A throw inside the try block: clean up if the directory was made, only give the lock back otherwise. */
    ghost method Throw(start: Sys, me: Pid, id: ReleaseId, ph: InstallPhase)
      requires At(start, me, id, ph)
      requires ph.Begin? || ph.Booted? || ph.Created? || ph.Manifested? || ph.Checked?
      modifies this`sys
      ensures At(start, me, id, if ph.Begin? || ph.Booted? then Finishing(false) else Cleaning)
    {
      Take(start, me, id, ph, Fail);
    }

    /** `bootstrapInstalledSurface`: a missing link is made, a present one has to lead somewhere. */
    method BootstrapLink(ghost start: Sys, me: Pid, id: ReleaseId, root: string, fails: Point -> bool)
      returns (ok: bool)
      requires At(start, me, id, Begin)
      modifies this`current, this`sys
      ensures ok <==> !fails(Bootstrapping) && !Dangles(old(current), releases)
      ensures ok ==> At(start, me, id, Booted) && SameTrees(old(sys), sys)
      ensures ok ==> current == if old(current).None? then Some(Checkout(root)) else old(current)
      ensures !ok ==> At(start, me, id, Finishing(false)) && current == old(current)
    {
      if fails(Bootstrapping) || Dangles(current, releases) {
        Throw(start, me, id, Begin);
        return false;
      }
      Take(start, me, id, Begin, Bootstrap(root));
      if current.None? {
        current := Some(Checkout(root));
      }
      InstallerTrees(old(sys), sys, me);
      ok := true;
    }

    method MakeReleaseDir(ghost start: Sys, me: Pid, id: ReleaseId)
      requires At(start, me, id, Booted) && id !in releases
      modifies this`releases, this`sys
      ensures At(start, me, id, Created) && SameTrees(old(sys), sys)
      ensures releases == old(releases)[id := Dir(None, false)]
    {
      Take(start, me, id, Booted, MakeRelease);
      releases := releases[id := Dir(None, false)];
      InstallerTrees(old(sys), sys, me);
    }

    method RunPreparation(ghost start: Sys, me: Pid, id: ReleaseId, draft: Option<Manifest>)
      requires At(start, me, id, Created) && id in releases
      modifies this`releases, this`sys
      ensures At(start, me, id, Created) && SameTrees(old(sys), sys)
      ensures releases == old(releases)[id := Dir(draft, false)]
    {
      Take(start, me, id, Created, Prepare(draft));
      releases := releases[id := Dir(draft, false)];
      InstallerTrees(old(sys), sys, me);
    }

    method WriteReleaseManifest(ghost start: Sys, me: Pid, id: ReleaseId, build: Build)
      requires At(start, me, id, Created) && id in releases
      modifies this`releases, this`sys
      ensures At(start, me, id, Manifested) && SameTrees(old(sys), sys)
      ensures releases == old(releases)[id := Dir(Some(Manifest(id, build)), false)]
    {
      Take(start, me, id, Created, WriteManifest(build));
      releases := releases[id := Dir(Some(Manifest(id, build)), false)];
      InstallerTrees(old(sys), sys, me);
    }

    /** `validateReleaseShape`: a manifest that is missing or names another release is rejected. */
    method ValidateReleaseShape(ghost start: Sys, me: Pid, id: ReleaseId, fails: Point -> bool) returns (ok: bool)
      requires At(start, me, id, Manifested) && id in releases
      modifies this`releases, this`sys
      ensures ok <==> !fails(Validating) && old(releases)[id].manifest.Some?
                      && old(releases)[id].manifest.value.releaseId == id
      ensures ok ==> At(start, me, id, Checked) && SameTrees(old(sys), sys)
                     && releases == old(releases)[id := old(releases)[id].(validated := true)]
      ensures !ok ==> At(start, me, id, Cleaning) && releases == old(releases)
    {
      if fails(Validating) || releases[id].manifest.None? || releases[id].manifest.value.releaseId != id {
        Throw(start, me, id, Manifested);
        return false;
      }
      Take(start, me, id, Manifested, Validate);
      releases := releases[id := releases[id].(validated := true)];
      InstallerTrees(old(sys), sys, me);
      ok := true;
    }

    method SwitchLink(ghost start: Sys, me: Pid, id: ReleaseId)
      requires At(start, me, id, Checked)
      modifies this`current, this`sys
      ensures At(start, me, id, CutOver) && SameTrees(old(sys), sys) && current == Some(Release(id))
    {
      Take(start, me, id, Checked, Rename);
      current := Some(Release(id));
      InstallerTrees(old(sys), sys, me);
    }

    /** Write the manifest under the release's own id, then validate the shape. */
    method ManifestAndCheck(ghost start: Sys, me: Pid, id: ReleaseId, build: Build, fails: Point -> bool)
      returns (failure: Option<Point>)
      requires At(start, me, id, Created) && id in releases
      modifies this`releases, this`sys
      ensures id in releases && releases == old(releases)[id := releases[id]]
      ensures failure == if fails(Validating) then Some(Validating) else None
      ensures failure.Some? ==> At(start, me, id, Cleaning)
      ensures failure.None? ==> At(start, me, id, Checked) && SameTrees(old(sys), sys)
                                  && releases[id] == Dir(Some(Manifest(id, build)), true)
    {
      WriteReleaseManifest(start, me, id, build);
      var written := releases[id];
      var ok := ValidateReleaseShape(start, me, id, fails);
      Overwrite(old(releases), id, written, releases[id]);
      failure := if ok then None else Some(Validating);
    }

    /** Prepare the tree, then its manifest and its shape. */
    method PrepareAndCheck(ghost start: Sys, me: Pid, id: ReleaseId, draft: Option<Manifest>, build: Build,
                           fails: Point -> bool)
      returns (failure: Option<Point>)
      requires At(start, me, id, Created) && id in releases
      modifies this`releases, this`sys
      ensures id in releases && releases == old(releases)[id := releases[id]]
      ensures failure == PrepareBreak(fails)
      ensures failure.Some? ==> At(start, me, id, Cleaning)
      ensures failure.None? ==> At(start, me, id, Checked) && SameTrees(old(sys), sys)
                                  && releases[id] == Dir(Some(Manifest(id, build)), true)
    {
      RunPreparation(start, me, id, draft);
      if fails(Preparing) {
        Throw(start, me, id, Created);
        return Some(Preparing);
      }
      if fails(ManifestWrite) {
        Throw(start, me, id, Created);
        return Some(ManifestWrite);
      }
      failure := ManifestAndCheck(start, me, id, build, fails);
      Overwrite(old(releases), id, Dir(draft, false), releases[id]);
    }

    /** The link and the directory of the release, before it is built; `created` is the source's flag. */
    method BeginRelease(ghost start: Sys, me: Pid, id: ReleaseId, root: string, fails: Point -> bool)
      returns (failure: Option<Point>, created: bool)
      requires At(start, me, id, Begin)
      modifies this`current, this`releases, this`sys
      ensures failure == BeginBreak(Start(old(current), old(releases), id, fails))
      ensures created <==> failure.None?
      ensures current == old(current) || (old(current).None? && current == Some(Checkout(root)))
      ensures !created ==> At(start, me, id, Finishing(false)) && releases == old(releases)
      ensures created ==> At(start, me, id, Created) && SameTrees(old(sys), sys)
                          && id !in old(releases) && releases == old(releases)[id := Dir(None, false)]
      ensures created ==> old(current) != Some(Release(id))
    {
      created := false;
      var booted := BootstrapLink(start, me, id, root, fails);
      if !booted {
        return Some(Bootstrapping), created;
      }
      if fails(LinkingSurface) {
        Throw(start, me, id, Booted);
        return Some(LinkingSurface), created;
      }
      if fails(MakingRelease) || id in releases {
        Throw(start, me, id, Booted);
        return Some(MakingRelease), created;
      }
      MakeReleaseDir(start, me, id);
      failure, created := None, true;
    }

    /** The try block before the cutover. */
    method BuildRelease(ghost start: Sys, me: Pid, id: ReleaseId, root: string, draft: Option<Manifest>, build: Build,
                        fails: Point -> bool)
      returns (failure: Option<Point>, created: bool)
      requires At(start, me, id, Begin)
      modifies this`current, this`releases, this`sys
      ensures failure == BuildBreak(Start(old(current), old(releases), id, fails))
      ensures created <==> failure.None? || Made(failure.value)
      ensures failure.Some? ==> At(start, me, id, if created then Cleaning else Finishing(false))
      ensures !created ==> releases == old(releases)
      ensures created ==> id !in old(releases) && id in releases && releases == old(releases)[id := releases[id]]
      ensures created ==> old(current) != Some(Release(id))
      ensures current == old(current) || (old(current).None? && current == Some(Checkout(root)))
      ensures failure.None? ==> At(start, me, id, Checked) && SameTrees(old(sys), sys)
                                && releases[id] == Dir(Some(Manifest(id, build)), true)
    {
      failure, created := BeginRelease(start, me, id, root, fails);
      if failure.None? {
        failure := PrepareAndCheck(start, me, id, draft, build, fails);
        Overwrite(old(releases), id, Dir(None, false), releases[id]);
      }
    }

    /** The rename and the prune after it. */
    method CutOverAndPrune(ghost start: Sys, me: Pid, id: ReleaseId, status: StatusAnswer,
                           held: Option<set<ReleaseId>>, rmFails: set<ReleaseId>)
      requires At(start, me, id, Checked) && Truthful(status, held, sys)
      modifies this
      ensures lock == old(lock) && owner == old(owner)
      ensures At(start, me, id, Finishing(true)) && current == Some(Release(id))
      ensures releases == old(releases) - Pruned(old(releases).Keys - {id}, status, held, rmFails)
    {
      SwitchLink(start, me, id);
      var removed := PruneAfterCutover(start, me, id, status, held, rmFails);
    }

    /** The whole try block. `created` and `cutover` are the source's two flags. */
    method TryInstall(ghost start: Sys, me: Pid, id: ReleaseId, root: string, draft: Option<Manifest>, build: Build,
                      fails: Point -> bool, status: StatusAnswer, held: Option<set<ReleaseId>>,
                      rmFails: set<ReleaseId>)
      returns (failure: Option<Point>, created: bool, cutover: bool)
      requires At(start, me, id, Begin)
      requires Truthful(status, held, sys)
      modifies this
      ensures lock == old(lock) && owner == old(owner)
      ensures failure == TryBreak(Start(old(current), old(releases), id, fails))
      ensures failure.None? <==> cutover
      ensures created <==> failure.None? || Made(failure.value)
      ensures !created ==> At(start, me, id, Finishing(false)) && !cutover && releases == old(releases)
      ensures created ==> id !in old(releases) && id in releases && old(current) != Some(Release(id))
      ensures created && !cutover ==> At(start, me, id, Cleaning) && releases == old(releases)[id := releases[id]]
      ensures !cutover ==> current == old(current) || (old(current).None? && current == Some(Checkout(root)))
      ensures cutover ==> created && At(start, me, id, Finishing(true)) && current == Some(Release(id))
                          && releases == old(releases)[id := Dir(Some(Manifest(id, build)), true)]
                                         - Pruned(old(releases).Keys, status, held, rmFails)
    {
      cutover := false;
      failure, created := BuildRelease(start, me, id, root, draft, build, fails);
      if failure.Some? {
        return;
      }
      if fails(Renaming) {
        Throw(start, me, id, Checked);
        failure := Some(Renaming);
        return;
      }
      assert releases.Keys - {id} == old(releases).Keys;
      CutOverAndPrune(start, me, id, status, held, rmFails);
      cutover := true;
    }

    /** The directory creation of `acquireInstallLock`. */
    method MakeLock(me: Pid, id: ReleaseId)
      requires Valid() && me !in sys.procs && lock.None? && owner.None?
      modifies this`lock, this`sys
      ensures At(old(sys), me, id, LockDir) && lock == Some(me) && SameTrees(old(sys), sys)
    {
      ghost var start := sys;
      RunByNothing(sys, me);
      RunByNext(start, me, sys, StartInstall(id));
      sys := Next(sys, me, StartInstall(id)).value;
      lock := Some(me);
      StartTrees(start, sys, me);
    }

    /** `acquireInstallLock` when the directory was free. */
    method AcquireLock(me: Pid, id: ReleaseId, fails: Point -> bool) returns (ok: bool)
      requires Valid() && me !in sys.procs && lock.None? && owner.None?
      modifies this`lock, this`owner, this`sys
      ensures lock == Some(me) && SameTrees(old(sys), sys)
      ensures ok <==> !fails(OwnerWrite)
      ensures ok ==> At(old(sys), me, id, Begin) && owner == Some(me)
      ensures !ok ==> Valid() && RunBy(old(sys), me, sys) && owner == None
    {
      ghost var start := sys;
      MakeLock(me, id);
      ghost var made := sys;
      if fails(OwnerWrite) {
        Take(start, me, id, LockDir, Fail);
        InstallerLeaves(made, sys, me);
        return false;
      }
      Take(start, me, id, LockDir, WriteOwner);
      owner := Some(me);
      InstallerLeaves(made, sys, me);
      ok := true;
    }

    /** The release closure: a foreign token is refused, a missing one is not. */
    method ReleaseLock(ghost start: Sys, me: Pid, id: ReleaseId, ghost done: bool, fails: Point -> bool)
      returns (ok: bool)
      requires At(start, me, id, Finishing(done)) && lock == Some(me)
      modifies this`lock, this`owner, this`sys
      ensures Valid() && RunBy(start, me, sys)
      ensures ok <==> !fails(ReleasingLock) && (old(owner).None? || old(owner) == Some(me))
      ensures ok ==> lock == None && owner == None
      ensures !ok ==> lock == old(lock) && owner == old(owner)
    {
      if fails(ReleasingLock) || (owner.Some? && owner != Some(me)) {
        Take(start, me, id, Finishing(done), Fail);
        return false;
      }
      Take(start, me, id, Finishing(done), Unlock);
      lock, owner := None, None;
      ok := true;
    }

    /** The clean-up of the finally block: only the directory this install made. */
    method RemoveOwnRelease(ghost start: Sys, me: Pid, id: ReleaseId, fails: Point -> bool) returns (ok: bool)
      requires At(start, me, id, Cleaning)
      modifies this`releases, this`sys
      ensures ok <==> !fails(CleaningUp)
      ensures ok ==> At(start, me, id, Finishing(false)) && releases == old(releases) - {id}
      ensures !ok ==> Valid() && RunBy(start, me, sys) && releases == old(releases)
    {
      if fails(CleaningUp) {
        Take(start, me, id, Cleaning, Fail);
        return false;
      }
      Take(start, me, id, Cleaning, CleanUp);
      releases := releases - {id};
      ok := true;
    }

    /** The finally block: clean up an own directory that was not selected, then give the lock back. */
    method Finally(ghost start: Sys, me: Pid, id: ReleaseId, fails: Point -> bool, failure: Option<Point>,
                   created: bool)
      returns (r: Outcome)
      requires created <==> failure.None? || Made(failure.value)
      requires At(start, me, id, if created && failure.Some? then Cleaning else Finishing(failure.None?))
      requires lock == Some(me) && owner == Some(me) && (failure.Some? ==> Rank(failure.value) > 0)
      modifies this
      ensures Valid() && RunBy(start, me, sys) && current == old(current)
      ensures r == EndOutcome(failure, fails)
      ensures releases == if created && failure.Some? && !fails(CleaningUp) then old(releases) - {id} else old(releases)
      ensures r.Installed? || (r.Failed? && Rank(r.at) > 0) ==> lock == None && owner == None
      ensures r.Failed? && Rank(r.at) == 0 ==> lock == Some(me)
    {
      if failure.Some? && created {
        var cleaned := RemoveOwnRelease(start, me, id, fails);
        if !cleaned {
          return Failed(CleaningUp, false);
        }
      }
      var ok := ReleaseLock(start, me, id, failure.None?, fails);
      if !ok {
        return Failed(ReleasingLock, failure.None?);
      }
      r := if failure.Some? then Failed(failure.value, false) else Installed;
    }

    /** The install from the lock on: the try block and the finally block. */
    method InstallInLock(ghost start: Sys, me: Pid, id: ReleaseId, root: string, draft: Option<Manifest>, build: Build,
                         fails: Point -> bool, status: StatusAnswer, held: Option<set<ReleaseId>>,
                         rmFails: set<ReleaseId>)
      returns (r: Outcome)
      requires At(start, me, id, Begin) && lock == Some(me) && owner == Some(me)
      requires Truthful(status, held, sys)
      modifies this
      ensures Valid() && RunBy(start, me, sys)
      ensures r == EndOutcome(TryBreak(Start(old(current), old(releases), id, fails)), fails)
      ensures r.Installed? || (r.Failed? && r.cutover) ==>
                current == Some(Release(id)) && id !in old(releases) && old(current) != Some(Release(id))
                && releases == old(releases)[id := Dir(Some(Manifest(id, build)), true)]
                               - Pruned(old(releases).Keys, status, held, rmFails)
      ensures r.Failed? && !r.cutover ==>
                current == old(current) || (old(current).None? && current == Some(Checkout(root)))
      ensures r.Failed? && !r.cutover && r.at != CleaningUp ==> releases == old(releases)
      ensures r.Failed? && !r.cutover && r.at == CleaningUp ==>
                id !in old(releases) && id in releases && releases == old(releases)[id := releases[id]]
      ensures r.Installed? || (r.Failed? && Rank(r.at) > 0) ==> lock == None && owner == None
      ensures r.Failed? && Rank(r.at) == 0 ==> lock == Some(me)
    {
      var failure, created, cutover := TryInstall(start, me, id, root, draft, build, fails, status, held, rmFails);
      assert created && !cutover ==> releases - {id} == old(releases);
      r := Finally(start, me, id, fails, failure, created);
    }

    /**
     * `installAtomicRelease` over all failure points. The outcome is told from the start: the id, the lock, the
     * link, the directories and which actions fail. A failing install leaves every release it did not make, and
     * a link that was present, exactly as they were; the one exception is the failure to give the lock back
     * after a completed cutover.
     */
    method InstallAtomicRelease(me: Pid, id: ReleaseId, root: string, draft: Option<Manifest>, build: Build,
                                fails: Point -> bool, status: StatusAnswer, held: Option<set<ReleaseId>>,
                                rmFails: set<ReleaseId>)
      returns (r: Outcome)
      requires Valid() && me !in sys.procs && (lock.None? ==> owner.None?)
      requires Truthful(status, held, sys)
      modifies this
      ensures Valid() && RunBy(old(sys), me, sys)
      ensures r == InstallOutcome(Start(old(current), old(releases), id, fails), old(lock).Some?)
      // what it leaves
      ensures r.InvalidId? || r.LockHeld? ==>
                lock == old(lock) && owner == old(owner) && current == old(current) && releases == old(releases)
      ensures r.Installed? || (r.Failed? && r.cutover) ==>
                current == Some(Release(id)) && id !in old(releases)
                && releases == old(releases)[id := Dir(Some(Manifest(id, build)), true)]
                               - Pruned(old(releases).Keys, status, held, rmFails)
      ensures r.Installed? || (r.Failed? && r.cutover) ==> Remains(releases, old(releases), id, status, held, rmFails)
      ensures r.Failed? && old(current).Some? ==> (current != old(current) <==> r.cutover)
      ensures r.Failed? && !r.cutover && r.at != CleaningUp ==> releases == old(releases)
      ensures r.Failed? && !r.cutover && r.at == CleaningUp ==>
                id !in old(releases) && id in releases && releases == old(releases)[id := releases[id]]
      ensures r.Installed? || (r.Failed? && Rank(r.at) > 0) ==> lock == None && owner == None
      ensures r.Failed? && Rank(r.at) == 0 ==> lock == Some(me)
    {
      RunByNothing(sys, me);
      if !ValidReleaseId(id) {
        return InvalidId;
      }
      if lock.Some? {
        return LockHeld;
      }
      ghost var start := sys;
      var ok := AcquireLock(me, id, fails);
      if !ok {
        return Failed(OwnerWrite, false);
      }
      r := InstallInLock(start, me, id, root, draft, build, fails, status, held, rmFails);
      if r.Installed? || (r.Failed? && r.cutover) {
        PruneLeaves(old(releases), id, Dir(Some(Manifest(id, build)), true), status, held, rmFails);
      }
    }
  }
}
