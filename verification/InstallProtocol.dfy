/**
 * Installers, canonical publishers and daemons of one host as a transition system.
 *
 * Every process is a program counter; every event below is one filesystem, registry or
 * process action, so any interleaving, and a crash between any two actions, is a run.
 * Daemons prune old releases at startup without the install lock, exactly as the
 * installer does with it, and the two are interleaved candidate by candidate.
 */
module InstallProtocol {
  import opened Options

  type Pid = nat
  type ReleaseId = string

  /** What `hrc-runtime-current` (or a daemon) resolves to. */
  datatype Root = Checkout(path: string) | Release(id: ReleaseId)

  datatype Build = Build(version: string, commit: string)
  datatype Manifest = Manifest(releaseId: ReleaseId, build: Build)

  /** A directory under the release root; `validated` records that its shape was checked. */
  datatype Dir = Dir(manifest: Option<Manifest>, validated: bool)

  type Key = (string, string)

  datatype InstallPhase =
    | LockDir                                  // lock directory made, owner file not yet written
    | Begin
    | Booted
    | Created
    | Manifested
    | Checked
    | CutOver
    | Asked(keep: set<ReleaseId>)
    | Listed(listed: set<ReleaseId>)
    | Deleting(doomed: set<ReleaseId>)
    | Cleaning                                 // failed before the cutover, own directory still there
    | Finishing(done: bool)

  datatype PublishPhase =
    | PLockDir
    | PBegin
    | Selected(rel: ReleaseId, man: Manifest)
    | Loop(rel: ReleaseId, man: Manifest, next: nat)
    | Putting(rel: ReleaseId, man: Manifest, next: nat, sure: bool) // whether the last read was answered
    | Proved(rel: ReleaseId, man: Manifest)
    | PFinishing

  datatype PrunePhase =
    | NotPruning
    | LockFree
    | Matched
    | DListed(candidates: set<ReleaseId>)
    | DDeleting(victims: set<ReleaseId>)

  datatype Proc =
    | Installer(id: ReleaseId, phase: InstallPhase)
    | Publisher(packages: seq<string>, pub: PublishPhase)
    | Daemon(tree: Root, home: bool, prune: PrunePhase)
    | Dead

  datatype Sys = Sys(
    lock: Option<Pid>,
    owner: Option<Pid>,
    current: Option<Root>,
    releases: map<ReleaseId, Dir>,
    registry: map<Key, Build>,
    procs: map<Pid, Proc>)

  datatype Event =
    | StartInstall(id: ReleaseId)
    | StartPublish(packages: seq<string>)
    | StartDaemon(home: bool)
    | WriteOwner
    | Bootstrap(root: string)
    | MakeRelease
    | Prepare(draft: Option<Manifest>)
    | WriteManifest(build: Build)
    | Validate
    | Rename
    | AskStatus
    | ListCandidates
    | Probe(seen: set<ReleaseId>)
    | Delete(victim: ReleaseId)
    | DeleteFails(victim: ReleaseId)
    | EndPrune
    | Fail
    | CleanUp
    | Unlock
    | Select
    | Inspect(blind: set<string>, again: set<string>) // the packages whose read goes unanswered, in each round
    | CheckMissing(answered: bool)
    | Put
    | Prove
    | SeeLockFree
    | SeeCurrent
    | Crash

  /** The order `<` puts on release ids: by first differing character, a prefix first. */
  predicate Older(a: ReleaseId, b: ReleaseId) {
    |b| > 0 && (|a| == 0 || a[0] < b[0] || (a[0] == b[0] && Older(a[1..], b[1..])))
  }

  function Set(s: Sys, p: Pid, proc: Proc): Sys {
    s.(procs := s.procs[p := proc])
  }

  predicate Resolves(s: Sys) {
    s.current.Some? && (s.current.value.Release? ==> s.current.value.id in s.releases)
  }

  /** The releases that daemons of this runtime root (`home`), and of other roots, run from. */
  function HomeTrees(s: Sys): set<ReleaseId> {
    set q | q in s.procs && s.procs[q].Daemon? && s.procs[q].home && s.procs[q].tree.Release? :: s.procs[q].tree.id
  }

  function ScratchTrees(s: Sys): set<ReleaseId> {
    set q | q in s.procs && s.procs[q].Daemon? && !s.procs[q].home && s.procs[q].tree.Release? :: s.procs[q].tree.id
  }

  function PackageKey(man: Manifest, name: string): Key {
    (name, man.build.version)
  }

  /** What a read of the registry shows: an unanswered one shows nothing. */
  predicate Shown(s: Sys, man: Manifest, name: string, answered: bool) {
    answered && PackageKey(man, name) in s.registry
  }

  predicate AllShown(s: Sys, packages: seq<string>, man: Manifest, blind: set<string>) {
    forall i | 0 <= i < |packages| :: Shown(s, man, packages[i], packages[i] !in blind)
  }

  predicate NoneShown(s: Sys, packages: seq<string>, man: Manifest, blind: set<string>) {
    forall i | 0 <= i < |packages| :: !Shown(s, man, packages[i], packages[i] !in blind)
  }

  predicate AllProved(s: Sys, packages: seq<string>, man: Manifest) {
    forall i | 0 <= i < |packages| ::
      PackageKey(man, packages[i]) in s.registry && s.registry[PackageKey(man, packages[i])] == man.build
  }

  /** `acquireInstallLock`: the directory creation is the test-and-set. */
  function Acquire(s: Sys, p: Pid, proc: Proc): Option<Sys> {
    if p !in s.procs && s.lock.None? then Some(Set(s, p, proc).(lock := Some(p))) else None
  }

  /** The release closure: refuse a foreign owner token, otherwise remove the directory. */
  function GiveLockBack(s: Sys, p: Pid): Option<Sys> {
    if s.owner == None || s.owner == Some(p) then Some(Set(s, p, Dead).(lock := None, owner := None)) else None
  }

  /** An installer's actions; a failure before the cutover leads to the clean-up of its own directory. */
  function InstallNext(s: Sys, p: Pid, id: ReleaseId, ph: InstallPhase, e: Event): Option<Sys> {
    match e
    case WriteOwner =>
      if ph.LockDir? then Some(Set(s, p, Installer(id, Begin)).(owner := Some(p))) else None
    case Bootstrap(root) =>
      if !ph.Begin? then None
      else if s.current.None? then Some(Set(s, p, Installer(id, Booted)).(current := Some(Checkout(root))))
      else if Resolves(s) then Some(Set(s, p, Installer(id, Booted)))
      else None
    case MakeRelease =>
      if ph.Booted? && id !in s.releases
      then Some(Set(s, p, Installer(id, Created)).(releases := s.releases[id := Dir(None, false)]))
      else None
    case Prepare(draft) =>
      if ph.Created? && id in s.releases
      then Some(Set(s, p, Installer(id, Created)).(releases := s.releases[id := Dir(draft, false)]))
      else None
    case WriteManifest(build) =>
      if ph.Created? && id in s.releases
      then Some(Set(s, p, Installer(id, Manifested)).(
                  releases := s.releases[id := Dir(Some(Manifest(id, build)), false)]))
      else None
    case Validate =>
      if ph.Manifested? && id in s.releases
         && s.releases[id].manifest.Some? && s.releases[id].manifest.value.releaseId == id
      then Some(Set(s, p, Installer(id, Checked)).(
                  releases := s.releases[id := s.releases[id].(validated := true)]))
      else None
    case Rename =>
      if ph.Checked? then Some(Set(s, p, Installer(id, CutOver)).(current := Some(Release(id)))) else None
    case AskStatus =>
      if ph.CutOver? then Some(Set(s, p, Installer(id, Asked(HomeTrees(s))))) else None
    case ListCandidates =>
      if ph.Asked? && s.current == Some(Release(id))
      then Some(Set(s, p, Installer(id, Listed(s.releases.Keys - {id} - ph.keep))))
      else None
    case Probe(seen) =>
      if ph.Listed? && ScratchTrees(s) <= seen
      then Some(Set(s, p, Installer(id, Deleting(ph.listed - seen))))
      else None
    case Delete(x) =>
      if ph.Deleting? && x in ph.doomed
      then Some(Set(s, p, Installer(id, Deleting(ph.doomed - {x}))).(releases := s.releases - {x}))
      else None
    case DeleteFails(x) =>
      if ph.Deleting? && x in ph.doomed then Some(Set(s, p, Installer(id, Deleting(ph.doomed - {x})))) else None
    case EndPrune =>
      if ph.CutOver? || ph.Asked? || ph.Listed? || ph.Deleting?
      then Some(Set(s, p, Installer(id, Finishing(true))))
      else None
    case Fail =>
      if ph.LockDir? || ph.Cleaning? || ph.Finishing? then Some(Set(s, p, Dead))
      else if ph.Begin? || ph.Booted? then Some(Set(s, p, Installer(id, Finishing(false))))
      else if ph.Created? || ph.Manifested? || ph.Checked? then Some(Set(s, p, Installer(id, Cleaning)))
      else None
    case CleanUp =>
      if ph.Cleaning?
      then Some(Set(s, p, Installer(id, Finishing(false))).(releases := s.releases - {id}))
      else None
    case Unlock => if ph.Finishing? then GiveLockBack(s, p) else None
    case Crash => Some(Set(s, p, Dead))
    case _ => None
  }

  /** A canonical publisher's actions. */
  function PublishNext(s: Sys, p: Pid, pk: seq<string>, ph: PublishPhase, e: Event): Option<Sys> {
    match e
    case WriteOwner => if ph.PLockDir? then Some(Set(s, p, Publisher(pk, PBegin)).(owner := Some(p))) else None
    case Select =>
      if ph.PBegin? && Resolves(s) && s.current.value.Release? && s.releases[s.current.value.id].manifest.Some?
      then Some(Set(s, p, Publisher(pk, Selected(s.current.value.id, s.releases[s.current.value.id].manifest.value))))
      else None
    case Inspect(blind, again) =>
      if !ph.Selected? then None
      else if AllShown(s, pk, ph.man, blind) then Some(Set(s, p, Publisher(pk, Loop(ph.rel, ph.man, |pk|))))
      else if NoneShown(s, pk, ph.man, blind) || NoneShown(s, pk, ph.man, again)
      then Some(Set(s, p, Publisher(pk, Loop(ph.rel, ph.man, 0))))
      else Some(Set(s, p, Publisher(pk, PFinishing)))
    case CheckMissing(answered) =>
      if !ph.Loop? || ph.next >= |pk| then None
      else if Shown(s, ph.man, pk[ph.next], answered) then Some(Set(s, p, Publisher(pk, PFinishing)))
      else Some(Set(s, p, Publisher(pk, Putting(ph.rel, ph.man, ph.next, answered))))
    case Put =>
      if ph.Putting? && ph.next < |pk|
      then Some(Set(s, p, Publisher(pk, Loop(ph.rel, ph.man, ph.next + 1))).(
                  registry := s.registry[PackageKey(ph.man, pk[ph.next]) := ph.man.build]))
      else None
    case Prove =>
      if ph.Loop? && ph.next == |pk| && AllProved(s, pk, ph.man)
         && s.current == Some(Release(ph.rel)) && ph.rel in s.releases && s.releases[ph.rel].manifest == Some(ph.man)
      then Some(Set(s, p, Publisher(pk, Proved(ph.rel, ph.man))))
      else None
    case Unlock => if ph.Proved? || ph.PFinishing? then GiveLockBack(s, p) else None
    case Fail =>
      if ph.PLockDir? || ph.Proved? || ph.PFinishing? then Some(Set(s, p, Dead))
      else Some(Set(s, p, Publisher(pk, PFinishing)))
    case Crash => Some(Set(s, p, Dead))
    case _ => None
  }

  /** A daemon's startup prune, which takes no lock: it looks for the lock directory once and goes on. */
  function DaemonNext(s: Sys, p: Pid, d: Proc, e: Event): Option<Sys>
    requires d.Daemon?
  {
    match e
    case SeeLockFree =>
      if d.prune.NotPruning? && s.lock.None? && d.tree.Release? then Some(Set(s, p, d.(prune := LockFree))) else None
    case SeeCurrent =>
      if d.prune.LockFree? && s.current == Some(d.tree) && Resolves(s) && d.tree.Release?
      then Some(Set(s, p, d.(prune := Matched)))
      else None
    case ListCandidates =>
      if d.prune.Matched? && d.tree.Release?
      then Some(Set(s, p, d.(prune := DListed(set x | x in s.releases && Older(x, d.tree.id)))))
      else None
    case Probe(seen) =>
      if d.prune.DListed? && ScratchTrees(s) + HomeTrees(s) <= seen
      then Some(Set(s, p, d.(prune := DDeleting(d.prune.candidates - seen))))
      else None
    case Delete(x) =>
      if d.prune.DDeleting? && x in d.prune.victims
      then Some(Set(s, p, d.(prune := DDeleting(d.prune.victims - {x}))).(releases := s.releases - {x}))
      else None
    case DeleteFails(x) =>
      if d.prune.DDeleting? && x in d.prune.victims
      then Some(Set(s, p, d.(prune := DDeleting(d.prune.victims - {x}))))
      else None
    case EndPrune => Some(Set(s, p, d.(prune := NotPruning)))
    case Crash => Some(Set(s, p, Dead))
    case _ => None
  }

  /** One event of process p; None when p cannot take it in this state. */
  function Next(s: Sys, p: Pid, e: Event): Option<Sys> {
    match e
    case StartInstall(id) => Acquire(s, p, Installer(id, LockDir))
    case StartPublish(pk) => Acquire(s, p, Publisher(pk, PLockDir))
    case StartDaemon(home) =>
      if p !in s.procs && Resolves(s)
         && (home ==> forall q | q in s.procs :: !(s.procs[q].Daemon? && s.procs[q].home))
      then Some(Set(s, p, Daemon(s.current.value, home, NotPruning)))
      else None
    case _ =>
      if p !in s.procs then None
      else match s.procs[p]
        case Installer(id, ph) => InstallNext(s, p, id, ph, e)
        case Publisher(pk, ph) => PublishNext(s, p, pk, ph, e)
        case Daemon(_, _, _) => DaemonNext(s, p, s.procs[p], e)
        case Dead => None
  }

  type Step = (Pid, Event)

  /** The state after a whole interleaving. */
  function Run(s: Sys, steps: seq<Step>): Option<Sys>
    decreases |steps|
  {
    if steps == [] then Some(s)
    else
      var r := Next(s, steps[0].0, steps[0].1);
      if r.None? then None else Run(r.value, steps[1..])
  }

  lemma {:induction false} RunSnoc(s: Sys, steps: seq<Step>, t: Sys, p: Pid, e: Event)
    requires Run(s, steps) == Some(t) && Next(t, p, e).Some?
    ensures Run(s, steps + [(p, e)]) == Next(t, p, e)
    decreases |steps|
  {
    if steps == [] {
      assert Run(s, [(p, e)]) == Run(Next(s, p, e).value, [(p, e)][1..]);
    } else {
      assert (steps + [(p, e)])[1..] == steps[1..] + [(p, e)];
      RunSnoc(Next(s, steps[0].0, steps[0].1).value, steps[1..], t, p, e);
    }
  }

  /** t is reached from s by events of process p alone. */
  ghost predicate RunBy(s: Sys, p: Pid, t: Sys) {
    exists steps: seq<Step> :: (forall i | 0 <= i < |steps| :: steps[i].0 == p) && Run(s, steps) == Some(t)
  }

  lemma RunByNothing(s: Sys, p: Pid)
    ensures RunBy(s, p, s)
  {
    var none: seq<Step> := [];
    assert Run(s, none) == Some(s);
  }

  lemma RunByNext(s: Sys, p: Pid, t: Sys, e: Event)
    requires RunBy(s, p, t) && Next(t, p, e).Some?
    ensures RunBy(s, p, Next(t, p, e).value)
  {
    var steps: seq<Step> :| (forall i | 0 <= i < |steps| :: steps[i].0 == p) && Run(s, steps) == Some(t);
    RunSnoc(s, steps, t, p, e);
    assert forall i | 0 <= i < |steps + [(p, e)]| :: (steps + [(p, e)])[i].0 == p;
  }
}
