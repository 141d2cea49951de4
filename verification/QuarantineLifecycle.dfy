/** The non-transactional quarantine lifecycle as a machine over its commits and filesystem steps:
    executing a quarantine item, restoring, purging and start-up reconciliation, interleaved over any
    number of entries, with an exception or a crash possible between any two steps. */
module QuarantineLifecycle {
  import opened Wrappers

  /** A name in the served directories, or the place in quarantine storage that carries an entry's id. */
  datatype Path = Live(name: string) | Vault(entry: nat, name: string)

  /** A file, or a directory with `left` descendants. */
  datatype Object = Object(id: nat, dir: bool, left: nat)

  datatype State = Preparing | Active | Abandoned | Inconsistent | Restoring | Restored | Purging | Purged

  /** `transactional`: a transaction phase or an authoritative anchor is recorded. */
  datatype Entry = Entry(original: Path, vault: Path, state: State, target: Option<Path>, transactional: bool)

  /** Where a request in flight stands; it ends with its last commit, an exception or a crash. */
  datatype Job =
    | ToMove(source: Path)
    | Moved(completed: bool)
    | ToRestore(dest: Path)
    | Delivered(dest: Path)
    | Deleting
    | Deleted

  /** `when` orders the moves into quarantine. */
  datatype Custody = Custody(payload: nat, when: nat)

  /** The filesystem, the entry table and the requests in flight; then what happened so far: every
      object as it was created, which entry took which object, whose purge was begun, what is gone. */
  datatype World = World(
    fs: map<Path, Object>, entries: map<nat, Entry>, jobs: map<nat, Job>,
    born: map<nat, Object>, custody: map<nat, Custody>, begun: set<nat>, gone: set<nat>, clock: nat)

  datatype Policy = Skip | Rename | Manual

  datatype Step =
    | Create(path: Path, item: Object)
    | OtherEngine(e: nat, record: Entry)
    | BeginQuarantine(e: nat, source: Path, name: string)
    | Move(e: nat)
    | MoveFails(e: nat)
    | FinishQuarantine(e: nat)
    | BeginRestore(e: nat, policy: Policy, custom: Path, candidate: Path)
    | IntegrityFails(e: nat)
    | RestoreMove(e: nat)
    | RestoreMoveFails(e: nat)
    | FinishRestore(e: nat)
    | BeginPurge(e: nat)
    | DeleteChild(e: nat)
    | DeleteRoot(e: nat)
    | FinishPurge(e: nat)
    | Abort(e: nat)
    | Crash
    | Reconcile(e: nat, hashable: bool)

  // ----- updates of one row

  function SetState(w: World, e: nat, s: State): World
    requires e in w.entries
  {
    w.(entries := w.entries[e := w.entries[e].(state := s)])
  }

  function SetJob(w: World, e: nat, job: Job): World {
    w.(jobs := w.jobs[e := job])
  }

  function EndJob(w: World, e: nat): World {
    w.(jobs := w.jobs - {e})
  }

  predicate AtJob(w: World, e: nat) {
    e in w.jobs && e in w.entries
  }

  // ----- executing one quarantine item

  /** The row is committed in state preparing before anything moves. Rows get ever larger ids. */
  function BeginQuarantineStep(w: World, e: nat, source: Path, name: string): World {
    if (forall k | k in w.entries.Keys :: k < e) && source.Live? then
      SetJob(w.(entries := w.entries[e := Entry(source, Vault(e, name), Preparing, None, false)]), e, ToMove(source))
    else w
  }

  /** A no-replace rename of the source onto the entry's place in quarantine. */
  function MoveStep(w: World, e: nat): World {
    if AtJob(w, e) && w.jobs[e].ToMove? then
      var source, vault := w.jobs[e].source, w.entries[e].vault;
      if source in w.fs && vault !in w.fs then
        SetJob(w.(fs := (w.fs - {source})[vault := w.fs[source]],
                  custody := w.custody[e := Custody(w.fs[source].id, w.clock)], clock := w.clock + 1), e, Moved(true))
      else SetJob(w, e, Moved(false))
    else w
  }

  /** The item was skipped or failed without touching a name. */
  function MoveFailsStep(w: World, e: nat): World {
    if AtJob(w, e) && w.jobs[e].ToMove? then SetJob(w, e, Moved(false)) else w
  }

  function FinishQuarantineStep(w: World, e: nat): World {
    if AtJob(w, e) && w.jobs[e].Moved? then
      var state :=
        if w.jobs[e].completed && w.entries[e].vault in w.fs then Active
        else if w.entries[e].original in w.fs then Abandoned
        else Inconsistent;
      EndJob(SetState(w, e, state), e)
    else w
  }

  // ----- restoring

  /** Where a restore would go, or nothing when the request ends without a change. */
  function Destination(w: World, r: Entry, policy: Policy, custom: Path, candidate: Path): Option<Path> {
    var dest := if policy.Manual? then custom else r.original;
    if !dest.Live? then None
    else if dest !in w.fs then Some(dest)
    else if policy.Rename? && candidate.Live? && candidate !in w.fs then Some(candidate)
    else None
  }

  /** A missing quarantine target is noted on the row, but the exception rolls the note back. */
  function BeginRestoreStep(w: World, e: nat, policy: Policy, custom: Path, candidate: Path): World {
    if e in w.entries && !w.entries[e].transactional && w.entries[e].state == Active && w.entries[e].vault in w.fs then
      match Destination(w, w.entries[e], policy, custom, candidate)
      case None => w
      case Some(dest) => SetJob(SetState(w, e, Restoring), e, ToRestore(dest))
    else w
  }

  function IntegrityFailsStep(w: World, e: nat): World {
    if AtJob(w, e) && w.jobs[e].ToRestore? then EndJob(SetState(w, e, Inconsistent), e) else w
  }

  function RestoreMoveStep(w: World, e: nat): World {
    if AtJob(w, e) && w.jobs[e].ToRestore? then
      var dest, vault := w.jobs[e].dest, w.entries[e].vault;
      if vault in w.fs && dest !in w.fs then
        SetJob(w.(fs := (w.fs - {vault})[dest := w.fs[vault]]), e, Delivered(dest))
      else EndJob(SetState(w, e, if vault in w.fs then Active else Inconsistent), e)
    else w
  }

  /** The rename is refused for another reason; the row is active again. */
  function RestoreMoveFailsStep(w: World, e: nat): World {
    if AtJob(w, e) && w.jobs[e].ToRestore? then EndJob(SetState(w, e, Active), e) else w
  }

  /** The new place is looked at before it is recorded. */
  function FinishRestoreStep(w: World, e: nat): World {
    if AtJob(w, e) && w.jobs[e].Delivered? then
      if w.jobs[e].dest in w.fs then
        EndJob(w.(entries := w.entries[e := w.entries[e].(state := Restored, target := Some(w.jobs[e].dest))]), e)
      else EndJob(w, e)
    else w
  }

  // ----- purging

  function BeginPurgeStep(w: World, e: nat): World {
    if e in w.entries && w.entries[e].state == Active && !w.entries[e].transactional then
      if w.entries[e].vault in w.fs then
        SetJob(SetState(w, e, Purging), e, Deleting).(begun := w.begun + {e})
      else SetState(w, e, Inconsistent)
    else w
  }

  /** One descendant of a directory is removed, bottom up. */
  function DeleteChildStep(w: World, e: nat): World {
    if AtJob(w, e) && w.jobs[e].Deleting? && w.entries[e].vault in w.fs then
      var o := w.fs[w.entries[e].vault];
      if o.dir && o.left > 0 then w.(fs := w.fs[w.entries[e].vault := o.(left := o.left - 1)]) else w
    else w
  }

  function DeleteRootStep(w: World, e: nat): World {
    if AtJob(w, e) && w.jobs[e].Deleting? && w.entries[e].vault in w.fs then
      var o := w.fs[w.entries[e].vault];
      if o.dir && o.left > 0 then w
      else SetJob(w.(fs := w.fs - {w.entries[e].vault}, gone := w.gone + {o.id}), e, Deleted)
    else w
  }

  function FinishPurgeStep(w: World, e: nat): World {
    if AtJob(w, e) && w.jobs[e].Deleted? then EndJob(SetState(w, e, Purged), e) else w
  }

  // ----- start-up

  predicate Transitional(s: State) {
    s == Preparing || s == Restoring || s == Purging
  }

  /** What start-up makes of one row, given which names exist; `hashable` is false when reading the
      payload raises, which leaves the row as it was. */
  function Reconciled(r: Entry, vaultExists: bool, sourceExists: bool, hashable: bool): Entry {
    if r.transactional then r
    else match r.state
      case Preparing =>
        if sourceExists && !vaultExists then r.(state := Abandoned)
        else if !sourceExists && vaultExists then (if hashable then r.(state := Active) else r)
        else r.(state := Inconsistent)
      case Restoring => r.(state := if vaultExists then Active else Inconsistent)
      case Purging => r.(state := if vaultExists then Active else Purged)
      case _ => r
  }

  function ReconcileStep(w: World, e: nat, hashable: bool): World {
    if e in w.entries && e !in w.jobs then
      w.(entries := w.entries[e :=
          Reconciled(w.entries[e], w.entries[e].vault in w.fs, w.entries[e].original in w.fs, hashable)])
    else w
  }

  // ----- the machine

  /** Anything may appear at a free served name: user files, parents made for a restore. */
  function CreateStep(w: World, path: Path, item: Object): World {
    if path.Live? && path !in w.fs && item.id !in w.born then
      w.(fs := w.fs[path := item], born := w.born[item.id := item])
    else w
  }

  /** The transactional engine owns its rows. */
  function OtherEngineStep(w: World, e: nat, record: Entry): World {
    if record.transactional
       && (if e in w.entries then w.entries[e].transactional else forall k | k in w.entries.Keys :: k < e) then
      w.(entries := w.entries[e := record])
    else w
  }

  function Next(w: World, s: Step): World {
    match s
    case Create(path, item) => CreateStep(w, path, item)
    case OtherEngine(e, record) => OtherEngineStep(w, e, record)
    case BeginQuarantine(e, source, name) => BeginQuarantineStep(w, e, source, name)
    case Move(e) => MoveStep(w, e)
    case MoveFails(e) => MoveFailsStep(w, e)
    case FinishQuarantine(e) => FinishQuarantineStep(w, e)
    case BeginRestore(e, policy, custom, candidate) => BeginRestoreStep(w, e, policy, custom, candidate)
    case IntegrityFails(e) => IntegrityFailsStep(w, e)
    case RestoreMove(e) => RestoreMoveStep(w, e)
    case RestoreMoveFails(e) => RestoreMoveFailsStep(w, e)
    case FinishRestore(e) => FinishRestoreStep(w, e)
    case BeginPurge(e) => BeginPurgeStep(w, e)
    case DeleteChild(e) => DeleteChildStep(w, e)
    case DeleteRoot(e) => DeleteRootStep(w, e)
    case FinishPurge(e) => FinishPurgeStep(w, e)
    case Abort(e) => EndJob(w, e)
    case Crash => w.(jobs := map[])
    case Reconcile(e, hashable) => ReconcileStep(w, e, hashable)
  }

  function Run(w: World, steps: seq<Step>): World
    decreases |steps|
  {
    if steps == [] then w else Run(Next(w, steps[0]), steps[1..])
  }

  function Start(): World {
    World(map[], map[], map[], map[], map[], {}, {}, 0)
  }

  // ----- what every run keeps

  /** The object `id` is at `p`. */
  ghost predicate At(w: World, id: nat, p: Path) {
    p in w.fs && w.fs[p].id == id
  }

  ghost predicate Doomed(w: World, id: nat) {
    exists e :: e in w.begun && e in w.custody && w.custody[e].payload == id
  }

  /** Every object is in exactly one place, as it was created, unless a purge of an entry that holds it
      was begun; what is gone is nowhere. */
  ghost predicate Conserved(w: World) {
    && (forall p, q :: p in w.fs && q in w.fs && w.fs[p].id == w.fs[q].id ==> p == q)
    && (forall p :: p in w.fs ==> w.fs[p].id in w.born && w.fs[p].id !in w.gone)
    && (forall p :: p in w.fs && w.fs[p] != w.born[w.fs[p].id] ==> Doomed(w, w.fs[p].id))
    && (forall id :: id in w.gone ==> id in w.born && Doomed(w, id))
    && NothingLost(w)
  }

  ghost predicate NothingLost(w: World) {
    forall id :: id in w.born && id !in w.gone ==> exists p :: At(w, id, p)
  }

  /** Quarantine storage holds only the payload of the entry whose id the name carries. */
  ghost predicate VaultsOwned(w: World) {
    && (forall p :: p in w.fs && p.Vault? ==>
          p.entry in w.entries && !w.entries[p.entry].transactional && p == w.entries[p.entry].vault
          && p.entry in w.custody && w.custody[p.entry].payload == w.fs[p].id)
    && (forall e :: e in w.custody ==>
          e in w.entries && !w.entries[e].transactional && w.custody[e].payload in w.born
              && w.custody[e].when < w.clock)
    && (forall e :: e in w.begun ==> e in w.custody)
    && (forall e :: e in w.jobs ==> e in w.entries && !w.entries[e].transactional)
  }

  /** The payload of `e` is at `dest`, or was taken into quarantine again later. */
  ghost predicate Handed(w: World, e: nat, dest: Path) {
    && e in w.custody
    && dest.Live?
    && (At(w, w.custody[e].payload, dest) || Retaken(w, e))
  }

  ghost predicate Retaken(w: World, e: nat)
    requires e in w.custody
  {
    exists k :: k in w.custody && w.custody[k].payload == w.custody[e].payload && w.custody[k].when > w.custody[e].when
  }

  ghost predicate Destroyed(w: World, e: nat) {
    e in w.begun && e in w.custody && w.custody[e].payload in w.gone
  }

  /** What the state of an entry says about the filesystem when no request is at work on it. */
  ghost predicate Settled(w: World, e: nat, r: Entry) {
    match r.state
    case Active => r.vault in w.fs
    case Abandoned => r.vault !in w.fs
    case Restored => r.vault !in w.fs && r.target.Some? && Handed(w, e, r.target.value)
    case Purging => r.vault in w.fs || Destroyed(w, e)
    case Purged => r.vault !in w.fs && Destroyed(w, e)
    case _ => true
  }

  ghost predicate InFlight(w: World, e: nat, r: Entry, job: Job) {
    match job
    case ToMove(source) => r.state == Preparing && r.vault !in w.fs && source.Live? && e !in w.custody
    case Moved(completed) => r.state == Preparing && (completed <==> r.vault in w.fs)
    case ToRestore(dest) => r.state == Restoring && r.vault in w.fs && dest.Live?
    case Delivered(dest) => r.state == Restoring && r.vault !in w.fs && Handed(w, e, dest)
    case Deleting => r.state == Purging && r.vault in w.fs && e in w.begun
    case Deleted => r.state == Purging && r.vault !in w.fs && Destroyed(w, e)
  }

  ghost predicate Coherent(w: World, e: nat) {
    e in w.entries && !w.entries[e].transactional ==>
      && w.entries[e].vault.Vault? && w.entries[e].vault.entry == e && w.entries[e].original.Live?
      && (if e in w.jobs then InFlight(w, e, w.entries[e], w.jobs[e]) else Settled(w, e, w.entries[e]))
  }

  ghost predicate Safe(w: World) {
    Conserved(w) && VaultsOwned(w) && forall e :: Coherent(w, e)
  }

  // ----- each step keeps it: what one entry's step leaves alone

  ghost predicate Grows(w: World, w': World) {
    && (forall k :: k in w.custody ==> k in w'.custody && w'.custody[k] == w.custody[k])
    && w.begun <= w'.begun && w.gone <= w'.gone
  }

  /** A step on entry `e` shows other entries the same row, the same request and the same answer about
      their quarantine place, and takes nothing they handed over except into quarantine. */
  ghost predicate LeavesOthers(w: World, w': World, e: nat) {
    && Grows(w, w')
    && (forall k :: k != e ==> (k in w.entries <==> k in w'.entries) && (k in w.jobs <==> k in w'.jobs))
    && (forall k :: k != e && k in w.entries ==> w'.entries[k] == w.entries[k])
    && (forall k :: k != e && k in w.jobs ==> w'.jobs[k] == w.jobs[k])
    && (forall p: Path :: p.Vault? && p.entry != e ==> (p in w.fs <==> p in w'.fs))
    && (forall k, p: Path :: p.Live? && k in w.custody && At(w, w.custody[k].payload, p) ==>
          At(w', w'.custody[k].payload, p) || Retaken(w', k))
    && (forall k :: k != e && k in w'.custody ==> k in w.custody)
  }

  lemma HandedStays(w: World, w': World, e: nat, k: nat, dest: Path)
    requires LeavesOthers(w, w', e) && Handed(w, k, dest)
    ensures Handed(w', k, dest)
  {
    if Retaken(w, k) {
      var j :| j in w.custody && w.custody[j].payload == w.custody[k].payload && w.custody[j].when > w.custody[k].when;
      assert j in w'.custody && w'.custody[j] == w.custody[j];
    }
  }

  lemma OthersCoherent(w: World, w': World, e: nat, k: nat)
    requires LeavesOthers(w, w', e) && k != e && Coherent(w, k)
    ensures Coherent(w', k)
  {
    hide Handed, Retaken, At;
    if k in w.entries && !w.entries[k].transactional {
      var r := w.entries[k];
      assert r.vault.Vault? && r.vault.entry != e;
      if k in w.jobs {
        if w.jobs[k].Delivered? && Handed(w, k, w.jobs[k].dest) {
          HandedStays(w, w', e, k, w.jobs[k].dest);
        }
      } else if r.state == Restored && r.target.Some? && Handed(w, k, r.target.value) {
        HandedStays(w, w', e, k, r.target.value);
      }
    }
  }

  lemma AllCoherent(w: World, w': World, e: nat)
    requires LeavesOthers(w, w', e) && Coherent(w', e)
    requires forall k :: Coherent(w, k)
    ensures forall k :: Coherent(w', k)
  {
    hide LeavesOthers, Coherent;
    forall k ensures Coherent(w', k) {
      if k != e {
        OthersCoherent(w, w', e, k);
      }
    }
  }

  /** `w'` differs from `w` in the row and the request of `e` only, and perhaps in a purge begun on it. */
  ghost predicate RowStep(w: World, w': World, e: nat) {
    && w'.fs == w.fs && w'.born == w.born && w'.custody == w.custody && w'.gone == w.gone && w'.clock == w.clock
    && (w'.begun == w.begun || (e in w.custody && w'.begun == w.begun + {e}))
    && e in w'.entries
    && (forall k :: k != e ==> (k in w.entries <==> k in w'.entries) && (k in w.jobs <==> k in w'.jobs))
    && (forall k :: k != e && k in w.entries ==> w'.entries[k] == w.entries[k])
    && (forall k :: k != e && k in w.jobs ==> w'.jobs[k] == w.jobs[k])
    && (e in w.entries ==>
          w'.entries[e].vault == w.entries[e].vault && w'.entries[e].transactional == w.entries[e].transactional)
    && (e in w'.jobs ==> !w'.entries[e].transactional)
  }

  lemma RowLeavesOthers(w: World, w': World, e: nat)
    requires RowStep(w, w', e)
    ensures LeavesOthers(w, w', e)
  {
  }

  lemma RowOwned(w: World, w': World, e: nat)
    requires RowStep(w, w', e) && VaultsOwned(w)
    ensures VaultsOwned(w')
  {
  }

  /** Steps that only write rows and requests. */
  lemma RowsOnly(w: World, w': World, e: nat)
    requires Safe(w) && RowStep(w, w', e) && Coherent(w', e)
    ensures Safe(w')
  {
    hide Coherent, LeavesOthers, RowStep, VaultsOwned, Conserved;
    RowLeavesOthers(w, w', e);
    AllCoherent(w, w', e);
    RowOwned(w, w', e);
    assert Conserved(w') by {
      RowConserves(w, w', e);
    }
  }

  lemma RowConserves(w: World, w': World, e: nat)
    requires RowStep(w, w', e) && Conserved(w)
    ensures Conserved(w')
  {
    hide Conserved;
    ConservedRows(w, w');
  }

  lemma DoomedStays(w: World, w': World, id: nat)
    requires Grows(w, w') && Doomed(w, id)
    ensures Doomed(w', id)
  {
    var e :| e in w.begun && e in w.custody && w.custody[e].payload == id;
    assert e in w'.begun && e in w'.custody && w'.custody[e].payload == id;
  }

  lemma ConservedRows(w: World, w': World)
    requires Conserved(w) && Grows(w, w')
    requires w'.fs == w.fs && w'.born == w.born && w'.gone == w.gone
    ensures Conserved(w')
  {
    hide Doomed;
    forall id | Doomed(w, id) ensures Doomed(w', id) {
      DoomedStays(w, w', id);
    }
    forall id | id in w'.born && id !in w'.gone ensures exists p :: At(w', id, p) {
      var p :| At(w, id, p);
      assert At(w', id, p);
    }
  }

  // ----- each step keeps it: steps on rows

  lemma BeginQuarantineSafe(w: World, e: nat, source: Path, name: string)
    requires Safe(w)
    ensures Safe(BeginQuarantineStep(w, e, source, name))
  {
    hide Conserved;
    var w' := BeginQuarantineStep(w, e, source, name);
    if w' != w {
      assert e !in w.entries.Keys;
      assert Coherent(w', e);
      RowsOnly(w, w', e);
    }
  }

  lemma EndSafe(w: World, w': World, e: nat, state: State)
    requires Safe(w) && e in w.entries && !w.entries[e].transactional
    requires w' == EndJob(SetState(w, e, state), e)
    requires Settled(w', e, w'.entries[e])
    ensures Safe(w')
  {
    hide Conserved, VaultsOwned;
    assert Coherent(w, e);
    RowsOnly(w, w', e);
  }

  lemma MoveFailsSafe(w: World, e: nat)
    requires Safe(w)
    ensures Safe(MoveFailsStep(w, e))
  {
    hide Conserved, VaultsOwned;
    assert Coherent(w, e);
    if AtJob(w, e) && w.jobs[e].ToMove? {
      JobOnLegacy(w, e);
      RowsOnly(w, MoveFailsStep(w, e), e);
    }
  }

  /** Requests are at work on non-transactional rows only. */
  lemma JobOnLegacy(w: World, e: nat)
    requires VaultsOwned(w) && e in w.jobs
    ensures e in w.entries && !w.entries[e].transactional
  {
  }

  lemma FinishQuarantineSafe(w: World, e: nat)
    requires Safe(w)
    ensures Safe(FinishQuarantineStep(w, e))
  {
    hide Conserved, VaultsOwned;
    assert Coherent(w, e);
    if AtJob(w, e) && w.jobs[e].Moved? {
      JobOnLegacy(w, e);
      var w' := FinishQuarantineStep(w, e);
      EndSafe(w, w', e, w'.entries[e].state);
    }
  }

  lemma BeginRestoreSafe(w: World, e: nat, policy: Policy, custom: Path, candidate: Path)
    requires Safe(w)
    ensures Safe(BeginRestoreStep(w, e, policy, custom, candidate))
  {
    hide Conserved, VaultsOwned;
    assert Coherent(w, e);
    var w' := BeginRestoreStep(w, e, policy, custom, candidate);
    if w' != w {
      RowsOnly(w, w', e);
    }
  }

  lemma IntegrityFailsSafe(w: World, e: nat)
    requires Safe(w)
    ensures Safe(IntegrityFailsStep(w, e))
  {
    hide Conserved, VaultsOwned;
    if AtJob(w, e) && w.jobs[e].ToRestore? {
      JobOnLegacy(w, e);
      EndSafe(w, IntegrityFailsStep(w, e), e, Inconsistent);
    }
  }

  lemma RestoreMoveFailsSafe(w: World, e: nat)
    requires Safe(w)
    ensures Safe(RestoreMoveFailsStep(w, e))
  {
    hide Conserved, VaultsOwned;
    assert Coherent(w, e);
    if AtJob(w, e) && w.jobs[e].ToRestore? {
      JobOnLegacy(w, e);
      EndSafe(w, RestoreMoveFailsStep(w, e), e, Active);
    }
  }

  lemma HandedRows(w: World, w': World, e: nat, dest: Path)
    requires w'.fs == w.fs && w'.custody == w.custody && Handed(w, e, dest)
    ensures Handed(w', e, dest)
  {
  }

  lemma FinishRestoreSafe(w: World, e: nat)
    requires Safe(w)
    ensures Safe(FinishRestoreStep(w, e))
  {
    hide Conserved, VaultsOwned, Handed;
    assert Coherent(w, e);
    if AtJob(w, e) && w.jobs[e].Delivered? {
      JobOnLegacy(w, e);
      HandedRows(w, FinishRestoreStep(w, e), e, w.jobs[e].dest);
      RowsOnly(w, FinishRestoreStep(w, e), e);
    }
  }

  lemma BeginPurgeSafe(w: World, e: nat)
    requires Safe(w)
    ensures Safe(BeginPurgeStep(w, e))
  {
    hide Conserved;
    assert Coherent(w, e);
    var w' := BeginPurgeStep(w, e);
    if w' != w {
      RowsOnly(w, w', e);
    }
  }

  lemma FinishPurgeSafe(w: World, e: nat)
    requires Safe(w)
    ensures Safe(FinishPurgeStep(w, e))
  {
    hide Conserved, VaultsOwned;
    assert Coherent(w, e);
    if AtJob(w, e) && w.jobs[e].Deleted? {
      JobOnLegacy(w, e);
      EndSafe(w, FinishPurgeStep(w, e), e, Purged);
    }
  }

  /** A request that stops anywhere leaves a row that start-up can read. */
  lemma AbortCoherent(w: World, e: nat)
    requires Coherent(w, e)
    ensures Coherent(EndJob(w, e), e)
  {
  }

  lemma AbortSafe(w: World, e: nat)
    requires Safe(w)
    ensures Safe(EndJob(w, e))
  {
    hide Conserved, VaultsOwned, Coherent;
    AbortCoherent(w, e);
    if e in w.jobs {
      JobOnLegacy(w, e);
      RowsOnly(w, EndJob(w, e), e);
    } else {
      assert EndJob(w, e) == w;
    }
  }

  lemma CrashSafe(w: World)
    requires Safe(w)
    ensures Safe(w.(jobs := map[]))
  {
    var w' := w.(jobs := map[]);
    ConservedRows(w, w');
    forall e ensures Coherent(w', e) {
      assert Coherent(w, e);
      AbortCoherent(w, e);
    }
  }

  lemma ReconcileSafe(w: World, e: nat, hashable: bool)
    requires Safe(w)
    ensures Safe(ReconcileStep(w, e, hashable))
  {
    hide Conserved, VaultsOwned;
    assert Coherent(w, e);
    if e in w.entries && e !in w.jobs {
      RowsOnly(w, ReconcileStep(w, e, hashable), e);
    }
  }

  lemma OtherEngineSafe(w: World, e: nat, record: Entry)
    requires Safe(w)
    ensures Safe(OtherEngineStep(w, e, record))
  {
    hide Conserved;
    var w' := OtherEngineStep(w, e, record);
    if w' != w {
      assert e in w.entries || e !in w.entries.Keys;
      assert LeavesOthers(w, w', e);
      AllCoherent(w, w', e);
      ConservedRows(w, w');
    }
  }

  // ----- each step keeps it: steps on the filesystem

  lemma CreateSafe(w: World, path: Path, item: Object)
    requires Safe(w)
    ensures Safe(CreateStep(w, path, item))
  {
    hide Conserved, VaultsOwned, Coherent, CreateStep;
    if CreateStep(w, path, item) != w {
      CreateStarts(w, path, item);
      CreateConserves(w, path, item);
      CreateOwned(w, path, item);
      forall e ensures Coherent(CreateStep(w, path, item), e) {
        CreateCoherent(w, path, item, e);
      }
    }
  }

  lemma CreateStarts(w: World, path: Path, item: Object)
    requires CreateStep(w, path, item) != w
    ensures path.Live? && path !in w.fs && item.id !in w.born
  {
  }

  lemma CreateOwned(w: World, path: Path, item: Object)
    requires VaultsOwned(w) && path.Live? && path !in w.fs && item.id !in w.born
    ensures VaultsOwned(CreateStep(w, path, item))
  {
  }

  lemma CreateConserves(w: World, path: Path, item: Object)
    requires Conserved(w) && path.Live? && path !in w.fs && item.id !in w.born
    ensures Conserved(CreateStep(w, path, item))
  {
    hide Doomed, NothingLost;
    var w' := CreateStep(w, path, item);
    forall id | Doomed(w, id) ensures Doomed(w', id) {
      DoomedStays(w, w', id);
    }
    CreateLosesNothing(w, path, item);
  }

  lemma CreateLosesNothing(w: World, path: Path, item: Object)
    requires NothingLost(w) && path.Live? && path !in w.fs && item.id !in w.born
    ensures NothingLost(CreateStep(w, path, item))
  {
    var w' := CreateStep(w, path, item);
    forall id | id in w'.born && id !in w'.gone ensures exists p :: At(w', id, p) {
      if id == item.id {
        assert At(w', id, path);
      } else {
        var p :| At(w, id, p);
        assert At(w', id, p);
      }
    }
  }

  lemma CreateCoherent(w: World, path: Path, item: Object, e: nat)
    requires Coherent(w, e) && path.Live? && path !in w.fs && item.id !in w.born
    ensures Coherent(CreateStep(w, path, item), e)
  {
    var w' := CreateStep(w, path, item);
    forall dest | Handed(w, e, dest) ensures Handed(w', e, dest) {
      if Retaken(w, e) {
        assert Retaken(w', e);
      }
    }
  }

  /** A rename of the object at `from` to the free name `to`. */
  function Renamed(fs: map<Path, Object>, from: Path, to: Path): map<Path, Object>
    requires from in fs
  {
    (fs - {from})[to := fs[from]]
  }

  lemma RenameKeepsPlaces(w: World, w': World, from: Path, to: Path)
    requires from in w.fs && to !in w.fs && w'.fs == Renamed(w.fs, from, to)
    ensures forall id, p :: At(w, id, p) && p != from ==> At(w', id, p)
    ensures At(w', w.fs[from].id, to)
    ensures forall id, p :: At(w', id, p) ==> At(w, id, if p == to then from else p)
  {
  }

  /** A rename loses, copies and alters nothing. */
  lemma RenameConserves(w: World, w': World, from: Path, to: Path)
    requires Conserved(w) && Grows(w, w') && from in w.fs && to !in w.fs && w'.fs == Renamed(w.fs, from, to)
    requires w'.born == w.born && w'.gone == w.gone
    ensures Conserved(w')
  {
    hide Doomed, NothingLost;
    forall id | Doomed(w, id) ensures Doomed(w', id) {
      DoomedStays(w, w', id);
    }
    RenameLosesNothing(w, w', from, to);
  }

  lemma RenameLosesNothing(w: World, w': World, from: Path, to: Path)
    requires NothingLost(w) && from in w.fs && to !in w.fs && w'.fs == Renamed(w.fs, from, to)
    requires w'.born == w.born && w'.gone == w.gone
    ensures NothingLost(w')
  {
    RenameKeepsPlaces(w, w', from, to);
    hide Renamed;
    forall id | id in w'.born && id !in w'.gone ensures exists p :: At(w', id, p) {
      var p :| At(w, id, p);
      assert At(w', id, if p == from then to else p);
    }
  }

  lemma MoveSafe(w: World, e: nat)
    requires Safe(w)
    ensures Safe(MoveStep(w, e))
  {
    if AtJob(w, e) && w.jobs[e].ToMove? {
      assert Coherent(w, e);
      JobOnLegacy(w, e);
      var source, vault := w.jobs[e].source, w.entries[e].vault;
      if source in w.fs && vault !in w.fs {
        MoveHappens(w, e);
      } else {
        hide Conserved, VaultsOwned;
        RowsOnly(w, MoveStep(w, e), e);
      }
    }
  }

  lemma MoveHappens(w: World, e: nat)
    requires Safe(w) && AtJob(w, e) && w.jobs[e].ToMove? && !w.entries[e].transactional
    requires w.jobs[e].source in w.fs && w.entries[e].vault !in w.fs
    ensures Safe(MoveStep(w, e))
  {
    hide Conserved, VaultsOwned;
    var w', source, vault := MoveStep(w, e), w.jobs[e].source, w.entries[e].vault;
    assert Coherent(w, e);
    assert w'.fs == Renamed(w.fs, source, vault);
    RenameConserves(w, w', source, vault);
    MoveLeavesOthers(w, e);
    AllCoherent(w, w', e);
    MoveOwned(w, e);
  }

  lemma MoveLeavesOthers(w: World, e: nat)
    requires VaultsOwned(w) && Coherent(w, e) && AtJob(w, e) && w.jobs[e].ToMove? && !w.entries[e].transactional
    requires w.jobs[e].source in w.fs && w.entries[e].vault !in w.fs
    ensures LeavesOthers(w, MoveStep(w, e), e)
  {
    var w', source, vault := MoveStep(w, e), w.jobs[e].source, w.entries[e].vault;
    forall k, p: Path | p.Live? && k in w.custody && At(w, w.custody[k].payload, p)
      ensures At(w', w'.custody[k].payload, p) || Retaken(w', k)
    {
      if p == source {
        assert e in w'.custody && w'.custody[e].payload == w'.custody[k].payload
            && w'.custody[e].when > w'.custody[k].when;
      }
    }
  }

  lemma MoveOwned(w: World, e: nat)
    requires VaultsOwned(w) && Coherent(w, e) && AtJob(w, e) && w.jobs[e].ToMove? && !w.entries[e].transactional
    requires w.jobs[e].source in w.fs && w.entries[e].vault !in w.fs
    requires Conserved(w)
    ensures VaultsOwned(MoveStep(w, e))
  {
  }

  lemma RestoreMoveSafe(w: World, e: nat)
    requires Safe(w)
    ensures Safe(RestoreMoveStep(w, e))
  {
    if AtJob(w, e) && w.jobs[e].ToRestore? {
      assert Coherent(w, e);
      JobOnLegacy(w, e);
      var dest, vault := w.jobs[e].dest, w.entries[e].vault;
      if dest !in w.fs {
        RestoreMoveHappens(w, e);
      } else {
        hide Conserved, VaultsOwned;
        EndSafe(w, RestoreMoveStep(w, e), e, Active);
      }
    }
  }

  lemma RestoreMoveHappens(w: World, e: nat)
    requires Safe(w) && AtJob(w, e) && w.jobs[e].ToRestore? && !w.entries[e].transactional
    requires w.jobs[e].dest !in w.fs
    ensures Safe(RestoreMoveStep(w, e))
  {
    hide Conserved;
    var w', dest, vault := RestoreMoveStep(w, e), w.jobs[e].dest, w.entries[e].vault;
    assert Coherent(w, e);
    RenameConserves(w, w', vault, dest);
    RenameKeepsPlaces(w, w', vault, dest);
    assert Handed(w', e, dest);
    assert LeavesOthers(w, w', e);
    AllCoherent(w, w', e);
  }

  /** Deleting below the quarantine place of an entry whose purge was begun. */
  lemma DeleteChildSafe(w: World, e: nat)
    requires Safe(w)
    ensures Safe(DeleteChildStep(w, e))
  {
    hide Conserved, VaultsOwned, Coherent, LeavesOthers, DeleteChildStep;
    if DeleteChildStep(w, e) != w {
      DeleteChildStarts(w, e);
      DeleteChildConserves(w, e);
      DeleteChildLeaves(w, e);
      AllCoherent(w, DeleteChildStep(w, e), e);
    }
  }

  lemma DeleteChildStarts(w: World, e: nat)
    requires Coherent(w, e) && VaultsOwned(w) && DeleteChildStep(w, e) != w
    ensures AtJob(w, e) && w.jobs[e].Deleting? && !w.entries[e].transactional
    ensures e in w.begun && w.entries[e].vault.Vault? && w.entries[e].vault.entry == e
  {
  }

  lemma DeleteChildLeaves(w: World, e: nat)
    requires Coherent(w, e) && VaultsOwned(w) && AtJob(w, e) && w.jobs[e].Deleting? && !w.entries[e].transactional
    requires w.entries[e].vault.Vault? && w.entries[e].vault.entry == e && e in w.begun
    ensures Coherent(DeleteChildStep(w, e), e) && LeavesOthers(w, DeleteChildStep(w, e), e)
        && VaultsOwned(DeleteChildStep(w, e))
  {
    var w' := DeleteChildStep(w, e);
    assert forall id, p: Path :: p.Live? && At(w, id, p) ==> At(w', id, p);
  }

  lemma DeleteChildConserves(w: World, e: nat)
    requires Conserved(w) && VaultsOwned(w) && AtJob(w, e) && w.entries[e].vault.Vault? && w.entries[e].vault.entry == e
    requires e in w.begun
    ensures Conserved(DeleteChildStep(w, e))
  {
    hide NothingLost;
    var w' := DeleteChildStep(w, e);
    DeleteChildLosesNothing(w, e);
    if w' != w {
      assert Doomed(w, w.fs[w.entries[e].vault].id);
      hide Doomed, VaultsOwned;
      forall i | Doomed(w, i) ensures Doomed(w', i) {
        DoomedStays(w, w', i);
      }
    }
  }

  lemma DeleteChildLosesNothing(w: World, e: nat)
    requires NothingLost(w)
    ensures NothingLost(DeleteChildStep(w, e))
  {
    var w' := DeleteChildStep(w, e);
    forall i | i in w'.born && i !in w'.gone ensures exists p :: At(w', i, p) {
      var p :| At(w, i, p);
      assert At(w', i, p);
    }
  }

  lemma DeleteRootSafe(w: World, e: nat)
    requires Safe(w)
    ensures Safe(DeleteRootStep(w, e))
  {
    hide Conserved, VaultsOwned, Coherent, LeavesOthers, DeleteRootStep;
    if DeleteRootStep(w, e) != w {
      DeleteRootStarts(w, e);
      DeleteRootConserves(w, e);
      DeleteRootLeaves(w, e);
      AllCoherent(w, DeleteRootStep(w, e), e);
    }
  }

  lemma DeleteRootStarts(w: World, e: nat)
    requires Coherent(w, e) && VaultsOwned(w) && DeleteRootStep(w, e) != w
    ensures AtJob(w, e) && w.jobs[e].Deleting? && !w.entries[e].transactional
    ensures e in w.begun && w.entries[e].vault.Vault? && w.entries[e].vault.entry == e
  {
  }

  lemma DeleteRootLeaves(w: World, e: nat)
    requires Coherent(w, e) && VaultsOwned(w) && AtJob(w, e) && w.jobs[e].Deleting? && !w.entries[e].transactional
    requires w.entries[e].vault.Vault? && w.entries[e].vault.entry == e && e in w.begun
    ensures Coherent(DeleteRootStep(w, e), e) && LeavesOthers(w, DeleteRootStep(w, e), e)
        && VaultsOwned(DeleteRootStep(w, e))
  {
    var w' := DeleteRootStep(w, e);
    assert forall id, p: Path :: p.Live? && At(w, id, p) ==> At(w', id, p);
  }

  lemma DeleteRootConserves(w: World, e: nat)
    requires Conserved(w) && VaultsOwned(w) && AtJob(w, e) && w.entries[e].vault.Vault? && w.entries[e].vault.entry == e
    requires e in w.begun
    ensures Conserved(DeleteRootStep(w, e))
  {
    hide NothingLost;
    var w' := DeleteRootStep(w, e);
    DeleteRootLosesNothing(w, e);
    if w' != w {
      assert Doomed(w, w.fs[w.entries[e].vault].id);
      hide Doomed, VaultsOwned;
      forall i | Doomed(w, i) ensures Doomed(w', i) {
        DoomedStays(w, w', i);
      }
    }
  }

  lemma DeleteRootLosesNothing(w: World, e: nat)
    requires NothingLost(w)
    ensures NothingLost(DeleteRootStep(w, e))
  {
    var w' := DeleteRootStep(w, e);
    forall i | i in w'.born && i !in w'.gone ensures exists p :: At(w', i, p) {
      var p :| At(w, i, p);
      assert At(w', i, p);
    }
  }

  // ----- whole runs

  lemma NextSafe(w: World, s: Step)
    requires Safe(w)
    ensures Safe(Next(w, s))
  {
    hide Safe, CreateStep, OtherEngineStep, BeginQuarantineStep, MoveStep, MoveFailsStep, FinishQuarantineStep,
      BeginRestoreStep, IntegrityFailsStep, RestoreMoveStep, RestoreMoveFailsStep, FinishRestoreStep, BeginPurgeStep,
      DeleteChildStep, DeleteRootStep, FinishPurgeStep, ReconcileStep;
    match s
    case Create(path, item) => CreateSafe(w, path, item);
    case OtherEngine(e, record) => OtherEngineSafe(w, e, record);
    case BeginQuarantine(e, source, name) => BeginQuarantineSafe(w, e, source, name);
    case Move(e) => MoveSafe(w, e);
    case MoveFails(e) => MoveFailsSafe(w, e);
    case FinishQuarantine(e) => FinishQuarantineSafe(w, e);
    case BeginRestore(e, policy, custom, candidate) => BeginRestoreSafe(w, e, policy, custom, candidate);
    case IntegrityFails(e) => IntegrityFailsSafe(w, e);
    case RestoreMove(e) => RestoreMoveSafe(w, e);
    case RestoreMoveFails(e) => RestoreMoveFailsSafe(w, e);
    case FinishRestore(e) => FinishRestoreSafe(w, e);
    case BeginPurge(e) => BeginPurgeSafe(w, e);
    case DeleteChild(e) => DeleteChildSafe(w, e);
    case DeleteRoot(e) => DeleteRootSafe(w, e);
    case FinishPurge(e) => FinishPurgeSafe(w, e);
    case Abort(e) => AbortSafe(w, e);
    case Crash => CrashSafe(w);
    case Reconcile(e, hashable) => ReconcileSafe(w, e, hashable);
  }

  lemma {:induction false} RunSafe(w: World, steps: seq<Step>)
    requires Safe(w)
    ensures Safe(Run(w, steps))
    decreases |steps|
  {
    hide Safe, Next;
    if steps != [] {
      NextSafe(w, steps[0]);
      RunSafe(Next(w, steps[0]), steps[1..]);
    }
  }

  lemma StartSafe()
    ensures Safe(Start())
  {
  }

  /** An object as it was created, in one place only. */
  ghost predicate IntactInOnePlace(w: World, id: nat) {
    && id in w.born
    && (exists p :: At(w, id, p) && w.fs[p] == w.born[id])
    && (forall p, q :: At(w, id, p) && At(w, id, q) ==> p == q)
  }

  /** After any steps whatever, with requests on different entries interleaved, exceptions, crashes and
      start-ups: an object no purge was begun on is intact in exactly one place, and what the rows of the
      non-transactional engine say is true of the filesystem. */
  lemma EveryRun(steps: seq<Step>)
    ensures var w := Run(Start(), steps);
            && (forall id :: id in w.born ==> IntactInOnePlace(w, id) || Doomed(w, id))
            && (forall e :: e in w.entries && !w.entries[e].transactional ==> RowIsTrue(w, e))
  {
    StartSafe();
    RunSafe(Start(), steps);
    SafeMeans(Run(Start(), steps));
  }

  /** What a row promises: an active payload is in quarantine, a purged one is gone, an abandoned one
      never moved, a restored one was handed to the recorded place. */
  ghost predicate RowIsTrue(w: World, e: nat)
    requires e in w.entries
  {
    var r := w.entries[e];
    && (r.state == Active ==> e in w.custody && At(w, w.custody[e].payload, r.vault))
    && (r.state == Abandoned ==> r.vault !in w.fs)
    && (r.state == Restored ==> r.vault !in w.fs && r.target.Some? && Handed(w, e, r.target.value))
    && (r.state == Purged ==> r.vault !in w.fs && e in w.custody && forall p :: !At(w, w.custody[e].payload, p))
  }

  lemma SafeMeans(w: World)
    requires Safe(w)
    ensures forall id :: id in w.born ==> IntactInOnePlace(w, id) || Doomed(w, id)
    ensures forall e :: e in w.entries && !w.entries[e].transactional ==> RowIsTrue(w, e)
  {
    forall id | id in w.born && !Doomed(w, id) ensures IntactInOnePlace(w, id) {
      hide Doomed;
      var p :| At(w, id, p);
    }
    forall e | e in w.entries && !w.entries[e].transactional ensures RowIsTrue(w, e) {
      hide Doomed, Handed;
      assert Coherent(w, e);
    }
  }

  // ----- start-up as a whole

  /** After a crash and one start-up over all rows. */
  function Restarted(w: World, unhashable: set<nat>): World {
    w.(jobs := map[],
       entries := map e | e in w.entries ::
         Reconciled(w.entries[e], w.entries[e].vault in w.fs, w.entries[e].original in w.fs, e !in unhashable))
  }

  /** Start-up settles every non-transactional row unless its payload cannot be read, does not touch the
      transactional ones, changes nothing when run again, and keeps every promise. */
  lemma RestartSettles(w: World, unhashable: set<nat>)
    requires Safe(w)
    ensures var w' := Restarted(w, unhashable);
            && Safe(w')
            && w'.fs == w.fs
            && Restarted(w', unhashable) == w'
            && (forall e :: e in w.entries && w.entries[e].transactional ==> w'.entries[e] == w.entries[e])
            && (forall e :: e in w'.entries && !w'.entries[e].transactional && Transitional(w'.entries[e].state) ==>
                  e in unhashable && w.entries[e].state == Preparing && w.entries[e].vault in w.fs)
  {
    hide Safe, Reconciled;
    RestartSafe(w, unhashable);
    var w' := Restarted(w, unhashable);
    forall e | e in w.entries
      ensures w'.entries[e] == RestartedRow(w, unhashable, e) && RestartedRow(w', unhashable, e) == w'.entries[e]
      ensures w.entries[e].transactional ==> w'.entries[e] == w.entries[e]
      ensures !w'.entries[e].transactional && Transitional(w'.entries[e].state) ==>
                e in unhashable && w.entries[e].state == Preparing && w.entries[e].vault in w.fs
    {
      RowAgain(w, unhashable, e);
      RowSettles(w, unhashable, e);
    }
    assert Restarted(w', unhashable).entries == w'.entries;
  }

  lemma RowSettles(w: World, unhashable: set<nat>, e: nat)
    requires e in w.entries
    ensures var r, r' := w.entries[e], RestartedRow(w, unhashable, e);
            && r'.vault == r.vault && r'.original == r.original && r'.transactional == r.transactional
            && (r.transactional ==> r' == r)
            && (!r.transactional && Transitional(r'.state) ==>
                 e in unhashable && r.state == Preparing && r.vault in w.fs)
  {
  }

  lemma RestartSafe(w: World, unhashable: set<nat>)
    requires Safe(w)
    ensures Safe(Restarted(w, unhashable))
  {
    hide Conserved, VaultsOwned, Restarted, Coherent;
    var w' := Restarted(w, unhashable);
    RestartRows(w, unhashable);
    forall e ensures Coherent(w', e) {
      AbortCoherent(w, e);
      RestartCoherent(w, unhashable, e);
    }
  }

  lemma RestartRows(w: World, unhashable: set<nat>)
    requires Conserved(w) && VaultsOwned(w)
    ensures Conserved(Restarted(w, unhashable)) && VaultsOwned(Restarted(w, unhashable))
  {
    var w' := Restarted(w, unhashable);
    assert Conserved(w') by {
      hide Conserved;
      ConservedRows(w, w');
    }
    hide Conserved, Reconciled;
    forall e | e in w.entries
      ensures w'.entries[e].vault == w.entries[e].vault && w'.entries[e].transactional == w.entries[e].transactional
    {
      assert w'.entries[e] == RestartedRow(w, unhashable, e);
      RowSettles(w, unhashable, e);
    }
  }

  lemma RestartCoherent(w: World, unhashable: set<nat>, e: nat)
    requires Coherent(EndJob(w, e), e)
    ensures Coherent(Restarted(w, unhashable), e)
  {
    var w' := Restarted(w, unhashable);
    forall dest | Handed(w, e, dest) ensures Handed(w', e, dest) {
      HandedRows(w, w', e, dest);
    }
  }

  /** What start-up makes of one idle row of this engine, by what is found on disk; every other row, every
      name and everything that happened stay as they are. */
  lemma ReconcilesExactly(w: World, e: nat, hashable: bool)
    requires e in w.entries && e !in w.jobs && !w.entries[e].transactional
    ensures var r := w.entries[e];
            var kept, back := r.vault in w.fs, r.original in w.fs;
            var w' := Next(w, Reconcile(e, hashable));
            && w' == w.(entries := w.entries[e := r.(state := w'.entries[e].state)])
            && (r.state == Preparing ==>
                  && (w'.entries[e].state == Abandoned <==> back && !kept)
                  && (w'.entries[e].state == Active <==> kept && !back && hashable)
                  && (w'.entries[e].state == Inconsistent <==> kept == back)
                  && (w'.entries[e].state == Preparing <==> kept && !back && !hashable))
            && (r.state == Restoring ==> w'.entries[e].state == if kept then Active else Inconsistent)
            && (r.state == Purging ==> w'.entries[e].state == if kept then Active else Purged)
            && (r.state !in {Preparing, Restoring, Purging} ==> w' == w)
            && (w.jobs == map[] ==> Restarted(w, if hashable then {} else {e}).entries[e] == w'.entries[e])
  {
    var r := w.entries[e];
    assert w.entries[e := r] == w.entries;
    assert w.(entries := w.entries) == w;
  }

  /** What a crash in the middle of each request comes to. A restore that had moved the payload but not
      committed ends as inconsistent: the payload is at its destination, and no row says so. */
  lemma CrashOutcome(w: World, unhashable: set<nat>, e: nat)
    requires Safe(w) && e in w.jobs
    ensures e in w.entries
    ensures var r, r', job := w.entries[e], Restarted(w, unhashable).entries[e], w.jobs[e];
            && r'.target == r.target
            && (job.ToMove? || job == Moved(false) ==>
                 r'.state == if r.original in w.fs then Abandoned else Inconsistent)
            && (job == Moved(true) ==>
                  r'.state ==
                    if r.original in w.fs then Inconsistent else if e in unhashable then Preparing else Active)
            && (job.ToRestore? <==> r.state == Restoring && r'.state == Active)
            && (job.Delivered? <==> r.state == Restoring && r'.state == Inconsistent)
            && (job.Delivered? ==> Handed(w, e, job.dest))
            && (job.Deleting? <==> r.state == Purging && r'.state == Active)
            && (job.Deleted? <==> r'.state == Purged)
  {
    hide Conserved, Handed;
    assert Coherent(w, e);
    JobOnLegacy(w, e);
  }

  // ----- undisturbed requests do what they are for

  /** A new entry for the object at a served name. */
  ghost predicate CanQuarantine(w: World, e: nat, source: Path, name: string) {
    && source.Live? && source in w.fs && Vault(e, name) !in w.fs
    && (forall k :: k in w.entries ==> k < e)
  }

  function Quarantine3(w: World, e: nat, source: Path, name: string): World {
    FinishQuarantineStep(MoveStep(BeginQuarantineStep(w, e, source, name), e), e)
  }

  /** Quarantining moves exactly the object at the source, and leaves an active entry that holds it. */
  lemma QuarantineDoes(w: World, e: nat, source: Path, name: string)
    requires CanQuarantine(w, e, source, name)
    ensures var w', vault := Quarantine3(w, e, source, name), Vault(e, name);
            && w'.fs == Renamed(w.fs, source, vault)
            && w'.entries == w.entries[e := Entry(source, vault, Active, None, false)]
            && w'.jobs == w.jobs - {e}
            && w'.custody == w.custody[e := Custody(w.fs[source].id, w.clock)]
            && w'.begun == w.begun && w'.born == w.born && w'.gone == w.gone
  {
    var w1 := BeginQuarantineStep(w, e, source, name);
    assert w1.fs == w.fs && w1.jobs[e] == ToMove(source);
    var w2 := MoveStep(w1, e);
    assert w2.entries[e] == Entry(source, Vault(e, name), Preparing, None, false);
    assert w2.jobs[e] == Moved(true);
  }

  /** Quarantining and restoring is a round trip: the filesystem is as before, and the entry records that
      the payload went back to its original name. */
  lemma QuarantineRestores(w: World, e: nat, source: Path, name: string, policy: Policy, candidate: Path)
    requires CanQuarantine(w, e, source, name)
    ensures var w1 := Quarantine3(w, e, source, name);
            var w' := Restore3(w1, e, policy, source, candidate);
            && w'.fs == w.fs
            && w'.entries == w.entries[e := Entry(source, Vault(e, name), Restored, Some(source), false)]
  {
    hide Quarantine3, Restore3;
    QuarantineDoes(w, e, source, name);
    var w1, vault := Quarantine3(w, e, source, name), Vault(e, name);
    match policy {
      case Skip => RestoreSkips(w1, e, source, candidate);
      case Rename => RestoreRenames(w1, e, source, candidate);
      case Manual => RestoreManually(w1, e, source, candidate);
    }
    assert w1.fs[vault] == w.fs[source];
    assert Renamed(w1.fs, vault, source) == w.fs;
  }

  /** An entry a restore may start on. */
  ghost predicate Restorable(w: World, e: nat) {
    e in w.entries && !w.entries[e].transactional && w.entries[e].state == Active && w.entries[e].vault in w.fs
  }

  ghost predicate FreeName(w: World, p: Path) {
    p.Live? && p !in w.fs
  }

  /** The payload is at `dest`, the row says so, and nothing else has changed. */
  ghost predicate RestoredTo(w: World, w': World, e: nat, dest: Path)
    requires Restorable(w, e)
  {
    && w'.fs == Renamed(w.fs, w.entries[e].vault, dest)
    && w'.entries == w.entries[e := w.entries[e].(state := Restored, target := Some(dest))]
    && w'.jobs == w.jobs - {e}
    && w'.custody == w.custody && w'.born == w.born && w'.begun == w.begun && w'.gone == w.gone
  }

  function Restore3(w: World, e: nat, policy: Policy, custom: Path, candidate: Path): World {
    FinishRestoreStep(RestoreMoveStep(BeginRestoreStep(w, e, policy, custom, candidate), e), e)
  }

  /** A restore that has begun for `dest` and is not disturbed. */
  lemma RestoreArrives(w: World, w1: World, e: nat, dest: Path)
    requires Restorable(w, e) && FreeName(w, dest)
    requires w1 == SetJob(SetState(w, e, Restoring), e, ToRestore(dest))
    ensures RestoredTo(w, FinishRestoreStep(RestoreMoveStep(w1, e), e), e, dest)
  {
    var w2 := RestoreMoveStep(w1, e);
    assert w2.jobs[e] == Delivered(dest) && w2.fs == Renamed(w.fs, w.entries[e].vault, dest);
    assert FinishRestoreStep(w2, e).jobs == w.jobs - {e};
  }

  /** To the original name: that one when it is free, whatever else was given; when it is not, the
      request ends without a change. */
  lemma RestoreSkips(w: World, e: nat, custom: Path, candidate: Path)
    requires Restorable(w, e)
    ensures var r := w.entries[e];
            if FreeName(w, r.original) then RestoredTo(w, Restore3(w, e, Skip, custom, candidate), e, r.original)
            else BeginRestoreStep(w, e, Skip, custom, candidate) == w
  {
    hide RestoreMoveStep, FinishRestoreStep, RestoredTo;
    var r := w.entries[e];
    if FreeName(w, r.original) {
      RestoreArrives(w, BeginRestoreStep(w, e, Skip, custom, candidate), e, r.original);
    }
  }

  /** To the original name when it is free, otherwise to the candidate beside it. */
  lemma RestoreRenames(w: World, e: nat, custom: Path, candidate: Path)
    requires Restorable(w, e) && w.entries[e].original.Live?
    ensures var r := w.entries[e];
            if r.original !in w.fs then RestoredTo(w, Restore3(w, e, Rename, custom, candidate), e, r.original)
            else if FreeName(w, candidate) then RestoredTo(w, Restore3(w, e, Rename, custom, candidate), e, candidate)
            else BeginRestoreStep(w, e, Rename, custom, candidate) == w
  {
    hide RestoreMoveStep, FinishRestoreStep, RestoredTo;
    var r := w.entries[e];
    if r.original !in w.fs {
      RestoreArrives(w, BeginRestoreStep(w, e, Rename, custom, candidate), e, r.original);
    } else if FreeName(w, candidate) {
      RestoreArrives(w, BeginRestoreStep(w, e, Rename, custom, candidate), e, candidate);
    }
  }

  /** To the name that was asked for, and nowhere else. */
  lemma RestoreManually(w: World, e: nat, custom: Path, candidate: Path)
    requires Restorable(w, e)
    ensures if FreeName(w, custom) then RestoredTo(w, Restore3(w, e, Manual, custom, candidate), e, custom)
            else BeginRestoreStep(w, e, Manual, custom, candidate) == w
  {
    hide RestoreMoveStep, FinishRestoreStep, RestoredTo;
    if FreeName(w, custom) {
      RestoreArrives(w, BeginRestoreStep(w, e, Manual, custom, candidate), e, custom);
    }
  }

  /** A payload that is missing when a purge or the move back begins: the row says inconsistent, and nothing
      else changes. */
  lemma MissingPayload(w: World, e: nat)
    requires e in w.entries && w.entries[e].vault !in w.fs
    ensures !w.entries[e].transactional && w.entries[e].state == Active ==>
      BeginPurgeStep(w, e) == w.(entries := w.entries[e := w.entries[e].(state := Inconsistent)])
    ensures e in w.jobs && w.jobs[e].ToRestore? ==>
      RestoreMoveStep(w, e)
      == w.(entries := w.entries[e := w.entries[e].(state := Inconsistent)], jobs := w.jobs - {e})
  {
  }

  /** No other entry is touched. */
  lemma RestoreDeclines(w: World, e: nat, policy: Policy, custom: Path, candidate: Path)
    requires !Restorable(w, e)
    ensures BeginRestoreStep(w, e, policy, custom, candidate) == w
  {
  }

  /** A quarantine that is refused, or whose source is gone, moves nothing and says which. */
  lemma RefusedQuarantine(w: World, e: nat, source: Path, name: string, refused: bool)
    requires source.Live? && Vault(e, name) !in w.fs && (forall k :: k in w.entries ==> k < e)
    requires refused || source !in w.fs
    ensures var w1 := BeginQuarantineStep(w, e, source, name);
            var w' := FinishQuarantineStep(if refused then MoveFailsStep(w1, e) else MoveStep(w1, e), e);
            && w'.fs == w.fs && w'.custody == w.custody
            && w'.entries == w.entries[e :=
                 Entry(source, Vault(e, name), if source in w.fs then Abandoned else Inconsistent, None, false)]
  {
    var w1 := BeginQuarantineStep(w, e, source, name);
    assert w1.fs == w.fs && w1.jobs[e] == ToMove(source);
    var w2 := if refused then MoveFailsStep(w1, e) else MoveStep(w1, e);
    assert w2 == SetJob(w1, e, Moved(false));
  }

  /** A restore whose destination is taken after it was chosen leaves everything, and the entry active. */
  lemma TakenDestination(w: World, e: nat, policy: Policy, custom: Path, candidate: Path, item: Object)
    requires Restorable(w, e) && BeginRestoreStep(w, e, policy, custom, candidate) != w && item.id !in w.born
    ensures var w0 := BeginRestoreStep(w, e, policy, custom, candidate);
            && e in w0.jobs && w0.jobs[e].ToRestore?
            && var dest := w0.jobs[e].dest;
            var w' := RestoreMoveStep(CreateStep(w0, dest, item), e);
            w'.fs == w.fs[dest := item] && w'.entries == w.entries && w'.jobs == w.jobs - {e}
  {
    var w0 := BeginRestoreStep(w, e, policy, custom, candidate);
    var dest := w0.jobs[e].dest;
    assert FreeName(w, dest) && w0 == SetJob(SetState(w, e, Restoring), e, ToRestore(dest));
    hide BeginRestoreStep;
    var w1 := CreateStep(w0, dest, item);
    assert w1.fs == w.fs[dest := item] && w1.entries == w0.entries;
    assert w.entries[e].vault in w1.fs;
    assert RestoreMoveStep(w1, e).entries[e] == w.entries[e];
  }

  /** With `n` descendants removed. */
  function DeleteChildren(w: World, e: nat, n: nat): World {
    if n == 0 then w else DeleteChildStep(DeleteChildren(w, e, n - 1), e)
  }

  lemma {:induction false} ChildrenGone(w: World, e: nat, n: nat)
    requires AtJob(w, e) && w.jobs[e].Deleting? && w.entries[e].vault in w.fs
    requires var o := w.fs[w.entries[e].vault]; n == 0 || (o.dir && n <= o.left)
    ensures var o := w.fs[w.entries[e].vault];
            DeleteChildren(w, e, n) == w.(fs := w.fs[w.entries[e].vault := o.(left := o.left - n)])
  {
    if n > 0 {
      ChildrenGone(w, e, n - 1);
    } else {
      assert w.fs[w.entries[e].vault := w.fs[w.entries[e].vault]] == w.fs;
    }
  }

  /** Purging an active entry takes exactly its payload away, once all of it is deleted; a directory is
      not removed before. */
  lemma PurgeDoes(w: World, e: nat, n: nat)
    requires e in w.entries && !w.entries[e].transactional && w.entries[e].state == Active && w.entries[e].vault in w.fs
    requires var o := w.fs[w.entries[e].vault]; if o.dir then n <= o.left else n == 0
    ensures var o := w.fs[w.entries[e].vault];
            var w1 := DeleteChildren(BeginPurgeStep(w, e), e, n);
            var w' := FinishPurgeStep(DeleteRootStep(w1, e), e);
            if o.dir && n < o.left then DeleteRootStep(w1, e) == w1
            else && w'.fs == w.fs - {w.entries[e].vault}
                 && w'.entries == w.entries[e := w.entries[e].(state := Purged)]
                 && w'.gone == w.gone + {o.id}
  {
    var w0 := BeginPurgeStep(w, e);
    ChildrenGone(w0, e, n);
  }

  // ----- two runs that end in less than one would hope

  lemma RunOne(w: World, s: Step, rest: seq<Step>)
    ensures Run(w, [s] + rest) == Run(Next(w, s), rest)
  {
    assert ([s] + rest)[1..] == rest;
  }

  /** An object is created, quarantined and made active. */
  lemma Quarantined(item: Object, rest: seq<Step>)
    ensures Run(Start(), QuarantineSteps(item) + rest) == Run(Quarantine(item), rest)
  {
    hide Run;
    var steps := QuarantineSteps(item) + rest;
    var vault := Vault(0, "a");
    var w1 := Next(Start(), steps[0]);
    assert w1 == World(map[Live("a") := item], map[], map[], map[item.id := item], map[], {}, {}, 0);
    var w2 := Next(w1, steps[1]);
    assert w2.entries == map[0 := Entry(Live("a"), vault, Preparing, None, false)];
    var w3 := Next(w2, steps[2]);
    assert w3.fs == map[vault := item] && w3.jobs == map[0 := Moved(true)];
    var w4 := Next(w3, steps[3]);
    assert w4.jobs == map[];
    assert w4.entries == map[0 := Entry(Live("a"), vault, Active, None, false)];
    assert w4.fs == map[vault := item] && w4.born == map[item.id := item]
        && w4.custody == map[0 := Custody(item.id, 0)];
    assert steps == [steps[0]] + ([steps[1]] + ([steps[2]] + ([steps[3]] + rest)));
    RunOne(Start(), steps[0], [steps[1]] + ([steps[2]] + ([steps[3]] + rest)));
    RunOne(w1, steps[1], [steps[2]] + ([steps[3]] + rest));
    RunOne(w2, steps[2], [steps[3]] + rest);
    RunOne(w3, steps[3], rest);
  }

  /** A payload in quarantine, active and untouched since. */
  function Quarantine(item: Object): World {
    World(map[Vault(0, "a") := item], map[0 := Entry(Live("a"), Vault(0, "a"), Active, None, false)], map[],
          map[item.id := item], map[0 := Custody(item.id, 0)], {}, {}, 1)
  }

  function QuarantineSteps(item: Object): seq<Step> {
    [Create(Live("a"), item), BeginQuarantine(0, Live("a"), "a"), Move(0), FinishQuarantine(0)]
  }

  lemma RestoreCrashes(item: Object)
    ensures Unrecorded(Run(Quarantine(item), RestoreSteps()), item)
  {
    hide Run, BeginRestoreStep, RestoreMoveStep, ReconcileStep, Unrecorded;
    RunFour(Quarantine(item), RestoreSteps());
    RestoreDelivers(item);
    DeliveredUnrecorded(RestoreMoveStep(BeginRestoreStep(Quarantine(item), 0, Skip, Live("a"), Live("a")), 0), item);
  }

  lemma RestoreDelivers(item: Object)
    ensures var w := RestoreMoveStep(BeginRestoreStep(Quarantine(item), 0, Skip, Live("a"), Live("a")), 0);
            && w.entries == map[0 := Entry(Live("a"), Vault(0, "a"), Restoring, None, false)]
            && w.fs == map[Live("a") := item]
  {
    var w1 := BeginRestoreStep(Quarantine(item), 0, Skip, Live("a"), Live("a"));
    assert w1.entries == map[0 := Entry(Live("a"), Vault(0, "a"), Restoring, None, false)];
    assert w1.jobs == map[0 := ToRestore(Live("a"))];
    assert RestoreMoveStep(w1, 0).fs == map[Live("a") := item];
  }

  lemma DeliveredUnrecorded(w: World, item: Object)
    requires w.entries == map[0 := Entry(Live("a"), Vault(0, "a"), Restoring, None, false)]
    requires w.fs == map[Live("a") := item]
    ensures Unrecorded(ReconcileStep(w.(jobs := map[]), 0, true), item)
  {
    var w' := ReconcileStep(w.(jobs := map[]), 0, true);
    assert w'.entries[0] == Entry(Live("a"), Vault(0, "a"), Inconsistent, None, false);
  }

  function RestoreSteps(): seq<Step> {
    [BeginRestore(0, Skip, Live("a"), Live("a")), RestoreMove(0), Crash, Reconcile(0, true)]
  }

  /** The object has come back whole to the name it had, and its row says inconsistent, with no target. */
  ghost predicate Unrecorded(w: World, item: Object) {
    exists e :: e in w.entries && w.entries[e].state == Inconsistent && w.entries[e].target == None
                && w.entries[e].original in w.fs && w.fs[w.entries[e].original] == item
  }

  /** A restore can deliver any object and still be recorded as inconsistent. */
  lemma RestoreCanGoUnrecorded(item: Object)
    ensures exists steps :: Unrecorded(Run(Start(), steps), item)
  {
    hide Run, Unrecorded;
    Quarantined(item, RestoreSteps());
    RestoreCrashes(item);
    assert Unrecorded(Run(Start(), QuarantineSteps(item) + RestoreSteps()), item);
  }

  lemma PurgeCrashes(item: Object)
    requires item.dir && item.left > 0
    ensures ActiveIncomplete(Run(Quarantine(item), PurgeSteps()), item)
  {
    hide Run, BeginPurgeStep, DeleteChildStep, ReconcileStep, ActiveIncomplete;
    RunFour(Quarantine(item), PurgeSteps());
    PurgeBegins(item);
    PurgedIncomplete(DeleteChildStep(BeginPurgeStep(Quarantine(item), 0), 0), item);
  }

  lemma PurgeBegins(item: Object)
    requires item.dir && item.left > 0
    ensures var w := DeleteChildStep(BeginPurgeStep(Quarantine(item), 0), 0);
            && w.entries == map[0 := Entry(Live("a"), Vault(0, "a"), Purging, None, false)]
            && w.fs == map[Vault(0, "a") := item.(left := item.left - 1)] && w.born == map[item.id := item]
  {
    var w1 := BeginPurgeStep(Quarantine(item), 0);
    assert w1.entries == map[0 := Entry(Live("a"), Vault(0, "a"), Purging, None, false)];
    assert DeleteChildStep(w1, 0).fs == map[Vault(0, "a") := item.(left := item.left - 1)];
  }

  lemma PurgedIncomplete(w: World, item: Object)
    requires w.entries == map[0 := Entry(Live("a"), Vault(0, "a"), Purging, None, false)] && item.left > 0
    requires w.fs == map[Vault(0, "a") := item.(left := item.left - 1)] && w.born == map[item.id := item]
    ensures ActiveIncomplete(ReconcileStep(w.(jobs := map[]), 0, true), item)
  {
    var w' := ReconcileStep(w.(jobs := map[]), 0, true);
    assert w'.entries[0] == Entry(Live("a"), Vault(0, "a"), Active, None, false);
    assert Altered(w', w'.entries[0].vault, item);
  }

  function PurgeSteps(): seq<Step> {
    [BeginPurge(0), DeleteChild(0), Crash, Reconcile(0, true)]
  }

  /** The object is the payload of an active row and no longer what it was made as. */
  ghost predicate ActiveIncomplete(w: World, item: Object) {
    exists e :: e in w.entries && w.entries[e].state == Active && !w.entries[e].transactional
                && Altered(w, w.entries[e].vault, item)
  }

  ghost predicate Altered(w: World, p: Path, item: Object) {
    p in w.fs && w.fs[p].id == item.id && w.fs[p] != item && item.id in w.born && w.born[item.id] == item
  }

  /** Only a directory that had descendants is ever less than it was made as. */
  ghost predicate LeavesWhole(w: World) {
    forall p :: p in w.fs ==>
      && w.fs[p].id in w.born
      && (w.fs[p] == w.born[w.fs[p].id] || (w.born[w.fs[p].id].dir && w.born[w.fs[p].id].left > 0))
  }

  lemma NextLeavesWhole(w: World, s: Step)
    requires LeavesWhole(w)
    ensures LeavesWhole(Next(w, s))
  {
    hide Reconciled, Destination;
  }

  lemma {:induction false} RunLeavesWhole(w: World, steps: seq<Step>)
    requires LeavesWhole(w)
    ensures LeavesWhole(Run(w, steps))
    decreases |steps|
  {
    hide Next, LeavesWhole;
    if steps != [] {
      NextLeavesWhole(w, steps[0]);
      RunLeavesWhole(Next(w, steps[0]), steps[1..]);
    }
  }

  /** Some run ends with the object as an incomplete active payload, after a purge that crashed half way,
      exactly when it is a directory that is not empty. */
  lemma ActiveCanBeIncomplete(item: Object)
    ensures (exists steps :: ActiveIncomplete(Run(Start(), steps), item)) <==> item.dir && item.left > 0
  {
    hide Run, ActiveIncomplete;
    if item.dir && item.left > 0 {
      Quarantined(item, PurgeSteps());
      PurgeCrashes(item);
      assert ActiveIncomplete(Run(Start(), QuarantineSteps(item) + PurgeSteps()), item);
    } else {
      forall steps ensures !ActiveIncomplete(Run(Start(), steps), item) {
        RunLeavesWhole(Start(), steps);
        NeverIncomplete(Run(Start(), steps), item);
      }
    }
  }

  lemma NeverIncomplete(w: World, item: Object)
    requires LeavesWhole(w) && !(item.dir && item.left > 0)
    ensures !ActiveIncomplete(w, item)
  {
  }

  lemma RunFour(w: World, s: seq<Step>)
    requires |s| == 4
    ensures Run(w, s) == Next(Next(Next(Next(w, s[0]), s[1]), s[2]), s[3])
  {
    hide Next;
    RunOne(w, s[0], s[1..]);
    RunOne(Next(w, s[0]), s[1], s[2..]);
    RunOne(Next(Next(w, s[0]), s[1]), s[2], s[3..]);
    RunOne(Next(Next(Next(w, s[0]), s[1]), s[2]), s[3], []);
    assert s == [s[0]] + s[1..] && s[1..] == [s[1]] + s[2..] && s[2..] == [s[2]] + s[3..] && s[3..] == [s[3]] + [];
  }

  // ----- the start-up loop

  class Startup {
    var world: World

    constructor (world: World)
      ensures this.world == world
    {
      this.world := world;
    }

    /** One row, re-read in its own session; only a change is committed. */
    method ReconcileOne(e: nat, hashable: bool)
      requires e in world.entries
      modifies this
      ensures world == old(world).(entries := old(world).entries[e :=
        Reconciled(old(world).entries[e], old(world).entries[e].vault in old(world).fs,
                   old(world).entries[e].original in old(world).fs, hashable)])
    {
      var r := world.entries[e];
      var vaultExists, sourceExists := r.vault in world.fs, r.original in world.fs;
      if !r.transactional {
        if r.state == Preparing {
          if sourceExists && !vaultExists {
            r := r.(state := Abandoned);
          } else if !sourceExists && vaultExists {
            if hashable {
              r := r.(state := Active);
            }
          } else {
            r := r.(state := Inconsistent);
          }
        } else if r.state == Restoring {
          r := r.(state := if vaultExists then Active else Inconsistent);
        } else if r.state == Purging {
          r := r.(state := if vaultExists then Active else Purged);
        }
      }
      world := world.(entries := world.entries[e := r]);
    }

    /** The rows the query found in a transitional state, one after the other. */
    method ReconcileStartup(ids: seq<nat>, unhashable: set<nat>)
      requires world.jobs == map[]
      requires forall e :: e in ids <==> e in world.entries && Transitional(world.entries[e].state)
      modifies this
      ensures world == Restarted(old(world), unhashable)
    {
      hide Reconciled, Restarted;
      ghost var was := world;
      var i := 0;
      while i < |ids|
        invariant 0 <= i <= |ids|
        invariant world == was.(entries := world.entries) && world.entries.Keys == was.entries.Keys
        invariant forall e :: e in was.entries && e in ids[..i] ==> world.entries[e] == RestartedRow(was, unhashable, e)
        invariant forall e :: e in was.entries && e !in ids[..i] ==> world.entries[e] == was.entries[e]
      {
        var e := ids[i];
        RowAgain(was, unhashable, e);
        ReconcileOne(e, e !in unhashable);
        assert ids[..i + 1] == ids[..i] + [e];
        i := i + 1;
      }
      assert ids[..i] == ids;
      forall e | e in was.entries ensures world.entries[e] == RestartedRow(was, unhashable, e) {
        if e !in ids {
          RowAgain(was, unhashable, e);
        }
      }
      RestartedByRows(was, unhashable, world.entries);
    }
  }

  lemma RestartedByRows(w: World, unhashable: set<nat>, rows: map<nat, Entry>)
    requires w.jobs == map[] && rows.Keys == w.entries.Keys
    requires forall e :: e in w.entries ==> rows[e] == RestartedRow(w, unhashable, e)
    ensures w.(entries := rows) == Restarted(w, unhashable)
  {
    hide Reconciled;
    assert rows == Restarted(w, unhashable).entries;
  }

  function RestartedRow(w: World, unhashable: set<nat>, e: nat): Entry
    requires e in w.entries
  {
    Reconciled(w.entries[e], w.entries[e].vault in w.fs, w.entries[e].original in w.fs, e !in unhashable)
  }

  /** Start-up does not change a row that is not transitional, or one it has treated before. */
  lemma RowAgain(w: World, unhashable: set<nat>, e: nat)
    requires e in w.entries
    ensures !Transitional(w.entries[e].state) ==> RestartedRow(w, unhashable, e) == w.entries[e]
    ensures var r := RestartedRow(w, unhashable, e);
            Reconciled(r, r.vault in w.fs, r.original in w.fs, e !in unhashable) == r
  {
  }
}
