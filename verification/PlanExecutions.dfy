/** Execution jobs against plan deletion: enqueueing, retrying, deleting and clearing by any number of
    callers, each call a sequence of transactions that interleave freely. */
module PlanExecutions {
  datatype PlanStatus =
    | Draft | Frozen | Ready | Partial | Done | Broken | Stale | Expired | Validating | Executing

  datatype JobStatus = Queued | Running | Paused | CancelRequested | Cancelled | Failed | Completed

  /** `execution`: a job of kind batch-plan-execute; other jobs name no plan of their own. */
  datatype Job = Job(execution: bool, plan: nat, status: JobStatus, restarted: bool)

  /** Where a call stands between two of its transactions. */
  datatype Call =
    | Preflight(plan: nat)
    | Enqueueing(plan: nat)
    | Cancelling(plan: nat, job: nat)
    | Deleting(plan: nat)

  datatype Db = Db(plans: map<nat, PlanStatus>, jobs: map<nat, Job>, calls: map<nat, Call>)

  datatype Step =
    | CreatePlan(plan: nat, status: PlanStatus)
    | SetStatus(plan: nat, status: PlanStatus)
    | OtherJob(job: nat)
    | Advance(job: nat, to: JobStatus)
    | Restart(job: nat)
    | DeleteTask(job: nat)
    | ClearTasks(ended: set<JobStatus>)
    | StartEnqueue(call: nat, plan: nat)
    | FinishPreflight(call: nat, stale: bool)
    | CommitEnqueue(call: nat, job: nat)
    | Retry(failed: nat, job: nat)
    | StartDelete(call: nat, plan: nat, found: nat)
    | CancelFirst(call: nat)
    | CommitDelete(call: nat)
    | ClearHistory(statuses: set<PlanStatus>)

  predicate Active(s: JobStatus) {
    s == Queued || s == Running || s == Paused || s == CancelRequested
  }

  predicate ExecutionOf(j: Job, plan: nat) {
    j.execution && j.plan == plan
  }

  predicate ActiveFor(j: Job, plan: nat) {
    j.execution && j.plan == plan && Active(j.status)
  }

  /** Whether the query for an active execution job of the plan finds one. */
  predicate HasActive(db: Db, plan: nat) {
    exists j | j in db.jobs.Keys :: ActiveFor(db.jobs[j], plan)
  }

  /** The query's answer: the largest id among the active execution jobs of the plan. */
  predicate IsActiveJob(db: Db, plan: nat, job: nat) {
    job in db.jobs && ActiveFor(db.jobs[job], plan)
    && forall j | j in db.jobs.Keys :: ActiveFor(db.jobs[j], plan) ==> j <= job
  }

  predicate FreshJob(db: Db, job: nat) {
    forall j | j in db.jobs.Keys :: j < job
  }

  predicate Executable(s: PlanStatus) {
    s == Ready || s == Partial
  }

  predicate Deletable(s: PlanStatus) {
    s == Executing || s in {Draft, Frozen, Ready, Partial, Done, Broken, Stale, Expired}
  }

  predicate History(s: PlanStatus) {
    s == Done || s == Broken
  }

  function EndCall(db: Db, call: nat): Db {
    db.(calls := db.calls - {call})
  }

  function QueueJob(db: Db, job: nat, plan: nat): Db {
    db.(jobs := db.jobs[job := Job(true, plan, Queued, false)])
  }

  /** The first look, in a session of its own. */
  function StartEnqueueStep(db: Db, call: nat, plan: nat): Db {
    if call !in db.calls && plan in db.plans && Executable(db.plans[plan]) && !HasActive(db, plan) then
      db.(calls := db.calls[call := Preflight(plan)])
    else db
  }

  /** The freshness check runs without a lock; when it fails, the plan, if it is still there, is marked
      stale in a transaction of its own and the call ends. */
  function FinishPreflightStep(db: Db, call: nat, stale: bool): Db {
    if call in db.calls && db.calls[call].Preflight? then
      var plan := db.calls[call].plan;
      if stale then EndCall(if plan in db.plans then db.(plans := db.plans[plan := Stale]) else db, call)
      else db.(calls := db.calls[call := Enqueueing(plan)])
    else db
  }

  /** Under the write lock everything is looked at again. */
  function CommitEnqueueStep(db: Db, call: nat, job: nat): Db {
    if call in db.calls && db.calls[call].Enqueueing? && FreshJob(db, job) then
      var plan := db.calls[call].plan;
      if plan in db.plans && Executable(db.plans[plan]) && !HasActive(db, plan) then
        EndCall(QueueJob(db, job, plan), call)
      else EndCall(db, call)
    else db
  }

  /** A failed job is retried as a new job, in one transaction. */
  function RetryStep(db: Db, failed: nat, job: nat): Db {
    if failed in db.jobs && db.jobs[failed].execution && db.jobs[failed].status == Failed && FreshJob(db, job) then
      var plan := db.jobs[failed].plan;
      if plan in db.plans && Executable(db.plans[plan]) && !HasActive(db, plan) then QueueJob(db, job, plan)
      else db
    else db
  }

  /** Only a queued or paused job that was recovered after a restart is cancelled on the way. */
  function StartDeleteStep(db: Db, call: nat, plan: nat, found: nat): Db {
    if call in db.calls || plan !in db.plans then db
    else if !HasActive(db, plan) then db.(calls := db.calls[call := Deleting(plan)])
    else if IsActiveJob(db, plan, found)
            && (db.jobs[found].status == Queued || db.jobs[found].status == Paused) && db.jobs[found].restarted then
      db.(calls := db.calls[call := Cancelling(plan, found)])
    else db
  }

  /** The cancellation of the task service: at once when queued or paused, requested when running; an
      exception when the job is over or gone. */
  function CancelFirstStep(db: Db, call: nat): Db {
    if call in db.calls && db.calls[call].Cancelling? then
      var j := db.calls[call].job;
      if j !in db.jobs || !Active(db.jobs[j].status) then EndCall(db, call)
      else
        var to := if db.jobs[j].status == Queued || db.jobs[j].status == Paused then Cancelled else CancelRequested;
        db.(jobs := db.jobs[j := db.jobs[j].(status := to)], calls := db.calls[call := Deleting(db.calls[call].plan)])
    else db
  }

  function CommitDeleteStep(db: Db, call: nat): Db {
    if call in db.calls && db.calls[call].Deleting? then
      var plan := db.calls[call].plan;
      if plan in db.plans && !HasActive(db, plan) && Deletable(db.plans[plan]) then
        EndCall(db.(plans := db.plans - {plan}), call)
      else EndCall(db, call)
    else db
  }

  /** One transaction over all plans in the chosen history states. */
  function ClearHistoryStep(db: Db, statuses: set<PlanStatus>): Db {
    if statuses != {} && forall s | s in statuses :: History(s) then
      db.(plans := map p | p in db.plans && !(db.plans[p] in statuses && !HasActive(db, p)) :: db.plans[p])
    else db
  }

  function Next(db: Db, s: Step): Db {
    match s
    case CreatePlan(plan, status) => if plan in db.plans then db else db.(plans := db.plans[plan := status])
    case SetStatus(plan, status) => if plan in db.plans then db.(plans := db.plans[plan := status]) else db
    case OtherJob(job) => if FreshJob(db, job) then db.(jobs := db.jobs[job := Job(false, 0, Queued, false)]) else db
    case Advance(j, to) =>
      if j in db.jobs && Active(db.jobs[j].status) then db.(jobs := db.jobs[j := db.jobs[j].(status := to)]) else db
    case Restart(j) => if j in db.jobs then db.(jobs := db.jobs[j := db.jobs[j].(restarted := true)]) else db
    case DeleteTask(j) =>
      if j in db.jobs && !Active(db.jobs[j].status) then db.(jobs := db.jobs - {j}) else db
    case ClearTasks(statuses) =>
      if forall s | s in statuses :: !Active(s) then
        db.(jobs := map j | j in db.jobs && db.jobs[j].status !in statuses :: db.jobs[j])
      else db
    case StartEnqueue(call, plan) => StartEnqueueStep(db, call, plan)
    case FinishPreflight(call, stale) => FinishPreflightStep(db, call, stale)
    case CommitEnqueue(call, job) => CommitEnqueueStep(db, call, job)
    case Retry(failed, job) => RetryStep(db, failed, job)
    case StartDelete(call, plan, found) => StartDeleteStep(db, call, plan, found)
    case CancelFirst(call) => CancelFirstStep(db, call)
    case CommitDelete(call) => CommitDeleteStep(db, call)
    case ClearHistory(statuses) => ClearHistoryStep(db, statuses)
  }

  function Run(db: Db, steps: seq<Step>): Db
    decreases |steps|
  {
    if steps == [] then db else Run(Next(db, steps[0]), steps[1..])
  }

  // ----- what every interleaving keeps

  /** An active execution job has its plan, and is later than every other execution job of that plan. */
  ghost predicate Exclusive(db: Db) {
    forall j :: j in db.jobs && ActiveFor(db.jobs[j], db.jobs[j].plan) ==>
      && db.jobs[j].plan in db.plans
      && forall k :: k in db.jobs && db.jobs[k].execution && db.jobs[k].plan == db.jobs[j].plan ==> k <= j
  }

  lemma NextExclusive(db: Db, s: Step)
    requires Exclusive(db)
    ensures Exclusive(Next(db, s))
  {
    hide CommitDeleteStep, ClearHistoryStep, CommitEnqueueStep, RetryStep, CancelFirstStep;
    match s
    case CommitEnqueue(call, job) => CommitEnqueueSafe(db, call, job);
    case Retry(failed, job) => RetrySafe(db, failed, job);
    case CancelFirst(call) => CancelFirstSafe(db, call);
    case CommitDelete(call) => CommitDeleteSafe(db, call);
    case ClearHistory(statuses) => ClearHistorySafe(db, statuses);
    case _ =>
  }

  lemma CommitEnqueueSafe(db: Db, call: nat, job: nat)
    requires Exclusive(db)
    ensures Exclusive(CommitEnqueueStep(db, call, job))
  {
  }

  lemma RetrySafe(db: Db, failed: nat, job: nat)
    requires Exclusive(db)
    ensures Exclusive(RetryStep(db, failed, job))
  {
  }

  lemma CancelFirstSafe(db: Db, call: nat)
    requires Exclusive(db)
    ensures Exclusive(CancelFirstStep(db, call))
  {
  }

  /** A plan with an active execution is not deleted, however the calls interleave. */
  lemma CommitDeleteSafe(db: Db, call: nat)
    requires Exclusive(db)
    ensures Exclusive(CommitDeleteStep(db, call))
    ensures forall p :: p in db.plans && p !in CommitDeleteStep(db, call).plans ==> !HasActive(db, p)
  {
  }

  lemma ClearHistorySafe(db: Db, statuses: set<PlanStatus>)
    requires Exclusive(db)
    ensures Exclusive(ClearHistoryStep(db, statuses))
    ensures forall p :: p in db.plans ==>
              (p !in ClearHistoryStep(db, statuses).plans <==>
                 statuses <= {Done, Broken} && db.plans[p] in statuses && !HasActive(db, p))
  {
    forall p | p in db.plans
      ensures p !in ClearHistoryStep(db, statuses).plans <==>
                statuses <= {Done, Broken} && db.plans[p] in statuses && !HasActive(db, p)
    {
      if (forall s | s in statuses :: History(s)) {
        assert statuses <= {Done, Broken};
      } else {
        var s :| s in statuses && !History(s);
        assert s !in {Done, Broken};
      }
    }
  }

  lemma {:induction false} RunExclusive(db: Db, steps: seq<Step>)
    requires Exclusive(db)
    ensures Exclusive(Run(db, steps))
    decreases |steps|
  {
    hide Next, Exclusive;
    if steps != [] {
      NextExclusive(db, steps[0]);
      RunExclusive(Next(db, steps[0]), steps[1..]);
    }
  }

  /** Job `j` is a live execution of the plan. */
  predicate Live(db: Db, j: nat, plan: nat) {
    && j in db.jobs && db.jobs[j].execution && db.jobs[j].plan == plan
    && db.jobs[j].status in {Queued, Running, Paused, CancelRequested}
  }

  /** No plan has two live executions and no live execution has lost its plan, in any run. */
  lemma EveryRun(steps: seq<Step>)
    ensures var db := Run(Db(map[], map[], map[]), steps);
            && (forall plan, j, k :: Live(db, j, plan) && Live(db, k, plan) ==> j == k)
            && (forall plan, j :: Live(db, j, plan) ==> plan in db.plans)
  {
    hide Run;
    RunExclusive(Db(map[], map[], map[]), steps);
  }

  // ----- which statuses let a request through

  /** No execution of the plan is waiting, running, paused or asked to stop. */
  ghost predicate Idle(db: Db, plan: nat) {
    forall j :: !Live(db, j, plan)
  }

  lemma IdleExactly(db: Db, plan: nat)
    ensures Idle(db, plan) <==> !HasActive(db, plan)
  {
    if !HasActive(db, plan) {
      forall j ensures !Live(db, j, plan) {
        assert j in db.jobs ==> !ActiveFor(db.jobs[j], plan);
      }
    } else {
      var j :| j in db.jobs.Keys && ActiveFor(db.jobs[j], plan);
      assert Live(db, j, plan);
    }
  }

  ghost predicate NewId(db: Db, job: nat) {
    forall j :: j in db.jobs ==> j < job
  }

  /** An enqueueing call goes on exactly for a validated or partly run plan without a live execution. */
  lemma LooksExactly(db: Db, call: nat, plan: nat)
    requires call !in db.calls
    ensures Next(db, StartEnqueue(call, plan)) ==
      if plan in db.plans && db.plans[plan] in {Ready, Partial} && Idle(db, plan) then
        db.(calls := db.calls[call := Preflight(plan)])
      else db
  {
    hide HasActive, Idle;
    IdleExactly(db, plan);
  }

  /** A plan found stale meanwhile is marked so, if it is still there, and the call is over. */
  lemma ChecksExactly(db: Db, call: nat, plan: nat, stale: bool)
    requires call in db.calls && db.calls[call] == Preflight(plan)
    ensures Next(db, FinishPreflight(call, stale)) ==
      if !stale then db.(calls := db.calls[call := Enqueueing(plan)])
      else Db(map p | p in db.plans :: if p == plan then Stale else db.plans[p], db.jobs, db.calls - {call})
  {
    assert plan in db.plans ==>
      db.plans[plan := Stale] == map p | p in db.plans :: if p == plan then Stale else db.plans[p];
    assert plan !in db.plans ==> db.plans == map p | p in db.plans :: if p == plan then Stale else db.plans[p];
  }

  /** Under the lock it gets its job, queued, exactly when that still holds; either way the call is over. */
  lemma EnqueuesExactly(db: Db, call: nat, plan: nat, job: nat)
    requires call in db.calls && db.calls[call] == Enqueueing(plan) && NewId(db, job)
    ensures Next(db, CommitEnqueue(call, job)) ==
      if plan in db.plans && db.plans[plan] in {Ready, Partial} && Idle(db, plan) then
        Db(db.plans, db.jobs[job := Job(true, plan, Queued, false)], db.calls - {call})
      else db.(calls := db.calls - {call})
  {
    hide HasActive, Idle;
    IdleExactly(db, plan);
  }

  /** Only a failed execution is retried, under the same conditions, as a new job. */
  lemma RetriesExactly(db: Db, failed: nat, job: nat)
    requires NewId(db, job)
    ensures Next(db, Retry(failed, job)) ==
      if failed in db.jobs && db.jobs[failed].execution && db.jobs[failed].status == Failed
         && db.jobs[failed].plan in db.plans && db.plans[db.jobs[failed].plan] in {Ready, Partial}
         && Idle(db, db.jobs[failed].plan) then
        db.(jobs := db.jobs[job := Job(true, db.jobs[failed].plan, Queued, false)])
      else db
  {
    hide HasActive, Idle;
    if failed in db.jobs {
      IdleExactly(db, db.jobs[failed].plan);
    }
  }

  /** A deletion first cancels the latest live execution exactly when that one waits or is paused and was
      recovered after a restart; any other live execution stops the call. */
  lemma StartsDeleteExactly(db: Db, call: nat, plan: nat, found: nat)
    requires call !in db.calls
    ensures Next(db, StartDelete(call, plan, found)) ==
      if plan !in db.plans then db
      else if Idle(db, plan) then db.(calls := db.calls[call := Deleting(plan)])
      else if Live(db, found, plan) && (forall j: nat :: Live(db, j, plan) ==> j <= found)
              && db.jobs[found].status in {Queued, Paused} && db.jobs[found].restarted then
        db.(calls := db.calls[call := Cancelling(plan, found)])
      else db
  {
    hide HasActive, Idle;
    IdleExactly(db, plan);
    assert IsActiveJob(db, plan, found) <==>
        Live(db, found, plan) && forall j: nat :: Live(db, j, plan) ==> j <= found by {
      if IsActiveJob(db, plan, found) {
        forall j: nat | Live(db, j, plan) ensures j <= found {
          assert ActiveFor(db.jobs[j], plan);
        }
      } else if Live(db, found, plan) {
        var j :| j in db.jobs.Keys && ActiveFor(db.jobs[j], plan) && j > found;
        assert Live(db, j, plan);
      }
    }
  }

  /** A job that waits or is paused is cancelled at once, one that runs is asked to stop; one that is over
      or gone ends the call. */
  lemma CancelsExactly(db: Db, call: nat, plan: nat, job: nat)
    requires call in db.calls && db.calls[call] == Cancelling(plan, job)
    ensures var to := map[Queued := Cancelled, Paused := Cancelled, Running := CancelRequested,
                          CancelRequested := CancelRequested];
            Next(db, CancelFirst(call)) ==
              if job in db.jobs && db.jobs[job].status in to then
                Db(db.plans, db.jobs[job := db.jobs[job].(status := to[db.jobs[job].status])],
                   db.calls[call := Deleting(plan)])
              else db.(calls := db.calls - {call})
  {
  }

  /** A delete under the lock removes the plan exactly when no execution is live and the plan is not
      being validated. */
  lemma DeletesExactly(db: Db, call: nat, plan: nat)
    requires call in db.calls && db.calls[call] == Deleting(plan)
    ensures Next(db, CommitDelete(call)) ==
      if plan in db.plans && db.plans[plan] != Validating && Idle(db, plan) then
        Db(db.plans - {plan}, db.jobs, db.calls - {call})
      else db.(calls := db.calls - {call})
  {
    hide HasActive, Idle;
    IdleExactly(db, plan);
  }

  // ----- what a caller can rely on

  /** A second execution of a plan starts only after the first is over: as long as a job stays active,
      no step puts another execution job of its plan into the table, and no step takes its plan away. */
  lemma NoneBeside(db: Db, s: Step, j: nat)
    requires Exclusive(db) && j in db.jobs && ActiveFor(db.jobs[j], db.jobs[j].plan)
    ensures var db' := Next(db, s);
            && j in db'.jobs && db'.jobs[j].plan == db.jobs[j].plan
            && db.jobs[j].plan in db'.plans
            && forall k :: k in db'.jobs && ExecutionOf(db'.jobs[k], db.jobs[j].plan) ==>
                 k in db.jobs && ExecutionOf(db.jobs[k], db.jobs[j].plan)
  {
  }

  /** While a job stays active through a run, its plan is there and no other execution of it appears. */
  lemma {:induction false} NoneBesideInRun(db: Db, steps: seq<Step>, j: nat, plan: nat)
    requires Exclusive(db) && j in db.jobs && ActiveFor(db.jobs[j], plan)
    requires StaysActive(db, steps, j)
    ensures var db' := Run(db, steps);
            && plan in db'.plans
            && forall k :: k in db'.jobs && ExecutionOf(db'.jobs[k], plan) ==>
                 k in db.jobs && ExecutionOf(db.jobs[k], plan)
    decreases |steps|
  {
    hide Next, Exclusive, ActiveFor;
    JobHasPlan(db, j, plan);
    if steps != [] {
      var db1 := Next(db, steps[0]);
      NoneBeside(db, steps[0], j);
      NextExclusive(db, steps[0]);
      SamePlan(db, steps[0], j, plan);
      NoneBesideInRun(db1, steps[1..], j, plan);
    }
  }

  ghost predicate StaysActive(db: Db, steps: seq<Step>, j: nat)
    decreases |steps|
  {
    j in db.jobs && Active(db.jobs[j].status)
    && (steps == [] || StaysActive(Next(db, steps[0]), steps[1..], j))
  }

  lemma JobHasPlan(db: Db, j: nat, plan: nat)
    requires Exclusive(db) && j in db.jobs && ActiveFor(db.jobs[j], plan)
    ensures plan == db.jobs[j].plan && plan in db.plans
  {
  }

  lemma SamePlan(db: Db, s: Step, j: nat, plan: nat)
    requires j in db.jobs && ActiveFor(db.jobs[j], plan) && StaysActive(Next(db, s), [], j)
    ensures ActiveFor(Next(db, s).jobs[j], plan)
  {
  }

  // ----- calls that meet

  ghost predicate CanEnqueue(db: Db, plan: nat, job: nat) {
    plan in db.plans && Executable(db.plans[plan]) && !HasActive(db, plan) && FreshJob(db, job)
  }

  lemma LookStep(db: Db, c: nat, plan: nat)
    requires c !in db.calls && plan in db.plans && Executable(db.plans[plan]) && !HasActive(db, plan)
    ensures Next(db, StartEnqueue(c, plan)) == db.(calls := db.calls[c := Preflight(plan)])
  {
  }

  lemma PassStep(db: Db, c: nat, plan: nat)
    requires c in db.calls && db.calls[c] == Preflight(plan)
    ensures Next(db, FinishPreflight(c, false)) == db.(calls := db.calls[c := Enqueueing(plan)])
  {
  }

  lemma WinStep(db: Db, c: nat, plan: nat, job: nat)
    requires CanEnqueue(db, plan, job) && c in db.calls && db.calls[c] == Enqueueing(plan)
    ensures var db' := Next(db, CommitEnqueue(c, job));
            db' == EndCall(QueueJob(db, job, plan), c) && HasActive(db', plan)
  {
    var db' := Next(db, CommitEnqueue(c, job));
    assert ActiveFor(db'.jobs[job], plan);
  }

  lemma LoseStep(db: Db, c: nat, plan: nat, job: nat)
    requires HasActive(db, plan) && FreshJob(db, job) && c in db.calls && db.calls[c] == Enqueueing(plan)
    ensures Next(db, CommitEnqueue(c, job)) == EndCall(db, c)
  {
  }

  /** Two callers that looked at the same time: the one that commits first gets its job, the other gets
      none, and nothing else changes. */
  lemma OneOfTwoEnqueues(db: Db, c: nat, c': nat, plan: nat, job: nat, job': nat)
    requires CanEnqueue(db, plan, job) && c != c' && c !in db.calls && c' !in db.calls
    requires job < job'
    ensures Run(db, [StartEnqueue(c, plan), StartEnqueue(c', plan), FinishPreflight(c', false),
                     FinishPreflight(c, false), CommitEnqueue(c, job), CommitEnqueue(c', job')])
            == db.(jobs := db.jobs[job := Job(true, plan, Queued, false)])
  {
    var steps := [StartEnqueue(c, plan), StartEnqueue(c', plan), FinishPreflight(c', false), FinishPreflight(c, false),
                  CommitEnqueue(c, job), CommitEnqueue(c', job')];
    RunSix(db, steps);
    hide Next, Run;
    LookStep(db, c, plan);
    var d1 := Next(db, steps[0]);
    LookStep(d1, c', plan);
    var d2 := Next(d1, steps[1]);
    PassStep(d2, c', plan);
    var d3 := Next(d2, steps[2]);
    PassStep(d3, c, plan);
    var d4 := Next(d3, steps[3]);
    WinStep(d4, c, plan, job);
    var d5 := Next(d4, steps[4]);
    LoseStep(d5, c', plan, job');
    assert EndCall(d5, c').calls == db.calls;
  }

  lemma RunSix(db: Db, s: seq<Step>)
    requires |s| == 6
    ensures Run(db, s) == Next(Next(Next(Next(Next(Next(db, s[0]), s[1]), s[2]), s[3]), s[4]), s[5])
  {
    hide Next;
    RunCons(db, s);
    RunCons(Next(db, s[0]), s[1..]);
    RunCons(Next(Next(db, s[0]), s[1]), s[2..]);
    RunCons(Next(Next(Next(db, s[0]), s[1]), s[2]), s[3..]);
    RunCons(Next(Next(Next(Next(db, s[0]), s[1]), s[2]), s[3]), s[4..]);
    RunCons(Next(Next(Next(Next(Next(db, s[0]), s[1]), s[2]), s[3]), s[4]), s[5..]);
    assert s[1..][1..] == s[2..] && s[2..][1..] == s[3..] && s[3..][1..] == s[4..] && s[4..][1..] == s[5..]
        && s[5..][1..] == [];
  }

  lemma RunCons(db: Db, s: seq<Step>)
    requires s != []
    ensures Run(db, s) == Run(Next(db, s[0]), s[1..])
  {
  }

  /** A deletable plan whose only live execution is queued or paused and was recovered after a restart. */
  ghost predicate Recovered(db: Db, plan: nat, job: nat) {
    && plan in db.plans && Deletable(db.plans[plan])
    && IsActiveJob(db, plan, job) && (db.jobs[job].status == Queued || db.jobs[job].status == Paused)
         && db.jobs[job].restarted
    && forall j :: j in db.jobs && ActiveFor(db.jobs[j], plan) ==> j == job
  }

  /** Deleting such a plan cancels the job and removes the plan. */
  lemma DeleteCancels(db: Db, call: nat, plan: nat, job: nat)
    requires Recovered(db, plan, job) && call !in db.calls
    ensures CommitDeleteStep(CancelFirstStep(StartDeleteStep(db, call, plan, job), call), call)
            == Db(db.plans - {plan}, db.jobs[job := db.jobs[job].(status := Cancelled)], db.calls)
  {
    var d1 := StartDeleteStep(db, call, plan, job);
    assert HasActive(db, plan);
    assert d1 == db.(calls := db.calls[call := Cancelling(plan, job)]);
    var d2 := CancelFirstStep(d1, call);
    assert d2.jobs == db.jobs[job := db.jobs[job].(status := Cancelled)];
    assert d2.calls[call] == Deleting(plan) && !HasActive(d2, plan);
    assert d2.calls - {call} == db.calls;
  }

  /** When the worker claims the job first, the job is asked to stop and the plan stays. */
  lemma WorkerWinsDelete(db: Db, call: nat, plan: nat, job: nat)
    requires Recovered(db, plan, job) && call !in db.calls
    ensures var claimed := Next(StartDeleteStep(db, call, plan, job), Advance(job, Running));
            CommitDeleteStep(CancelFirstStep(claimed, call), call)
            == db.(jobs := db.jobs[job := db.jobs[job].(status := CancelRequested)])
  {
    assert HasActive(db, plan);
    var d1 := StartDeleteStep(db, call, plan, job);
    assert d1 == db.(calls := db.calls[call := Cancelling(plan, job)]);
    var d2 := Next(d1, Advance(job, Running));
    assert d2 == d1.(jobs := db.jobs[job := db.jobs[job].(status := Running)]);
    var d3 := CancelFirstStep(d2, call);
    assert d3.jobs == db.jobs[job := db.jobs[job].(status := CancelRequested)];
    assert d3.calls[call] == Deleting(plan);
    assert ActiveFor(d3.jobs[job], plan) && HasActive(d3, plan);
    assert d3.calls - {call} == db.calls;
  }
}
