/** Runs of the job queue: any number of callers, each statement one step, a claim's SELECT and UPDATE apart. */
module PollerJobRuns {
  import opened Wrappers
  import opened Clock
  import opened PollerJobs

  /** What has happened to jobs, in order. */
  datatype Entry =
    | Enqueued(id: int, ttl: Option<int>)
    | WonClaim(id: int, poller: int)
    | TookBack(ids: set<int>)
    | ReportedBy(id: int, poller: int)

  /** A claim between its SELECT and its UPDATE. */
  datatype Pending = Pending(tenant: int, poller: int, sel: Selection, selectedAt: int)

  datatype State = State(
    jobs: Jobs, pollers: set<(int, int)>, pending: map<int, Pending>, now: int, log: seq<Entry>)

  /** `at` is the clock reading a caller took, possibly some time before its statement ran. */
  datatype Step =
    | Tick(to: int)
    | RegisterPoller(poller: int, tenant: int)
    | Enqueue(id: int, tenant: int, device: int, jobType: string, payload: string, key: string, at: int, ttl: int)
    | SelectJob(call: int, tenant: int, poller: int, types: set<string>, id: int)
    | ClaimSelected(call: int, at: int)
    | Complete(tenant: int, id: int, success: bool, result: string, error: string, at: int)
    | CompleteClaimedBy(tenant: int, poller: int, id: int, success: bool, result: string, error: string, at: int)
    | Cancel(tenant: int, id: int, at: int)
    | ReclaimExpired(at: int)

  ghost predicate Init(s: State) {
    s.jobs == map[] && s.pending == map[] && s.log == []
  }

  ghost predicate Enabled(s: State, step: Step) {
    match step
    case Tick(to) => s.now <= to
    case RegisterPoller(_, _) => true
    case Enqueue(id, _, _, _, _, _, at, _) => id !in s.jobs && at <= s.now
    case SelectJob(_, tenant, _, types, id) => Oldest(s.jobs, tenant, types, id)
    case ClaimSelected(call, at) => call in s.pending && s.pending[call].selectedAt <= at <= s.now
    case Complete(_, _, _, _, _, at) => at <= s.now
    case CompleteClaimedBy(_, _, _, _, _, _, at) => at <= s.now
    case Cancel(_, _, at) => at <= s.now
    case ReclaimExpired(at) => at <= s.now
  }

  /** The UPDATE of a claim, with the lifetime its SELECT saw. */
  function FinishClaim(s: State, call: int, at: int): State
    requires call in s.pending
  {
    var p := s.pending[call];
    var s' := s.(pending := s.pending - {call});
    if ClaimWins(s.jobs, s.pollers, p.sel.id, p.tenant, p.poller) then
      s'.(jobs := s.jobs[p.sel.id := ClaimJob(s.jobs[p.sel.id], p.poller, at,
                                              ShiftedExpiry(p.sel.createdAt, p.sel.expiresAt, at))],
          log := s.log + [WonClaim(p.sel.id, p.poller)])
    else s'
  }

  ghost function Apply(s: State, step: Step): State
    requires Enabled(s, step)
  {
    match step
    case Tick(to) => s.(now := to)
    case RegisterPoller(poller, tenant) => s.(pollers := s.pollers + {(poller, tenant)})
    case Enqueue(id, tenant, device, jobType, payload, key, at, ttl) =>
      var job := NewJob(tenant, device, jobType, payload, key, at, ttl);
      if KeyTaken(s.jobs, key) then s
      else s.(jobs := Insert(s.jobs, id, job), log := s.log + [Enqueued(id, Lifetime(job))])
    case SelectJob(call, tenant, poller, types, id) =>
      var sel := Selection(id, s.jobs[id].createdAt, s.jobs[id].expiresAt);
      s.(pending := s.pending[call := Pending(tenant, poller, sel, s.now)])
    case ClaimSelected(call, at) => FinishClaim(s, call, at)
    case Complete(tenant, id, success, result, error, at) =>
      if Completable(s.jobs, tenant, id) then
        s.(jobs := s.jobs[id := CompleteJob(s.jobs[id], success, result, error, at)])
      else s
    case CompleteClaimedBy(tenant, poller, id, success, result, error, at) =>
      if CompletableBy(s.jobs, tenant, poller, id) then
        s.(jobs := s.jobs[id := CompleteJob(s.jobs[id], success, result, error, at)],
           log := s.log + [ReportedBy(id, poller)])
      else s
    case Cancel(tenant, id, at) =>
      if Cancellable(s.jobs, tenant, id) then s.(jobs := s.jobs[id := CancelJob(s.jobs[id], at)]) else s
    case ReclaimExpired(at) =>
      s.(jobs := Reclaimed(s.jobs, at), log := s.log + [TookBack(ExpiredIds(s.jobs, at))])
  }

  ghost predicate Leads(s: State, step: Step, s': State) {
    Enabled(s, step) && s' == Apply(s, step)
  }

  ghost predicate IsRun(states: seq<State>, steps: seq<Step>) {
    && |states| == |steps| + 1
    && Init(states[0])
    && forall k {:trigger steps[k]} | 0 <= k < |steps| :: Leads(states[k], steps[k], states[k + 1])
  }

  // ---- what the steps write ----

  /** A claim's SELECT sees an oldest queued job of the tenant and the types, and remembers its stamps. */
  lemma SelectSees(s: State, step: Step)
    requires step.SelectJob? && Enabled(s, step)
    ensures
      var job := s.jobs[step.id];
      && job.tenant == step.tenant && job.status == Queued && job.jobType in step.types
      && (forall id | id in s.jobs ::
            s.jobs[id].tenant == step.tenant && s.jobs[id].status == Queued && s.jobs[id].jobType in step.types ==>
              job.createdAt <= s.jobs[id].createdAt)
      && Apply(s, step) == s.(pending := s.pending[step.call :=
           Pending(step.tenant, step.poller, Selection(step.id, job.createdAt, job.expiresAt), s.now)])
  {
  }

  /** Each other statement by the rows it changes and the fields it writes, as the service's methods promise it. */
  lemma StepWrites(s: State, step: Step)
    requires Enabled(s, step) && !step.SelectJob?
    ensures
      var after := Apply(s, step).jobs;
      match step
      case Tick(_) => after == s.jobs
      case RegisterPoller(_, _) => after == s.jobs
      case Enqueue(id, tenant, device, jobType, payload, key, at, ttl) =>
        after == if exists x | x in s.jobs :: s.jobs[x].key == key then s.jobs
                 else s.jobs[id := Job(tenant, device, key, jobType, payload, Queued, None, None, None, "", "",
                                       Stamp(at), if ttl > 0 then Some(Stamp(at + ttl)) else None)]
      case ClaimSelected(call, at) =>
        var p := s.pending[call];
        var sel := p.sel;
        after ==
          if sel.id in s.jobs && s.jobs[sel.id].tenant == p.tenant && s.jobs[sel.id].status == Queued
             && (p.poller, p.tenant) in s.pollers
          then s.jobs[sel.id := s.jobs[sel.id].(
                 status := Claimed, poller := Some(p.poller), claimedAt := Some(Stamp(at)),
                 expiresAt := if sel.expiresAt.Some? && sel.expiresAt.value > sel.createdAt
                              then Some(Stamp(at) + (sel.expiresAt.value - sel.createdAt)) else None)]
          else s.jobs
      case Complete(tenant, id, success, result, error, at) =>
        after ==
          if id in s.jobs && s.jobs[id].tenant == tenant && s.jobs[id].status in {Claimed, Running}
          then s.jobs[id := Reported(s.jobs[id], success, result, error, at)] else s.jobs
      case CompleteClaimedBy(tenant, poller, id, success, result, error, at) =>
        after ==
          if id in s.jobs && s.jobs[id].tenant == tenant && s.jobs[id].status in {Claimed, Running}
             && s.jobs[id].poller == Some(poller)
          then s.jobs[id := Reported(s.jobs[id], success, result, error, at)] else s.jobs
      case Cancel(tenant, id, at) =>
        after ==
          if id in s.jobs && s.jobs[id].tenant == tenant && s.jobs[id].status in {Queued, Claimed}
          then s.jobs[id := s.jobs[id].(status := Cancelled, completedAt := Some(Stamp(at)))] else s.jobs
      case ReclaimExpired(at) =>
        && after.Keys == s.jobs.Keys
        && forall id | id in after ::
             after[id] ==
               if s.jobs[id].status == Claimed && s.jobs[id].expiresAt.Some? && s.jobs[id].expiresAt.value < Stamp(at)
               then s.jobs[id].(status := Queued, poller := None, claimedAt := None) else s.jobs[id]
      case _ => true
  {
    if step.ClaimSelected? && s.pending[step.call].sel.expiresAt.Some? {
      var sel := s.pending[step.call].sel;
      StampAddSeconds(step.at, sel.expiresAt.value - sel.createdAt);
    }
  }

  ghost function Reported(job: Job, success: bool, result: string, error: string, at: int): Job {
    job.(status := if success then Done else Failed, result := result, error := error, completedAt := Some(Stamp(at)))
  }

  // ---- reading the history ----

  /** The stored lifetime of a row in whole seconds. */
  function Lifetime(job: Job): Option<int> {
    if job.expiresAt.None? then None else Some(job.expiresAt.value - job.createdAt)
  }

  /**
   * What the entries about one job add up to: successful claims, take-backs and reports as owner, the poller of the
   * latest successful claim, and the lifetime stored when the job was inserted.
   */
  datatype History = History(claims: nat, takeBacks: nat, reports: nat, latestClaimer: Option<int>, ttl: Option<int>)

  const NO_HISTORY := History(0, 0, 0, None, None)

  function Record(h: History, e: Entry, id: int): History {
    match e
    case Enqueued(x, ttl) => if x == id then h.(ttl := ttl) else h
    case WonClaim(x, poller) => if x == id then h.(claims := h.claims + 1, latestClaimer := Some(poller)) else h
    case TookBack(ids) => if id in ids then h.(takeBacks := h.takeBacks + 1) else h
    case ReportedBy(x, _) => if x == id then h.(reports := h.reports + 1) else h
  }

  function HistoryOf(log: seq<Entry>, id: int): History {
    if log == [] then NO_HISTORY else Record(HistoryOf(log[..|log| - 1], id), log[|log| - 1], id)
  }

  lemma HistoryAppend(log: seq<Entry>, e: Entry)
    ensures forall id :: HistoryOf(log + [e], id) == Record(HistoryOf(log, id), e, id)
  {
    assert (log + [e])[..|log|] == log;
  }

  // ---- what every step keeps ----

  ghost predicate OwnershipAgrees(job: Job, h: History, pollers: set<(int, int)>) {
    && h.claims - h.takeBacks == (if job.poller.Some? then 1 else 0)
    && (job.status == Queued ==> job.poller == None && job.claimedAt == None)
    && (job.status == Claimed ==> job.poller.Some? && job.claimedAt.Some?)
    && job.status != Running
    && (job.poller.Some? ==> h.latestClaimer == job.poller && (job.poller.value, job.tenant) in pollers)
    && h.reports <= (if job.status == Done || job.status == Failed then 1 else 0)
  }

  /** `expiresAt` leaves at least the original lifetime after `from`. */
  predicate Leaves(ttl: Option<int>, from: int, expiresAt: Option<int>) {
    match ttl
    case None => expiresAt == None
    case Some(t) =>
      if t <= 0 then expiresAt.Some? ==> expiresAt.value == from
      else expiresAt.Some? && expiresAt.value - from >= t
  }

  ghost predicate LifetimeAgrees(job: Job, h: History, now: int) {
    && job.createdAt <= Stamp(now)
    && Leaves(h.ttl, job.createdAt, job.expiresAt)
    && (h.claims == 0 ==> Lifetime(job) == h.ttl)
    && (job.claimedAt.Some? ==>
          && (h.ttl.None? || h.ttl.value <= 0 ==> job.expiresAt == None)
          && (h.ttl.Some? && h.ttl.value > 0 ==>
                && job.expiresAt.Some? && job.expiresAt.value - job.claimedAt.value >= h.ttl.value
                && (h.claims == 1 ==> job.expiresAt.value - job.claimedAt.value == h.ttl.value)))
  }

  ghost predicate JobAgrees(job: Job, h: History, pollers: set<(int, int)>, now: int) {
    OwnershipAgrees(job, h, pollers) && LifetimeAgrees(job, h, now)
  }

  ghost predicate PendingAgrees(p: Pending, job: Job, h: History) {
    && p.sel.createdAt == job.createdAt
    && p.tenant == job.tenant
    && p.sel.createdAt <= Stamp(p.selectedAt)
    && Leaves(h.ttl, p.sel.createdAt, p.sel.expiresAt)
    && (h.claims == 0 ==> p.sel.expiresAt == job.expiresAt)
  }

  ghost predicate Inv(s: State) {
    && (forall id | id in s.jobs :: JobAgrees(s.jobs[id], HistoryOf(s.log, id), s.pollers, s.now))
    && (forall id | id !in s.jobs :: HistoryOf(s.log, id) == NO_HISTORY)
    && (forall call | call in s.pending :: PendingFits(s.pending[call], s.jobs, s.log))
  }

  ghost predicate PendingFits(p: Pending, jobs: Jobs, log: seq<Entry>) {
    p.sel.id in jobs && PendingAgrees(p, jobs[p.sel.id], HistoryOf(log, p.sel.id))
  }

  lemma EnqueueKeepsInv(s: State, step: Step)
    requires Inv(s) && Enabled(s, step) && step.Enqueue?
    ensures Inv(Apply(s, step))
  {
    var job := NewJob(step.tenant, step.device, step.jobType, step.payload, step.key, step.at, step.ttl);
    HistoryAppend(s.log, Enqueued(step.id, Lifetime(job)));
    StampMonotone(step.at, s.now);
    var s' := Apply(s, step);
    forall call | call in s'.pending
      ensures PendingFits(s'.pending[call], s'.jobs, s'.log)
    {
      assert PendingFits(s.pending[call], s.jobs, s.log);
    }
  }

  lemma SelectKeepsInv(s: State, step: Step)
    requires Inv(s) && Enabled(s, step) && step.SelectJob?
    ensures Inv(Apply(s, step))
  {
    assert JobAgrees(s.jobs[step.id], HistoryOf(s.log, step.id), s.pollers, s.now);
  }

  /** The arithmetic of one winning claim: the shifted expiry leaves the original lifetime from the claim. */
  lemma ShiftLeavesTtl(ttl: Option<int>, createdAt: int, selected: Option<int>, at: int)
    requires Leaves(ttl, createdAt, selected)
    requires createdAt <= Stamp(at)
    ensures
      var e := ShiftedExpiry(createdAt, selected, at);
      && Leaves(ttl, createdAt, e)
      && (ttl.None? || ttl.value <= 0 ==> e == None)
      && (ttl.Some? && ttl.value > 0 ==>
            && e.Some? && e.value - Stamp(at) >= ttl.value
            && (e.value - Stamp(at) == ttl.value <==> selected == Some(createdAt + ttl.value)))
  {
    if selected.Some? {
      StampAddSeconds(at, selected.value - createdAt);
    }
  }

  lemma {:induction false} ClaimKeepsInv(s: State, step: Step)
    requires Inv(s) && Enabled(s, step) && step.ClaimSelected?
    ensures Inv(Apply(s, step))
  {
    var p := s.pending[step.call];
    var id := p.sel.id;
    if ClaimWins(s.jobs, s.pollers, id, p.tenant, p.poller) {
      var s' := Apply(s, step);
      HistoryAppend(s.log, WonClaim(id, p.poller));
      ClaimedAgrees(p, s.jobs[id], HistoryOf(s.log, id), s.pollers, s.now, step.at);
      forall call | call in s'.pending
        ensures PendingFits(s'.pending[call], s'.jobs, s'.log)
      {
        FitsAfterClaim(s.pending[call], s, id, s'.jobs[id], p.poller);
      }
    }
  }

  /** A claim under way is not touched by another that wins, whichever job it wins. */
  lemma FitsAfterClaim(other: Pending, s: State, id: int, job: Job, poller: int)
    requires PendingFits(other, s.jobs, s.log) && id in s.jobs
    requires job.createdAt == s.jobs[id].createdAt && job.tenant == s.jobs[id].tenant
    ensures PendingFits(other, s.jobs[id := job], s.log + [WonClaim(id, poller)])
  {
    HistoryAppend(s.log, WonClaim(id, poller));
  }

  /** The row that a winning claim writes agrees with the history that has the claim. */
  lemma ClaimedAgrees(p: Pending, job: Job, h: History, pollers: set<(int, int)>, now: int, at: int)
    requires JobAgrees(job, h, pollers, now) && PendingAgrees(p, job, h)
    requires job.status == Queued && (p.poller, job.tenant) in pollers && p.selectedAt <= at <= now
    ensures JobAgrees(ClaimJob(job, p.poller, at, ShiftedExpiry(p.sel.createdAt, p.sel.expiresAt, at)),
                      h.(claims := h.claims + 1, latestClaimer := Some(p.poller)), pollers, now)
  {
    StampMonotone(p.selectedAt, at);
    ShiftLeavesTtl(h.ttl, p.sel.createdAt, p.sel.expiresAt, at);
  }

  /** Ending an owned or queued job keeps its row and history in agreement. */
  lemma EndedAgrees(job: Job, h: History, pollers: set<(int, int)>, now: int, ended: Job)
    requires JobAgrees(job, h, pollers, now) && Terminal(ended.status) && !Terminal(job.status)
    requires ended == job.(status := ended.status, result := ended.result, error := ended.error,
                           completedAt := ended.completedAt)
    ensures JobAgrees(ended, h, pollers, now)
    ensures ended.status != Cancelled ==> JobAgrees(ended, h.(reports := h.reports + 1), pollers, now)
  {
  }

  /** Replacing one job by another version of itself keeps the invariant if the new version agrees. */
  lemma ReplaceKeepsInv(s: State, id: int, job: Job, log: seq<Entry>)
    requires Inv(s) && id in s.jobs
    requires job.createdAt == s.jobs[id].createdAt && job.tenant == s.jobs[id].tenant
    requires job.expiresAt == s.jobs[id].expiresAt
    requires forall x | x != id :: HistoryOf(log, x) == HistoryOf(s.log, x)
    requires HistoryOf(log, id).ttl == HistoryOf(s.log, id).ttl
    requires HistoryOf(log, id).claims == HistoryOf(s.log, id).claims
    requires JobAgrees(job, HistoryOf(log, id), s.pollers, s.now)
    ensures Inv(s.(jobs := s.jobs[id := job], log := log))
  {
    var jobs := s.jobs[id := job];
    forall call | call in s.pending
      ensures PendingFits(s.pending[call], jobs, log)
    {
      assert PendingFits(s.pending[call], s.jobs, s.log);
    }
  }

  lemma ReportKeepsInv(s: State, step: Step)
    requires Inv(s) && Enabled(s, step) && step.CompleteClaimedBy?
    ensures Inv(Apply(s, step))
  {
    if CompletableBy(s.jobs, step.tenant, step.poller, step.id) {
      var ended := CompleteJob(s.jobs[step.id], step.success, step.result, step.error, step.at);
      HistoryAppend(s.log, ReportedBy(step.id, step.poller));
      EndedAgrees(s.jobs[step.id], HistoryOf(s.log, step.id), s.pollers, s.now, ended);
      ReplaceKeepsInv(s, step.id, ended, s.log + [ReportedBy(step.id, step.poller)]);
    }
  }

  lemma FinishKeepsInv(s: State, step: Step)
    requires Inv(s) && Enabled(s, step) && (step.Complete? || step.Cancel?)
    ensures Inv(Apply(s, step))
  {
    if step.Complete? && Completable(s.jobs, step.tenant, step.id) {
      var ended := CompleteJob(s.jobs[step.id], step.success, step.result, step.error, step.at);
      EndedAgrees(s.jobs[step.id], HistoryOf(s.log, step.id), s.pollers, s.now, ended);
      ReplaceKeepsInv(s, step.id, ended, s.log);
    } else if step.Cancel? && Cancellable(s.jobs, step.tenant, step.id) {
      var ended := CancelJob(s.jobs[step.id], step.at);
      EndedAgrees(s.jobs[step.id], HistoryOf(s.log, step.id), s.pollers, s.now, ended);
      ReplaceKeepsInv(s, step.id, ended, s.log);
    }
  }

  lemma TakenBackAgrees(job: Job, h: History, pollers: set<(int, int)>, now: int)
    requires JobAgrees(job, h, pollers, now) && job.status == Claimed
    ensures JobAgrees(TakenBack(job), h.(takeBacks := h.takeBacks + 1), pollers, now)
  {
  }

  lemma ReclaimKeepsInv(s: State, step: Step)
    requires Inv(s) && Enabled(s, step) && step.ReclaimExpired?
    ensures Inv(Apply(s, step))
  {
    var s' := Apply(s, step);
    HistoryAppend(s.log, TookBack(ExpiredIds(s.jobs, step.at)));
    forall call | call in s'.pending
      ensures PendingFits(s'.pending[call], s'.jobs, s'.log)
    {
      assert PendingFits(s.pending[call], s.jobs, s.log);
    }
    forall id | id in s'.jobs
      ensures JobAgrees(s'.jobs[id], HistoryOf(s'.log, id), s'.pollers, s'.now)
    {
      if Expired(s.jobs[id], step.at) {
        TakenBackAgrees(s.jobs[id], HistoryOf(s.log, id), s.pollers, s.now);
      }
    }
  }

  lemma {:induction false} StepKeepsInv(s: State, step: Step)
    requires Inv(s) && Enabled(s, step)
    ensures Inv(Apply(s, step))
  {
    match step
    case Enqueue(_, _, _, _, _, _, _, _) => EnqueueKeepsInv(s, step);
    case SelectJob(_, _, _, _, _) => SelectKeepsInv(s, step);
    case ClaimSelected(_, _) => ClaimKeepsInv(s, step);
    case ReclaimExpired(_) => ReclaimKeepsInv(s, step);
    case Tick(to) => StampMonotone(s.now, to);
    case RegisterPoller(_, _) =>
    case CompleteClaimedBy(_, _, _, _, _, _, _) => ReportKeepsInv(s, step);
    case _ => FinishKeepsInv(s, step);
  }

  lemma {:induction false} RunKeepsInv(states: seq<State>, steps: seq<Step>, k: nat)
    requires IsRun(states, steps) && k < |states|
    ensures Inv(states[k])
  {
    if k > 0 {
      RunKeepsInv(states, steps, k - 1);
      StepKeepsInv(states[k - 1], steps[k - 1]);
    }
  }

  // ---- main results ----

  /**
   * At every point of every run: successful claims exceed take-backs by 0 or 1, by 1 exactly when the job has an
   * owner; a queued job has none; the owner is the poller of the latest successful claim, registered with the job's
   * tenant; and a report as owner has succeeded at most once, on a job that is done or failed.
   */
  lemma OwnershipThroughoutRun(states: seq<State>, steps: seq<Step>, k: nat, id: int)
    requires IsRun(states, steps) && k < |states| && id in states[k].jobs
    ensures
      var job, h := states[k].jobs[id], HistoryOf(states[k].log, id);
      && h.claims - h.takeBacks == (if job.poller.Some? then 1 else 0)
      && (job.status == Queued ==> job.poller == None)
      && (job.status == Claimed ==> job.poller.Some?)
      && (job.poller.Some? ==> h.latestClaimer == job.poller && (job.poller.value, job.tenant) in states[k].pollers)
      && h.reports <= 1
      && (h.reports == 1 ==> job.status == Done || job.status == Failed)
  {
    RunKeepsInv(states, steps, k);
  }

  /** A report as owner succeeds only for the poller of the latest successful claim, and only the first time. */
  lemma OnlyLatestClaimerReports(states: seq<State>, steps: seq<Step>, k: nat)
    requires IsRun(states, steps) && k < |steps| && steps[k].CompleteClaimedBy?
    requires CompletableBy(states[k].jobs, steps[k].tenant, steps[k].poller, steps[k].id)
    ensures HistoryOf(states[k].log, steps[k].id).latestClaimer == Some(steps[k].poller)
    ensures HistoryOf(states[k].log, steps[k].id).reports == 0
  {
    RunKeepsInv(states, steps, k);
    assert OwnershipAgrees(states[k].jobs[steps[k].id], HistoryOf(states[k].log, steps[k].id), states[k].pollers);
  }

  lemma TerminalKeepsThroughStep(s: State, step: Step, s': State, id: int)
    requires Leads(s, step, s') && id in s.jobs && s.jobs[id].status in {Done, Failed, Cancelled}
    ensures id in s'.jobs && s'.jobs[id] == s.jobs[id]
  {
  }

  /** Done, failed and cancelled jobs never change again, whatever runs afterwards. */
  lemma {:induction false} TerminalForever(states: seq<State>, steps: seq<Step>, i: nat, k: nat, id: int)
    requires IsRun(states, steps) && i <= k < |states|
    requires id in states[i].jobs && states[i].jobs[id].status in {Done, Failed, Cancelled}
    ensures id in states[k].jobs && states[k].jobs[id] == states[i].jobs[id]
    decreases k
  {
    if i < k {
      TerminalForever(states, steps, i, k - 1, id);
      TerminalKeepsThroughStep(states[k - 1], steps[k - 1], states[k], id);
    }
  }

  /**
   * A job stored with a positive lifetime that has been claimed keeps at least that lifetime after its recorded claim
   * time, and exactly that lifetime on its first claim; a job stored with none, or one shorter than a stamp can tell,
   * has no expiry once claimed.
   */
  lemma ClaimLeavesOriginalTtl(states: seq<State>, steps: seq<Step>, k: nat, id: int)
    requires IsRun(states, steps) && k < |states| && id in states[k].jobs
    requires states[k].jobs[id].claimedAt.Some?
    ensures
      var job, h := states[k].jobs[id], HistoryOf(states[k].log, id);
      && (job.expiresAt.Some? <==> h.ttl.Some? && h.ttl.value > 0)
      && (job.expiresAt.Some? ==> job.expiresAt.value - job.claimedAt.value >= h.ttl.value)
      && (job.expiresAt.Some? && h.claims == 1 ==> job.expiresAt.value - job.claimedAt.value == h.ttl.value)
  {
    RunKeepsInv(states, steps, k);
    assert LifetimeAgrees(states[k].jobs[id], HistoryOf(states[k].log, id), states[k].now);
  }

  /**
   * Every winning claim of a job stored with a positive lifetime leaves it at least that lifetime, and exactly that
   * lifetime if and only if the row its SELECT saw still had the expiry it was stored with.
   */
  lemma ClaimKeepsTtlExactly(states: seq<State>, steps: seq<Step>, k: nat)
    requires IsRun(states, steps) && k < |steps| && steps[k].ClaimSelected?
    requires
      var p := states[k].pending[steps[k].call];
      ClaimWins(states[k].jobs, states[k].pollers, p.sel.id, p.tenant, p.poller)
    ensures
      var p := states[k].pending[steps[k].call];
      var job, ttl := states[k + 1].jobs[p.sel.id], HistoryOf(states[k].log, p.sel.id).ttl;
      ttl.Some? && ttl.value > 0 ==>
        && job.claimedAt == Some(Stamp(steps[k].at)) && job.expiresAt.Some?
        && job.expiresAt.value - job.claimedAt.value >= ttl.value
        && (job.expiresAt.value - job.claimedAt.value == ttl.value <==>
              p.sel.expiresAt == Some(p.sel.createdAt + ttl.value))
  {
    RunKeepsInv(states, steps, k);
    var p := states[k].pending[steps[k].call];
    assert PendingFits(p, states[k].jobs, states[k].log);
    StampMonotone(p.selectedAt, steps[k].at);
    ShiftLeavesTtl(HistoryOf(states[k].log, p.sel.id).ttl, p.sel.createdAt, p.sel.expiresAt, steps[k].at);
  }

  // ---- a run in which the lifetime grows ----

  const SAMPLE := Job(1, 1, "key", BACKUP, "", Queued, None, None, None, "", "", 0, Some(10))

  /** The sample job, stored at 0 with a lifetime of 10 seconds, as a claim at second `at` leaves it. */
  function SampleClaimed(at: int, expiresAt: int): Job {
    SAMPLE.(status := Claimed, poller := Some(7), claimedAt := Some(at), expiresAt := Some(expiresAt))
  }

  function SampleState(job: Job, pending: map<int, Pending>, seconds: int, log: seq<Entry>): State {
    State(map[1 := job], {(7, 1)}, pending, seconds * SECOND, log)
  }

  function SamplePending(expiresAt: int, seconds: int): map<int, Pending> {
    map[1 := Pending(1, 7, Selection(1, 0, Some(expiresAt)), seconds * SECOND)]
  }

  const STORED := Enqueued(1, Some(10))
  const WON := WonClaim(1, 7)
  const BACK := TookBack({1})
  const AGAIN := SAMPLE.(expiresAt := Some(15))

  lemma SampleStored()
    ensures Leads(State(map[], {(7, 1)}, map[], 0, []), Enqueue(1, 1, 1, BACKUP, "", "key", 0, 10 * SECOND),
                  SampleState(SAMPLE, map[], 0, [STORED]))
  {
  }

  lemma SampleTicks(job: Job, seconds: int, later: int, log: seq<Entry>)
    requires seconds <= later
    ensures Leads(SampleState(job, map[], seconds, log), Tick(later * SECOND), SampleState(job, map[], later, log))
  {
  }

  lemma SampleSelected(expiresAt: int, seconds: int, log: seq<Entry>)
    ensures
      var job := SAMPLE.(expiresAt := Some(expiresAt));
      Leads(SampleState(job, map[], seconds, log), SelectJob(1, 1, 7, {BACKUP}, 1),
            SampleState(job, SamplePending(expiresAt, seconds), seconds, log))
  {
  }

  lemma SampleClaims(expiresAt: int, at: int, log: seq<Entry>)
    requires expiresAt > 0
    ensures Leads(SampleState(SAMPLE.(expiresAt := Some(expiresAt)), SamplePending(expiresAt, at), at, log),
                  ClaimSelected(1, at * SECOND),
                  SampleState(SampleClaimed(at, at + expiresAt), map[], at, log + [WON]))
  {
    StampAddSeconds(at * SECOND, expiresAt);
    var s := SampleState(SAMPLE.(expiresAt := Some(expiresAt)), SamplePending(expiresAt, at), at, log);
    assert s.pending - {1} == map[];
  }

  lemma SampleTakenBack()
    ensures Leads(SampleState(SampleClaimed(5, 15), map[], 16, [STORED, WON]), ReclaimExpired(16 * SECOND),
                  SampleState(AGAIN, map[], 16, [STORED, WON, BACK]))
  {
    var s := SampleState(SampleClaimed(5, 15), map[], 16, [STORED, WON]);
    assert ExpiredIds(s.jobs, 16 * SECOND) == {1};
    SameMap(Reclaimed(s.jobs, 16 * SECOND), map[1 := AGAIN]);
    assert s.log + [BACK] == [STORED, WON, BACK];
  }

  /** Claimed at 5, taken back at 16 and claimed again, the job has 15 seconds from its second claim. */
  lemma LifetimeCanGrow() returns (states: seq<State>, steps: seq<Step>)
    ensures IsRun(states, steps)
    ensures
      var last := states[|states| - 1];
      && 1 in last.jobs && HistoryOf(last.log, 1).ttl == Some(10)
      && last.jobs[1].claimedAt == Some(16) && last.jobs[1].expiresAt == Some(31)
  {
    var log := [STORED, WON, BACK];
    steps := [Enqueue(1, 1, 1, BACKUP, "", "key", 0, 10 * SECOND), Tick(5 * SECOND), SelectJob(1, 1, 7, {BACKUP}, 1),
              ClaimSelected(1, 5 * SECOND), Tick(16 * SECOND), ReclaimExpired(16 * SECOND),
              SelectJob(1, 1, 7, {BACKUP}, 1), ClaimSelected(1, 16 * SECOND)];
    states := [State(map[], {(7, 1)}, map[], 0, []),
               SampleState(SAMPLE, map[], 0, [STORED]),
               SampleState(SAMPLE, map[], 5, [STORED]),
               SampleState(SAMPLE, SamplePending(10, 5), 5, [STORED]),
               SampleState(SampleClaimed(5, 15), map[], 5, [STORED] + [WON]),
               SampleState(SampleClaimed(5, 15), map[], 16, [STORED, WON]),
               SampleState(AGAIN, map[], 16, log),
               SampleState(AGAIN, SamplePending(15, 16), 16, log),
               SampleState(SampleClaimed(16, 31), map[], 16, log + [WON])];
    SampleStored();
    SampleTicks(SAMPLE, 0, 5, [STORED]);
    SampleSelected(10, 5, [STORED]);
    SampleClaims(10, 5, [STORED]);
    SampleTicks(SampleClaimed(5, 15), 5, 16, [STORED, WON]);
    SampleTakenBack();
    SampleSelected(15, 16, log);
    SampleClaims(15, 16, log);
    forall k | 0 <= k < |steps|
      ensures Leads(states[k], steps[k], states[k + 1])
    {
    }
    SampleHistory();
  }

  lemma SampleHistory()
    ensures HistoryOf([STORED, WON, BACK] + [WON], 1).ttl == Some(10)
  {
    HistoryAppend([], STORED);
    HistoryAppend([STORED], WON);
    HistoryAppend([STORED, WON], BACK);
    HistoryAppend([STORED, WON, BACK], WON);
    assert [] + [STORED] == [STORED] && [STORED] + [WON] == [STORED, WON];
    assert [STORED, WON] + [BACK] == [STORED, WON, BACK];
  }

  /** A sweep takes a job back only when more than its original lifetime has passed since its recorded claim. */
  lemma ReclaimWaitsOriginalTtl(states: seq<State>, steps: seq<Step>, k: nat, id: int)
    requires IsRun(states, steps) && k < |steps| && steps[k].ReclaimExpired?
    requires id in ExpiredIds(states[k].jobs, steps[k].at)
    ensures states[k].jobs[id].claimedAt.Some?
    ensures HistoryOf(states[k].log, id).ttl.Some?
    ensures Stamp(steps[k].at) > states[k].jobs[id].claimedAt.value + HistoryOf(states[k].log, id).ttl.value
  {
    RunKeepsInv(states, steps, k);
    assert OwnershipAgrees(states[k].jobs[id], HistoryOf(states[k].log, id), states[k].pollers);
    ClaimLeavesOriginalTtl(states, steps, k, id);
  }
}
