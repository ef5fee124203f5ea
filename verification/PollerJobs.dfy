/** The poller job queue: the table's statements, the service that issues them, and their interleavings. */
module PollerJobs {
  import opened Wrappers
  import opened Clock

  datatype JobStatus = Queued | Claimed | Running | Done | Failed | Cancelled

  /** A row of poller_jobs. Stamps are whole seconds. */
  datatype Job = Job(
    tenant: int, device: int, key: string, jobType: string, payload: string,
    status: JobStatus, poller: Option<int>, claimedAt: Option<int>, completedAt: Option<int>,
    result: string, error: string, createdAt: int, expiresAt: Option<int>)

  type Jobs = map<int, Job>

  const BACKUP := "backup"
  const KNOWN_TYPES := {"backup", "probe", "custom"}

  predicate Terminal(s: JobStatus) {
    s == Done || s == Failed || s == Cancelled
  }

  // ---- the statements, each one atomic ----

  predicate KeyTaken(jobs: Jobs, key: string) {
    exists id | id in jobs :: jobs[id].key == key
  }

  function NewJob(tenant: int, device: int, jobType: string, payload: string, key: string, now: int, ttl: int): Job {
    Job(tenant, device, key, jobType, payload, Queued, None, None, None, "", "", Stamp(now),
        if ttl > 0 then Some(Stamp(now + ttl)) else None)
  }

  /** INSERT … ON CONFLICT(idempotency_key) DO NOTHING. */
  function Insert(jobs: Jobs, id: int, job: Job): Jobs {
    if KeyTaken(jobs, job.key) then jobs else jobs[id := job]
  }

  predicate Claimable(job: Job, tenant: int, types: set<string>) {
    job.tenant == tenant && job.status == Queued && job.jobType in types
  }

  /** `id` is a row the claim's SELECT may return: claimable, and none claimable is older. */
  predicate Oldest(jobs: Jobs, tenant: int, types: set<string>, id: int) {
    && id in jobs && Claimable(jobs[id], tenant, types)
    && forall other | other in jobs && Claimable(jobs[other], tenant, types) ::
         jobs[id].createdAt <= jobs[other].createdAt
  }

  /** The expiry a claim writes: the selected row's lifetime counted again from the claim. */
  function ShiftedExpiry(createdAt: int, expiresAt: Option<int>, claimedAt: int): Option<int> {
    if expiresAt.None? || expiresAt.value - createdAt <= 0 then None
    else Some(Stamp(claimedAt + (expiresAt.value - createdAt) * SECOND))
  }

  predicate ClaimWins(jobs: Jobs, pollers: set<(int, int)>, id: int, tenant: int, poller: int) {
    id in jobs && jobs[id].tenant == tenant && jobs[id].status == Queued && (poller, tenant) in pollers
  }

  function ClaimJob(job: Job, poller: int, claimedAt: int, expiresAt: Option<int>): Job {
    job.(status := Claimed, poller := Some(poller), claimedAt := Some(Stamp(claimedAt)), expiresAt := expiresAt)
  }

  function CompleteJob(job: Job, success: bool, result: string, error: string, now: int): Job {
    job.(status := if success then Done else Failed, result := result, error := error, completedAt := Some(Stamp(now)))
  }

  predicate Completable(jobs: Jobs, tenant: int, id: int) {
    id in jobs && jobs[id].tenant == tenant && (jobs[id].status == Claimed || jobs[id].status == Running)
  }

  predicate CompletableBy(jobs: Jobs, tenant: int, poller: int, id: int) {
    Completable(jobs, tenant, id) && jobs[id].poller == Some(poller)
  }

  predicate Cancellable(jobs: Jobs, tenant: int, id: int) {
    id in jobs && jobs[id].tenant == tenant && (jobs[id].status == Queued || jobs[id].status == Claimed)
  }

  function CancelJob(job: Job, now: int): Job {
    job.(status := Cancelled, completedAt := Some(Stamp(now)))
  }

  predicate Expired(job: Job, now: int) {
    job.status == Claimed && job.expiresAt.Some? && job.expiresAt.value < Stamp(now)
  }

  function ExpiredIds(jobs: Jobs, now: int): set<int> {
    set id | id in jobs && Expired(jobs[id], now)
  }

  function TakenBack(job: Job): Job {
    job.(status := Queued, poller := None, claimedAt := None)
  }

  function Reclaimed(jobs: Jobs, now: int): Jobs {
    map id | id in jobs :: if Expired(jobs[id], now) then TakenBack(jobs[id]) else jobs[id]
  }

  function ChangedIds(before: Jobs, after: Jobs): set<int> {
    set id | id in before && id in after && before[id] != after[id]
  }

  lemma SweepChangesTheExpired(jobs: Jobs, now: int)
    ensures ChangedIds(jobs, Reclaimed(jobs, now)) == ExpiredIds(jobs, now)
    ensures ExpiredIds(Reclaimed(jobs, now), now) == {}
  {
    forall id: int
      ensures id in ChangedIds(jobs, Reclaimed(jobs, now)) <==> id in ExpiredIds(jobs, now)
      ensures id !in ExpiredIds(Reclaimed(jobs, now), now)
    {
    }
  }

  // ---- the service ----

  datatype EnqueueError = MissingIds | BadJobType

  datatype Selection = Selection(id: int, createdAt: int, expiresAt: Option<int>)

  /** `sel` describes an oldest claimable row among `ids`. */
  ghost predicate Best(jobs: Jobs, ids: set<int>, tenant: int, types: set<string>, sel: Selection)
    requires ids <= jobs.Keys
  {
    && sel.id in ids && Claimable(jobs[sel.id], tenant, types)
    && sel == Selection(sel.id, jobs[sel.id].createdAt, jobs[sel.id].expiresAt)
    && forall id | id in ids && Claimable(jobs[id], tenant, types) :: sel.createdAt <= jobs[id].createdAt
  }

  class JobService {
    var jobs: Jobs
    var pollers: set<(int, int)>
    var nextId: int

    /** Primary keys below `nextId` and unique idempotency keys. */
    ghost predicate Valid()
      reads this
    {
      && (forall id | id in jobs :: id < nextId)
      && (forall x, y | x in jobs && y in jobs && jobs[x].key == jobs[y].key :: x == y)
    }

    constructor ()
      ensures Valid() && jobs == map[] && pollers == {}
    {
      jobs, pollers, nextId := map[], {}, 1;
    }

    /** `randomKey` stands for the key generated when the caller gives none. */
    method Enqueue(tenant: int, device: int, jobType: string, payload: string, key: string, randomKey: string,
                   now: int, ttl: int)
      returns (r: Result<(), EnqueueError>)
      requires Valid()
      modifies this`jobs, this`nextId
      ensures Valid()
      ensures tenant <= 0 || device <= 0 ==> r == Failure(MissingIds)
      ensures tenant > 0 && device > 0 ==>
                (r.Success? <==> jobType in {"", "backup", "probe", "custom"}) && (r.Failure? ==> r.error == BadJobType)
      ensures r.Failure? ==> jobs == old(jobs)
      ensures r.Success? ==>
                var used := if key == "" then randomKey else key;
                && (exists id | id in jobs :: jobs[id].key == used)
                && (if exists id | id in old(jobs) :: old(jobs)[id].key == used then jobs == old(jobs)
                    else
                      jobs == old(jobs)[old(nextId) :=
                        Job(tenant, device, used, if jobType == "" then "backup" else jobType, payload,
                            Queued, None, None, None, "", "", Stamp(now),
                            if ttl > 0 then Some(Stamp(now + ttl)) else None)])
    {
      if tenant <= 0 || device <= 0 {
        return Failure(MissingIds);
      }
      var kind := if jobType == "" then BACKUP else jobType;
      var idempotencyKey := if key == "" then randomKey else key;
      if kind !in KNOWN_TYPES {
        return Failure(BadJobType);
      }
      var job := NewJob(tenant, device, kind, payload, idempotencyKey, now, ttl);
      if !KeyTaken(jobs, idempotencyKey) {
        jobs := jobs[nextId := job];
        assert jobs[nextId].key == idempotencyKey;
        nextId := nextId + 1;
      }
      assert KeyTaken(jobs, idempotencyKey);
      r := Success(());
    }

    /** The SELECT of a claim: scans for a claimable row with the least creation stamp. */
    method SelectOldest(tenant: int, supported: set<string>) returns (r: Option<Selection>)
      ensures
        var types := if supported == {} then {"backup", "probe", "custom"} else supported;
        && (r.None? <==> forall id | id in jobs ::
              !(jobs[id].tenant == tenant && jobs[id].status == Queued && jobs[id].jobType in types))
        && (r.Some? ==>
              && r.value.id in jobs
              && var job := jobs[r.value.id];
              && job.tenant == tenant && job.status == Queued && job.jobType in types
              && r.value == Selection(r.value.id, job.createdAt, job.expiresAt)
              && forall id | id in jobs ::
                   jobs[id].tenant == tenant && jobs[id].status == Queued && jobs[id].jobType in types ==>
                     job.createdAt <= jobs[id].createdAt)
    {
      r := Scan(tenant, if supported == {} then KNOWN_TYPES else supported);
    }

    method Scan(tenant: int, types: set<string>) returns (r: Option<Selection>)
      ensures r.None? <==> forall id | id in jobs :: !Claimable(jobs[id], tenant, types)
      ensures r.Some? ==>
                && Oldest(jobs, tenant, types, r.value.id)
                && r.value == Selection(r.value.id, jobs[r.value.id].createdAt, jobs[r.value.id].expiresAt)
    {
      var rows := jobs;
      r := None;
      var todo := rows.Keys;
      while todo != {}
        invariant todo <= rows.Keys
        invariant r.None? ==> forall id | id in rows.Keys - todo :: !Claimable(rows[id], tenant, types)
        invariant r.Some? ==> Best(rows, rows.Keys - todo, tenant, types, r.value)
        decreases |todo|
      {
        var id := AnyOf(todo);
        if Claimable(rows[id], tenant, types) && (r.None? || rows[id].createdAt < r.value.createdAt) {
          r := Some(Selection(id, rows[id].createdAt, rows[id].expiresAt));
        }
        todo := todo - {id};
      }
      assert rows.Keys - todo == rows.Keys;
    }

    method Get(tenant: int, id: int) returns (r: Option<Job>)
      ensures r == if id in jobs && jobs[id].tenant == tenant then Some(jobs[id]) else None
    {
      r := if id in jobs && jobs[id].tenant == tenant then Some(jobs[id]) else None;
    }

    /** The UPDATE of a claim, which may run long after the SELECT whose row it carries, and the row read back. */
    method ClaimSelected(tenant: int, poller: int, sel: Selection, claimedAt: int) returns (r: Option<Job>)
      modifies this`jobs
      ensures r.Some? <==>
              && sel.id in old(jobs) && old(jobs)[sel.id].tenant == tenant && old(jobs)[sel.id].status == Queued
              && (poller, tenant) in pollers
      ensures r.None? ==> jobs == old(jobs)
      ensures r.Some? ==>
                && jobs == old(jobs)[sel.id := r.value]
                && r.value == old(jobs)[sel.id].(
                     status := Claimed, poller := Some(poller), claimedAt := Some(Stamp(claimedAt)),
                     expiresAt := if sel.expiresAt.Some? && sel.expiresAt.value > sel.createdAt
                                  then Some(Stamp(claimedAt) + (sel.expiresAt.value - sel.createdAt)) else None)
    {
      var expiry := ShiftedExpiry(sel.createdAt, sel.expiresAt, claimedAt);
      if !ClaimWins(jobs, pollers, sel.id, tenant, poller) {
        return None;
      }
      jobs := jobs[sel.id := ClaimJob(jobs[sel.id], poller, claimedAt, expiry)];
      r := Get(tenant, sel.id);
    }

    /**
     * Both statements with nothing in between: a registered poller gets an oldest claimable job exactly if there is
     * one, with the lifetime the row has left counted again from the claim.
     */
    method Claim(tenant: int, poller: int, supported: set<string>, now: int) returns (r: Option<Job>, ghost id: int)
      modifies this`jobs
      ensures
        var types := if supported == {} then {"backup", "probe", "custom"} else supported;
        && ((poller, tenant) !in pollers ==> r.None?)
        && ((poller, tenant) in pollers ==>
              (r.None? <==> forall other | other in old(jobs) ::
                 var job := old(jobs)[other]; !(job.tenant == tenant && job.status == Queued && job.jobType in types)))
        && (r.Some? ==>
              && id in old(jobs)
              && var was := old(jobs)[id];
              && was.tenant == tenant && was.status == Queued && was.jobType in types
              && (forall other | other in old(jobs) ::
                    var job := old(jobs)[other];
                    job.tenant == tenant && job.status == Queued && job.jobType in types ==>
                      was.createdAt <= job.createdAt)
              && jobs == old(jobs)[id := r.value]
              && r.value == was.(
                   status := Claimed, poller := Some(poller), claimedAt := Some(Stamp(now)),
                   expiresAt := if was.expiresAt.Some? && was.expiresAt.value > was.createdAt
                                then Some(Stamp(now) + (was.expiresAt.value - was.createdAt)) else None))
      ensures r.None? ==> jobs == old(jobs)
    {
      var sel := SelectOldest(tenant, supported);
      if sel.None? {
        return None, 0;
      }
      id := sel.value.id;
      r := ClaimSelected(tenant, poller, sel.value, now);
    }

    method Complete(tenant: int, id: int, success: bool, result: string, error: string, now: int)
      modifies this`jobs
      ensures
        var ends := id in old(jobs) && old(jobs)[id].tenant == tenant
                    && (old(jobs)[id].status == Claimed || old(jobs)[id].status == Running);
        && (!ends ==> jobs == old(jobs))
        && (ends ==> jobs == old(jobs)[id := old(jobs)[id].(
              status := if success then Done else Failed, result := result, error := error,
              completedAt := Some(Stamp(now)))])
    {
      if Completable(jobs, tenant, id) {
        jobs := jobs[id := CompleteJob(jobs[id], success, result, error, now)];
      }
    }

    method CompleteClaimedBy(tenant: int, poller: int, id: int, success: bool, result: string, error: string, now: int)
      returns (found: bool)
      modifies this`jobs
      ensures found <==>
              && id in old(jobs) && old(jobs)[id].tenant == tenant && old(jobs)[id].poller == Some(poller)
              && (old(jobs)[id].status == Claimed || old(jobs)[id].status == Running)
      ensures !found ==> jobs == old(jobs)
      ensures found ==> jobs == old(jobs)[id := old(jobs)[id].(
                status := if success then Done else Failed, result := result, error := error,
                completedAt := Some(Stamp(now)))]
    {
      found := CompletableBy(jobs, tenant, poller, id);
      if found {
        jobs := jobs[id := CompleteJob(jobs[id], success, result, error, now)];
      }
    }

    method Cancel(tenant: int, id: int, now: int)
      modifies this`jobs
      ensures
        var ends := id in old(jobs) && old(jobs)[id].tenant == tenant
                    && (old(jobs)[id].status == Queued || old(jobs)[id].status == Claimed);
        && (!ends ==> jobs == old(jobs))
        && (ends ==> jobs == old(jobs)[id := old(jobs)[id].(status := Cancelled, completedAt := Some(Stamp(now)))])
    {
      if Cancellable(jobs, tenant, id) {
        jobs := jobs[id := CancelJob(jobs[id], now)];
      }
    }

    /**
     * The claimed jobs past their expiry lose their owner and go back to the queue with the expiry they had, no other
     * row changes, nothing is left to take back, and the result is the number of rows changed.
     */
    method ReclaimExpired(now: int) returns (count: nat)
      modifies this`jobs
      ensures jobs.Keys == old(jobs).Keys
      ensures forall id | id in jobs ::
                var was := old(jobs)[id];
                jobs[id] ==
                  if was.status == Claimed && was.expiresAt.Some? && was.expiresAt.value < Stamp(now)
                  then was.(status := Queued, poller := None, claimedAt := None)
                  else was
      ensures ExpiredIds(jobs, now) == {}
      ensures count == |ChangedIds(old(jobs), jobs)|
    {
      SweepChangesTheExpired(jobs, now);
      count := |ExpiredIds(jobs, now)|;
      jobs := Reclaimed(jobs, now);
    }
  }
}
