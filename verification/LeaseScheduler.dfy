/** The leader lease: a row that contenders insert, renew or take over, and the runner that fires jobs under it. */
module LeaseScheduler {
  import opened Wrappers
  import opened Clock

  /** A time to live below five seconds is replaced by thirty. */
  function EffectiveTtl(requested: int): (ttl: int)
    ensures ttl >= 5 * SECOND
    ensures requested >= 5 * SECOND ==> ttl == requested
    ensures requested < 5 * SECOND ==> ttl == 30 * SECOND
  {
    if requested < 5 * SECOND then 30 * SECOND else requested
  }

  /** The stored row: who holds the lease and the second it expires. */
  datatype LeaseRow = LeaseRow(holder: int, expiresAt: int)

  /** The UPDATE's condition: already ours, or the stored expiry lies in an earlier second than the clock reading. */
  predicate MayUpdate(row: Option<LeaseRow>, holder: int, now: int) {
    row.Some? && (row.value.holder == holder || row.value.expiresAt < Stamp(now))
  }

  class LeaseTable {
    var row: Option<LeaseRow>

    constructor ()
      ensures row == None
    {
      row := None;
    }

    /** The INSERT; `faulty` is a database failure, which the caller does not tell from a conflict. */
    method TryInsert(holder: int, ttl: int, now: int, faulty: bool) returns (ok: bool)
      modifies this
      ensures ok <==> old(row) == None && !faulty
      ensures row == if ok then Some(LeaseRow(holder, Stamp(now + ttl))) else old(row)
    {
      ok := row.None? && !faulty;
      if ok {
        row := Some(LeaseRow(holder, Stamp(now + ttl)));
      }
    }

    method TryUpdate(holder: int, ttl: int, now: int) returns (ok: bool)
      modifies this
      ensures ok <==>
              old(row).Some? && (old(row).value.holder == holder || old(row).value.expiresAt < Stamp(now))
      ensures row == if ok then Some(LeaseRow(holder, Stamp(now + ttl))) else old(row)
    {
      ok := MayUpdate(row, holder, now);
      if ok {
        row := Some(LeaseRow(holder, Stamp(now + ttl)));
      }
    }

    /** Acquire with nothing in between: one clock reading serves both statements. */
    method Acquire(holder: int, ttl: int, now: int) returns (ok: bool)
      modifies this
      ensures ok <==> old(row) == None || old(row).value.holder == holder || old(row).value.expiresAt < Stamp(now)
      ensures row == if ok then Some(LeaseRow(holder, Stamp(now + ttl))) else old(row)
    {
      ok := TryInsert(holder, ttl, now, false);
      if !ok {
        ok := TryUpdate(holder, ttl, now);
      }
    }
  }

  // ---- interleaved acquisition ----

  /** A successful acquisition at full resolution: the holder counts on the closed interval from its clock reading. */
  datatype Grant = Grant(holder: int, from: int, until: int)

  /** An Acquire under way: its clock reading, and whether the INSERT is still to come. */
  datatype Call = Call(now: int, inserting: bool)

  /** `ttl` maps each contender to its requested time to live; `clock` holds each contender's latest reading. */
  datatype State = State(
    ttl: map<int, int>, row: Option<LeaseRow>, clock: map<int, int>, calls: map<int, Call>, grants: seq<Grant>)

  datatype Step =
    | ReadClock(holder: int, now: int)
    | Insert(holder: int, faulty: bool)
    | Update(holder: int)
    | Abandon(holder: int)

  ghost predicate Init(s: State) {
    s.row == None && s.clock == map[] && s.calls == map[] && s.grants == []
  }

  /**
   * A contender runs one Acquire at a time, and its own clock never goes back. It may also give up between two
   * statements: its process died, or the database did not run the statement.
   */
  ghost predicate Enabled(s: State, step: Step) {
    match step
    case ReadClock(h, now) => h in s.ttl && h !in s.calls && (h in s.clock ==> s.clock[h] <= now)
    case Insert(h, _) => h in s.ttl && h in s.calls && s.calls[h].inserting
    case Update(h) => h in s.ttl && h in s.calls && !s.calls[h].inserting
    case Abandon(h) => h in s.calls
  }

  function Granted(s: State, h: int): State
    requires h in s.ttl && h in s.calls
  {
    var until := s.calls[h].now + EffectiveTtl(s.ttl[h]);
    s.(row := Some(LeaseRow(h, Stamp(until))),
       calls := s.calls - {h},
       grants := s.grants + [Grant(h, s.calls[h].now, until)])
  }

  ghost function Apply(s: State, step: Step): State
    requires Enabled(s, step)
  {
    match step
    case ReadClock(h, now) => s.(clock := s.clock[h := now], calls := s.calls[h := Call(now, true)])
    case Insert(h, faulty) =>
      if s.row.None? && !faulty then Granted(s, h)
      else s.(calls := s.calls[h := s.calls[h].(inserting := false)])
    case Update(h) =>
      if MayUpdate(s.row, h, s.calls[h].now) then Granted(s, h) else s.(calls := s.calls - {h})
    case Abandon(h) => s.(calls := s.calls - {h})
  }

  ghost predicate Leads(s: State, step: Step, s': State) {
    Enabled(s, step) && s' == Apply(s, step)
  }

  ghost predicate IsRun(states: seq<State>, steps: seq<Step>) {
    && |states| == |steps| + 1
    && Init(states[0])
    && forall k {:trigger steps[k]} | 0 <= k < |steps| :: Leads(states[k], steps[k], states[k + 1])
  }

  /** Each statement by what it does to the row, as the table's methods promise it. */
  lemma StepWrites(s: State, step: Step)
    requires Enabled(s, step)
    ensures
      var after := Apply(s, step).row;
      match step
      case ReadClock(h, now) => after == s.row && Apply(s, step).calls == s.calls[h := Call(now, true)]
      case Insert(h, faulty) =>
        after == if s.row.None? && !faulty
                 then Some(LeaseRow(h, Stamp(s.calls[h].now + EffectiveTtl(s.ttl[h])))) else s.row
      case Update(h) =>
        after == if s.row.Some? && (s.row.value.holder == h || s.row.value.expiresAt < Stamp(s.calls[h].now))
                 then Some(LeaseRow(h, Stamp(s.calls[h].now + EffectiveTtl(s.ttl[h])))) else s.row
      case Abandon(_) => after == s.row
  {
  }

  /** Grants to different holders never overlap, and come in the order of their times. */
  ghost predicate Separated(grants: seq<Grant>) {
    forall i, j | 0 <= i < j < |grants| && grants[i].holder != grants[j].holder :: grants[i].until < grants[j].from
  }

  ghost predicate GrantAgrees(s: State, g: Grant) {
    && g.holder in s.ttl && g.holder in s.clock
    && g.from <= s.clock[g.holder]
    && g.until == g.from + EffectiveTtl(s.ttl[g.holder])
  }

  ghost predicate Inv(s: State) {
    && (s.row.None? <==> s.grants == [])
    && (s.grants != [] ==>
          var last := s.grants[|s.grants| - 1];
          && s.row == Some(LeaseRow(last.holder, Stamp(last.until)))
          && forall k | 0 <= k < |s.grants| :: s.grants[k].until <= last.until)
    && (forall k | 0 <= k < |s.grants| :: GrantAgrees(s, s.grants[k]))
    && (forall h | h in s.calls :: h in s.clock && s.clock[h] == s.calls[h].now)
    && Separated(s.grants)
  }

  lemma GrantKeepsInv(s: State, h: int)
    requires Inv(s) && h in s.ttl && h in s.calls
    requires s.row.None? || MayUpdate(s.row, h, s.calls[h].now)
    ensures Inv(Granted(s, h))
  {
    if s.grants != [] {
      var last := s.grants[|s.grants| - 1];
      var now := s.calls[h].now;
      assert GrantAgrees(s, last);
      if last.holder != h {
        StampLess(last.until, now);
      }
      assert last.until <= now + EffectiveTtl(s.ttl[h]);
      forall k | 0 <= k < |s.grants| && s.grants[k].holder != h
        ensures s.grants[k].until < now
      {
        if last.holder == h {
          assert s.grants[k].until < last.from;
        }
      }
    }
    var s' := Granted(s, h);
    forall k | 0 <= k < |s'.grants|
      ensures GrantAgrees(s', s'.grants[k])
    {
      assert k < |s.grants| ==> s'.grants[k] == s.grants[k] && GrantAgrees(s, s.grants[k]);
    }
  }

  lemma StepKeepsInv(s: State, step: Step)
    requires Inv(s) && Enabled(s, step)
    ensures Inv(Apply(s, step))
  {
    match step
    case ReadClock(h, now) =>
      var s' := Apply(s, step);
      forall k | 0 <= k < |s.grants|
        ensures GrantAgrees(s', s.grants[k])
      {
        assert GrantAgrees(s, s.grants[k]);
      }
    case Insert(h, faulty) =>
      if s.row.None? && !faulty {
        GrantKeepsInv(s, h);
      }
    case Update(h) =>
      if MayUpdate(s.row, h, s.calls[h].now) {
        GrantKeepsInv(s, h);
      }
    case Abandon(h) =>
      var s' := Apply(s, step);
      forall k | 0 <= k < |s.grants|
        ensures GrantAgrees(s', s.grants[k])
      {
        assert GrantAgrees(s, s.grants[k]);
      }
  }

  lemma {:induction false} RunKeepsInv(states: seq<State>, steps: seq<Step>, k: nat)
    requires IsRun(states, steps) && k < |states|
    ensures Inv(states[k])
  {
    if k > 0 {
      RunKeepsInv(states, steps, k - 1);
      StepKeepsInv(states[k - 1], steps[k - 1]);
    }
  }

  ghost predicate Covers(g: Grant, t: int) {
    g.from <= t <= g.until
  }

  /**
   * In every run, however many contenders interleave their statements and whatever their clocks read, the
   * full-resolution intervals granted to different holders are disjoint although only whole seconds are stored.
   */
  lemma OneLeaderAtATime(states: seq<State>, steps: seq<Step>, k: nat, i: nat, j: nat, t: int)
    requires IsRun(states, steps) && k < |states|
    requires i < |states[k].grants| && j < |states[k].grants|
    requires Covers(states[k].grants[i], t) && Covers(states[k].grants[j], t)
    ensures states[k].grants[i].holder == states[k].grants[j].holder
  {
    RunKeepsInv(states, steps, k);
    assert Separated(states[k].grants);
  }

  /**
   * When a contender gets the lease: always if it holds it; otherwise never up to its untruncated expiry, and always
   * from one second after it. In between the second boundary decides.
   */
  lemma TakeoverWindow(states: seq<State>, steps: seq<Step>, k: nat, h: int)
    requires IsRun(states, steps) && k < |steps| && steps[k] == Update(h) && states[k].grants != []
    ensures
      var last, now := states[k].grants[|states[k].grants| - 1], states[k].calls[h].now;
      var won := |states[k + 1].grants| == |states[k].grants| + 1;
      && (last.holder == h ==> won)
      && (last.holder != h && now <= last.until ==> !won)
      && (last.holder != h && now >= last.until + SECOND ==> won)
      && (last.holder != h ==> (won <==> Stamp(last.until) < Stamp(now)))
  {
    RunKeepsInv(states, steps, k);
  }

  // ---- the runner ----

  datatype JobSpec = JobSpec(name: string, interval: int)

  /** A tick of the runner's ticker, and whether the lease was granted on it. */
  datatype TickEvent = TickEvent(now: int, granted: bool)

  predicate Due(last: map<string, int>, job: JobSpec, now: int) {
    job.name !in last || now - last[job.name] >= job.interval
  }

  /** The times of the latest firings after the first `n` jobs of one granted tick have been looked at in order. */
  function LastBefore(last: map<string, int>, jobs: seq<JobSpec>, n: nat, now: int): map<string, int>
    requires n <= |jobs|
  {
    if n == 0 then last
    else
      var before, job := LastBefore(last, jobs, n - 1, now), jobs[n - 1];
      if Due(before, job, now) then before[job.name := now] else before
  }

  /** Which of the first `n` jobs fire on it. */
  function FiredBefore(last: map<string, int>, jobs: seq<JobSpec>, n: nat, now: int): seq<nat>
    requires n <= |jobs|
  {
    if n == 0 then []
    else FiredBefore(last, jobs, n - 1, now)
         + if Due(LastBefore(last, jobs, n - 1, now), jobs[n - 1], now) then [n - 1] else []
  }

  class Runner {
    const jobs: seq<JobSpec>
    var last: map<string, int>

    constructor (jobs: seq<JobSpec>)
      ensures this.jobs == jobs && last == map[]
    {
      this.jobs := jobs;
      last := map[];
    }

    /** The body of the ticker loop, with the outcome of the acquisition given; `fired` lists the jobs started. */
    method Tick(e: TickEvent) returns (fired: seq<nat>)
      modifies this`last
      ensures !e.granted ==> last == old(last) && fired == []
      ensures e.granted ==>
                && last == LastBefore(old(last), jobs, |jobs|, e.now)
                && fired == FiredBefore(old(last), jobs, |jobs|, e.now)
    {
      fired := [];
      if !e.granted {
        return;
      }
      for k := 0 to |jobs|
        invariant last == LastBefore(old(last), jobs, k, e.now)
        invariant fired == FiredBefore(old(last), jobs, k, e.now)
      {
        if jobs[k].name in last && e.now - last[jobs[k].name] < jobs[k].interval {
          continue;
        }
        last := last[jobs[k].name := e.now];
        fired := fired + [k];
      }
    }
  }

  /** The runner's map after the first `k` ticks. */
  function LastAfter(jobs: seq<JobSpec>, ticks: seq<TickEvent>, k: nat): map<string, int>
    requires k <= |ticks|
  {
    if k == 0 then map[]
    else
      var before, e := LastAfter(jobs, ticks, k - 1), ticks[k - 1];
      if e.granted then LastBefore(before, jobs, |jobs|, e.now) else before
  }

  ghost predicate Ascending(ticks: seq<TickEvent>) {
    forall i, j | 0 <= i < j < |ticks| :: ticks[i].now <= ticks[j].now
  }

  /** Job `q` on tick `i` comes before job `j` on tick `k`. */
  predicate Earlier(i: nat, q: nat, k: nat, j: nat) {
    i < k || (i == k && q < j)
  }

  /**
   * When job `j` ought to fire: on a granted tick, if every earlier firing under its name, by itself or by another job
   * that shares it, lies at least its interval back.
   */
  ghost predicate ShouldFire(jobs: seq<JobSpec>, ticks: seq<TickEvent>, k: nat, j: nat)
    requires k < |ticks| && j < |jobs|
    decreases k, j
  {
    ticks[k].granted
    && forall i: nat, q: nat | i <= k && q < |jobs| && Earlier(i, q, k, j) ::
         jobs[q].name == jobs[j].name && ShouldFire(jobs, ticks, i, q) ==>
           ticks[k].now - ticks[i].now >= jobs[j].interval
  }

  ghost predicate FiredEarlier(jobs: seq<JobSpec>, ticks: seq<TickEvent>, k: nat, j: nat, name: string, now: int)
    requires k < |ticks| && j <= |jobs|
  {
    exists i: nat, q: nat :: i <= k && q < |jobs| && Earlier(i, q, k, j)
      && ShouldFire(jobs, ticks, i, q) && jobs[q].name == name && ticks[i].now == now
  }

  /** The map holds for each name the time of a firing that should have happened, and of none that is later. */
  ghost predicate LastAgrees(jobs: seq<JobSpec>, ticks: seq<TickEvent>, k: nat, j: nat, last: map<string, int>)
    requires k < |ticks| && j <= |jobs|
  {
    && (forall name | name in last :: FiredEarlier(jobs, ticks, k, j, name, last[name]))
    && (forall i: nat, q: nat | i <= k && q < |jobs| && Earlier(i, q, k, j) && ShouldFire(jobs, ticks, i, q) ::
          jobs[q].name in last && ticks[i].now <= last[jobs[q].name])
  }

  lemma DueAgrees(jobs: seq<JobSpec>, ticks: seq<TickEvent>, k: nat, j: nat, last: map<string, int>)
    requires k < |ticks| && j < |jobs| && ticks[k].granted && LastAgrees(jobs, ticks, k, j, last)
    ensures Due(last, jobs[j], ticks[k].now) <==> ShouldFire(jobs, ticks, k, j)
  {
    var name := jobs[j].name;
    if name in last {
      assert FiredEarlier(jobs, ticks, k, j, name, last[name]);
    }
  }

  lemma FiringAgrees(jobs: seq<JobSpec>, ticks: seq<TickEvent>, k: nat, j: nat, last: map<string, int>)
    requires k < |ticks| && 0 < j <= |jobs| && LastAgrees(jobs, ticks, k, j - 1, last) && Ascending(ticks)
    requires ShouldFire(jobs, ticks, k, j - 1)
    ensures LastAgrees(jobs, ticks, k, j, last[jobs[j - 1].name := ticks[k].now])
  {
    var last' := last[jobs[j - 1].name := ticks[k].now];
    forall name | name in last'
      ensures FiredEarlier(jobs, ticks, k, j, name, last'[name])
    {
      if name == jobs[j - 1].name {
        assert Earlier(k, j - 1, k, j);
      } else {
        FiredStaysEarlier(jobs, ticks, k, j, name, last[name]);
      }
    }
  }

  lemma FiredStaysEarlier(jobs: seq<JobSpec>, ticks: seq<TickEvent>, k: nat, j: nat, name: string, now: int)
    requires k < |ticks| && 0 < j <= |jobs| && FiredEarlier(jobs, ticks, k, j - 1, name, now)
    ensures FiredEarlier(jobs, ticks, k, j, name, now)
  {
    var i: nat, q: nat :| i <= k && q < |jobs| && Earlier(i, q, k, j - 1)
      && ShouldFire(jobs, ticks, i, q) && jobs[q].name == name && ticks[i].now == now;
    assert Earlier(i, q, k, j);
  }

  lemma SkipAgrees(jobs: seq<JobSpec>, ticks: seq<TickEvent>, k: nat, j: nat, last: map<string, int>)
    requires k < |ticks| && 0 < j <= |jobs| && LastAgrees(jobs, ticks, k, j - 1, last)
    requires !ShouldFire(jobs, ticks, k, j - 1)
    ensures LastAgrees(jobs, ticks, k, j, last)
  {
    forall name | name in last
      ensures FiredEarlier(jobs, ticks, k, j, name, last[name])
    {
      FiredStaysEarlier(jobs, ticks, k, j, name, last[name]);
    }
  }

  lemma NextTickAgrees(jobs: seq<JobSpec>, ticks: seq<TickEvent>, k: nat, last: map<string, int>)
    requires k + 1 < |ticks| && LastAgrees(jobs, ticks, k, |jobs|, last)
    ensures LastAgrees(jobs, ticks, k + 1, 0, last)
  {
    forall name | name in last
      ensures FiredEarlier(jobs, ticks, k + 1, 0, name, last[name])
    {
      assert FiredEarlier(jobs, ticks, k, |jobs|, name, last[name]);
      var i: nat, q: nat :| i <= k && q < |jobs| && Earlier(i, q, k, |jobs|)
        && ShouldFire(jobs, ticks, i, q) && jobs[q].name == name && ticks[i].now == last[name];
      assert Earlier(i, q, k + 1, 0);
    }
    forall i: nat, q: nat | i <= k + 1 && q < |jobs| && Earlier(i, q, k + 1, 0) && ShouldFire(jobs, ticks, i, q)
      ensures jobs[q].name in last && ticks[i].now <= last[jobs[q].name]
    {
      assert Earlier(i, q, k, |jobs|);
    }
  }

  lemma LookedAtAgrees(jobs: seq<JobSpec>, ticks: seq<TickEvent>, k: nat, j: nat,
                       before: map<string, int>, after: map<string, int>)
    requires Ascending(ticks) && k < |ticks| && 0 < j <= |jobs| && ticks[k].granted
    requires LastAgrees(jobs, ticks, k, j - 1, before)
    requires after ==
             if Due(before, jobs[j - 1], ticks[k].now) then before[jobs[j - 1].name := ticks[k].now] else before
    ensures LastAgrees(jobs, ticks, k, j, after)
  {
    DueAgrees(jobs, ticks, k, j - 1, before);
    if Due(before, jobs[j - 1], ticks[k].now) {
      FiringAgrees(jobs, ticks, k, j, before);
    } else {
      SkipAgrees(jobs, ticks, k, j, before);
    }
  }

  lemma NothingYetAgrees(jobs: seq<JobSpec>, ticks: seq<TickEvent>)
    requires ticks != []
    ensures LastAgrees(jobs, ticks, 0, 0, map[])
  {
  }

  /** Within a granted tick. */
  lemma {:induction false} GrantedAgrees(jobs: seq<JobSpec>, ticks: seq<TickEvent>, k: nat, j: nat,
                                         last: map<string, int>)
    requires Ascending(ticks) && k < |ticks| && j <= |jobs| && ticks[k].granted
    requires LastAgrees(jobs, ticks, k, 0, last)
    ensures LastAgrees(jobs, ticks, k, j, LastBefore(last, jobs, j, ticks[k].now))
  {
    if j > 0 {
      GrantedAgrees(jobs, ticks, k, j - 1, last);
      LookedAtAgrees(jobs, ticks, k, j, LastBefore(last, jobs, j - 1, ticks[k].now),
                     LastBefore(last, jobs, j, ticks[k].now));
    }
  }

  /** Within a tick without the lease. */
  lemma {:induction false} PassedOverAgrees(jobs: seq<JobSpec>, ticks: seq<TickEvent>, k: nat, j: nat,
                                            last: map<string, int>)
    requires Ascending(ticks) && k < |ticks| && j <= |jobs| && !ticks[k].granted
    requires LastAgrees(jobs, ticks, k, 0, last)
    ensures LastAgrees(jobs, ticks, k, j, last)
  {
    if j > 0 {
      PassedOverAgrees(jobs, ticks, k, j - 1, last);
      SkipAgrees(jobs, ticks, k, j, last);
    }
  }

  /** Throughout any ascending ticks the runner's map agrees with the firings that should have happened. */
  lemma {:induction false} RunnerRemembers(jobs: seq<JobSpec>, ticks: seq<TickEvent>, k: nat)
    requires Ascending(ticks) && k < |ticks|
    ensures LastAgrees(jobs, ticks, k, 0, LastAfter(jobs, ticks, k))
  {
    if k == 0 {
      NothingYetAgrees(jobs, ticks);
    } else {
      var last := LastAfter(jobs, ticks, k - 1);
      RunnerRemembers(jobs, ticks, k - 1);
      if ticks[k - 1].granted {
        GrantedAgrees(jobs, ticks, k - 1, |jobs|, last);
      } else {
        PassedOverAgrees(jobs, ticks, k - 1, |jobs|, last);
      }
      NextTickAgrees(jobs, ticks, k - 1, LastAfter(jobs, ticks, k));
    }
  }

  lemma {:induction false} FiredIsDue(last: map<string, int>, jobs: seq<JobSpec>, n: nat, now: int, j: nat)
    requires n <= |jobs| && j < |jobs|
    ensures j in FiredBefore(last, jobs, n, now) <==> j < n && Due(LastBefore(last, jobs, j, now), jobs[j], now)
  {
    if n > 0 {
      FiredIsDue(last, jobs, n - 1, now, j);
    }
  }

  /**
   * Over any ascending sequence of ticks, a job fires on a tick exactly when the lease is granted and every earlier
   * firing under its name lies at least its interval back.
   */
  lemma {:induction false} FiresExactlyWhenDue(jobs: seq<JobSpec>, ticks: seq<TickEvent>, k: nat, j: nat)
    requires Ascending(ticks) && k < |ticks| && j < |jobs|
    ensures ticks[k].granted && j in FiredBefore(LastAfter(jobs, ticks, k), jobs, |jobs|, ticks[k].now)
            <==> ShouldFire(jobs, ticks, k, j)
  {
    var last := LastAfter(jobs, ticks, k);
    RunnerRemembers(jobs, ticks, k);
    FiredIsDue(last, jobs, |jobs|, ticks[k].now, j);
    if ticks[k].granted {
      GrantedAgrees(jobs, ticks, k, j, last);
      DueAgrees(jobs, ticks, k, j, LastBefore(last, jobs, j, ticks[k].now));
    }
  }

  // ---- several runners on one lease ----

  /** A runner's tick, and the step of the lease's run that ended the Acquire made on it. */
  datatype Served = Served(e: TickEvent, at: nat)

  ghost predicate EndsCall(states: seq<State>, steps: seq<Step>, h: int, at: nat) {
    && at < |steps| < |states| && steps[at].holder == h
    && h in states[at].calls && h !in states[at + 1].calls
  }

  ghost predicate GrantsAt(states: seq<State>, at: nat) {
    at + 1 < |states| && |states[at + 1].grants| == |states[at].grants| + 1
  }

  function Ticks(served: seq<Served>): seq<TickEvent> {
    seq(|served|, i requires 0 <= i < |served| => served[i].e)
  }

  /** The ticks of the runner `h` are granted as the lease's run decides. */
  ghost predicate Serves(states: seq<State>, steps: seq<Step>, h: int, served: seq<Served>) {
    && Ascending(Ticks(served))
    && forall i | 0 <= i < |served| ::
         EndsCall(states, steps, h, served[i].at) && (served[i].e.granted <==> GrantsAt(states, served[i].at))
  }

  /** On its i-th tick the runner fires job `j`. */
  ghost predicate Fires(jobs: seq<JobSpec>, served: seq<Served>, i: nat, j: nat) {
    && i < |served| && served[i].e.granted
    && j in FiredBefore(LastAfter(jobs, Ticks(served), i), jobs, |jobs|, served[i].e.now)
  }

  /** The interval granted by a step that grants one. */
  ghost function GrantOf(states: seq<State>, at: nat): Grant
    requires GrantsAt(states, at)
  {
    states[at + 1].grants[|states[at].grants|]
  }

  lemma GrantIsTheCallers(states: seq<State>, steps: seq<Step>, h: int, at: nat)
    requires IsRun(states, steps) && EndsCall(states, steps, h, at) && GrantsAt(states, at)
    ensures GrantOf(states, at).holder == h && GrantOf(states, at).from == states[at].calls[h].now
  {
    assert states[at + 1] == Apply(states[at], steps[at]);
  }

  lemma {:induction false} GrantsStay(states: seq<State>, steps: seq<Step>, i: nat, k: nat)
    requires IsRun(states, steps) && i <= k < |states|
    ensures states[i].grants <= states[k].grants
    decreases k
  {
    if i < k {
      GrantsStay(states, steps, i, k - 1);
      assert states[k] == Apply(states[k - 1], steps[k - 1]);
    }
  }

  lemma FiringIsGranted(states: seq<State>, steps: seq<Step>, h: int, jobs: seq<JobSpec>, served: seq<Served>,
                        i: nat, j: nat)
    requires IsRun(states, steps) && Serves(states, steps, h, served) && Fires(jobs, served, i, j) && j < |jobs|
    ensures EndsCall(states, steps, h, served[i].at) && GrantsAt(states, served[i].at)
    ensures ShouldFire(jobs, Ticks(served), i, j)
  {
    FiresExactlyWhenDue(jobs, Ticks(served), i, j);
  }

  lemma GrantsAreApart(states: seq<State>, steps: seq<Step>, h: int, at: nat, h': int, at': nat, t: int)
    requires IsRun(states, steps)
    requires EndsCall(states, steps, h, at) && GrantsAt(states, at) && Covers(GrantOf(states, at), t)
    requires EndsCall(states, steps, h', at') && GrantsAt(states, at') && Covers(GrantOf(states, at'), t)
    ensures h == h'
  {
    GrantIsTheCallers(states, steps, h, at);
    GrantIsTheCallers(states, steps, h', at');
    GrantsStay(states, steps, at + 1, |steps|);
    GrantsStay(states, steps, at' + 1, |steps|);
    OneLeaderAtATime(states, steps, |steps|, |states[at].grants|, |states[at'].grants|, t);
  }

  /**
   * Any number of runners on one lease: every job that fires does so on a tick for which the runner itself was granted
   * an interval from its clock reading, every earlier firing of that runner under the same name lies at least the
   * job's interval back, and the intervals of firings by different runners have no instant in common.
   */
  lemma {:induction false} FiringsByOneRunnerAtATime(
      states: seq<State>, steps: seq<Step>, t: int,
      h: int, jobs: seq<JobSpec>, served: seq<Served>, i: nat, j: nat,
      h': int, jobs': seq<JobSpec>, served': seq<Served>, i': nat, j': nat)
    requires IsRun(states, steps) && Serves(states, steps, h, served) && Serves(states, steps, h', served')
    requires Fires(jobs, served, i, j) && Fires(jobs', served', i', j') && j < |jobs| && j' < |jobs'|
    ensures GrantsAt(states, served[i].at) && GrantOf(states, served[i].at).holder == h
    ensures ShouldFire(jobs, Ticks(served), i, j)
    ensures GrantsAt(states, served'[i'].at)
    ensures Covers(GrantOf(states, served[i].at), t) && Covers(GrantOf(states, served'[i'].at), t) ==> h == h'
  {
    var at, at' := served[i].at, served'[i'].at;
    FiringIsGranted(states, steps, h, jobs, served, i, j);
    FiringIsGranted(states, steps, h', jobs', served', i', j');
    GrantIsTheCallers(states, steps, h, at);
    if Covers(GrantOf(states, at), t) && Covers(GrantOf(states, at'), t) {
      GrantsAreApart(states, steps, h, at, h', at', t);
    }
  }
}
