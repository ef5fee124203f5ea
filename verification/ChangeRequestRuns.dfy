/** Runs of the approval workflow: reads, guarded updates and event writes of any number of callers interleave. */
module ChangeRequestRuns {
  import opened Wrappers
  import opened ChangeRequests
  import opened Text

  /** A caller between its read and its UPDATE; `seenAt` counts the transitions the request had when it was read. */
  datatype Call = Call(id: int, seen: Request, op: Op, seenAt: nat)

  /**
   * `log` lists every creation and successful transition in order. An event not yet written is in `unwritten`; one
   * whose write failed, or whose writer died, is in `lost`.
   */
  datatype State = State(
    requests: map<int, Request>, calls: map<int, Call>,
    log: seq<Event>, events: seq<Event>, unwritten: multiset<Event>, lost: multiset<Event>)

  datatype Step =
    | Create(id: int, proposal: Proposal, now: int)
    | Read(call: int, tenant: int, id: int, op: Op)
    | Update(call: int, now: int)
    | WriteEvent(e: Event)
    | LoseEvent(e: Event)
    | StoreResult(tenant: int, id: int, result: string)

  ghost predicate Init(s: State) {
    && s.requests == map[] && s.calls == map[] && s.log == [] && s.events == []
    && s.unwritten == multiset{} && s.lost == multiset{}
  }

  ghost predicate Enabled(s: State, step: Step) {
    match step
    case Create(id, proposal, _) => id !in s.requests && Acceptable(proposal)
    case Read(_, tenant, id, op) =>
      id in s.requests && s.requests[id].tenant == tenant && Refusal(s.requests[id], op).None?
    case Update(call, _) => call in s.calls
    case WriteEvent(e) => e in s.unwritten
    case LoseEvent(e) => e in s.unwritten
    case StoreResult(tenant, id, _) => id in s.requests && s.requests[id].tenant == tenant
  }

  function Logged(s: State, e: Event): State {
    s.(log := s.log + [e], unwritten := s.unwritten + multiset{e})
  }

  function Created(s: State, id: int, proposal: Proposal, now: int): State {
    Logged(s.(requests := s.requests[id := NewRequest(proposal, now)]), CreationEvent(id, proposal.requester))
  }

  /** The row moved and its event due. */
  function Won(s: State, c: Call, now: int): State
    requires c.id in s.requests
  {
    Logged(s.(requests := s.requests[c.id := Moved(s.requests[c.id], c.op, now)]),
           EventOf(c.id, c.seen.status, c.op))
  }

  predicate Wins(s: State, c: Call) {
    GuardHolds(s.requests, c.seen.tenant, c.id, c.seen.status)
  }

  ghost function Apply(s: State, step: Step): State
    requires Enabled(s, step)
  {
    match step
    case Create(id, proposal, now) => Created(s, id, proposal, now)
    case Read(call, tenant, id, op) =>
      s.(calls := s.calls[call := Call(id, s.requests[id], op, |Path(s.log, id)|)])
    case Update(call, now) =>
      var c, s' := s.calls[call], s.(calls := s.calls - {call});
      if Wins(s, c) then Won(s', c, now) else s'
    case WriteEvent(e) => s.(events := s.events + [e], unwritten := s.unwritten - multiset{e})
    case LoseEvent(e) => s.(unwritten := s.unwritten - multiset{e}, lost := s.lost + multiset{e})
    case StoreResult(tenant, id, result) =>
      s.(requests := s.requests[id := s.requests[id].(result := result)])
  }

  ghost predicate Leads(s: State, step: Step, s': State) {
    Enabled(s, step) && s' == Apply(s, step)
  }

  ghost predicate IsRun(states: seq<State>, steps: seq<Step>) {
    && |states| == |steps| + 1
    && Init(states[0])
    && forall k {:trigger steps[k]} | 0 <= k < |steps| :: Leads(states[k], steps[k], states[k + 1])
  }

  /** Each statement by what it writes. */
  lemma StepWrites(s: State, step: Step)
    requires Enabled(s, step)
    ensures
      var after := Apply(s, step);
      match step
      case Create(id, d, now) =>
        && after.requests == s.requests[id := Request(d.tenant, d.requester,
             d.content.(title := TrimSpace(d.content.title)), now, Draft, None, "", "", None, None, None, now)]
        && after.log == s.log + [Event(id, Some(d.requester), None, Draft, "created")]
      case Read(call, tenant, id, op) =>
        && after.requests == s.requests && after.log == s.log
        && call in after.calls && after.calls[call].id == id && after.calls[call].seen == s.requests[id]
        && after.calls[call].op == op
      case Update(call, now) =>
        var c := s.calls[call];
        if c.id in s.requests && s.requests[c.id].tenant == c.seen.tenant && s.requests[c.id].status == c.seen.status
        then
          && after.requests == s.requests[c.id := Moved(s.requests[c.id], c.op, now)]
          && after.log == s.log + [EventOf(c.id, c.seen.status, c.op)]
        else after.requests == s.requests && after.log == s.log
      case WriteEvent(e) => after.requests == s.requests && after.log == s.log && after.events == s.events + [e]
      case LoseEvent(e) => after.requests == s.requests && after.log == s.log && after.events == s.events
      case StoreResult(tenant, id, result) =>
        && after.requests == s.requests[id := s.requests[id].(result := result)]
        && after.log == s.log && after.events == s.events
  {
  }

  // ---- chains of events ----

  /** The events of one request, in the order they happened. */
  function Path(log: seq<Event>, id: int): seq<Event> {
    if log == [] then []
    else
      var before, e := Path(log[..|log| - 1], id), log[|log| - 1];
      if e.request == id then before + [e] else before
  }

  /** From the creation in draft, each event leaving the status the one before reached, by an allowed transition. */
  ghost predicate IsChain(chain: seq<Event>, last: Status) {
    && chain != []
    && chain[0].from == None && chain[0].to == Draft
    && chain[|chain| - 1].to == last
    && forall k | 0 < k < |chain| ::
         chain[k].from == Some(chain[k - 1].to) && CanTransition(chain[k - 1].to, chain[k].to)
  }

  lemma {:induction false} ChainRises(chain: seq<Event>, last: Status, i: nat, j: nat)
    requires IsChain(chain, last) && i < j < |chain|
    ensures Rank(chain[i].to) + (j - i) <= Rank(chain[j].to)
  {
    TransitionRaisesRank(chain[j - 1].to, chain[j].to);
    if i < j - 1 {
      ChainRises(chain, last, i, j - 1);
    }
  }

  /** Creation and at most three transitions. */
  lemma ChainIsShort(chain: seq<Event>, last: Status)
    requires IsChain(chain, last)
    ensures |chain| <= 4 && |chain| <= Rank(last) + 1
  {
    if |chain| > 1 {
      ChainRises(chain, last, 0, |chain| - 1);
    }
  }

  ghost predicate Rising(events: seq<Event>) {
    forall i, j | 0 <= i < j < |events| :: Rank(events[i].to) < Rank(events[j].to)
  }

  lemma ChainIsRising(chain: seq<Event>, last: Status)
    requires IsChain(chain, last)
    ensures Rising(chain)
  {
    forall i, j | 0 <= i < j < |chain|
      ensures Rank(chain[i].to) < Rank(chain[j].to)
    {
      ChainRises(chain, last, i, j);
    }
  }

  lemma RisingHeads(x: seq<Event>, y: seq<Event>)
    requires Rising(x) && Rising(y) && multiset(x) == multiset(y) && x != []
    ensures y != [] && x[0] == y[0]
  {
    assert x[0] in multiset(y);
    var k :| 0 <= k < |y| && y[k] == x[0];
    assert y[0] in multiset(x);
    var l :| 0 <= l < |x| && x[l] == y[0];
  }

  lemma MultisetTail(x: seq<Event>)
    requires x != []
    ensures multiset(x[1..]) == multiset(x) - multiset{x[0]}
  {
    assert x == [x[0]] + x[1..];
  }

  /** Events of strictly rising rank can be put in order in one way only. */
  lemma {:induction false} RisingIsUnique(x: seq<Event>, y: seq<Event>)
    requires Rising(x) && Rising(y) && multiset(x) == multiset(y)
    ensures x == y
  {
    if x == [] {
      assert |multiset(y)| == 0;
    } else {
      RisingHeads(x, y);
      MultisetTail(x);
      MultisetTail(y);
      RisingIsUnique(x[1..], y[1..]);
    }
  }

  // ---- what every step keeps ----

  /** Which stamps a request carries is determined by how far it has come. */
  ghost predicate StampsAgree(r: Request) {
    && (r.submittedAt.Some? ==> r.status != Draft)
    && (r.status != Draft && r.status != Cancelled ==> r.submittedAt.Some?)
    && (r.reviewer.Some? <==> r.decidedAt.Some?)
    && (r.status in {Approved, Rejected, Applied, Failed} ==> r.decidedAt.Some?)
    && (r.decidedAt.Some? ==> r.submittedAt.Some? && r.status != Submitted)
    && (r.appliedAt.Some? <==> r.status == Applied || r.status == Failed)
  }

  ghost predicate RequestAgrees(r: Request, path: seq<Event>) {
    IsChain(path, r.status) && StampsAgree(r)
  }

  ghost predicate CallAgrees(c: Call, r: Request, path: seq<Event>) {
    && Refusal(c.seen, c.op).None?
    && c.seen.tenant == r.tenant && c.seen.requester == r.requester && c.seen.content == r.content
    && 0 < c.seenAt <= |path|
    && path[c.seenAt - 1].to == c.seen.status
  }

  /** Every event that has happened is recorded, waiting to be written, or lost. */
  ghost predicate AllAccounted(s: State) {
    multiset(s.events) + s.unwritten + s.lost == multiset(s.log)
  }

  ghost predicate Inv(s: State) {
    && (forall id | id in s.requests :: RequestAgrees(s.requests[id], Path(s.log, id)))
    && (forall id | id !in s.requests :: Path(s.log, id) == [])
    && (forall call | call in s.calls :: CallFits(s.calls[call], s.requests, s.log))
  }

  ghost predicate CallFits(c: Call, requests: map<int, Request>, log: seq<Event>) {
    c.id in requests && CallAgrees(c, requests[c.id], Path(log, c.id))
  }

  lemma PathAppend(log: seq<Event>, e: Event)
    ensures forall id :: Path(log + [e], id) == if e.request == id then Path(log, id) + [e] else Path(log, id)
  {
    assert (log + [e])[..|log|] == log;
  }

  lemma StepKeepsAccounts(s: State, step: Step)
    requires AllAccounted(s) && Enabled(s, step)
    ensures AllAccounted(Apply(s, step))
  {
  }

  lemma ChainExtends(path: seq<Event>, last: Status, e: Event)
    requires IsChain(path, last) && e.from == Some(last) && CanTransition(last, e.to)
    ensures IsChain(path + [e], e.to)
  {
  }

  lemma MovedStamps(r: Request, op: Op, now: int)
    requires StampsAgree(r) && CanTransition(r.status, Target(op))
    ensures StampsAgree(Moved(r, op, now))
  {
  }

  lemma NewRequestAgrees(id: int, proposal: Proposal, now: int)
    ensures RequestAgrees(NewRequest(proposal, now), [CreationEvent(id, proposal.requester)])
  {
  }

  lemma CreateKeepsInv(s: State, added: int, proposal: Proposal, now: int)
    requires Inv(s) && added !in s.requests
    ensures Inv(Created(s, added, proposal, now))
  {
    var e := CreationEvent(added, proposal.requester);
    var s' := Created(s, added, proposal, now);
    PathAppend(s.log, e);
    NewRequestAgrees(added, proposal, now);
    forall id | id in s'.requests
      ensures RequestAgrees(s'.requests[id], Path(s'.log, id))
    {
      if id == added {
        assert Path(s'.log, id) == [e];
      } else {
        assert RequestAgrees(s.requests[id], Path(s.log, id));
      }
    }
    forall call | call in s'.calls
      ensures CallFits(s'.calls[call], s'.requests, s'.log)
    {
      FitsBesideNew(s.calls[call], s, added, NewRequest(proposal, now), e);
    }
  }

  /** A call on another request is not touched by a creation. */
  lemma FitsBesideNew(c: Call, s: State, id: int, r: Request, e: Event)
    requires CallFits(c, s.requests, s.log) && id !in s.requests && e.request == id
    ensures CallFits(c, s.requests[id := r], s.log + [e])
  {
    PathAppend(s.log, e);
  }

  /** A guard that holds means that nothing happened to the request since it was read. */
  lemma GuardMeansUnmoved(c: Call, r: Request, path: seq<Event>)
    requires RequestAgrees(r, path) && CallAgrees(c, r, path) && r.status == c.seen.status
    ensures c.seenAt == |path|
  {
    if c.seenAt < |path| {
      ChainRises(path, r.status, c.seenAt - 1, |path| - 1);
    }
  }

  lemma {:induction false} WinKeepsInv(s: State, c: Call, now: int)
    requires Inv(s) && CallFits(c, s.requests, s.log) && Wins(s, c)
    ensures Inv(Won(s, c, now))
  {
    var e, s' := EventOf(c.id, c.seen.status, c.op), Won(s, c, now);
    PathAppend(s.log, e);
    MoveAgrees(c, s.requests[c.id], Path(s.log, c.id), now);
    forall id | id in s'.requests
      ensures RequestAgrees(s'.requests[id], Path(s'.log, id))
    {
      assert id != c.id ==> RequestAgrees(s.requests[id], Path(s.log, id));
    }
    forall call | call in s'.calls
      ensures CallFits(s'.calls[call], s'.requests, s'.log)
    {
      FitsAfterWin(s.calls[call], c, s, now);
    }
  }

  lemma FitsAfterWin(other: Call, c: Call, s: State, now: int)
    requires CallFits(other, s.requests, s.log) && c.id in s.requests
    ensures CallFits(other, Won(s, c, now).requests, Won(s, c, now).log)
  {
    PathAppend(s.log, EventOf(c.id, c.seen.status, c.op));
    if other.id == c.id {
      CallStillAgrees(other, c, s.requests[c.id], Path(s.log, c.id), now);
    }
  }

  /** The row that a winning update writes agrees with the history that has the transition. */
  lemma MoveAgrees(c: Call, r: Request, path: seq<Event>, now: int)
    requires RequestAgrees(r, path) && CallAgrees(c, r, path) && r.status == c.seen.status
    ensures RequestAgrees(Moved(r, c.op, now), path + [EventOf(c.id, c.seen.status, c.op)])
  {
    ChainExtends(path, r.status, EventOf(c.id, c.seen.status, c.op));
    MovedStamps(r, c.op, now);
  }

  /** What another caller has read of a request stays a point of its history. */
  lemma CallStillAgrees(other: Call, c: Call, r: Request, path: seq<Event>, now: int)
    requires CallAgrees(other, r, path)
    ensures CallAgrees(other, Moved(r, c.op, now), path + [EventOf(c.id, c.seen.status, c.op)])
  {
  }

  lemma ReadKeepsInv(s: State, step: Step)
    requires Inv(s) && Enabled(s, step) && step.Read?
    ensures Inv(Apply(s, step))
  {
    assert RequestAgrees(s.requests[step.id], Path(s.log, step.id));
  }

  lemma StoreKeepsInv(s: State, step: Step)
    requires Inv(s) && Enabled(s, step) && step.StoreResult?
    ensures Inv(Apply(s, step))
  {
    var s' := Apply(s, step);
    forall id | id in s'.requests
      ensures RequestAgrees(s'.requests[id], Path(s'.log, id))
    {
      assert RequestAgrees(s.requests[id], Path(s.log, id));
    }
    forall call | call in s'.calls
      ensures CallFits(s'.calls[call], s'.requests, s'.log)
    {
      assert CallFits(s.calls[call], s.requests, s.log);
    }
  }

  lemma RecordKeepsInv(s: State, step: Step)
    requires Inv(s) && Enabled(s, step) && (step.WriteEvent? || step.LoseEvent?)
    ensures Inv(Apply(s, step))
  {
  }

  lemma DoneKeepsInv(s: State, call: int)
    requires Inv(s) && call in s.calls
    ensures Inv(s.(calls := s.calls - {call}))
  {
  }

  lemma {:induction false} StepKeepsInv(s: State, step: Step)
    requires Inv(s) && Enabled(s, step)
    ensures Inv(Apply(s, step))
  {
    match step
    case Create(id, proposal, now) => CreateKeepsInv(s, id, proposal, now);
    case Read(_, _, _, _) => ReadKeepsInv(s, step);
    case Update(call, _) =>
      DoneKeepsInv(s, call);
      if Wins(s, s.calls[call]) {
        assert CallFits(s.calls[call], s.requests, s.log);
        WinKeepsInv(s.(calls := s.calls - {call}), s.calls[call], step.now);
      }
    case WriteEvent(_) => RecordKeepsInv(s, step);
    case LoseEvent(_) => RecordKeepsInv(s, step);
    case StoreResult(_, _, _) => StoreKeepsInv(s, step);
  }

  lemma {:induction false} RunKeepsInv(states: seq<State>, steps: seq<Step>, k: nat)
    requires IsRun(states, steps) && k < |states|
    ensures Inv(states[k]) && AllAccounted(states[k])
  {
    if k > 0 {
      RunKeepsInv(states, steps, k - 1);
      StepKeepsInv(states[k - 1], steps[k - 1]);
      StepKeepsAccounts(states[k - 1], steps[k - 1]);
    }
  }

  // ---- main results ----

  /** All events of a request, recorded, not yet written or lost, each counted once, are the events of `chain`. */
  ghost predicate Accounts(s: State, id: int, chain: seq<Event>) {
    && (forall k | 0 <= k < |chain| :: chain[k].request == id)
    && forall e: Event | e.request == id :: (multiset(s.events) + s.unwritten + s.lost)[e] == multiset(chain)[e]
  }

  lemma {:induction false} PathAccounts(log: seq<Event>, id: int)
    ensures forall k | 0 <= k < |Path(log, id)| :: Path(log, id)[k].request == id
    ensures forall e: Event | e.request == id :: multiset(log)[e] == multiset(Path(log, id))[e]
  {
    if log != [] {
      PathAccounts(log[..|log| - 1], id);
      assert log == log[..|log| - 1] + [log[|log| - 1]];
    }
  }

  /**
   * At every point of every run the events of a request, recorded or still to be written, form exactly one chain:
   * there is an order in which they lead from draft to the current status, and there is no other such order.
   */
  lemma EventsFormOneChain(states: seq<State>, steps: seq<Step>, k: nat, id: int) returns (chain: seq<Event>)
    requires IsRun(states, steps) && k < |states| && id in states[k].requests
    ensures IsChain(chain, states[k].requests[id].status) && Accounts(states[k], id, chain)
    ensures |chain| <= 4
    ensures forall other, last | IsChain(other, last) && Accounts(states[k], id, other) :: other == chain
  {
    RunKeepsInv(states, steps, k);
    chain := Path(states[k].log, id);
    PathAccounts(states[k].log, id);
    ChainIsShort(chain, states[k].requests[id].status);
    ChainIsRising(chain, states[k].requests[id].status);
    forall other, last | IsChain(other, last) && Accounts(states[k], id, other)
      ensures other == chain
    {
      ChainIsRising(other, last);
      forall e: Event
        ensures multiset(other)[e] == multiset(chain)[e]
      {
        if e.request != id {
          assert e !in multiset(other) && e !in multiset(chain);
        }
      }
      RisingIsUnique(other, chain);
    }
  }

  /**
   * A guarded update that succeeds follows its read directly in the request's history, although other callers ran in
   * between: no other transition of that request happened since, and requester and content are those that were read.
   */
  lemma SuccessMeansNothingBetween(states: seq<State>, steps: seq<Step>, k: nat)
    requires IsRun(states, steps) && k < |steps| && steps[k].Update?
    requires Wins(states[k], states[k].calls[steps[k].call])
    ensures
      var c := states[k].calls[steps[k].call];
      && |Path(states[k].log, c.id)| == c.seenAt
      && CanTransition(states[k].requests[c.id].status, Target(c.op))
      && states[k].requests[c.id].requester == c.seen.requester
      && states[k].requests[c.id].content == c.seen.content
  {
    RunKeepsInv(states, steps, k);
    var c := states[k].calls[steps[k].call];
    GuardMeansUnmoved(c, states[k].requests[c.id], Path(states[k].log, c.id));
  }

  lemma StepGrowsHistory(s: State, step: Step, s': State, id: int)
    requires Leads(s, step, s') && id in s.requests
    ensures id in s'.requests && Path(s.log, id) <= Path(s'.log, id)
  {
    if s'.log != s.log {
      PathAppend(s.log, s'.log[|s.log|]);
    }
  }

  /** The history of a request only grows. */
  lemma {:induction false} HistoryGrows(states: seq<State>, steps: seq<Step>, i: nat, k: nat, id: int)
    requires IsRun(states, steps) && i <= k < |states| && id in states[i].requests
    ensures id in states[k].requests && Path(states[i].log, id) <= Path(states[k].log, id)
    decreases k
  {
    if i < k {
      HistoryGrows(states, steps, i, k - 1, id);
      StepGrowsHistory(states[k - 1], steps[k - 1], states[k], id);
    }
  }

  lemma StepKeepsContent(s: State, step: Step, s': State, id: int)
    requires Leads(s, step, s') && id in s.requests
    ensures id in s'.requests && SameProposal(s.requests[id], s'.requests[id])
  {
  }

  ghost predicate SameProposal(r: Request, r': Request) {
    r.tenant == r'.tenant && r.requester == r'.requester && r.content == r'.content && r.createdAt == r'.createdAt
  }

  /** What was proposed is what is reviewed and applied: no operation changes it. */
  lemma {:induction false} ContentIsFixed(states: seq<State>, steps: seq<Step>, i: nat, k: nat, id: int)
    requires IsRun(states, steps) && i <= k < |states| && id in states[i].requests
    ensures id in states[k].requests && SameProposal(states[i].requests[id], states[k].requests[id])
    decreases k
  {
    if i < k {
      ContentIsFixed(states, steps, i, k - 1, id);
      StepKeepsContent(states[k - 1], steps[k - 1], states[k], id);
    }
  }

  /** A status never comes back: equal statuses at two times mean that no transition happened in between. */
  lemma StatusNeverReturns(states: seq<State>, steps: seq<Step>, i: nat, j: nat, k: nat, id: int)
    requires IsRun(states, steps) && i <= j <= k < |states| && id in states[i].requests
    requires id in states[k].requests && states[k].requests[id].status == states[i].requests[id].status
    ensures id in states[j].requests && states[j].requests[id].status == states[i].requests[id].status
    ensures Path(states[j].log, id) == Path(states[i].log, id)
  {
    HistoryGrows(states, steps, i, j, id);
    HistoryGrows(states, steps, j, k, id);
    RunKeepsInv(states, steps, i);
    RunKeepsInv(states, steps, j);
    RunKeepsInv(states, steps, k);
    SameStatusSameChain(Path(states[i].log, id), Path(states[k].log, id), states[k].requests[id].status);
  }

  lemma SameStatusSameChain(earlier: seq<Event>, later: seq<Event>, last: Status)
    requires earlier <= later && IsChain(earlier, last) && IsChain(later, last)
    ensures earlier == later
  {
    if |earlier| < |later| {
      ChainRises(later, last, |earlier| - 1, |later| - 1);
    }
  }

  /** An approval that does not carry the override is never the requester's own, and the row names the approver. */
  lemma NoSelfApproval(states: seq<State>, steps: seq<Step>, k: nat)
    requires IsRun(states, steps) && k < |steps| && steps[k].Update?
    requires
      var c := states[k].calls[steps[k].call];
      Wins(states[k], c) && c.op.Approve? && !c.op.allowSelf
    ensures
      var c := states[k].calls[steps[k].call];
      var after := states[k + 1].requests[c.id];
      after.status == Approved && after.reviewer == Some(c.op.reviewer) && after.reviewer.value != after.requester
  {
    RunKeepsInv(states, steps, k);
    var c := states[k].calls[steps[k].call];
    assert CallAgrees(c, states[k].requests[c.id], Path(states[k].log, c.id));
  }

  /** Throughout every run the stamps of a request tell how far it has come. */
  lemma StampsTellProgress(states: seq<State>, steps: seq<Step>, k: nat, id: int)
    requires IsRun(states, steps) && k < |states| && id in states[k].requests
    ensures StampsAgree(states[k].requests[id])
  {
    RunKeepsInv(states, steps, k);
  }
}
