/** The approval workflow: its transition table, the statements on the request row, and the service's operations. */
module ChangeRequests {
  import opened Text
  import opened Wrappers

  datatype Status = Draft | Submitted | Approved | Rejected | Applied | Failed | Cancelled

  /** The authoritative table. */
  const ALLOWED: map<Status, set<Status>> := map[
    Draft := {Submitted, Cancelled},
    Submitted := {Approved, Rejected, Cancelled},
    Approved := {Applied, Failed, Cancelled}
  ]

  predicate CanTransition(from: Status, to: Status) {
    from in ALLOWED && to in ALLOWED[from]
  }

  predicate IsTerminal(s: Status) {
    s == Applied || s == Rejected || s == Failed || s == Cancelled
  }

  /** The allowed transitions, one by one. */
  lemma AllowedOneByOne(from: Status, to: Status)
    ensures CanTransition(from, to) <==>
            || (from == Draft && (to == Submitted || to == Cancelled))
            || (from == Submitted && (to == Approved || to == Rejected || to == Cancelled))
            || (from == Approved && (to == Applied || to == Failed || to == Cancelled))
  {
  }

  /** Terminal states are exactly those the table gives no way out of. */
  lemma TerminalIffNoWayOut(s: Status)
    ensures IsTerminal(s) <==> forall to :: !CanTransition(s, to)
  {
    assert s == Draft ==> CanTransition(s, Submitted);
    assert s == Submitted ==> CanTransition(s, Approved);
    assert s == Approved ==> CanTransition(s, Applied);
  }

  function Rank(s: Status): nat {
    match s
    case Draft => 0
    case Submitted => 1
    case Approved => 2
    case _ => 3
  }

  /** A strictly rising rank: the transition relation has no cycles. */
  lemma TransitionRaisesRank(from: Status, to: Status)
    requires CanTransition(from, to)
    ensures Rank(from) < Rank(to)
  {
  }

  /** What is to be done, as proposed. */
  datatype Content = Content(
    title: string, description: string, kind: string, pushJob: Option<int>, variables: map<string, string>,
    device: Option<int>, artifact: string, targetSha: string, payload: string)

  datatype Proposal = Proposal(tenant: int, requester: int, content: Content)

  datatype Request = Request(
    tenant: int, requester: int, content: Content, createdAt: int,
    status: Status, reviewer: Option<int>, reason: string, result: string,
    submittedAt: Option<int>, decidedAt: Option<int>, appliedAt: Option<int>, updatedAt: int)

  /** A row of change_request_events; `from` is absent for the creation event. */
  datatype Event = Event(request: int, actor: Option<int>, from: Option<Status>, to: Status, note: string)

  datatype Op =
    | Submit(actor: int)
    | Approve(reviewer: int, reason: string, allowSelf: bool)
    | Reject(reviewer: int, reason: string)
    | Cancel(actor: int, reason: string)
    | MarkApplied
    | MarkFailed

  function Target(op: Op): Status {
    match op
    case Submit(_) => Submitted
    case Approve(_, _, _) => Approved
    case Reject(_, _) => Rejected
    case Cancel(_, _) => Cancelled
    case MarkApplied => Applied
    case MarkFailed => Failed
  }

  function Note(op: Op): string {
    match op
    case Submit(_) => ""
    case Approve(_, reason, _) => reason
    case Reject(_, reason) => reason
    case Cancel(_, reason) => reason
    case MarkApplied => "apply succeeded"
    case MarkFailed => "apply failed"
  }

  function Actor(op: Op): int {
    match op
    case Submit(actor) => actor
    case Approve(reviewer, _, _) => reviewer
    case Reject(reviewer, _) => reviewer
    case Cancel(actor, _) => actor
    case MarkApplied => 0
    case MarkFailed => 0
  }

  function EventOf(id: int, from: Status, op: Op): Event {
    Event(id, if Actor(op) > 0 then Some(Actor(op)) else None, Some(from), Target(op), Note(op))
  }

  function CreationEvent(id: int, requester: int): Event {
    Event(id, if requester > 0 then Some(requester) else None, None, Draft, "created")
  }

  function NewRequest(d: Proposal, now: int): Request {
    Request(d.tenant, d.requester, d.content.(title := TrimSpace(d.content.title)), now,
            Draft, None, "", "", None, None, None, now)
  }

  /** The SET list of the guarded UPDATE. */
  function Moved(r: Request, op: Op, now: int): Request {
    var r' := r.(status := Target(op), updatedAt := now);
    match op
    case Submit(_) => r'.(submittedAt := Some(now))
    case Approve(reviewer, reason, _) =>
      r'.(decidedAt := Some(now), reviewer := Some(reviewer), reason := if reason != "" then reason else r.reason)
    case Reject(reviewer, reason) =>
      r'.(decidedAt := Some(now), reviewer := Some(reviewer), reason := if reason != "" then reason else r.reason)
    case Cancel(_, _) => r'
    case MarkApplied => r'.(appliedAt := Some(now))
    case MarkFailed => r'.(appliedAt := Some(now))
  }

  datatype Error = NotFound | InvalidInput | InvalidTransition | SelfApproval | TerminalState

  /** What a call decides from the row it has read, before it writes. */
  function Refusal(seen: Request, op: Op): Option<Error> {
    if op.Approve? && !op.allowSelf && seen.requester == op.reviewer then Some(SelfApproval)
    else if IsTerminal(seen.status) then Some(TerminalState)
    else if !CanTransition(seen.status, Target(op)) then Some(InvalidTransition)
    else None
  }

  /** WHERE tenant_id=? AND id=? AND status=?. */
  predicate GuardHolds(requests: map<int, Request>, tenant: int, id: int, seen: Status) {
    id in requests && requests[id].tenant == tenant && requests[id].status == seen
  }

  predicate ContentAcceptable(c: Content) {
    && !Blank(c.title)
    && (c.kind == "push" || c.kind == "rollback")
    && (c.kind == "push" ==> c.pushJob.Some? && c.pushJob.value > 0)
    && (c.kind == "rollback" ==>
          c.device.Some? && c.device.value > 0 && !Blank(c.artifact) && !Blank(c.targetSha) && !Blank(c.payload))
  }

  predicate Acceptable(d: Proposal) {
    d.tenant > 0 && d.requester > 0 && ContentAcceptable(d.content)
  }

  /** A decision's effect on the row: an empty reason leaves the one there was. */
  ghost predicate Decided(was: Request, r: Request, to: Status, reviewer: int, reason: string, now: int) {
    r == was.(status := to, decidedAt := Some(now), reviewer := Some(reviewer), updatedAt := now,
              reason := if reason != "" then reason else was.reason)
  }

  class Service {
    var requests: map<int, Request>
    var events: seq<Event>
    var nextId: int

    ghost predicate Valid()
      reads this
    {
      forall id | id in requests :: id < nextId
    }

    constructor ()
      ensures Valid() && requests == map[] && events == []
    {
      requests, events, nextId := map[], [], 1;
    }

    method RecordEvent(e: Event)
      modifies this`events
      ensures events == old(events) + [e]
    {
      events := events + [e];
    }

    method Create(d: Proposal, now: int) returns (r: Result<int, Error>)
      requires Valid()
      modifies this
      ensures Valid()
      ensures r.Success? <==>
              && d.tenant > 0 && d.requester > 0 && !Blank(d.content.title)
              && ((d.content.kind == "push" && d.content.pushJob.Some? && d.content.pushJob.value > 0)
                  || (d.content.kind == "rollback" && d.content.device.Some? && d.content.device.value > 0
                      && !Blank(d.content.artifact) && !Blank(d.content.targetSha) && !Blank(d.content.payload)))
      ensures r.Failure? ==> r.error == InvalidInput && requests == old(requests) && events == old(events)
      ensures r.Success? ==>
                && r.value !in old(requests)
                && requests == old(requests)[r.value :=
                     Request(d.tenant, d.requester, d.content.(title := TrimSpace(d.content.title)), now,
                             Draft, None, "", "", None, None, None, now)]
                && events == old(events) + [Event(r.value, Some(d.requester), None, Draft, "created")]
    {
      var c := d.content;
      if d.tenant <= 0 || Blank(c.title) || d.requester <= 0 {
        return Failure(InvalidInput);
      }
      if c.kind == "push" {
        if c.pushJob.None? || c.pushJob.value <= 0 {
          return Failure(InvalidInput);
        }
      } else if c.kind == "rollback" {
        if c.device.None? || c.device.value <= 0 || Blank(c.artifact) || Blank(c.targetSha) || Blank(c.payload) {
          return Failure(InvalidInput);
        }
      } else {
        return Failure(InvalidInput);
      }
      var id := nextId;
      requests := requests[id := NewRequest(d, now)];
      nextId := nextId + 1;
      RecordEvent(CreationEvent(id, d.requester));
      r := Success(id);
    }

    method Get(tenant: int, id: int) returns (r: Result<Request, Error>)
      ensures r == if id in requests && requests[id].tenant == tenant then Success(requests[id]) else Failure(NotFound)
    {
      if id in requests && requests[id].tenant == tenant {
        r := Success(requests[id]);
      } else {
        r := Failure(NotFound);
      }
    }

    /** The guarded UPDATE alone; `seen` is the status an earlier read returned. */
    method UpdateIfStill(tenant: int, id: int, seen: Status, op: Op, now: int) returns (won: bool)
      modifies this`requests
      ensures won <==> id in old(requests) && old(requests)[id].tenant == tenant && old(requests)[id].status == seen
      ensures requests == if won then old(requests)[id := Moved(old(requests)[id], op, now)] else old(requests)
    {
      won := GuardHolds(requests, tenant, id, seen);
      if won {
        requests := requests[id := Moved(requests[id], op, now)];
      }
    }

    /** From a row read earlier to the outcome: the checks, the guarded UPDATE, the event. */
    method TransitionFrom(id: int, seen: Request, op: Op, now: int) returns (r: Result<Request, Error>)
      modifies this`requests, this`events
      ensures Refusal(seen, op).Some? ==> r == Failure(Refusal(seen, op).value)
      ensures Refusal(seen, op).None? ==>
                (r.Success? <==> GuardHolds(old(requests), seen.tenant, id, seen.status))
                && (r.Failure? ==> r.error == InvalidTransition)
      ensures r.Failure? ==> requests == old(requests) && events == old(events)
      ensures r.Success? ==>
                && requests == old(requests)[id := Moved(old(requests)[id], op, now)]
                && r.value == requests[id]
                && events == old(events) + [EventOf(id, seen.status, op)]
    {
      if op.Approve? && !op.allowSelf && seen.requester == op.reviewer {
        return Failure(SelfApproval);
      }
      if IsTerminal(seen.status) {
        return Failure(TerminalState);
      }
      if !CanTransition(seen.status, Target(op)) {
        return Failure(InvalidTransition);
      }
      var won := UpdateIfStill(seen.tenant, id, seen.status, op, now);
      if !won {
        return Failure(InvalidTransition);
      }
      RecordEvent(EventOf(id, seen.status, op));
      r := Get(seen.tenant, id);
    }

    /** Read and transition with nothing in between. */
    method Perform(tenant: int, id: int, op: Op, now: int) returns (r: Result<Request, Error>)
      modifies this`requests, this`events
      ensures r.Success? <==>
              && id in old(requests) && old(requests)[id].tenant == tenant
              && CanTransition(old(requests)[id].status, Target(op))
              && (op.Approve? && !op.allowSelf ==> old(requests)[id].requester != op.reviewer)
      ensures r.Success? ==> requests == old(requests)[id := Moved(old(requests)[id], op, now)]
                             && r.value == Moved(old(requests)[id], op, now)
                             && events == old(events) + [EventOf(id, old(requests)[id].status, op)]
      ensures r.Failure? ==> requests == old(requests) && events == old(events)
      ensures r.Failure? ==>
                if id !in old(requests) || old(requests)[id].tenant != tenant then r.error == NotFound
                else Refusal(old(requests)[id], op) == Some(r.error)
    {
      var got := Get(tenant, id);
      if got.Failure? {
        return Failure(got.error);
      }
      r := TransitionFrom(id, got.value, op, now);
    }

    /** The draft goes to review. */
    method Submit(tenant: int, id: int, actor: int, now: int) returns (r: Result<Request, Error>)
      modifies this`requests, this`events
      ensures r.Success? <==>
              id in old(requests) && old(requests)[id].tenant == tenant && old(requests)[id].status == Draft
      ensures r.Success? ==>
                && r.value == old(requests)[id].(status := Submitted, submittedAt := Some(now), updatedAt := now)
                && requests == old(requests)[id := r.value]
                && events == old(events) + [Event(id, if actor > 0 then Some(actor) else None,
                                                  Some(Draft), Submitted, "")]
      ensures r.Failure? ==> requests == old(requests) && events == old(events)
      ensures r.Failure? ==>
                r.error == if id !in old(requests) || old(requests)[id].tenant != tenant then NotFound
                           else if old(requests)[id].status in {Applied, Rejected, Failed, Cancelled} then TerminalState
                           else InvalidTransition
    {
      r := Perform(tenant, id, Op.Submit(actor), now);
    }

    /** Somebody other than the requester approves, unless the override is given. */
    method Approve(tenant: int, id: int, reviewer: int, reason: string, allowSelf: bool, now: int)
      returns (r: Result<Request, Error>)
      modifies this`requests, this`events
      ensures r.Success? <==>
              && id in old(requests) && old(requests)[id].tenant == tenant && old(requests)[id].status == Submitted
              && (allowSelf || old(requests)[id].requester != reviewer)
      ensures r.Success? ==>
                && Decided(old(requests)[id], r.value, Approved, reviewer, reason, now)
                && requests == old(requests)[id := r.value]
                && events == old(events) + [Event(id, if reviewer > 0 then Some(reviewer) else None,
                                                  Some(Submitted), Approved, reason)]
      ensures r.Failure? ==> requests == old(requests) && events == old(events)
      ensures r.Failure? ==>
                r.error == if id !in old(requests) || old(requests)[id].tenant != tenant then NotFound
                           else if !allowSelf && old(requests)[id].requester == reviewer then SelfApproval
                           else if old(requests)[id].status in {Applied, Rejected, Failed, Cancelled} then TerminalState
                           else InvalidTransition
    {
      r := Perform(tenant, id, Op.Approve(reviewer, reason, allowSelf), now);
    }

    method Reject(tenant: int, id: int, reviewer: int, reason: string, now: int) returns (r: Result<Request, Error>)
      modifies this`requests, this`events
      ensures r.Success? <==>
              id in old(requests) && old(requests)[id].tenant == tenant && old(requests)[id].status == Submitted
      ensures r.Success? ==>
                && Decided(old(requests)[id], r.value, Rejected, reviewer, reason, now)
                && requests == old(requests)[id := r.value]
                && events == old(events) + [Event(id, if reviewer > 0 then Some(reviewer) else None,
                                                  Some(Submitted), Rejected, reason)]
      ensures r.Failure? ==> requests == old(requests) && events == old(events)
      ensures r.Failure? ==>
                r.error == if id !in old(requests) || old(requests)[id].tenant != tenant then NotFound
                           else if old(requests)[id].status in {Applied, Rejected, Failed, Cancelled} then TerminalState
                           else InvalidTransition
    {
      r := Perform(tenant, id, Op.Reject(reviewer, reason), now);
    }

    /** A request that has not come to an end is abandoned. */
    method Cancel(tenant: int, id: int, actor: int, reason: string, now: int) returns (r: Result<Request, Error>)
      modifies this`requests, this`events
      ensures r.Success? <==>
              && id in old(requests) && old(requests)[id].tenant == tenant
              && old(requests)[id].status in {Draft, Submitted, Approved}
      ensures r.Success? ==>
                && r.value == old(requests)[id].(status := Cancelled, updatedAt := now)
                && requests == old(requests)[id := r.value]
                && events == old(events) + [Event(id, if actor > 0 then Some(actor) else None,
                                                  Some(old(requests)[id].status), Cancelled, reason)]
      ensures r.Failure? ==> requests == old(requests) && events == old(events)
      ensures r.Failure? ==>
                r.error == if id !in old(requests) || old(requests)[id].tenant != tenant then NotFound
                           else if old(requests)[id].status in {Applied, Rejected, Failed, Cancelled} then TerminalState
                           else InvalidTransition
    {
      r := Perform(tenant, id, Op.Cancel(actor, reason), now);
    }

    /** MarkApplied and MarkFailed with nothing in between: the transition, then the executor's output, if any. */
    method MarkDone(tenant: int, id: int, applied: bool, output: string, now: int)
      returns (r: Result<Request, Error>)
      modifies this`requests, this`events
      ensures r.Success? <==>
              id in old(requests) && old(requests)[id].tenant == tenant && old(requests)[id].status == Approved
      ensures r.Failure? ==> requests == old(requests) && events == old(events)
      ensures r.Failure? ==>
                r.error == if id !in old(requests) || old(requests)[id].tenant != tenant then NotFound
                           else if old(requests)[id].status in {Applied, Rejected, Failed, Cancelled} then TerminalState
                           else InvalidTransition
      ensures r.Success? ==>
                var was, to := old(requests)[id], if applied then Applied else Failed;
                && r.value == was.(
                     status := to, appliedAt := Some(now), updatedAt := now,
                     result := if output != "" then output else was.result)
                && requests == old(requests)[id := r.value]
                && events == old(events) + [Event(id, None, Some(Approved), to,
                                                  if applied then "apply succeeded" else "apply failed")]
    {
      r := Perform(tenant, id, if applied then Op.MarkApplied else Op.MarkFailed, now);
      if r.Success? && output != "" {
        StoreResult(tenant, id, output);
        r := Success(r.value.(result := output));
      }
    }

    /** The unguarded UPDATE that stores the executor's output after a transition. */
    method StoreResult(tenant: int, id: int, result: string)
      modifies this`requests
      ensures requests == if id in old(requests) && old(requests)[id].tenant == tenant then
                            old(requests)[id := old(requests)[id].(result := result)]
                          else old(requests)
    {
      if id in requests && requests[id].tenant == tenant {
        requests := requests[id := requests[id].(result := result)];
      }
    }
  }
}
