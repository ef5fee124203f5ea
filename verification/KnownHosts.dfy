/** Trust on first use of SSH host keys: the two stores, the dial callback, and concurrent dials against the table. */
module KnownHosts {

  datatype HostId = HostId(tenant: int, host: string, port: int, algo: string)

  type Key = seq<bv8>

  datatype Check = Matches | UnknownHost | KeyChanged

  datatype Outcome = Accepted | Rejected(reason: Check) | StoreFailed

  type Pins = map<HostId, Key>

  function Compare(pins: Pins, h: HostId, key: Key): Check {
    if h !in pins then UnknownHost else if pins[h] != key then KeyChanged else Matches
  }

  /** INSERT … ON CONFLICT DO NOTHING, and the in-memory store's insertion. */
  function Pin(pins: Pins, h: HostId, key: Key): Pins {
    if h in pins then pins else pins[h := key]
  }

  /** The table-backed store. */
  class DBKnownHostsStore {
    var pins: Pins

    constructor ()
      ensures pins == map[]
    {
      pins := map[];
    }

    method CheckKey(h: HostId, key: Key) returns (c: Check)
      ensures c == if h !in pins then UnknownHost else if pins[h] == key then Matches else KeyChanged
    {
      if h !in pins {
        return UnknownHost;
      }
      if pins[h] != key {
        return KeyChanged;
      }
      c := Matches;
    }

    method Insert(h: HostId, key: Key) returns (inserted: bool)
      modifies this
      ensures inserted <==> h !in old(pins)
      ensures pins == if h in old(pins) then old(pins) else old(pins)[h := key]
    {
      inserted := h !in pins;
      if inserted {
        pins := pins[h := key];
      }
    }

    /** Insert; on conflict read the stored key again and compare. */
    method Add(h: HostId, key: Key) returns (c: Check)
      modifies this
      ensures pins == if h in old(pins) then old(pins) else old(pins)[h := key]
      ensures c == if pins[h] == key then Matches else KeyChanged
    {
      var inserted := Insert(h, key);
      if inserted {
        return Matches;
      }
      c := CheckKey(h, key);
    }

    /** The dial callback with nothing in between: check, and pin on first use. */
    method Verify(h: HostId, key: Key) returns (o: Outcome)
      modifies this
      ensures pins == if h in old(pins) then old(pins) else old(pins)[h := key]
      ensures o == if pins[h] == key then Accepted else Rejected(KeyChanged)
    {
      var c := CheckKey(h, key);
      match c {
        case Matches => o := Accepted;
        case UnknownHost =>
          var a := Add(h, key);
          o := if a == Matches then Accepted else Rejected(a);
        case KeyChanged => o := Rejected(KeyChanged);
      }
    }
  }

  // ---- concurrent dials against one store ----

  /** Which store the dials use: the table compares again after a conflict, the memory does not. */
  datatype Store = Table | Memory

  datatype Phase = Checking | Inserting | Rereading | Finished(outcome: Outcome)

  datatype Attempt = Attempt(host: HostId, key: Key, phase: Phase)

  datatype State = State(pins: Pins, attempts: map<int, Attempt>)

  /** `failed` marks a statement that the database did not run; the memory never fails. */
  datatype Step =
    | Dial(id: int, host: HostId, key: Key)
    | RunCheck(id: int, failed: bool)
    | RunInsert(id: int, failed: bool)
    | RunReread(id: int, failed: bool)

  ghost predicate Init(s: State) {
    s.attempts == map[]
  }

  ghost predicate Enabled(store: Store, s: State, step: Step) {
    match step
    case Dial(id, _, _) => id !in s.attempts
    case RunCheck(id, failed) => id in s.attempts && s.attempts[id].phase == Checking && (failed ==> store.Table?)
    case RunInsert(id, failed) => id in s.attempts && s.attempts[id].phase == Inserting && (failed ==> store.Table?)
    case RunReread(id, _) => id in s.attempts && s.attempts[id].phase == Rereading
  }

  function Enter(s: State, id: int, phase: Phase): State
    requires id in s.attempts
  {
    s.(attempts := s.attempts[id := s.attempts[id].(phase := phase)])
  }

  function Judge(c: Check): Outcome {
    if c == Matches then Accepted else Rejected(c)
  }

  ghost function Apply(store: Store, s: State, step: Step): State
    requires Enabled(store, s, step)
  {
    match step
    case Dial(id, host, key) => s.(attempts := s.attempts[id := Attempt(host, key, Checking)])
    case RunCheck(id, failed) =>
      var c := Compare(s.pins, s.attempts[id].host, s.attempts[id].key);
      Enter(s, id, if failed then Finished(StoreFailed) else if c == UnknownHost then Inserting else Finished(Judge(c)))
    case RunInsert(id, failed) =>
      var a := s.attempts[id];
      if failed then Enter(s, id, Finished(StoreFailed))
      else
        var next := if a.host in s.pins && store.Table? then Rereading else Finished(Accepted);
        Enter(s, id, next).(pins := Pin(s.pins, a.host, a.key))
    case RunReread(id, failed) =>
      Enter(s, id, Finished(if failed then StoreFailed
                            else Judge(Compare(s.pins, s.attempts[id].host, s.attempts[id].key))))
  }

  ghost predicate Leads(store: Store, s: State, step: Step, s': State) {
    Enabled(store, s, step) && s' == Apply(store, s, step)
  }

  ghost predicate IsRun(store: Store, states: seq<State>, steps: seq<Step>) {
    && |states| == |steps| + 1
    && Init(states[0])
    && forall k {:trigger steps[k]} | 0 <= k < |steps| :: Leads(store, states[k], steps[k], states[k + 1])
  }

  /** Each step by what it does to the pins and to its attempt, as the stores' methods promise it. */
  lemma StepWrites(store: Store, s: State, step: Step)
    requires Enabled(store, s, step) && !step.Dial?
    ensures
      var a, after := s.attempts[step.id], Apply(store, s, step);
      var pinned := a.host in s.pins;
      var judged := if pinned && s.pins[a.host] == a.key then Accepted
                    else Rejected(if pinned then KeyChanged else UnknownHost);
      && after.attempts == s.attempts[step.id := a.(phase := after.attempts[step.id].phase)]
      && match step
         case RunCheck(id, failed) =>
           after.pins == s.pins
           && after.attempts[id].phase ==
              (if failed then Finished(StoreFailed) else if !pinned then Inserting else Finished(judged))
         case RunInsert(id, failed) =>
           after.pins == (if failed || pinned then s.pins else s.pins[a.host := a.key])
           && after.attempts[id].phase ==
              (if failed then Finished(StoreFailed) else if pinned && store == Table then Rereading
               else Finished(Accepted))
         case RunReread(id, failed) =>
           after.pins == s.pins
           && after.attempts[id].phase == Finished(if failed then StoreFailed else judged)
         case _ => true
  {
  }

  /** Unless the store failed, a finished attempt was judged by the pin that now stands for its host. */
  ghost predicate AttemptAgrees(pins: Pins, a: Attempt) {
    && (a.phase == Rereading ==> a.host in pins)
    && (a.phase == Finished(Accepted) ==> a.host in pins && pins[a.host] == a.key)
    && (a.phase.Finished? && a.phase.outcome.Rejected? ==>
          a.host in pins && pins[a.host] != a.key && a.phase.outcome.reason == KeyChanged)
  }

  ghost predicate Inv(s: State) {
    forall id | id in s.attempts :: AttemptAgrees(s.pins, s.attempts[id])
  }

  lemma StepKeepsInv(s: State, step: Step)
    requires Inv(s) && Enabled(Table, s, step)
    ensures Inv(Apply(Table, s, step))
  {
  }

  lemma {:induction false} RunKeepsInv(states: seq<State>, steps: seq<Step>, k: nat)
    requires IsRun(Table, states, steps) && k < |states|
    ensures Inv(states[k])
  {
    if k > 0 {
      RunKeepsInv(states, steps, k - 1);
      StepKeepsInv(states[k - 1], steps[k - 1]);
    }
  }

  lemma StepKeepsPins(store: Store, s: State, step: Step)
    requires Enabled(store, s, step)
    ensures forall h | h in s.pins :: h in Apply(store, s, step).pins && Apply(store, s, step).pins[h] == s.pins[h]
  {
  }

  /** A pin once stored never changes and never disappears, in either store. */
  lemma {:induction false} PinsAreForever(store: Store, states: seq<State>, steps: seq<Step>, i: nat, k: nat, h: HostId)
    requires IsRun(store, states, steps) && i <= k < |states| && h in states[i].pins
    ensures h in states[k].pins && states[k].pins[h] == states[i].pins[h]
    decreases k
  {
    if i < k {
      PinsAreForever(store, states, steps, i, k - 1, h);
      StepKeepsPins(store, states[k - 1], steps[k - 1]);
    }
  }

  /**
   * In every interleaving of dials against the table: an attempt that finished without a store failure was accepted
   * exactly if it presented the key pinned for its tenant, host, port and algorithm, and refused for a changed key
   * otherwise.
   */
  lemma JudgedByThePin(states: seq<State>, steps: seq<Step>, k: nat, id: int)
    requires IsRun(Table, states, steps) && k < |states| && id in states[k].attempts
    requires states[k].attempts[id].phase.Finished? && states[k].attempts[id].phase.outcome != StoreFailed
    ensures
      var a := states[k].attempts[id];
      && a.host in states[k].pins
      && a.phase.outcome == if states[k].pins[a.host] == a.key then Accepted else Rejected(KeyChanged)
  {
    RunKeepsInv(states, steps, k);
    assert AttemptAgrees(states[k].pins, states[k].attempts[id]);
  }

  /** All accepted attempts for the same tenant, host, port and algorithm presented the same key. */
  lemma AcceptedKeysAgree(states: seq<State>, steps: seq<Step>, i: nat, x: int, k: nat, y: int)
    requires IsRun(Table, states, steps) && i <= k < |states|
    requires x in states[i].attempts && states[i].attempts[x].phase == Finished(Accepted)
    requires y in states[k].attempts && states[k].attempts[y].phase == Finished(Accepted)
    requires states[i].attempts[x].host == states[k].attempts[y].host
    ensures states[i].attempts[x].key == states[k].attempts[y].key
  {
    JudgedByThePin(states, steps, i, x);
    JudgedByThePin(states, steps, k, y);
    PinsAreForever(Table, states, steps, i, k, states[i].attempts[x].host);
  }

  // ---- the in-memory store ----

  /** Check and Add each hold the lock, but Add does not compare: it keeps the first key and reports success. */
  class MemKnownHostsStore {
    var pinned: Pins

    constructor ()
      ensures pinned == map[]
    {
      pinned := map[];
    }

    method CheckKey(h: HostId, key: Key) returns (c: Check)
      ensures c == if h !in pinned then UnknownHost else if pinned[h] == key then Matches else KeyChanged
    {
      if h !in pinned {
        return UnknownHost;
      }
      if pinned[h] != key {
        return KeyChanged;
      }
      c := Matches;
    }

    method Add(h: HostId, key: Key)
      modifies this
      ensures pinned == if h in old(pinned) then old(pinned) else old(pinned)[h := key]
    {
      if h !in pinned {
        pinned := pinned[h := key];
      }
    }

    /** The dial callback with nothing in between. */
    method Verify(h: HostId, key: Key) returns (o: Outcome)
      modifies this
      ensures pinned == if h in old(pinned) then old(pinned) else old(pinned)[h := key]
      ensures o == if pinned[h] == key then Accepted else Rejected(KeyChanged)
    {
      var c := CheckKey(h, key);
      match c {
        case Matches => o := Accepted;
        case UnknownHost =>
          Add(h, key);
          o := Accepted;
        case KeyChanged => o := Rejected(KeyChanged);
      }
    }
  }

  // ---- concurrent dials against the memory ----

  /** The attempt's check, as the c-th step, found no pin. */
  ghost predicate SawNoPin(states: seq<State>, steps: seq<Step>, c: nat, id: int, h: HostId) {
    c < |steps| < |states| && steps[c] == RunCheck(id, false) && h !in states[c].pins
  }

  /** The attempt's addition, as the a-th step, found another key pinned. */
  ghost predicate MetOtherPin(states: seq<State>, steps: seq<Step>, a: nat, id: int, h: HostId, key: Key) {
    && a < |steps| < |states| && steps[a] == RunInsert(id, false)
    && h in states[a].pins && states[a].pins[h] != key
  }

  /** Before the k-th state the attempt saw no pin at its check, but another key's pin stood at its addition. */
  ghost predicate LostRace(states: seq<State>, steps: seq<Step>, k: nat, id: int, h: HostId, key: Key) {
    exists c: nat, a: nat :: c < a < k && SawNoPin(states, steps, c, id, h) && MetOtherPin(states, steps, a, id, h, key)
  }

  ghost predicate CheckedBefore(states: seq<State>, steps: seq<Step>, k: nat, id: int, h: HostId) {
    exists c: nat :: c < k && SawNoPin(states, steps, c, id, h)
  }

  ghost predicate MemAgrees(states: seq<State>, steps: seq<Step>, k: nat, id: int)
    requires k < |states| && id in states[k].attempts
  {
    var a, pins := states[k].attempts[id], states[k].pins;
    && (a.phase == Inserting ==> CheckedBefore(states, steps, k, id, a.host))
    && a.phase != Rereading
    && (a.phase == Finished(Accepted) ==>
          a.host in pins && (pins[a.host] != a.key ==> LostRace(states, steps, k, id, a.host, a.key)))
  }

  lemma LaterStillAgrees(states: seq<State>, steps: seq<Step>, k: nat, id: int)
    requires IsRun(Memory, states, steps) && k < |steps|
    requires id in states[k].attempts && MemAgrees(states, steps, k, id)
    requires id in states[k + 1].attempts && states[k + 1].attempts[id] == states[k].attempts[id]
    ensures MemAgrees(states, steps, k + 1, id)
  {
    var a := states[k].attempts[id];
    StepKeepsPins(Memory, states[k], steps[k]);
    if CheckedBefore(states, steps, k, id, a.host) {
      var c: nat :| c < k && SawNoPin(states, steps, c, id, a.host);
      assert c < k + 1;
    }
    if LostRace(states, steps, k, id, a.host, a.key) {
      var c: nat, i: nat :| c < i < k && SawNoPin(states, steps, c, id, a.host)
        && MetOtherPin(states, steps, i, id, a.host, a.key);
      assert i < k + 1;
    }
  }

  lemma CheckAgrees(states: seq<State>, steps: seq<Step>, k: nat, id: int)
    requires IsRun(Memory, states, steps) && k < |steps| && steps[k] == RunCheck(id, false)
    ensures id in states[k + 1].attempts && MemAgrees(states, steps, k + 1, id)
  {
    var a := states[k].attempts[id];
    if a.host !in states[k].pins {
      assert SawNoPin(states, steps, k, id, a.host);
    }
  }

  lemma InsertAgrees(states: seq<State>, steps: seq<Step>, k: nat, id: int)
    requires IsRun(Memory, states, steps) && k < |steps| && steps[k] == RunInsert(id, false)
    requires id in states[k].attempts && MemAgrees(states, steps, k, id)
    ensures id in states[k + 1].attempts && MemAgrees(states, steps, k + 1, id)
  {
    var a := states[k].attempts[id];
    var c: nat :| c < k && SawNoPin(states, steps, c, id, a.host);
    if a.host in states[k].pins && states[k].pins[a.host] != a.key {
      assert MetOtherPin(states, steps, k, id, a.host, a.key);
    }
  }

  lemma OthersWait(store: Store, s: State, step: Step, id: int)
    requires Enabled(store, s, step) && id in s.attempts && step.id != id
    ensures id in Apply(store, s, step).attempts && Apply(store, s, step).attempts[id] == s.attempts[id]
  {
  }

  lemma {:induction false} MemRunAgrees(states: seq<State>, steps: seq<Step>, k: nat, id: int)
    requires IsRun(Memory, states, steps) && k < |states| && id in states[k].attempts
    ensures MemAgrees(states, steps, k, id)
  {
    if k > 0 {
      var step := steps[k - 1];
      assert Enabled(Memory, states[k - 1], step) && states[k] == Apply(Memory, states[k - 1], step);
      if id in states[k - 1].attempts {
        MemRunAgrees(states, steps, k - 1, id);
        if step.id != id {
          OthersWait(Memory, states[k - 1], step, id);
          LaterStillAgrees(states, steps, k - 1, id);
        } else if step.RunCheck? {
          CheckAgrees(states, steps, k - 1, id);
        } else {
          InsertAgrees(states, steps, k - 1, id);
        }
      }
    }
  }

  /**
   * In every interleaving of dials against the memory: an accepted attempt presented another key than the pin exactly
   * if it saw no pin at its check and another key's pin stood at its addition.
   */
  lemma MemStoreRace(states: seq<State>, steps: seq<Step>, k: nat, id: int)
    requires IsRun(Memory, states, steps) && k < |states| && id in states[k].attempts
    requires states[k].attempts[id].phase == Finished(Accepted)
    ensures
      var a := states[k].attempts[id];
      && a.host in states[k].pins
      && (states[k].pins[a.host] != a.key <==> LostRace(states, steps, k, id, a.host, a.key))
  {
    var a := states[k].attempts[id];
    MemRunAgrees(states, steps, k, id);
    if LostRace(states, steps, k, id, a.host, a.key) {
      var c: nat, i: nat :| c < i < k && SawNoPin(states, steps, c, id, a.host)
        && MetOtherPin(states, steps, i, id, a.host, a.key);
      PinsAreForever(Memory, states, steps, i, k, a.host);
    }
  }

  ghost predicate AcceptedFor(s: State, h: HostId, id: int) {
    id in s.attempts && s.attempts[id].host == h && s.attempts[id].phase == Finished(Accepted)
  }

  /** A pin that was not there before was stored by an attempt that is accepted and presented it. */
  lemma {:induction false} PinnedByAccepted(states: seq<State>, steps: seq<Step>, i: nat, k: nat, h: HostId)
    returns (id: int)
    requires IsRun(Memory, states, steps) && i <= k < |states| && h !in states[i].pins && h in states[k].pins
    ensures AcceptedFor(states[k], h, id) && states[k].attempts[id].key == states[k].pins[h]
    decreases k
  {
    var step := steps[k - 1];
    assert Enabled(Memory, states[k - 1], step) && states[k] == Apply(Memory, states[k - 1], step);
    if h in states[k - 1].pins {
      id := PinnedByAccepted(states, steps, i, k - 1, h);
      OthersWait(Memory, states[k - 1], step, id);
    } else {
      id := step.id;
    }
  }

  /** All attempts accepted for a host presented one key exactly if none of them lost such a race. */
  lemma MemAcceptedKeysAgreeIff(states: seq<State>, steps: seq<Step>, k: nat, h: HostId)
    requires IsRun(Memory, states, steps) && k < |states|
    ensures (forall x, y | AcceptedFor(states[k], h, x) && AcceptedFor(states[k], h, y) ::
               states[k].attempts[x].key == states[k].attempts[y].key)
            <==> (forall x | AcceptedFor(states[k], h, x) ::
                    !LostRace(states, steps, k, x, h, states[k].attempts[x].key))
  {
    forall x | AcceptedFor(states[k], h, x)
      ensures h in states[k].pins
      ensures states[k].pins[h] != states[k].attempts[x].key <==>
              LostRace(states, steps, k, x, h, states[k].attempts[x].key)
    {
      MemStoreRace(states, steps, k, x);
    }
    if x :| AcceptedFor(states[k], h, x) && LostRace(states, steps, k, x, h, states[k].attempts[x].key) {
      var c: nat, i: nat :| c < i < k && SawNoPin(states, steps, c, x, h)
        && MetOtherPin(states, steps, i, x, h, states[k].attempts[x].key);
      var y := PinnedByAccepted(states, steps, c, k, h);
    }
  }

  /** Two dials for one host, in these phases. */
  function TwoDials(pins: Pins, h: HostId, a: Key, p: Phase, b: Key, q: Phase): State {
    State(pins, map[1 := Attempt(h, a, p), 2 := Attempt(h, b, q)])
  }

  lemma TwoDialsStep(h: HostId, a: Key, b: Key)
    ensures
      var done := Finished(Accepted);
      && Leads(Memory, TwoDials(map[], h, a, Checking, b, Checking), RunCheck(1, false),
               TwoDials(map[], h, a, Inserting, b, Checking))
      && Leads(Memory, TwoDials(map[], h, a, Inserting, b, Checking), RunCheck(2, false),
               TwoDials(map[], h, a, Inserting, b, Inserting))
      && Leads(Memory, TwoDials(map[], h, a, Inserting, b, Inserting), RunInsert(1, false),
               TwoDials(map[h := a], h, a, done, b, Inserting))
      && Leads(Memory, TwoDials(map[h := a], h, a, done, b, Inserting), RunInsert(2, false),
               TwoDials(map[h := a], h, a, done, b, done))
  {
  }

  /** A run in which two first-time dials pass their checks before either adds, and two keys are accepted. */
  lemma MemStoreAcceptsTwoKeys(h: HostId) returns (states: seq<State>, steps: seq<Step>)
    ensures IsRun(Memory, states, steps)
    ensures
      var last := states[|states| - 1];
      AcceptedFor(last, h, 1) && AcceptedFor(last, h, 2) && last.attempts[1].key != last.attempts[2].key
  {
    var a: Key, b: Key, done := [1], [2], Finished(Accepted);
    steps := [Dial(1, h, a), Dial(2, h, b), RunCheck(1, false), RunCheck(2, false), RunInsert(1, false),
              RunInsert(2, false)];
    states := [State(map[], map[]), State(map[], map[1 := Attempt(h, a, Checking)]),
               TwoDials(map[], h, a, Checking, b, Checking), TwoDials(map[], h, a, Inserting, b, Checking),
               TwoDials(map[], h, a, Inserting, b, Inserting), TwoDials(map[h := a], h, a, done, b, Inserting),
               TwoDials(map[h := a], h, a, done, b, done)];
    assert Leads(Memory, states[0], steps[0], states[1]) && Leads(Memory, states[1], steps[1], states[2]);
    TwoDialsStep(h, a, b);
    assert a[0] != b[0];
  }
}
