/** Compliance rules: evaluation of one rule on a text, and the findings table kept for each device. */
module Compliance {
  import opened Subsequences
  import opened Substrings
  import opened Text
  import opened Wrappers

  datatype Rule = Rule(id: int, tenant: int, group: Option<int>, kind: string, pattern: string)

  datatype Status = Pass | Fail

  datatype Finding = Finding(device: int, rule: int, status: Status, detail: string)

  /** Matching is given: absent for a pattern that does not compile, or text that is no JSON array of strings. */
  datatype Matchers = Matchers(regex: (string, string) -> Option<bool>, lines: string -> Option<seq<string>>)

  // ---- one rule on one text ----

  function Verdict(good: bool, detail: string): (Status, string) {
    if good then (Pass, "") else (Fail, detail)
  }

  function Evaluate(m: Matchers, r: Rule, text: string): (Status, string) {
    if r.kind == "regex" then
      match m.regex(r.pattern, text)
      case None => (Fail, "invalid regex")
      case Some(found) => Verdict(found, "pattern not found")
    else if r.kind == "must_include" then Verdict(Contains(text, r.pattern), "missing required text")
    else if r.kind == "must_exclude" then Verdict(!Contains(text, r.pattern), "forbidden text present")
    else if r.kind == "ordered_block" then
      match m.lines(r.pattern)
      case None => (Fail, "ordered_block pattern must be JSON array")
      case Some(want) => Verdict(Subsequence(want, SplitLines(text)), "ordered block not found")
    else (Fail, "unknown rule kind")
  }

  /** A line that matches the next wanted line may always be taken for it. */
  lemma {:induction false} GreedyChoice(want: seq<string>, lines: seq<string>)
    requires want != [] && lines != []
    ensures Subsequence(want, lines) <==>
            if lines[0] == want[0] then Subsequence(want[1..], lines[1..]) else Subsequence(want, lines[1..])
  {
    if lines[0] == want[0] && Subsequence(want, lines) {
      DropFirst(want, lines);
    }
  }

  /**
   * True exactly when strictly increasing line positions spell the wanted lines, whatever other choices the greedy
   * scan passed over.
   */
  method OrderedContains(text: string, want: seq<string>) returns (found: bool)
    ensures found <==> SpelledIn(want, SplitLines(text))
    ensures found == Subsequence(want, SplitLines(text))
  {
    var lines := SplitLines(text);
    SubsequenceMeaning(want, lines);
    if |want| == 0 {
      return true;
    }
    var idx := 0;
    assert want[0..] == want && lines[0..] == lines;
    for k := 0 to |lines|
      invariant idx < |want|
      invariant Subsequence(want, lines) <==> Subsequence(want[idx..], lines[k..])
    {
      GreedyChoice(want[idx..], lines[k..]);
      assert want[idx..][1..] == want[idx + 1..] && lines[k..][1..] == lines[k + 1..];
      if lines[k] == want[idx] {
        idx := idx + 1;
        if idx == |want| {
          return true;
        }
      }
    }
    found := false;
  }

  method EvaluateText(m: Matchers, r: Rule, text: string) returns (status: Status, detail: string)
    ensures (status, detail) == Evaluate(m, r, text)
  {
    if r.kind == "ordered_block" {
      var want := m.lines(r.pattern);
      if want.None? {
        return Fail, "ordered_block pattern must be JSON array";
      }
      var found := OrderedContains(text, want.value);
      if found {
        return Pass, "";
      }
      return Fail, "ordered block not found";
    }
    var v := Evaluate(m, r, text);
    status, detail := v.0, v.1;
  }

  /** What a rule asks of a text, by positions in it. */
  ghost predicate Satisfies(m: Matchers, r: Rule, text: string) {
    || (r.kind == "regex" && m.regex(r.pattern, text) == Some(true))
    || (r.kind == "must_include" && exists k :: OccursAt(text, r.pattern, k))
    || (r.kind == "must_exclude" && forall k :: !OccursAt(text, r.pattern, k))
    || (r.kind == "ordered_block" && m.lines(r.pattern).Some?
        && SpelledIn(m.lines(r.pattern).value, SplitLines(text)))
  }

  /** A rule passes exactly when the text satisfies it, and a detail is given exactly for a failure. */
  lemma PassesExactlyWhen(m: Matchers, r: Rule, text: string)
    ensures Evaluate(m, r, text).0 == Pass <==> Satisfies(m, r, text)
    ensures Evaluate(m, r, text).1 == "" <==> Satisfies(m, r, text)
  {
    ContainsMeaning(text, r.pattern);
    if r.kind == "ordered_block" && m.lines(r.pattern).Some? {
      SubsequenceMeaning(m.lines(r.pattern).value, SplitLines(text));
    }
  }

  /** What a failing rule says. */
  lemma FailureDetails(m: Matchers, r: Rule, text: string)
    requires !Satisfies(m, r, text)
    ensures Evaluate(m, r, text).1 ==
            if r.kind == "regex" then if m.regex(r.pattern, text).None? then "invalid regex" else "pattern not found"
            else if r.kind == "must_include" then "missing required text"
            else if r.kind == "must_exclude" then "forbidden text present"
            else if r.kind == "ordered_block" then
              if m.lines(r.pattern).None? then "ordered_block pattern must be JSON array" else "ordered block not found"
            else "unknown rule kind"
  {
    PassesExactlyWhen(m, r, text);
  }

  // ---- the findings table ----

  datatype Device = Device(tenant: int, group: Option<int>)

  datatype Stored = Stored(tenant: int, status: Status, detail: string)

  /** Keyed by device and rule. */
  type Findings = map<(int, int), Stored>

  type Rules = map<int, Rule>

  predicate Applies(r: Rule, d: Device) {
    r.tenant == d.tenant && (r.group.None? || r.group == d.group)
  }

  function Applicable(rules: Rules, d: Device): set<int> {
    set id | id in rules && Applies(rules[id], d)
  }

  function Judged(m: Matchers, rules: Rules, id: int, text: string): (Status, string)
    requires id in rules
  {
    Evaluate(m, rules[id], text)
  }

  /** The upsert of one finding; the tenant of an existing row is left alone. */
  function Upsert(f: Findings, tenant: int, device: int, rule: int, v: (Status, string)): Findings {
    f[(device, rule) := Stored(if (device, rule) in f then f[(device, rule)].tenant else tenant, v.0, v.1)]
  }

  /** The sweep that deletes this tenant's findings of the device for rules that do not apply. */
  function Swept(f: Findings, tenant: int, device: int, keep: set<int>): Findings {
    map k | k in f && !(k.0 == device && f[k].tenant == tenant && k.1 !in keep) :: f[k]
  }

  datatype Transition = Transition(finding: Finding, previous: Status)

  /** What one evaluation leaves stored, reports to the callback, and returns. */
  datatype Evaluation = Evaluation(findings: Findings, fired: seq<Transition>, returned: seq<Finding>)

  /** The rule's stored status is the other one. */
  predicate Flips(m: Matchers, f: Findings, rules: Rules, device: int, id: int, text: string)
    requires id in rules
  {
    (device, id) in f && f[(device, id)].status != Judged(m, rules, id, text).0
  }

  function FindingFor(m: Matchers, rules: Rules, device: int, id: int, text: string): Finding
    requires id in rules
  {
    var v := Judged(m, rules, id, text);
    Finding(device, id, v.0, v.1)
  }

  /** The callback due for one rule, if any. */
  function Report(m: Matchers, f: Findings, rules: Rules, device: int, id: int, text: string): seq<Transition>
    requires id in rules
  {
    if Flips(m, f, rules, device, id, text) then
      [Transition(FindingFor(m, rules, device, id, text), f[(device, id)].status)]
    else []
  }

  function RunRules(m: Matchers, f: Findings, rules: Rules, tenant: int, device: int, order: seq<int>, text: string)
    : Evaluation
    requires forall k | 0 <= k < |order| :: order[k] in rules
    decreases |order|
  {
    if order == [] then Evaluation(f, [], [])
    else
      var id := order[0];
      var rest := RunRules(m, Upsert(f, tenant, device, id, Judged(m, rules, id, text)), rules, tenant, device,
                           order[1..], text);
      Evaluation(rest.findings, Report(m, f, rules, device, id, text) + rest.fired,
                 [FindingFor(m, rules, device, id, text)] + rest.returned)
  }

  ghost predicate Distinct(order: seq<int>) {
    forall i, j | 0 <= i < j < |order| :: order[i] != order[j]
  }

  /** `order` lists the rules that apply to the device, each once. */
  ghost predicate ListsApplicable(order: seq<int>, rules: Rules, d: Device) {
    && Distinct(order)
    && (forall k | 0 <= k < |order| :: order[k] in rules && Applies(rules[order[k]], d))
    && (forall id | id in rules && Applies(rules[id], d) :: id in order)
  }

  /** The rule is of the device's tenant, and for all its groups or for the device's. */
  ghost predicate AppliesTo(rules: Rules, id: int, d: Device) {
    id in rules && rules[id].tenant == d.tenant && (rules[id].group.None? || rules[id].group == d.group)
  }

  class Service {
    const matchers: Matchers
    const notifying: bool
    var devices: map<int, Device>
    var rules: Rules
    var findings: Findings
    var transitions: seq<Transition>

    /** Every finding carries its device's tenant. */
    ghost predicate Valid()
      reads this
    {
      forall k | k in findings :: k.0 in devices && findings[k].tenant == devices[k.0].tenant
    }

    constructor (matchers: Matchers, notifying: bool)
      ensures Valid()
      ensures this.matchers == matchers && this.notifying == notifying
      ensures devices == map[] && rules == map[] && findings == map[] && transitions == []
    {
      this.matchers, this.notifying := matchers, notifying;
      devices, rules, findings, transitions := map[], map[], map[], [];
    }

    /** The rules for a device; which order they come in does not matter below. */
    method ListRulesForDevice(d: Device) returns (order: seq<int>)
      ensures forall i, j | 0 <= i < j < |order| :: order[i] != order[j]
      ensures forall id :: id in order <==>
                id in rules && rules[id].tenant == d.tenant && (rules[id].group.None? || rules[id].group == d.group)
      ensures ListsApplicable(order, rules, d)
    {
      order := [];
      var todo := rules.Keys;
      while todo != {}
        invariant forall id | id in todo :: id in rules && id !in order
        invariant Distinct(order)
        invariant forall k | 0 <= k < |order| :: order[k] in rules && Applies(rules[order[k]], d)
        invariant forall id | id in rules && Applies(rules[id], d) :: id in todo || id in order
        decreases |todo|
      {
        var id := AnyOf(todo);
        if Applies(rules[id], d) {
          order := order + [id];
        }
        todo := todo - {id};
      }
    }

    /** One turn of the loop; `t` is the report due for it. */
    method EvaluateRule(tenant: int, device: int, id: int, text: string) returns (f: Finding, ghost t: seq<Transition>)
      requires id in rules
      modifies this`findings, this`transitions
      ensures f == FindingFor(matchers, rules, device, id, text)
      ensures t == Report(matchers, old(findings), rules, device, id, text)
      ensures findings == Upsert(old(findings), tenant, device, id, Judged(matchers, rules, id, text))
      ensures transitions == old(transitions) + (if notifying then t else [])
    {
      var status, detail := EvaluateText(matchers, rules[id], text);
      f, t := Finding(device, id, status, detail), [];
      var previous := if (device, id) in findings then Some(findings[(device, id)].status) else None;
      findings := Upsert(findings, tenant, device, id, (status, detail));
      if previous.Some? && previous.value != status {
        t := [Transition(f, previous.value)];
        if notifying {
          transitions := transitions + [Transition(f, previous.value)];
        }
      }
    }

    method EvaluateRules(tenant: int, device: int, ids: seq<int>, text: string)
      returns (out: seq<Finding>, ghost fired: seq<Transition>)
      requires forall k | 0 <= k < |ids| :: ids[k] in rules
      modifies this`findings, this`transitions
      ensures RunRules(matchers, old(findings), rules, tenant, device, ids, text) == Evaluation(findings, fired, out)
      ensures transitions == old(transitions) + (if notifying then fired else [])
    {
      ghost var e := RunRules(matchers, findings, rules, tenant, device, ids, text);
      out, fired := [], [];
      assert ids[0..] == ids;
      for k := 0 to |ids|
        invariant Remaining(matchers, findings, rules, tenant, device, ids[k..], text, fired, out, e)
        invariant transitions == old(transitions) + (if notifying then fired else [])
      {
        RemainingStep(matchers, findings, rules, tenant, device, ids[k..], text, fired, out, e);
        assert ids[k..][1..] == ids[k + 1..];
        var f, t := EvaluateRule(tenant, device, ids[k], text);
        out, fired := out + [f], fired + t;
      }
      assert ids[|ids|..] == [];
    }

    /**
     * Evaluates every applicable rule, stores and reports, then sweeps findings of rules that no longer apply.
     * `reports` are the callbacks due; they run if there is somebody to notify.
     */
    method EvaluateDevice(tenant: int, device: int, text: string)
      returns (r: Result<seq<Finding>, ()>, ghost order: seq<int>, ghost reports: seq<Transition>)
      requires Valid()
      modifies this`findings, this`transitions
      ensures Valid()
      ensures r.Success? <==> device in devices && devices[device].tenant == tenant
      ensures r.Failure? ==> findings == old(findings) && transitions == old(transitions)
      ensures r.Success? ==>
                && ListsApplicable(order, rules, devices[device])
                && (forall id :: (device, id) in findings <==> AppliesTo(rules, id, devices[device]))
                && (forall id | AppliesTo(rules, id, devices[device]) ::
                      findings[(device, id)].status == Pass <==> Satisfies(matchers, rules[id], text))
                && (forall id :: Reported(reports, id) <==>
                      && AppliesTo(rules, id, devices[device]) && (device, id) in old(findings)
                      && old(findings)[(device, id)].status != findings[(device, id)].status)
                && HoldsVerdicts(matchers, old(findings), findings, rules, devices[device], device, text)
                && ReportsFlips(matchers, old(findings), rules, device, order, text, reports)
                && transitions == old(transitions) + (if notifying then reports else [])
                && |r.value| == |order|
                && forall k | 0 <= k < |order| :: r.value[k] == FindingFor(matchers, rules, device, order[k], text)
    {
      order, reports := [], [];
      if device !in devices || devices[device].tenant != tenant {
        return Failure(()), [], [];
      }
      var ids := ListRulesForDevice(devices[device]);
      order := ids;
      var out, fired := EvaluateRules(tenant, device, ids, text);
      reports := fired;
      EvaluationIsExact(matchers, old(findings), rules, devices[device], device, ids, text);
      findings := Swept(findings, tenant, device, Applicable(rules, devices[device]));
      VerdictsWrittenOut(matchers, old(findings), findings, rules, devices[device], device, order, reports, text);
      r := Success(out);
    }
  }

  /** The loop's state: what is done, followed by running the remaining rules, is the whole evaluation. */
  ghost predicate Remaining(m: Matchers, f: Findings, rules: Rules, tenant: int, device: int, rest: seq<int>,
                            text: string, fired: seq<Transition>, out: seq<Finding>, e: Evaluation)
    requires forall k | 0 <= k < |rest| :: rest[k] in rules
  {
    var more := RunRules(m, f, rules, tenant, device, rest, text);
    e == Evaluation(more.findings, fired + more.fired, out + more.returned)
  }

  lemma RemainingStep(m: Matchers, f: Findings, rules: Rules, tenant: int, device: int, rest: seq<int>,
                      text: string, fired: seq<Transition>, out: seq<Finding>, e: Evaluation)
    requires rest != [] && forall k | 0 <= k < |rest| :: rest[k] in rules
    requires Remaining(m, f, rules, tenant, device, rest, text, fired, out, e)
    ensures Remaining(m, Upsert(f, tenant, device, rest[0], Judged(m, rules, rest[0], text)), rules, tenant, device,
                      rest[1..], text, fired + Report(m, f, rules, device, rest[0], text),
                      out + [FindingFor(m, rules, device, rest[0], text)], e)
  {
  }

  // ---- what an evaluation means ----

  /** What stands under one key afterwards. */
  ghost predicate RowAfter(m: Matchers, f: Findings, after: Findings, rules: Rules, tenant: int, device: int,
                           order: seq<int>, text: string, k: (int, int))
    requires forall i | 0 <= i < |order| :: order[i] in rules
  {
    if k.0 == device && k.1 in order then
      var v := Judged(m, rules, k.1, text);
      k in after && after[k] == Stored(if k in f then f[k].tenant else tenant, v.0, v.1)
    else (k in after <==> k in f) && (k in f ==> after[k] == f[k])
  }

  lemma {:induction false} RowAfterRules(m: Matchers, f: Findings, rules: Rules, tenant: int, device: int,
                                         order: seq<int>, text: string, k: (int, int))
    requires Distinct(order) && forall i | 0 <= i < |order| :: order[i] in rules
    ensures RowAfter(m, f, RunRules(m, f, rules, tenant, device, order, text).findings, rules, tenant, device, order,
                     text, k)
    decreases |order|
  {
    if order != [] {
      var f' := Upsert(f, tenant, device, order[0], Judged(m, rules, order[0], text));
      RowAfterRules(m, f', rules, tenant, device, order[1..], text, k);
      assert order[0] !in order[1..];
      assert k.1 in order <==> k.1 == order[0] || k.1 in order[1..];
    }
  }

  lemma {:induction false} StoredAfterRules(m: Matchers, f: Findings, rules: Rules, tenant: int, device: int,
                                            order: seq<int>, text: string)
    requires Distinct(order) && forall k | 0 <= k < |order| :: order[k] in rules
    ensures
      var after := RunRules(m, f, rules, tenant, device, order, text).findings;
      && (forall k: (int, int) :: k in after <==> k in f || (k.0 == device && k.1 in order))
      && (forall k: (int, int) | k in f && !(k.0 == device && k.1 in order) :: after[k] == f[k])
      && (forall k: (int, int) | k.0 == device && k.1 in order ::
            var v := Judged(m, rules, k.1, text);
            after[k] == Stored(if k in f then f[k].tenant else tenant, v.0, v.1))
  {
    var after := RunRules(m, f, rules, tenant, device, order, text).findings;
    forall k: (int, int)
      ensures k in after <==> k in f || (k.0 == device && k.1 in order)
      ensures k in f && !(k.0 == device && k.1 in order) ==> after[k] == f[k]
      ensures k.0 == device && k.1 in order ==>
                var v := Judged(m, rules, k.1, text);
                after[k] == Stored(if k in f then f[k].tenant else tenant, v.0, v.1)
    {
      RowAfterRules(m, f, rules, tenant, device, order, text, k);
    }
  }

  /** Each report is a real flip of a rule in `order`, with the status stored before. */
  ghost predicate RealFlips(m: Matchers, f: Findings, rules: Rules, device: int, order: seq<int>, text: string,
                            fired: seq<Transition>)
    requires forall k | 0 <= k < |order| :: order[k] in rules
  {
    forall i | 0 <= i < |fired| ::
      var id := fired[i].finding.rule;
      && id in order && Flips(m, f, rules, device, id, text)
      && fired[i] == Transition(FindingFor(m, rules, device, id, text), f[(device, id)].status)
  }

  ghost predicate OncePerRule(fired: seq<Transition>) {
    forall i, j | 0 <= i < j < |fired| :: fired[i].finding.rule != fired[j].finding.rule
  }

  ghost predicate Reported(fired: seq<Transition>, id: int) {
    exists i | 0 <= i < |fired| :: fired[i].finding.rule == id
  }

  /** The callback ran exactly once for each rule in `order` that flipped, and for nothing else. */
  ghost predicate ReportsFlips(m: Matchers, f: Findings, rules: Rules, device: int, order: seq<int>, text: string,
                               fired: seq<Transition>)
    requires forall k | 0 <= k < |order| :: order[k] in rules
  {
    && RealFlips(m, f, rules, device, order, text, fired)
    && OncePerRule(fired)
    && forall k | 0 <= k < |order| && Flips(m, f, rules, device, order[k], text) :: Reported(fired, order[k])
  }

  /** The reports due by the table as it was before the evaluation. */
  function ReportsDue(m: Matchers, f: Findings, rules: Rules, device: int, order: seq<int>, text: string)
    : seq<Transition>
    requires forall k | 0 <= k < |order| :: order[k] in rules
  {
    if order == [] then []
    else Report(m, f, rules, device, order[0], text) + ReportsDue(m, f, rules, device, order[1..], text)
  }

  lemma {:induction false} ReportsDueFrame(m: Matchers, f: Findings, f': Findings, rules: Rules, device: int,
                                           order: seq<int>, text: string)
    requires forall k | 0 <= k < |order| :: order[k] in rules
    requires forall k | 0 <= k < |order| ::
               && ((device, order[k]) in f <==> (device, order[k]) in f')
               && ((device, order[k]) in f ==> f[(device, order[k])] == f'[(device, order[k])])
    ensures ReportsDue(m, f, rules, device, order, text) == ReportsDue(m, f', rules, device, order, text)
  {
    if order != [] {
      ReportsDueFrame(m, f, f', rules, device, order[1..], text);
    }
  }

  lemma {:induction false} FiredAfterRules(m: Matchers, f: Findings, rules: Rules, tenant: int, device: int,
                                           order: seq<int>, text: string)
    requires Distinct(order) && forall k | 0 <= k < |order| :: order[k] in rules
    ensures RunRules(m, f, rules, tenant, device, order, text).fired == ReportsDue(m, f, rules, device, order, text)
    decreases |order|
  {
    if order != [] {
      var f' := Upsert(f, tenant, device, order[0], Judged(m, rules, order[0], text));
      FiredAfterRules(m, f', rules, tenant, device, order[1..], text);
      ReportsDueFrame(m, f, f', rules, device, order[1..], text);
    }
  }

  lemma {:induction false} ReportsDueAreFlips(m: Matchers, f: Findings, rules: Rules, device: int,
                                              order: seq<int>, text: string)
    requires Distinct(order) && forall k | 0 <= k < |order| :: order[k] in rules
    ensures RealFlips(m, f, rules, device, order, text, ReportsDue(m, f, rules, device, order, text))
    ensures OncePerRule(ReportsDue(m, f, rules, device, order, text))
  {
    if order != [] {
      ReportsDueAreFlips(m, f, rules, device, order[1..], text);
    }
  }

  lemma {:induction false} FlipIsReported(m: Matchers, f: Findings, rules: Rules, device: int,
                                          order: seq<int>, text: string, k: nat)
    requires forall k | 0 <= k < |order| :: order[k] in rules
    requires k < |order| && Flips(m, f, rules, device, order[k], text)
    ensures Reported(ReportsDue(m, f, rules, device, order, text), order[k])
  {
    var fired := ReportsDue(m, f, rules, device, order, text);
    if k == 0 {
      assert fired[0].finding.rule == order[0];
    } else {
      var more := ReportsDue(m, f, rules, device, order[1..], text);
      FlipIsReported(m, f, rules, device, order[1..], text, k - 1);
      var i :| 0 <= i < |more| && more[i].finding.rule == order[k];
      assert fired[|fired| - |more| + i] == more[i];
    }
  }

  lemma {:induction false} NoFlipsNoReports(m: Matchers, f: Findings, rules: Rules, device: int,
                                            order: seq<int>, text: string)
    requires forall k | 0 <= k < |order| :: order[k] in rules && !Flips(m, f, rules, device, order[k], text)
    ensures ReportsDue(m, f, rules, device, order, text) == []
  {
    if order != [] {
      NoFlipsNoReports(m, f, rules, device, order[1..], text);
    }
  }

  lemma {:induction false} ReturnedAfterRules(m: Matchers, f: Findings, rules: Rules, tenant: int, device: int,
                                              order: seq<int>, text: string)
    requires forall k | 0 <= k < |order| :: order[k] in rules
    ensures
      var returned := RunRules(m, f, rules, tenant, device, order, text).returned;
      && |returned| == |order|
      && forall k | 0 <= k < |order| :: returned[k] == FindingFor(m, rules, device, order[k], text)
    decreases |order|
  {
    if order != [] {
      var f' := Upsert(f, tenant, device, order[0], Judged(m, rules, order[0], text));
      ReturnedAfterRules(m, f', rules, tenant, device, order[1..], text);
    }
  }

  /** A device's stored findings carry the device's tenant. */
  ghost predicate TenantsAgree(f: Findings, tenant: int, device: int) {
    forall k | k in f && k.0 == device :: f[k].tenant == tenant
  }

  /**
   * `after` holds for this device exactly one finding per applicable rule, with that rule's verdict on the text, and
   * for all other devices what `f` holds.
   */
  ghost predicate HoldsVerdicts(m: Matchers, f: Findings, after: Findings, rules: Rules, d: Device, device: int,
                                text: string) {
    && (forall k: (int, int) | k.0 == device :: k in after <==> k.1 in Applicable(rules, d))
    && (forall k: (int, int) | k.0 == device && k.1 in Applicable(rules, d) ::
          var v := Judged(m, rules, k.1, text); after[k] == Stored(d.tenant, v.0, v.1))
    && (forall k: (int, int) | k.0 != device :: k in after <==> k in f)
    && (forall k: (int, int) | k.0 != device && k in f :: after[k] == f[k])
  }

  lemma VerdictsWrittenOut(m: Matchers, f: Findings, after: Findings, rules: Rules, d: Device, device: int,
                           order: seq<int>, fired: seq<Transition>, text: string)
    requires ListsApplicable(order, rules, d) && HoldsVerdicts(m, f, after, rules, d, device, text)
    requires ReportsFlips(m, f, rules, device, order, text, fired)
    ensures forall id :: (device, id) in after <==> AppliesTo(rules, id, d)
    ensures forall id | AppliesTo(rules, id, d) ::
              after[(device, id)].status == Pass <==> Satisfies(m, rules[id], text)
    ensures forall id :: Reported(fired, id) <==>
              AppliesTo(rules, id, d) && (device, id) in f && f[(device, id)].status != after[(device, id)].status
  {
    forall id
      ensures (device, id) in after <==> AppliesTo(rules, id, d)
      ensures AppliesTo(rules, id, d) ==>
                after[(device, id)].status == Judged(m, rules, id, text).0
                && (after[(device, id)].status == Pass <==> Satisfies(m, rules[id], text))
    {
      var k: (int, int) := (device, id);
      assert k in after <==> k.1 in Applicable(rules, d);
      if AppliesTo(rules, id, d) {
        PassesExactlyWhen(m, rules[id], text);
      }
    }
    forall id
      ensures Reported(fired, id) <==>
                AppliesTo(rules, id, d) && (device, id) in f && f[(device, id)].status != after[(device, id)].status
    {
      if AppliesTo(rules, id, d) {
        var k :| 0 <= k < |order| && order[k] == id;
        assert Flips(m, f, rules, device, order[k], text) ==> Reported(fired, order[k]);
      }
    }
  }

  lemma StoredExactly(m: Matchers, f: Findings, rules: Rules, d: Device, device: int, order: seq<int>, text: string)
    requires ListsApplicable(order, rules, d) && TenantsAgree(f, d.tenant, device)
    ensures
      var after := Swept(RunRules(m, f, rules, d.tenant, device, order, text).findings, d.tenant, device,
                         Applicable(rules, d));
      HoldsVerdicts(m, f, after, rules, d, device, text)
  {
    StoredAfterRules(m, f, rules, d.tenant, device, order, text);
    assert forall id :: id in order <==> id in Applicable(rules, d);
  }

  /**
   * After an evaluation, whatever the order of the rules: the device has exactly one stored finding per applicable
   * rule, with that rule's verdict on the text; other devices' findings are untouched; the callback has run exactly
   * once for each applicable rule whose previously stored status was the other one; and the rules' findings are
   * returned in order.
   */
  lemma EvaluationIsExact(m: Matchers, f: Findings, rules: Rules, d: Device, device: int, order: seq<int>, text: string)
    requires ListsApplicable(order, rules, d) && TenantsAgree(f, d.tenant, device)
    ensures
      var e := RunRules(m, f, rules, d.tenant, device, order, text);
      var after := Swept(e.findings, d.tenant, device, Applicable(rules, d));
      && HoldsVerdicts(m, f, after, rules, d, device, text)
      && ReportsFlips(m, f, rules, device, order, text, e.fired)
      && |e.returned| == |order|
      && (forall k | 0 <= k < |order| :: e.returned[k] == FindingFor(m, rules, device, order[k], text))
      && TenantsAgree(after, d.tenant, device)
  {
    StoredExactly(m, f, rules, d, device, order, text);
    FiredAfterRules(m, f, rules, d.tenant, device, order, text);
    ReportsDueAreFlips(m, f, rules, device, order, text);
    forall k | 0 <= k < |order| && Flips(m, f, rules, device, order[k], text)
      ensures Reported(ReportsDue(m, f, rules, device, order, text), order[k])
    {
      FlipIsReported(m, f, rules, device, order, text, k);
    }
    ReturnedAfterRules(m, f, rules, d.tenant, device, order, text);
  }

  /** Evaluating the same text again reports nothing and stores the same findings, whatever order each pass takes. */
  lemma SecondEvaluationIsSilent(m: Matchers, f: Findings, rules: Rules, d: Device, device: int,
                                 order: seq<int>, order': seq<int>, text: string)
    requires ListsApplicable(order, rules, d) && ListsApplicable(order', rules, d) && TenantsAgree(f, d.tenant, device)
    ensures
      var once := Swept(RunRules(m, f, rules, d.tenant, device, order, text).findings, d.tenant, device,
                        Applicable(rules, d));
      var e := RunRules(m, once, rules, d.tenant, device, order', text);
      e.fired == [] && Swept(e.findings, d.tenant, device, Applicable(rules, d)) == once
  {
    var ids := Applicable(rules, d);
    var once := Swept(RunRules(m, f, rules, d.tenant, device, order, text).findings, d.tenant, device, ids);
    EvaluationIsExact(m, f, rules, d, device, order, text);
    FiredAfterRules(m, once, rules, d.tenant, device, order', text);
    forall k | 0 <= k < |order'|
      ensures !Flips(m, once, rules, device, order'[k], text)
    {
      assert order'[k] in ids;
    }
    NoFlipsNoReports(m, once, rules, device, order', text);
    SettledStays(m, once, rules, d, device, order', text);
  }

  /** A table that already holds exactly the verdicts is left as it is. */
  lemma SettledStays(m: Matchers, f: Findings, rules: Rules, d: Device, device: int, order: seq<int>, text: string)
    requires ListsApplicable(order, rules, d) && TenantsAgree(f, d.tenant, device)
    requires forall k: (int, int) | k.0 == device :: k in f <==> k.1 in Applicable(rules, d)
    requires forall k: (int, int) | k.0 == device && k.1 in Applicable(rules, d) ::
               var v := Judged(m, rules, k.1, text); f[k] == Stored(d.tenant, v.0, v.1)
    ensures Swept(RunRules(m, f, rules, d.tenant, device, order, text).findings, d.tenant, device,
                  Applicable(rules, d)) == f
  {
    var after := Swept(RunRules(m, f, rules, d.tenant, device, order, text).findings, d.tenant, device,
                       Applicable(rules, d));
    StoredExactly(m, f, rules, d, device, order, text);
    forall k: (int, int)
      ensures k in after <==> k in f
      ensures k in after ==> after[k] == f[k]
    {
    }
    SameMap(after, f);
  }
}
