/** What the tasks of a pool are worth: the value each of them ends with, the parts it is split into, and the order in
    which waiting tasks are woken. */
module TaskPoolResults {
  import opened PowersOfTwo
  import opened TaskPoolState
  import opened TaskPoolSteps
  import opened TaskPoolWakeUp
  import opened TaskPoolOperations
  import opened TaskPoolRuns

  // -- Values -----------------------------------------------------------------------------------

  /** The step is the return of one of the functions of task t. */
  predicate Reports(step: Step, t: nat) { (step.End? || step.EndOfCompletion?) && step.task == t }

  /** What the functions of task t returned last in a run, and v before the first of them has. */
  function LastResult(steps: seq<Step>, t: nat, v: int): int {
    if steps == [] then v else LastResult(steps[1..], t, if Reports(steps[0], t) then steps[0].result else v)
  }

  /** v is the value of task t if it is done, and 0 if it has not been started. */
  ghost predicate Worth(s: Pool, t: nat, v: int) {
    if t < |s.tasks| && InProgress(s.tasks[t]) then s.tasks[t].state == Done ==> s.tasks[t].value == v else v == 0
  }

  lemma OpeningWorth(s: Pool, step: Step, t: nat, v: int)
    requires PoolOk(s) && Legal(s, step) && Worth(s, t, v) && !Reports(step, t)
    ensures Worth(Opening(s, step), t, v)
  {
    hide Cuts, Inv, OnlyOpen, ReturnAndComplete, Settled, Untouched;
    OpeningChanges(s, step);
    if step.Start? { StartPartOk(s); }
    if step.Defer? { TaskFacts(s, step.parent); }
  }

  lemma GrowsWorth(m: Pool, r: Pool, t: nat, v: int)
    requires Grows(m, r) && Worth(m, t, v)
    ensures Worth(r, t, v)
  {
    if t < |m.tasks| { assert TaskGrows(m.tasks[t], r.tasks[t]); }
  }

  lemma ReportWorth(s: Pool, step: Step, t: nat)
    requires PoolOk(s) && Legal(s, step) && Reports(step, t)
    ensures Worth(Next(s, step), t, step.result)
  {
    hide Cuts, ReturnedSum, ActiveCount, Settled, Inv;
    var r := Next(s, step);
    if step.End? {
      EndPartKeeps(s, t, step.index);
      ReturningOk(s.tasks[t], step.index) by { TaskFacts(s, t); }
      var m := SetTask(s, t, Returning(s.tasks[t], step.index));
      hide PoolOk, Inv, Returning, PartsOk, OnlyOpen;
      if !Open(m.tasks[t]) { assert r == m; }
    }
  }

  lemma StepWorth(s: Pool, step: Step, t: nat, v: int)
    requires PoolOk(s) && Legal(s, step) && Worth(s, t, v)
    ensures Worth(Next(s, step), t, if Reports(step, t) then step.result else v)
  {
    hide PoolOk, Legal, Opening, Next, Worth, Grows;
    if Reports(step, t) {
      ReportWorth(s, step, t);
    } else {
      OpeningWorth(s, step, t, v);
      StepGrows(s, step);
      GrowsWorth(Opening(s, step), Next(s, step), t, v);
    }
  }

  lemma {:induction false} RunWorth(s: Pool, steps: seq<Step>, t: nat, v: int)
    requires PoolOk(s) && LegalRun(s, steps) && Worth(s, t, v)
    ensures Worth(Run(s, steps), t, LastResult(steps, t, v))
    decreases |steps|
  {
    hide PoolOk, Legal, Next, Worth;
    if steps != [] {
      StepWorth(s, steps[0], t, v);
      RunWorth(Next(s, steps[0]), steps[1..], t, if Reports(steps[0], t) then steps[0].result else v);
    }
  }

  lemma SoleValue(s: Pool, t: nat, d: nat)
    requires PoolOk(s) && Sole(s, d, t) && s.tasks[t].state == Done
    ensures d in s.met && s.met[d] == s.tasks[t].value
  {
    assert OutputMet(s, s.tasks[t]);
    assert Justified(s, d);
    hide Inv, Settled;
  }

  /** Main result on values: in every interleaving, a task that is done has the value its functions returned last, or 0
      if it has none; so has its output, unless a caller or another task met it. */
  lemma DoneWithLastResult(threads: nat, steps: seq<Step>, s: Pool, t: nat)
    requires Reached(threads, steps, s) && t < |s.tasks| && s.tasks[t].state == Done
    ensures s.tasks[t].value == LastResult(steps, t, 0)
    ensures forall d: nat {:trigger Sole(s, d, t)} :: Sole(s, d, t) ==>
      d in s.met && s.met[d] == LastResult(steps, t, 0)
  {
    hide PoolOk, LegalRun, Run, LastResult, Sole;
    RunWorth(Initial(threads), steps, t, 0);
    forall d: nat {:trigger Sole(s, d, t)} | Sole(s, d, t) ensures d in s.met && s.met[d] == s.tasks[t].value {
      SoleValue(s, t, d);
    }
  }

  // -- Parts ------------------------------------------------------------------------------------

  /** `per` is the least number of iterations that makes do with so many threads. */
  predicate Share(total: nat, threads: nat, per: nat) {
    per > 0 && per * threads >= total && (per - 1) * threads < total
  }

  /** All parts but the last have that many, and the last no more. */
  predicate Even(parts: seq<Slice>, per: nat) {
    forall j :: 0 <= j < |parts| ==> if j < |parts| - 1 then parts[j].count == per else 0 < parts[j].count <= per
  }

  lemma PerPartShares(total: nat, threads: nat)
    requires total > 0 && threads > 0
    ensures Share(total, threads, PerPart(total, threads))
  {
    var per := PerPart(total, threads);
    assert total + threads - 1 == threads * per + (total + threads - 1) % threads;
    assert (per - 1) * threads == per * threads - threads;
  }

  lemma {:induction false} SplitEven(parts: seq<Slice>, total: nat, per: nat)
    requires Chained(parts) && per > 0 && TaskPoolSteps.End(parts) < total
    requires forall j :: 0 <= j < |parts| ==> parts[j].count == per
    ensures Split(parts, total, per) != [] && Even(Split(parts, total, per), per)
    decreases total - TaskPoolSteps.End(parts)
  {
    var from := TaskPoolSteps.End(parts);
    var next := parts + [Slice(from, if total - from < per then total - from else per, Queued)];
    if TaskPoolSteps.End(next) == total {
      assert Split(next, total, per) == next;
    } else {
      SplitEven(next, total, per);
    }
  }

  lemma {:induction false} StartsAt(parts: seq<Slice>, per: nat, j: nat)
    requires Chained(parts) && Even(parts, per) && j < |parts|
    ensures parts[j].start == j * per
  {
    if j > 0 {
      StartsAt(parts, per, j - 1);
      assert (j - 1) * per + per == j * per;
    }
  }

  lemma FewParts(parts: nat, per: nat, total: nat, threads: nat)
    requires parts > 0 && (parts - 1) * per < total <= per * threads
    ensures parts <= threads
  {
    if parts > threads { MulMonotone(threads, parts - 1, per); }
  }

  /** Main result on parts: a task that is readied is split into no more parts than there are threads, all of the same
      size, which is the least that does, but for the last, which may be smaller. */
  lemma ReadiedParts(s: Pool, busy: set<nat>, t: nat) returns (per: nat)
    requires Inv(s, busy) && OnlyOpen(s, t) && t < |s.tasks| && s.tasks[t].state == New && InputsMet(s, s.tasks[t])
    requires !s.tasks[t].IsNull()
    ensures var parts := MakeReady(s, busy, t).tasks[t].parts;
            && Share(s.tasks[t].total, s.threads, per) && Even(parts, per) && 0 < |parts| <= s.threads
  {
    IssueKeeps(s, busy, t);
    assert MakeReady(s, busy, t) == Issue(s, t);
    hide Inv, OnlyOpen, InputsMet, MakeReady;
    per := SharedParts(s, t);
  }

  lemma SharedParts(s: Pool, t: nat) returns (per: nat)
    requires t < |s.tasks| && s.tasks[t].total > 0 && s.threads > 0
    ensures var parts := Issue(s, t).tasks[t].parts;
            && Share(s.tasks[t].total, s.threads, per) && Even(parts, per) && 0 < |parts| <= s.threads
  {
    hide PerPart, Split, Even, Entries;
    var total, threads := s.tasks[t].total, s.threads;
    per := PerPart(total, threads);
    var parts := Split([], total, per);
    PerPartShares(total, threads);
    SplitEven([], total, per);
    StartsAt(parts, per, |parts| - 1);
    FewParts(|parts|, per, total, threads);
  }

  // -- Waiting ----------------------------------------------------------------------------------

  /** A task that has to wait goes to the head of the list of its first unmet input, so that the last to wait is woken
      first; nothing else changes. */
  lemma LastWaitsFirst(s: Pool, busy: set<nat>, t: nat, i: nat)
    requires Inv(s, busy) && OnlyOpen(s, t) && t < |s.tasks| && s.tasks[t].state == New
    requires i < |s.tasks[t].inputs| && s.tasks[t].inputs[i] !in s.met
    requires forall k :: 0 <= k < i ==> s.tasks[t].inputs[k] in s.met
    ensures var d, r := s.tasks[t].inputs[i], Schedule(s, busy, t);
            && d < |s.waiting| && r.waiting == s.waiting[d := [t] + s.waiting[d]] && r.ready == s.ready
            && r.tasks == s.tasks[t := r.tasks[t]] && r.met == s.met
  {
    assert InputsOk(s, s.tasks[t]);
    hide Inv, OnlyOpen;
  }
}
