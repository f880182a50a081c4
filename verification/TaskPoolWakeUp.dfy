/** Scheduling and the wake-up of waiting tasks: scheduleTask, readyTask, finishTask and dependencyMet call each other,
    since a null task finishes as soon as it is ready and meets a dependency in turn. */
module TaskPoolWakeUp {
  import opened TaskPoolState
  import opened TaskPoolSteps

  /** A task that is about to be scheduled, or to be finished. */
  ghost predicate Open(t: Task) {
    t.state == New || ((t.state == Ready || t.state == Running) && t.completed == t.total && !t.completing)
  }

  /** No task is open, but possibly t. */
  ghost predicate OnlyOpen(s: Pool, t: int) {
    forall x {:trigger s.tasks[x]} :: 0 <= x < |s.tasks| && x != t ==> !Open(s.tasks[x])
  }

  ghost predicate Settled(s: Pool) { OnlyOpen(s, -1) }

  ghost function TotalWork(s: Pool): nat { Work(s.tasks, |s.tasks|) }

  /** The lists being woken are touched by no one else. */
  ghost predicate SameLists(s: Pool, r: Pool, busy: set<nat>) {
    |r.waiting| == |s.waiting| && forall e :: 0 <= e < |s.waiting| && e in busy ==> r.waiting[e] == s.waiting[e]
  }

  ghost function Slack(s: Pool, t: nat): nat
    requires t < |s.tasks|
  {
    |s.tasks[t].inputs| - FirstUnmet(s.tasks[t].inputs, s.met, 0)
  }

  /** scheduleTask */
  ghost function Schedule(s: Pool, busy: set<nat>, t: nat): (r: Pool)
    requires Inv(s, busy) && OnlyOpen(s, t) && t < |s.tasks| && s.tasks[t].state == New
    ensures Inv(r, busy) && Settled(r) && Grows(s, r) && SameLists(s, r, busy)
    ensures TotalWork(r) <= TotalWork(s) + Slack(s, t)
    decreases TotalWork(s), 2
  {
    hide Inv, Grows, OnlyOpen, SameLists, Work;
    var i := FirstUnmet(s.tasks[t].inputs, s.met, 0);
    if i < |s.tasks[t].inputs| then
      ParkKeeps(s, busy, t, i);
      Park(s, t, i)
    else
      MakeReady(s, busy, t)
  }

  /** readyTask */
  ghost function MakeReady(s: Pool, busy: set<nat>, t: nat): (r: Pool)
    requires Inv(s, busy) && OnlyOpen(s, t) && t < |s.tasks| && s.tasks[t].state == New && InputsMet(s, s.tasks[t])
    ensures Inv(r, busy) && Settled(r) && Grows(s, r) && SameLists(s, r, busy) && TotalWork(r) <= TotalWork(s)
    decreases TotalWork(s), 1
  {
    hide Inv, Grows, OnlyOpen, SameLists, Work;
    if s.tasks[t].IsNull() then
      NullCompletes(s, busy, t);
      var r := Finish(s, busy, t, 0);
      GrowsTrans(s, Complete(s, t, 0), r);
      r
    else
      IssueKeeps(s, busy, t);
      Issue(s, t)
  }

  /** Task t is done with value v, and so its output is met with v, unless it was met before. */
  ghost predicate FinishedWith(s: Pool, r: Pool, t: nat, v: int) {
    && t < |s.tasks| && t < |r.tasks| && r.tasks[t].state == Done && r.tasks[t].value == v
    && match s.tasks[t].output
       case None => true
       case Some(d) => d in r.met && r.met[d] == if d in s.met then s.met[d] else v
  }

  /** finishTask, with the dependencyMet it calls. */
  ghost function Finish(s: Pool, busy: set<nat>, t: nat, v: int): (r: Pool)
    requires Inv(s, busy) && OnlyOpen(s, t) && CanComplete(s, t)
    ensures Inv(r, busy) && Settled(r) && Grows(Complete(s, t, v), r) && SameLists(s, r, busy)
    ensures FinishedWith(s, r, t, v)
    ensures TotalWork(r) <= TotalWork(s)
    decreases TotalWork(s), 0, 2
  {
    hide Inv, OnlyOpen, SameLists, Work, CanComplete, Settled;
    var m := Complete(s, t, v);
    CompleteKeeps(s, busy, t, v);
    if s.tasks[t].output.Some? && s.tasks[t].output.value !in s.met then
      var r := Wake(m, busy, s.tasks[t].output.value);
      SameListsTrans(s, m, r, busy);
      r
    else m
  }

  /** The loop of dependencyMet, over the list of dependency d. */
  ghost function Wake(s: Pool, busy: set<nat>, d: nat): (r: Pool)
    requires Inv(s, busy + {d}) && Settled(s) && d !in busy && d in s.met && d < |s.waiting|
    ensures Inv(r, busy) && Settled(r) && Grows(s, r) && SameLists(s, r, busy) && TotalWork(r) <= TotalWork(s)
    decreases TotalWork(s), 0, 1
  {
    hide Inv, Grows, OnlyOpen, SameLists, Work;
    if s.waiting[d] == [] then
      WakeEnds(s, busy, d);
      s
    else
      DetachKeeps(s, busy, d);
      var m := Schedule(Detach(s, d), busy + {d}, s.waiting[d][0]);
      WokenKeeps(s, m, busy, d);
      var r := Wake(m, busy, d);
      GrowsTrans(s, m, r);
      SameListsTrans(s, m, r, busy);
      r
  }

  // -- The steps, in the terms above ------------------------------------------------------------

  lemma SameListsTrans(s: Pool, m: Pool, r: Pool, busy: set<nat>)
    requires SameLists(s, m, busy) && SameLists(m, r, busy)
    ensures SameLists(s, r, busy)
  {}

  lemma ParkKeeps(s: Pool, busy: set<nat>, t: nat, i: nat)
    requires Inv(s, busy) && OnlyOpen(s, t) && t < |s.tasks| && s.tasks[t].state == New
    requires i == FirstUnmet(s.tasks[t].inputs, s.met, 0) < |s.tasks[t].inputs|
    ensures s.tasks[t].inputs[i] < |s.waiting|
    ensures var r := Park(s, t, i);
            && Inv(r, busy) && Settled(r) && Grows(s, r) && SameLists(s, r, busy)
            && TotalWork(r) <= TotalWork(s) + Slack(s, t)
  {
    assert InputsOk(s, s.tasks[t]);
    ParkInv(s, busy, t, i);
  }

  lemma IssueKeeps(s: Pool, busy: set<nat>, t: nat)
    requires Inv(s, busy) && OnlyOpen(s, t) && t < |s.tasks| && s.tasks[t].state == New
    requires !s.tasks[t].IsNull() && InputsMet(s, s.tasks[t])
    ensures s.tasks[t].total > 0 && s.threads > 0
    ensures var r := Issue(s, t);
            Inv(r, busy) && Settled(r) && Grows(s, r) && SameLists(s, r, busy) && TotalWork(r) == TotalWork(s)
  {
    assert s.threads > 0;
    hide Inv, InputsMet, Grows, Work;
    IssueInv(s, busy, t);
    assert PartsOk(s.tasks[t]);
  }

  lemma NullCompletes(s: Pool, busy: set<nat>, t: nat)
    requires Inv(s, busy) && OnlyOpen(s, t) && t < |s.tasks| && s.tasks[t].state == New
    requires s.tasks[t].IsNull() && InputsMet(s, s.tasks[t])
    ensures CanComplete(s, t) && Grows(s, Complete(s, t, 0))
  {
    assert PartsOk(s.tasks[t]);
  }

  lemma CompleteKeeps(s: Pool, busy: set<nat>, t: nat, v: int)
    requires Inv(s, busy) && OnlyOpen(s, t) && CanComplete(s, t)
    ensures var r := Complete(s, t, v);
            && Settled(r) && SameLists(s, r, busy) && TotalWork(r) == TotalWork(s) && Grows(r, r)
            && var o := s.tasks[t].output;
               if o.Some? && o.value !in s.met
               then Inv(r, busy + {o.value}) && o.value !in busy && o.value in r.met && o.value < |r.waiting|
               else Inv(r, busy)
  {
    assert InputsOk(s, s.tasks[t]);
    assert forall d :: d in busy ==> d in s.met;
    hide Inv, CanComplete;
    CompleteInv(s, busy, t, v);
  }

  lemma WakeEnds(s: Pool, busy: set<nat>, d: nat)
    requires Inv(s, busy + {d}) && d < |s.waiting| && s.waiting[d] == []
    ensures Inv(s, busy) && Grows(s, s) && SameLists(s, s, busy)
  {
    forall e | 0 <= e < |s.waiting| ensures ListOk(s, busy, e) {
      assert ListOk(s, busy + {d}, e);
      assert forall x :: x in s.waiting[e] ==> Waits(s, busy + {d}, e, x) && e != d;
    }
  }

  lemma DetachKeeps(s: Pool, busy: set<nat>, d: nat)
    requires Inv(s, busy + {d}) && Settled(s) && d !in busy && d in s.met && d < |s.waiting| && s.waiting[d] != []
    ensures s.waiting[d][0] < |s.tasks|
    ensures var t, m := s.waiting[d][0], Detach(s, d);
            && Inv(m, busy + {d}) && OnlyOpen(m, t) && m.tasks[t].state == New && Grows(s, m) && SameLists(s, m, busy)
            && TotalWork(m) + Slack(m, t) < TotalWork(s)
  {
    DetachInv(s, busy + {d}, d);
    assert ListOk(s, busy + {d}, d);
    var t := s.waiting[d][0];
    assert Waits(s, busy + {d}, d, t) && InputsOk(s, s.tasks[t]);
    var f := FirstUnmet(s.tasks[t].inputs, s.met, 0);
    assert f > s.tasks[t].at;
  }

  lemma WokenKeeps(s: Pool, m: Pool, busy: set<nat>, d: nat)
    requires d < |s.waiting| && s.waiting[d] != [] && s.waiting[d][0] < |s.tasks|
    requires Grows(s, Detach(s, d)) && Grows(Detach(s, d), m) && d in s.met
    requires SameLists(s, Detach(s, d), busy) && SameLists(Detach(s, d), m, busy + {d})
    ensures Grows(s, m) && d in m.met && d < |m.waiting| && SameLists(s, m, busy)
    ensures m.waiting[d] == s.waiting[d][1..]
  {
    GrowsTrans(s, Detach(s, d), m);
  }
}
