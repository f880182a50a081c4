/** The small steps the task pool's operations are made of, and the invariant through each. */
module TaskPoolSteps {
  import opened TaskPoolState

  function SetTask(s: Pool, t: nat, task: Task): (r: Pool)
    requires t < |s.tasks|
    ensures r == s.(tasks := s.tasks[t := task])
  {
    s.(tasks := s.tasks[t := task])
  }

  /** Takes the head of the list of dependency d. */
  function Detach(s: Pool, d: nat): Pool
    requires d < |s.waiting| && |s.waiting[d]| > 0 && s.waiting[d][0] < |s.tasks|
  {
    var t := s.waiting[d][0];
    SetTask(s, t, s.tasks[t].(state := New)).(waiting := s.waiting[d := s.waiting[d][1..]])
  }

  /** Puts a task on the list of its input number i. */
  function Park(s: Pool, t: nat, i: nat): Pool
    requires t < |s.tasks| && i < |s.tasks[t].inputs| && s.tasks[t].inputs[i] < |s.waiting|
  {
    var d := s.tasks[t].inputs[i];
    SetTask(s, t, s.tasks[t].(state := Waiting, at := i)).(waiting := s.waiting[d := [t] + s.waiting[d]])
  }

  /** The iterations in each part but the last. */
  function PerPart(total: nat, threads: nat): (per: nat)
    requires total > 0 && threads > 0
    ensures per > 0
  {
    assert total + threads - 1 >= threads;
    (total + threads - 1) / threads
  }

  /** The first iteration that is in none of the parts. */
  function End(parts: seq<Slice>): nat {
    if parts == [] then 0 else parts[|parts| - 1].start + parts[|parts| - 1].count
  }

  /** The parts are queued and cut [0, End(parts)). */
  ghost predicate Chained(parts: seq<Slice>) {
    && (parts != [] ==> parts[0].start == 0)
    && (forall j :: 0 <= j < |parts| ==> parts[j].count > 0 && parts[j].stage == Queued)
    && (forall j :: 0 < j < |parts| ==> parts[j].start == parts[j - 1].start + parts[j - 1].count)
  }

  /** Adds parts of `per` iterations, and a last one of what remains. */
  function Split(parts: seq<Slice>, total: nat, per: nat): (r: seq<Slice>)
    requires Chained(parts) && End(parts) <= total && per > 0
    ensures Chained(r) && End(r) == total
    decreases total - End(parts)
  {
    if End(parts) == total then parts
    else
      var count := if total - End(parts) < per then total - End(parts) else per;
      Split(parts + [Slice(End(parts), count, Queued)], total, per)
  }

  /** The queue entries of a task's parts. */
  function Entries(t: nat, parts: seq<Slice>): (q: seq<Part>)
    ensures |q| == |parts|
    ensures forall j :: 0 <= j < |parts| ==> q[j] == Part(t, j, parts[j].start, parts[j].count)
  {
    seq(|parts|, j requires 0 <= j < |parts| => Part(t, j, parts[j].start, parts[j].count))
  }

  /** Queues a task whose inputs are met. */
  function Issue(s: Pool, t: nat): Pool
    requires t < |s.tasks| && s.tasks[t].total > 0 && s.threads > 0
  {
    var parts := Split([], s.tasks[t].total, PerPart(s.tasks[t].total, s.threads));
    SetTask(s, t, s.tasks[t].(state := Ready, parts := parts)).(ready := s.ready + Entries(t, parts))
  }

  /** Task t is done with a value, and its output is met if it was not before. */
  function Complete(s: Pool, t: nat, v: int): Pool
    requires t < |s.tasks|
  {
    var o := s.tasks[t].output;
    SetTask(s, t, s.tasks[t].(state := Done, value := v, completed := s.tasks[t].total, completing := false))
      .(pending := s.pending - 1, met := if o.Some? && o.value !in s.met then s.met[o.value := v] else s.met)
  }

  /** A task may be completed: a null task with its inputs met, or one whose parts and completion have all returned. */
  ghost predicate CanComplete(s: Pool, t: nat) {
    && t < |s.tasks| && s.tasks[t].total > 0 && s.tasks[t].active == 0 && InputsMet(s, s.tasks[t])
    && if s.tasks[t].IsNull() then s.tasks[t].state == New && s.tasks[t].parts == [] && s.tasks[t].completions == 0
       else && s.tasks[t].state == Ready && Cuts(s.tasks[t].parts, s.tasks[t].total) && AllReturned(s.tasks[t].parts)
            && s.tasks[t].completions == if s.tasks[t].hasCompletion then 1 else 0
  }

  // -- Detach -----------------------------------------------------------------------------------

  lemma DetachLists(s: Pool, busy: set<nat>, d: nat)
    requires ListsOk(s, busy) && d < |s.waiting| && |s.waiting[d]| > 0
    ensures s.waiting[d][0] < |s.tasks| && ListsOk(Detach(s, d), busy)
  {
    assert ListOk(s, busy, d);
    var t := s.waiting[d][0];
    assert Waits(s, busy, d, t);
    var r := Detach(s, d);
    forall e | 0 <= e < |r.waiting| ensures ListOk(r, busy, e) {
      assert ListOk(s, busy, e);
      assert forall x :: x in r.waiting[e] ==> x in s.waiting[e] && x != t && Waits(s, busy, e, x);
    }
    forall x | 0 <= x < |r.tasks| ensures Listed(r, x) {
      assert Listed(s, x);
      if x != t && s.tasks[x].state == Waiting && s.tasks[x].inputs[s.tasks[x].at] == d {
        var k :| 0 <= k < |s.waiting[d]| && s.waiting[d][k] == x;
        assert r.waiting[d][k - 1] == x;
      }
    }
  }

  /** Changing a task that no list and no queue entry mentions, and that is not done, keeps the rest in order. */
  lemma TouchQueue(s: Pool, t: nat, task: Task)
    requires QueueOk(s) && t < |s.tasks| && s.tasks[t].parts == task.parts == []
    ensures QueueOk(SetTask(s, t, task))
  {
    var r := SetTask(s, t, task);
    forall k {:trigger r.ready[k]} | 0 <= k < |r.ready| ensures EntryOk(r, r.ready[k]) {
      assert EntryOk(s, s.ready[k]);
    }
    forall x | 0 <= x < |r.tasks| ensures QueuedParts(r, x) { assert QueuedParts(s, x); }
  }

  lemma TouchMet(s: Pool, t: nat, task: Task)
    requires MetOk(s) && t < |s.tasks| && s.tasks[t].state != Done && task.state != Done
    ensures MetOk(SetTask(s, t, task))
  {
    var r := SetTask(s, t, task);
    forall d | d in r.met ensures Justified(r, d) {
      assert Justified(s, d);
      if x: nat :| Produces(s.tasks, x, d) && s.tasks[x].value == s.met[d] {
        assert Produces(r.tasks, x, d);
      }
    }
  }

  lemma DetachInv(s: Pool, busy: set<nat>, d: nat)
    requires Inv(s, busy) && d < |s.waiting| && |s.waiting[d]| > 0
    ensures s.waiting[d][0] < |s.tasks| && Inv(Detach(s, d), busy) && Grows(s, Detach(s, d))
    ensures var t := s.waiting[d][0]; s.tasks[t].state == Waiting && Detach(s, d).tasks[t].state == New
    ensures Work(Detach(s, d).tasks, |s.tasks|) == Work(s.tasks, |s.tasks|) - Distance(s.tasks[s.waiting[d][0]])
  {
    hide QueuedParts, EntryOk, Listed, Cuts, Work, NotDone;
    DetachLists(s, busy, d);
    assert ListOk(s, busy, d);
    var t := s.waiting[d][0];
    var task := s.tasks[t].(state := New);
    assert Waits(s, busy, d, t) && PartsOk(s.tasks[t]) && InputsOk(s, s.tasks[t]);
    TouchQueue(s, t, task);
    TouchMet(s, t, task);
    NotDoneUpdate(s.tasks, t, task, |s.tasks|);
    WorkUpdate(s.tasks, t, task, |s.tasks|);
    var m := SetTask(s, t, task);
    SetWaiting(m, Detach(s, d).waiting);
  }

  /** The lists matter to nothing but ListsOk. */
  lemma SetWaiting(s: Pool, waiting: seq<seq<nat>>)
    requires |waiting| == |s.waiting|
    ensures QueueOk(s) ==> QueueOk(s.(waiting := waiting))
    ensures MetOk(s) ==> MetOk(s.(waiting := waiting))
    ensures TasksOk(s) ==> TasksOk(s.(waiting := waiting))
  {
    var r := s.(waiting := waiting);
    if QueueOk(s) {
      forall k {:trigger r.ready[k]} | 0 <= k < |r.ready| ensures EntryOk(r, r.ready[k]) {
        assert EntryOk(s, s.ready[k]);
      }
      forall x | 0 <= x < |r.tasks| ensures QueuedParts(r, x) { assert QueuedParts(s, x); }
    }
    if MetOk(s) {
      forall d | d in r.met ensures Justified(r, d) { assert Justified(s, d); }
    }
    if TasksOk(s) {
      forall t {:trigger r.tasks[t]} | 0 <= t < |r.tasks| ensures InputsOk(r, r.tasks[t]) {
        assert InputsOk(s, s.tasks[t]);
      }
    }
  }

  // -- Park -------------------------------------------------------------------------------------

  lemma ParkLists(s: Pool, busy: set<nat>, t: nat, i: nat)
    requires ListsOk(s, busy) && t < |s.tasks| && s.tasks[t].state == New
    requires i < |s.tasks[t].inputs| && s.tasks[t].inputs[i] < |s.waiting| && s.tasks[t].inputs[i] !in s.met
    ensures ListsOk(Park(s, t, i), busy)
  {
    var r, d := Park(s, t, i), s.tasks[t].inputs[i];
    forall e | 0 <= e < |r.waiting| ensures ListOk(r, busy, e) {
      assert ListOk(s, busy, e);
      assert forall x :: x in s.waiting[e] ==> Waits(s, busy, e, x) && x != t;
      assert forall x :: x in r.waiting[e] ==> x in s.waiting[e] || (x == t && e == d);
      assert forall x :: x in r.waiting[e] ==> Waits(r, busy, e, x);
      assert t !in s.waiting[e];
    }
    forall x | 0 <= x < |r.tasks| ensures Listed(r, x) { ParkListed(s, t, i, x); }
  }

  lemma ParkListed(s: Pool, t: nat, i: nat, x: nat)
    requires t < |s.tasks| && i < |s.tasks[t].inputs| && s.tasks[t].inputs[i] < |s.waiting|
    requires x < |s.tasks| && Listed(s, x)
    ensures Listed(Park(s, t, i), x)
  {
    var r, d := Park(s, t, i), s.tasks[t].inputs[i];
    if x == t {
      assert r.waiting[d][0] == t;
    } else if s.tasks[x].state == Waiting && s.tasks[x].inputs[s.tasks[x].at] == d {
      var k :| 0 <= k < |s.waiting[d]| && s.waiting[d][k] == x;
      assert r.waiting[d][k + 1] == x;
    }
  }

  lemma ParkInv(s: Pool, busy: set<nat>, t: nat, i: nat)
    requires Inv(s, busy) && t < |s.tasks| && s.tasks[t].state == New
    requires i < |s.tasks[t].inputs| && s.tasks[t].inputs[i] !in s.met
    requires forall k :: 0 <= k < i ==> s.tasks[t].inputs[k] in s.met
    ensures s.tasks[t].inputs[i] < |s.waiting|
    ensures Inv(Park(s, t, i), busy) && Grows(s, Park(s, t, i))
    ensures Work(Park(s, t, i).tasks, |s.tasks|) == Work(s.tasks, |s.tasks|) + |s.tasks[t].inputs| - i
  {
    hide QueuedParts, EntryOk, Listed, Cuts, Work, NotDone;
    assert PartsOk(s.tasks[t]) && InputsOk(s, s.tasks[t]);
    ParkLists(s, busy, t, i);
    var task := s.tasks[t].(state := Waiting, at := i);
    TouchQueue(s, t, task);
    TouchMet(s, t, task);
    NotDoneUpdate(s.tasks, t, task, |s.tasks|);
    WorkUpdate(s.tasks, t, task, |s.tasks|);
    SetWaiting(SetTask(s, t, task), Park(s, t, i).waiting);
  }

  // -- Issue ------------------------------------------------------------------------------------

  /** A task that is on no list may change in any way that does not put it on one. */
  lemma TouchLists(s: Pool, busy: set<nat>, t: nat, task: Task)
    requires ListsOk(s, busy) && t < |s.tasks| && s.tasks[t].state != Waiting && task.state != Waiting
    ensures ListsOk(SetTask(s, t, task), busy)
  {
    var r := SetTask(s, t, task);
    forall e | 0 <= e < |r.waiting| ensures ListOk(r, busy, e) {
      assert ListOk(s, busy, e);
      assert forall x :: x in s.waiting[e] ==> Waits(s, busy, e, x) && Waits(r, busy, e, x);
    }
    forall x | 0 <= x < |r.tasks| ensures Listed(r, x) { assert Listed(s, x); }
  }

  lemma {:induction false} NoneReturned(parts: seq<Slice>, n: nat)
    requires n <= |parts| && forall j :: 0 <= j < |parts| ==> parts[j].stage == Queued
    ensures ReturnedSum(parts, n) == 0 && ActiveCount(parts, n) == 0
  {
    if n > 0 { NoneReturned(parts, n - 1); }
  }

  lemma IssueQueue(s: Pool, t: nat)
    requires QueueOk(s) && s.threads > 0 && t < |s.tasks| && s.tasks[t].total > 0 && s.tasks[t].parts == []
    ensures QueueOk(Issue(s, t))
  {
    var r, n := Issue(s, t), |s.ready|;
    var parts := r.tasks[t].parts;
    forall k {:trigger r.ready[k]} | 0 <= k < |r.ready| ensures EntryOk(r, r.ready[k]) {
      if k < n {
        assert r.ready[k] == s.ready[k] && EntryOk(s, s.ready[k]);
      } else {
        assert r.ready[k] == Entries(t, parts)[k - n];
      }
    }
    forall k, l | 0 <= k < l < |r.ready|
      ensures r.ready[k].task != r.ready[l].task || r.ready[k].index != r.ready[l].index
    {
      if k < n {
        assert r.ready[k] == s.ready[k] && EntryOk(s, s.ready[k]);
      } else {
        assert r.ready[k] == Entries(t, parts)[k - n];
      }
      if l < n { assert r.ready[l] == s.ready[l]; } else { assert r.ready[l] == Entries(t, parts)[l - n]; }
    }
    forall x | 0 <= x < |r.tasks| ensures QueuedParts(r, x) { IssueQueued(s, t, x); }
  }

  lemma IssueQueued(s: Pool, t: nat, x: nat)
    requires s.threads > 0 && t < |s.tasks| && s.tasks[t].total > 0 && x < |s.tasks| && QueuedParts(s, x)
    ensures QueuedParts(Issue(s, t), x)
  {
    var r, n := Issue(s, t), |s.ready|;
    forall j {:trigger InQueue(r.ready, x, j)} | 0 <= j < |r.tasks[x].parts| && r.tasks[x].parts[j].stage == Queued
      ensures InQueue(r.ready, x, j)
    {
      if x == t {
        assert r.ready[n + j] == Entries(t, r.tasks[t].parts)[j];
      } else {
        assert InQueue(s.ready, x, j);
        var k :| 0 <= k < n && s.ready[k].task == x && s.ready[k].index == j;
        assert r.ready[k] == s.ready[k];
      }
    }
  }

  lemma IssueTasks(s: Pool, t: nat)
    requires TasksOk(s) && s.threads > 0
    requires t < |s.tasks| && s.tasks[t].state == New && !s.tasks[t].IsNull() && InputsMet(s, s.tasks[t])
    ensures PartsOk(s.tasks[t]) && TasksOk(Issue(s, t))
  {
    assert PartsOk(s.tasks[t]) && InputsOk(s, s.tasks[t]);
    var r := Issue(s, t);
    NoneReturned(r.tasks[t].parts, |r.tasks[t].parts|);
    forall x {:trigger r.tasks[x]} | 0 <= x < |r.tasks| ensures PartsOk(r.tasks[x]) && InputsOk(r, r.tasks[x]) {
      assert PartsOk(s.tasks[x]) && InputsOk(s, s.tasks[x]);
    }
  }

  lemma IssueInv(s: Pool, busy: set<nat>, t: nat)
    requires Inv(s, busy) && t < |s.tasks| && s.tasks[t].state == New && !s.tasks[t].IsNull()
    requires InputsMet(s, s.tasks[t])
    ensures PartsOk(s.tasks[t]) && Inv(Issue(s, t), busy) && Grows(s, Issue(s, t))
    ensures Work(Issue(s, t).tasks, |s.tasks|) == Work(s.tasks, |s.tasks|)
  {
    hide ListsOk, QueueOk, MetOk, TasksOk;
    IssueTasks(s, t);
    assert s.tasks[t].parts == [];
    var r := Issue(s, t);
    var task := r.tasks[t];
    TouchLists(s, busy, t, task);
    TouchMet(s, t, task);
    IssueQueue(s, t);
    NotDoneUpdate(s.tasks, t, task, |s.tasks|);
    WorkUpdate(s.tasks, t, task, |s.tasks|);
    SetReady(SetTask(s, t, task), busy, r.ready);
  }

  /** The queue matters to nothing but QueueOk. */
  lemma SetReady(s: Pool, busy: set<nat>, ready: seq<Part>)
    ensures ListsOk(s, busy) ==> ListsOk(s.(ready := ready), busy)
    ensures MetOk(s) ==> MetOk(s.(ready := ready))
    ensures TasksOk(s) ==> TasksOk(s.(ready := ready))
  {
    var r := s.(ready := ready);
    if ListsOk(s, busy) {
      forall e | 0 <= e < |r.waiting| ensures ListOk(r, busy, e) {
        assert ListOk(s, busy, e);
        assert forall x :: x in s.waiting[e] ==> Waits(s, busy, e, x) && Waits(r, busy, e, x);
      }
      forall x | 0 <= x < |r.tasks| ensures Listed(r, x) { assert Listed(s, x); }
    }
    if MetOk(s) {
      forall d | d in r.met ensures Justified(r, d) { assert Justified(s, d); }
    }
    if TasksOk(s) {
      forall t {:trigger r.tasks[t]} | 0 <= t < |r.tasks| ensures InputsOk(r, r.tasks[t]) {
        assert InputsOk(s, s.tasks[t]);
      }
    }
  }

  // -- Complete ---------------------------------------------------------------------------------

  /** The lists being woken after task t has been completed: its output joins them if it was unmet. */
  ghost function NowBusy(s: Pool, busy: set<nat>, t: nat): set<nat>
    requires t < |s.tasks|
  {
    var o := s.tasks[t].output;
    if o.Some? && o.value !in s.met then busy + {o.value} else busy
  }

  lemma CompleteLists(s: Pool, busy: set<nat>, t: nat, v: int)
    requires ListsOk(s, busy) && t < |s.tasks| && s.tasks[t].state != Waiting
    ensures ListsOk(Complete(s, t, v), NowBusy(s, busy, t))
  {
    var r, now := Complete(s, t, v), NowBusy(s, busy, t);
    forall e | 0 <= e < |r.waiting| ensures ListOk(r, now, e) {
      assert ListOk(s, busy, e);
      assert forall x :: x in s.waiting[e] ==> Waits(s, busy, e, x) && Waits(r, now, e, x);
    }
    forall x | 0 <= x < |r.tasks| ensures Listed(r, x) { assert Listed(s, x); }
  }

  lemma CompleteQueue(s: Pool, t: nat, v: int)
    requires QueueOk(s) && t < |s.tasks|
    ensures QueueOk(Complete(s, t, v))
  {
    var r := Complete(s, t, v);
    forall k {:trigger r.ready[k]} | 0 <= k < |r.ready| ensures EntryOk(r, r.ready[k]) {
      assert EntryOk(s, s.ready[k]);
    }
    forall x | 0 <= x < |r.tasks| ensures QueuedParts(r, x) { assert QueuedParts(s, x); }
  }

  lemma CompleteMet(s: Pool, t: nat, v: int)
    requires MetOk(s) && CanComplete(s, t) && InputsOk(s, s.tasks[t])
    ensures MetOk(Complete(s, t, v))
  {
    var r := Complete(s, t, v);
    forall d | d in r.met ensures Justified(r, d) {
      if d in s.met {
        assert Justified(s, d);
        if x: nat :| Produces(s.tasks, x, d) && s.tasks[x].value == s.met[d] { assert Produces(r.tasks, x, d); }
      } else {
        assert Produces(r.tasks, t, d);
      }
    }
    forall x {:trigger r.tasks[x]} | 0 <= x < |r.tasks| ensures OutputMet(r, r.tasks[x]) {
      assert OutputMet(s, s.tasks[x]);
    }
  }

  lemma CompleteTasks(s: Pool, t: nat, v: int)
    requires TasksOk(s) && CanComplete(s, t)
    ensures TasksOk(Complete(s, t, v))
  {
    var r := Complete(s, t, v);
    forall x {:trigger r.tasks[x]} | 0 <= x < |r.tasks| ensures InputsOk(r, r.tasks[x]) && PartsOk(r.tasks[x]) {
      assert InputsOk(s, s.tasks[x]) && PartsOk(s.tasks[x]);
    }
  }

  lemma CompleteInv(s: Pool, busy: set<nat>, t: nat, v: int)
    requires Inv(s, busy) && CanComplete(s, t)
    ensures Inv(Complete(s, t, v), NowBusy(s, busy, t))
    ensures Work(Complete(s, t, v).tasks, |s.tasks|) == Work(s.tasks, |s.tasks|)
  {
    hide ListsOk, QueueOk, MetOk, PartsOk, InputsOk;
    assert InputsOk(s, s.tasks[t]);
    CompleteLists(s, busy, t, v);
    CompleteQueue(s, t, v);
    CompleteMet(s, t, v);
    CompleteTasks(s, t, v);
    NotDoneUpdate(s.tasks, t, Complete(s, t, v).tasks[t], |s.tasks|);
    WorkUpdate(s.tasks, t, Complete(s, t, v).tasks[t], |s.tasks|);
  }
}
