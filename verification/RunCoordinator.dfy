/** Admission of sync runs and the dirty marks that trigger them. */
module RunCoordinator {
  import opened Prelude

  type Task = string

  datatype Admission = Started | Queued

  datatype RunState = RunState(running: bool, rerunRequested: bool)

  // ---- the three operations, on one task's entry ----

  function AfterBegin(entry: Option<RunState>): (RunState, Admission) {
    if entry.Some? && entry.value.running then (entry.value.(rerunRequested := true), Queued)
    else (RunState(true, entry.Some? && entry.value.rerunRequested), Started)
  }

  function AfterFinish(entry: Option<RunState>): (Option<RunState>, bool) {
    if entry.Some? && entry.value.rerunRequested then (Some(entry.value.(rerunRequested := false)), true)
    else (None, false)
  }

  class SyncRunCoordinator {
    var runs: map<Task, RunState>

    constructor ()
      ensures runs == map[]
    {
      runs := map[];
    }

    method Begin(task: Task) returns (admission: Admission)
      modifies this
      ensures (Lookup(runs, task), admission) ==
              var (entry, answer) := AfterBegin(Lookup(old(runs), task)); (Some(entry), answer)
      ensures runs - {task} == old(runs) - {task}
      ensures admission == (if task in old(runs) && old(runs)[task].running then Queued else Started)
      ensures task in runs && runs[task].running
      ensures runs[task].rerunRequested <==>
                admission == Queued || (task in old(runs) && old(runs)[task].rerunRequested)
    {
      if task !in runs {
        runs := runs[task := RunState(false, false)];
      }
      if runs[task].running {
        runs := runs[task := runs[task].(rerunRequested := true)];
        admission := Queued;
      } else {
        runs := runs[task := runs[task].(running := true)];
        admission := Started;
      }
    }

    method Finish(task: Task) returns (again: bool)
      modifies this
      ensures (Lookup(runs, task), again) == AfterFinish(Lookup(old(runs), task))
      ensures runs - {task} == old(runs) - {task}
      ensures again <==> task in old(runs) && old(runs)[task].rerunRequested
      ensures task in runs <==> again
      ensures again ==> runs[task] == RunState(old(runs)[task].running, false)
    {
      if task !in runs {
        return false;
      }
      if runs[task].rerunRequested {
        runs := runs[task := runs[task].(rerunRequested := false)];
        again := true;
      } else {
        runs := runs - {task};
        again := false;
      }
    }

    method Abort(task: Task)
      modifies this
      ensures runs == old(runs) - {task}
    {
      runs := runs - {task};
    }
  }

  // ---- dirty marks ----

  const WATCHER_DEBOUNCE_MS: nat := 2500

  datatype DirtyState = DirtyState(paths: set<string>, lastEventAt: nat, scheduled: bool)

  class TaskDirtyTracker {
    var tasks: map<Task, DirtyState>
    const debounce: nat

    constructor ()
      ensures tasks == map[] && debounce == 2500
    {
      tasks, debounce := map[], WATCHER_DEBOUNCE_MS;
    }

    method MarkDirtyPathsAt(task: Task, paths: set<string>, now: nat)
      modifies this
      ensures var known := if task in old(tasks) then old(tasks)[task].paths else {};
              tasks == old(tasks)[task := DirtyState(known + paths, now, true)]
    {
      if task !in tasks {
        tasks := tasks[task := DirtyState({}, now, false)];
      }
      tasks := tasks[task := DirtyState(tasks[task].paths + paths, now, true)];
    }

    /** A task is offered once its last mark is `debounce` old; an earlier clock counts as no time at all. */
    method ReadyTaskIdsAt(now: nat) returns (ready: set<Task>)
      ensures forall t :: t in ready <==>
                t in tasks && tasks[t].scheduled && (debounce == 0 || now >= tasks[t].lastEventAt + debounce)
    {
      ready := {};
      var rest := tasks.Keys;
      while rest != {}
        invariant rest <= tasks.Keys
        invariant forall t :: t in ready <==>
                    t in tasks && t !in rest && tasks[t].scheduled &&
                    (debounce == 0 || now >= tasks[t].lastEventAt + debounce)
        decreases rest
      {
        var t :| t in rest;
        var elapsed: nat := if now >= tasks[t].lastEventAt then now - tasks[t].lastEventAt else 0;
        if tasks[t].scheduled && elapsed >= debounce {
          ready := ready + {t};
        }
        rest := rest - {t};
      }
    }

    method Clear(task: Task)
      modifies this
      ensures tasks == old(tasks) - {task}
    {
      tasks := tasks - {task};
    }
  }

  // ---- one task, any number of callers of run_sync_now ----

  /** Where a caller stands: admitted and about to clear the dirty mark, about to start an attempt, in the
      attempt, behind it with success or failure, or back at its own caller. */
  datatype Pc = Admitted | LoopTop | Executing | Succeeded | Failed | Returned

  datatype Event =
    | Request(caller: nat)
    | ClearDirty(caller: nat)
    | StartRun(caller: nat)
    | EndRun(caller: nat, ok: bool)
    | Finish(caller: nat)
    | Abort(caller: nat)
    | MarkDirty(change: nat)

  /** The last five fields are history: `unserved` are the requests, and `unseen` the changes, that no
      attempt has followed yet; `dropped` the requests that stood unserved when an owner aborted. */
  datatype State = State(entry: Option<RunState>, callers: map<nat, Pc>, dirty: bool,
                         unserved: set<nat>, dropped: set<nat>, unseen: set<nat>, requests: nat, attempts: nat)

  const INITIAL := State(None, map[], false, {}, {}, {}, 0, 0)

  predicate At(s: State, caller: nat, pc: Pc) { caller in s.callers && s.callers[caller] == pc }

  predicate Enabled(s: State, e: Event) {
    match e
    case Request(c) => c !in s.callers
    case ClearDirty(c) => At(s, c, Admitted)
    case StartRun(c) => At(s, c, LoopTop)
    case EndRun(c, _) => At(s, c, Executing)
    case Finish(c) => At(s, c, Succeeded)
    case Abort(c) => At(s, c, Failed)
    case MarkDirty(_) => true
  }

  function Apply(s: State, e: Event): State
    requires Enabled(s, e)
  {
    match e
    case Request(c) =>
      var (entry, admission) := AfterBegin(s.entry);
      s.(entry := Some(entry), callers := s.callers[c := if admission == Started then Admitted else Returned],
         unserved := s.unserved + {c}, requests := s.requests + 1)
    case ClearDirty(c) => s.(callers := s.callers[c := LoopTop], dirty := false)
    case StartRun(c) =>
      s.(callers := s.callers[c := Executing], unserved := {}, unseen := {}, attempts := s.attempts + 1)
    case EndRun(c, ok) => s.(callers := s.callers[c := if ok then Succeeded else Failed])
    case Finish(c) =>
      var (entry, again) := AfterFinish(s.entry);
      s.(entry := entry, callers := s.callers[c := if again then LoopTop else Returned])
    case Abort(c) =>
      s.(entry := None, callers := s.callers[c := Returned], dropped := s.dropped + s.unserved)
    case MarkDirty(change) => s.(dirty := true, unseen := s.unseen + {change})
  }

  function Next(s: State, e: Event): State { if Enabled(s, e) then Apply(s, e) else s }

  function RunFrom(s: State, events: seq<Event>): State {
    if events == [] then s else Next(RunFrom(s, events[..|events| - 1]), events[|events| - 1])
  }

  function Run(events: seq<Event>): State { RunFrom(INITIAL, events) }

  // ---- what every interleaving keeps ----

  predicate Active(s: State, c: nat) { c in s.callers && s.callers[c] != Returned }

  /** Nobody is inside run_sync_now. */
  ghost predicate Quiescent(s: State) { forall c :: !Active(s, c) }

  predicate BeforeAttempt(s: State, c: nat) { At(s, c, Admitted) || At(s, c, LoopTop) }

  ghost predicate OneOwner(s: State) {
    (forall c, d :: Active(s, c) && Active(s, d) ==> c == d) &&
    (s.entry.Some? <==> exists c :: Active(s, c)) &&
    (s.entry.Some? ==> s.entry.value.running)
  }

  predicate RerunRequested(s: State) { s.entry.Some? && s.entry.value.rerunRequested }

  ghost predicate NothingForgotten(s: State) {
    (s.unserved <= s.dropped || RerunRequested(s) || exists c :: BeforeAttempt(s, c)) &&
    (s.unseen == {} || s.dirty || exists c :: BeforeAttempt(s, c))
  }

  ghost predicate Counted(s: State) {
    s.attempts + (if RerunRequested(s) then 1 else 0) + (if exists c :: BeforeAttempt(s, c) then 1 else 0) <= s.requests
  }

  ghost predicate Inv(s: State) { OneOwner(s) && NothingForgotten(s) && Counted(s) }

  lemma RequestKeepsInv(s: State, c: nat)
    requires Inv(s) && Enabled(s, Request(c))
    ensures Inv(Apply(s, Request(c)))
  {
    var t := Apply(s, Request(c));
    if s.entry.Some? {
      var o :| Active(s, o);
      assert Active(t, o);
      assert forall d :: Active(t, d) <==> Active(s, d);
      assert forall d :: BeforeAttempt(t, d) <==> BeforeAttempt(s, d);
    } else {
      forall d
        ensures Active(t, d) <==> d == c
      {
        assert !Active(s, d);
      }
      assert Active(t, c) && BeforeAttempt(t, c);
      assert forall d :: BeforeAttempt(s, d) ==> Active(s, d);
    }
  }

  lemma OwnerKeepsInv(s: State, e: Event)
    requires Inv(s) && Enabled(s, e) && !e.Request? && !e.MarkDirty?
    ensures Inv(Apply(s, e))
  {
    var c, t := e.caller, Apply(s, e);
    assert Active(s, c);
    assert forall d :: BeforeAttempt(s, d) ==> Active(s, d);
    forall d | Active(t, d)
      ensures d == c
    {
      assert Active(s, d);
    }
    assert forall d :: BeforeAttempt(t, d) ==> Active(t, d);
    assert Active(t, c) || t.entry == None;
    if e.ClearDirty? || e.StartRun? {
      assert BeforeAttempt(s, c);
    } else {
      assert !BeforeAttempt(s, c);
    }
    if e.ClearDirty? || (e.Finish? && RerunRequested(s)) {
      assert BeforeAttempt(t, c);
    }
  }

  lemma {:induction false} RunsKeepInv(events: seq<Event>)
    ensures Inv(Run(events))
  {
    if events == [] {
      assert Quiescent(INITIAL);
      assert forall c :: !BeforeAttempt(INITIAL, c);
    } else {
      var s, e := Run(events[..|events| - 1]), events[|events| - 1];
      RunsKeepInv(events[..|events| - 1]);
      if Enabled(s, e) {
        match e
        case Request(c) => RequestKeepsInv(s, c);
        case MarkDirty(_) =>
          assert forall d :: Active(Apply(s, e), d) <==> Active(s, d);
          assert forall d :: BeforeAttempt(Apply(s, e), d) <==> BeforeAttempt(s, d);
        case _ => OwnerKeepsInv(s, e);
      }
    }
  }

  /** In every interleaving at most one attempt is under way. */
  lemma AtMostOneRun(events: seq<Event>, c: nat, d: nat)
    requires At(Run(events), c, Executing) && At(Run(events), d, Executing)
    ensures c == d
  {
    RunsKeepInv(events);
    assert Active(Run(events), c) && Active(Run(events), d);
  }

  /** When everybody has returned, an attempt started after every request, except for requests that an
      owner left behind by aborting; and after every change, unless its dirty mark still stands. */
  lemma NothingIsForgotten(events: seq<Event>)
    requires Quiescent(Run(events))
    ensures Run(events).unserved <= Run(events).dropped
    ensures Run(events).unseen != {} ==> Run(events).dirty
    ensures Run(events).entry == None
  {
    RunsKeepInv(events);
    assert forall c :: BeforeAttempt(Run(events), c) ==> Active(Run(events), c);
  }

  lemma RunsNeverOutnumberRequests(events: seq<Event>)
    ensures Run(events).attempts <= Run(events).requests
  {
    RunsKeepInv(events);
  }

  /** Without a failing run nothing is ever dropped. */
  lemma {:induction false} OnlyFailuresDrop(events: seq<Event>)
    ensures Run(events).dropped != {} ==> exists i :: 0 <= i < |events| && events[i].EndRun? && !events[i].ok
    ensures (exists c :: At(Run(events), c, Failed)) ==>
              exists i :: 0 <= i < |events| && events[i].EndRun? && !events[i].ok
  {
    if events != [] {
      var n := |events| - 1;
      OnlyFailuresDrop(events[..n]);
      var s, t, e := Run(events[..n]), Run(events), events[n];
      if Enabled(s, e) && (t.dropped != {} || exists c :: At(t, c, Failed)) {
        if e.EndRun? && !e.ok {
        } else {
          assert (e.Abort? && At(s, e.caller, Failed)) || s.dropped != {} || exists c :: At(s, c, Failed) by {
            if t.dropped == {} {
              var c :| At(t, c, Failed);
              assert At(s, c, Failed);
            }
          }
          var i :| 0 <= i < n && events[..n][i].EndRun? && !events[..n][i].ok;
          assert events[i] == events[..n][i];
        }
      }
    }
  }

  // ---- the owner always gets through ----

  /** Steps the owner still has in front of it, at most. */
  function Rank(pc: Pc): nat {
    match pc
    case Admitted => 5
    case LoopTop => 4
    case Executing => 3
    case Succeeded => 2
    case Failed => 2
    case Returned => 0
  }

  function Work(s: State, owner: nat): nat
    requires owner in s.callers
  {
    Rank(s.callers[owner]) + if RerunRequested(s) then 5 else 0
  }

  /** Somebody inside can always move, and every move brings it closer to returning: only new requests
      can keep it busy. */
  lemma OwnerGetsThrough(events: seq<Event>, owner: nat)
    requires Active(Run(events), owner)
    ensures exists e: Event :: !e.Request? && !e.MarkDirty? && Enabled(Run(events), e) && e.caller == owner
    ensures forall e: Event :: !e.Request? && !e.MarkDirty? && Enabled(Run(events), e) ==>
              e.caller == owner && Work(Next(Run(events), e), owner) < Work(Run(events), owner)
  {
    var s := Run(events);
    RunsKeepInv(events);
    var e := match s.callers[owner]
      case Admitted => ClearDirty(owner)
      case LoopTop => StartRun(owner)
      case Executing => EndRun(owner, true)
      case Succeeded => Finish(owner)
      case _ => Abort(owner);
    assert Enabled(s, e);
    forall e: Event | !e.Request? && !e.MarkDirty? && Enabled(s, e)
      ensures e.caller == owner && Work(Next(s, e), owner) < Work(s, owner)
    {
      assert Active(s, e.caller);
    }
  }

  // ---- which requests an abort drops ----

  /** The `i`-th event is one that happens. */
  predicate Happens(events: seq<Event>, i: nat)
    requires i < |events|
  {
    Enabled(Run(events[..i]), events[i])
  }

  /** Request `r` was made at `j`, and no attempt has started since. */
  ghost predicate WaitsSince(events: seq<Event>, r: nat, j: nat)
    requires j < |events|
  {
    events[j] == Request(r) && Happens(events, j) &&
    forall i: nat :: j < i < |events| && events[i].StartRun? ==> !Happens(events, i)
  }

  ghost predicate Waiting(events: seq<Event>, r: nat) { exists j: nat :: j < |events| && WaitsSince(events, r, j) }

  lemma WaitsBeforeLast(events: seq<Event>, r: nat, j: nat)
    requires 0 < |events| && j < |events| - 1
    ensures WaitsSince(events, r, j) <==>
            WaitsSince(events[..|events| - 1], r, j) &&
            !(events[|events| - 1].StartRun? && Happens(events, |events| - 1))
  {
    var n := |events| - 1;
    forall i: nat | i < n
      ensures events[..n][i] == events[i] && Happens(events[..n], i) == Happens(events, i)
    {
      assert events[..n][..i] == events[..i];
    }
  }

  /** Unserved are the requests that no attempt has followed. */
  lemma {:induction false} UnservedExactly(events: seq<Event>, r: nat)
    ensures r in Run(events).unserved <==> Waiting(events, r)
  {
    if events != [] {
      var n := |events| - 1;
      UnservedExactly(events[..n], r);
      forall j: nat | j < n
        ensures WaitsSince(events, r, j) <==>
                WaitsSince(events[..n], r, j) && !(events[n].StartRun? && Happens(events, n))
      {
        WaitsBeforeLast(events, r, j);
      }
      if events[n] == Request(r) && Happens(events, n) {
        assert WaitsSince(events, r, n);
      } else if Waiting(events, r) {
        var j: nat :| j < |events| && WaitsSince(events, r, j);
        assert WaitsSince(events[..n], r, j);
      } else if Waiting(events[..n], r) {
        var j: nat :| j < n && WaitsSince(events[..n], r, j);
        assert !WaitsSince(events, r, j);
      }
    }
  }

  /** An abort drops the requests made since the failed attempt began, and no other. */
  lemma AbortDropsWhatWaits(events: seq<Event>, c: nat, r: nat)
    requires Enabled(Run(events), Abort(c))
    ensures r in Next(Run(events), Abort(c)).dropped <==> r in Run(events).dropped || Waiting(events, r)
  {
    UnservedExactly(events, r);
  }

  /** The `k`-th event is an abort that happens while `r` waits. */
  ghost predicate DroppedAt(events: seq<Event>, r: nat, k: nat)
    requires k < |events|
  {
    events[k].Abort? && Happens(events, k) && Waiting(events[..k], r)
  }

  /** Over a whole run: dropped are the requests that were waiting at some abort. */
  lemma {:induction false} DroppedExactly(events: seq<Event>, r: nat)
    ensures r in Run(events).dropped <==> exists k: nat :: k < |events| && DroppedAt(events, r, k)
  {
    if events != [] {
      var n := |events| - 1;
      DroppedExactly(events[..n], r);
      UnservedExactly(events[..n], r);
      forall k: nat | k < n
        ensures DroppedAt(events, r, k) == DroppedAt(events[..n], r, k)
      {
        assert events[..n][..k] == events[..k] && events[..n][k] == events[k];
      }
      assert Run(events) == Next(Run(events[..n]), events[n]);
      if r in Run(events[..n]).dropped {
        var k: nat :| k < n && DroppedAt(events[..n], r, k);
        assert DroppedAt(events, r, k);
      } else if events[n].Abort? && Happens(events, n) {
        assert DroppedAt(events, r, n) <==> Waiting(events[..n], r);
      }
    }
  }

  lemma StepAt(events: seq<Event>, k: nat)
    requires k < |events|
    ensures Run(events[..k + 1]) == Next(Run(events[..k]), events[k])
  {
    assert events[..k + 1][..k] == events[..k];
  }

  lemma FirstHalf()
    ensures Run(DROPPING[..3]) == State(Some(RunState(true, false)), map[0 := Executing], false, {}, {}, {}, 1, 1)
  {
    assert DROPPING[..0] == [];
    StepAt(DROPPING, 0);
    assert Run(DROPPING[..1]) == State(Some(RunState(true, false)), map[0 := Admitted], false, {0}, {}, {}, 1, 0);
    StepAt(DROPPING, 1);
    assert Run(DROPPING[..2]) == State(Some(RunState(true, false)), map[0 := LoopTop], false, {0}, {}, {}, 1, 0);
    StepAt(DROPPING, 2);
  }

  /** Such a run: the second request is answered 'queued', and no attempt ever follows it. */
  lemma AbortDropsAQueuedRequest()
    ensures var s := Run(DROPPING);
            s.callers == map[0 := Returned, 1 := Returned] && s.attempts == 1 && s.requests == 2 &&
            1 in s.unserved && 1 in s.dropped
  {
    FirstHalf();
    StepAt(DROPPING, 3);
    assert Run(DROPPING[..4]) ==
           State(Some(RunState(true, true)), map[0 := Executing, 1 := Returned], false, {1}, {}, {}, 2, 1);
    StepAt(DROPPING, 4);
    assert Run(DROPPING[..5]) ==
           State(Some(RunState(true, true)), map[0 := Failed, 1 := Returned], false, {1}, {}, {}, 2, 1);
    StepAt(DROPPING, 5);
    assert DROPPING[..6] == DROPPING;
  }

  const DROPPING := [Request(0), ClearDirty(0), StartRun(0), Request(1), EndRun(0, false), Abort(0)]
}
