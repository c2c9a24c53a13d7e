/** cpp/wedpr-computing/ppc-pir/src/OtPIRImpl.cpp and OtPIRImpl.h: the task queue of the private
    lookup service. A submission is one atomic step; so is the completion callback of a task. */
module PirScheduler {

  type TaskId = string

  /** The scheduler's fields and, beside them, what has happened so far. `filed[i]` is the value of
      m_taskID when the i-th task was started: the key of its entry in m_senders or m_receivers and
      the task id of its messages. */
  datatype State = State(
    free: int, queue: seq<TaskId>, taskId: TaskId,
    submitted: seq<TaskId>, started: seq<TaskId>, filed: seq<TaskId>, running: multiset<TaskId>)

  datatype Event = Submit(id: TaskId) | Complete(id: TaskId)

  function Init(parallelism: int): State {
    State(parallelism, [], "", [], [], [], multiset{})
  }

  /** asyncRunTask(): at most one task leaves the queue. */
  function StartOne(s: State): State {
    if s.free <= 0 || s.queue == [] then s
    else
      s.(free := s.free - 1, queue := s.queue[1..], started := s.started + [s.queue[0]],
         filed := s.filed + [s.taskId], running := s.running + multiset{s.queue[0]})
  }

  function Apply(s: State, e: Event): State {
    match e
    case Submit(id) =>
      StartOne(s.(taskId := id, queue := s.queue + [id], submitted := s.submitted + [id]))
    case Complete(id) =>
      if id in s.running then s.(free := s.free + 1, running := s.running - multiset{id}) else s
  }

  function Exec(s: State, events: seq<Event>): State {
    if events == [] then s else Apply(Exec(s, events[..|events| - 1]), events[|events| - 1])
  }

  ghost predicate Inv(parallelism: int, s: State) {
    && s.free + |s.running| == parallelism
    && s.submitted == s.started + s.queue
    && |s.filed| == |s.started|
    && (parallelism >= 0 ==> s.free >= 0)
  }

  lemma ApplyKeeps(parallelism: int, s: State, e: Event)
    requires Inv(parallelism, s)
    ensures Inv(parallelism, Apply(s, e))
    ensures |s.queue| <= |Apply(s, e).queue|
    ensures s.started <= Apply(s, e).started && s.filed <= Apply(s, e).filed && s.submitted <= Apply(s, e).submitted
  {
    match e
    case Submit(id) =>
      var t := s.(taskId := id, queue := s.queue + [id], submitted := s.submitted + [id]);
      assert t.submitted == t.started + t.queue;
      if t.free > 0 {
        assert t.queue == [t.queue[0]] + t.queue[1..];
      }
    case Complete(_) =>
  }

  lemma {:induction false} ExecKeeps(parallelism: int, s: State, events: seq<Event>)
    requires Inv(parallelism, s)
    ensures var t := Exec(s, events);
            && Inv(parallelism, t) && |s.queue| <= |t.queue|
            && s.started <= t.started && s.filed <= t.filed && s.submitted <= t.submitted
  {
    if events == [] {
    } else {
      ExecKeeps(parallelism, s, events[..|events| - 1]);
      ApplyKeeps(parallelism, Exec(s, events[..|events| - 1]), events[|events| - 1]);
    }
  }

  /** Over every run: free slots and unfinished tasks add up to the configured parallelism, and tasks
      are started once each in the order of submission, the rest being queued. No more tasks run at once
      than are allowed to. */
  lemma {:induction false} Conservation(parallelism: int, events: seq<Event>)
    ensures var s := Exec(Init(parallelism), events);
            && s.free + |s.running| == parallelism
            && s.submitted == s.started + s.queue
            && (parallelism >= 0 ==> 0 <= s.free && |s.running| <= parallelism)
  {
    ExecKeeps(parallelism, Init(parallelism), events);
  }

  /** When a submission starts a task: exactly when a slot is free. Without one it only queues the task. */
  lemma {:induction false} StartsWithFreeSlot(parallelism: int, s: State, id: TaskId)
    requires Inv(parallelism, s)
    ensures var t := Apply(s, Submit(id));
            && t.submitted == s.submitted + [id]
            && (s.free > 0 ==> |t.started| == |s.started| + 1 && |t.running| == |s.running| + 1)
            && (s.free <= 0 ==> t.started == s.started && t.running == s.running && t.queue == s.queue + [id])
  {
  }

  /** The backlog never shrinks: a completion starts nothing and a submission starts at most one task. */
  lemma {:induction false} BacklogNeverShrinks(parallelism: int, before: seq<Event>, after: seq<Event>)
    ensures |Exec(Init(parallelism), before).queue| <= |Exec(Exec(Init(parallelism), before), after).queue|
  {
    ExecKeeps(parallelism, Init(parallelism), before);
    ExecKeeps(parallelism, Exec(Init(parallelism), before), after);
  }

  /** A started task is filed under its own id exactly when nothing was queued before it. */
  lemma {:induction false} FiledUnderOwnId(parallelism: int, s: State, id: TaskId)
    requires Inv(parallelism, s) && s.free > 0
    ensures var t := Apply(s, Submit(id));
            && |t.started| == |s.started| + 1 == |t.filed|
            && (t.filed[|s.started|] == t.started[|s.started|] <==> s.queue == [] || s.queue[0] == id)
  {
  }

  ghost predicate FiledLater(s: State, i: nat) {
    exists j :: i < j < |s.submitted| && i < |s.filed| && s.filed[i] == s.submitted[j]
  }

  /** Once there is a backlog, every task started from then on is filed under the id of a task that
      was submitted after it. */
  lemma {:induction false} BacklogMisfiles(parallelism: int, s: State, events: seq<Event>)
    requires Inv(parallelism, s) && s.queue != []
    ensures var t := Exec(s, events);
            forall i :: |s.started| <= i < |t.started| ==>
              i < |t.submitted| && t.started[i] == t.submitted[i] && FiledLater(t, i)
  {
    if events == [] {
    } else {
      var u, e := Exec(s, events[..|events| - 1]), events[|events| - 1];
      var t := Apply(u, e);
      BacklogMisfiles(parallelism, s, events[..|events| - 1]);
      ExecKeeps(parallelism, s, events[..|events| - 1]);
      ApplyKeeps(parallelism, u, e);
      forall i | |s.started| <= i < |t.started|
        ensures i < |t.submitted| && t.started[i] == t.submitted[i] && FiledLater(t, i)
      {
        if i < |u.started| {
          assert FiledLater(u, i);
          var j :| i < j < |u.submitted| && u.filed[i] == u.submitted[j];
          assert t.filed[i] == t.submitted[j];
        } else {
          assert t.filed[i] == t.submitted[|t.submitted| - 1];
        }
      }
    }
  }

  /** The fields of the service. */
  class OtPirScheduler {
    var parallelism: int
    var taskQueue: seq<TaskId>
    var taskId: TaskId
    ghost var log: State

    ghost predicate Valid()
      reads this
    {
      parallelism == log.free && taskQueue == log.queue && taskId == log.taskId
    }

    constructor (configured: int)
      ensures Valid() && log == Init(configured)
    {
      parallelism, taskQueue, taskId := configured, [], "";
      log := Init(configured);
    }

    method AsyncRunTask(id: TaskId)
      requires Valid()
      modifies this
      ensures Valid() && log == Apply(old(log), Submit(id))
    {
      taskId := id;
      taskQueue := taskQueue + [id];
      log := log.(taskId := id, queue := log.queue + [id], submitted := log.submitted + [id]);
      RunNext();
    }

    method RunNext()
      requires Valid()
      modifies this
      ensures Valid() && log == StartOne(old(log))
    {
      ghost var next := StartOne(log);
      if parallelism <= 0 {
        return;
      }
      if taskQueue == [] {
        return;
      }
      taskQueue := taskQueue[1..];
      parallelism := parallelism - 1;
      log := next;
    }

    method OnTaskFinished(id: TaskId)
      requires Valid() && id in log.running
      modifies this
      ensures Valid() && log == Apply(old(log), Complete(id))
    {
      parallelism := parallelism + 1;
      log := Apply(log, Complete(id));
    }
  }
}
