/** python/ppc_model/task/task_manager.py with async_thread_executor.py: the life of a task in the
    manager's cache and in the database, with any number of threads that run, finish and kill tasks.

    Each thread is followed from one shared access to the next. The manager's lock, which makes some
    neighbouring accesses one step, is not modelled, so the runs below include all runs of these
    operations and more; the age-based cleanup of the cache is not among them. A thread may be stopped anywhere, as the executor's kill does with SystemExit. */
module TaskLifecycle {

  type TaskId = string

  /** A TaskResult object, shared by the cache and by the threads that looked it up. It carries the
      id of its task; `serial` tells the objects of one task apart. */
  datatype Ref = Ref(id: TaskId, serial: nat)

  datatype Status = PENDING | RUNNING | SUCCESS | FAILURE | KILLED {
    predicate Active() { this == PENDING || this == RUNNING }
  }

  datatype Role = Finisher(ok: bool) | Killer

  datatype Thread =
    | RunLook(id: TaskId)                       // run_task: query the record
    | RunInsert(id: TaskId)                     // run_task: enter the cache, then execute
    | Working(id: TaskId)                       // the task handler
    | FinishLook(id: TaskId, ok: bool)          // _on_task_finish: find the cached result
    | KillLook(id: TaskId)                      // kill_one_task: find it if RUNNING
    | KillStop(ref: Ref)                        // stop the worker thread
    | Mark(ref: Ref, status: Status, role: Role)// set task_status
    | Save(ref: Ref, role: Role)                // on_task_finished: read task_status
    | Write(id: TaskId, status: Status, role: Role) // on_task_finished: merge the record
    | Evict(id: TaskId, role: Role)             // pop from the cache
    | Report(id: TaskId)                        // _on_task_finish(True): job_finished, log, clear handlers
    | Dead

  datatype State = State(cache: map<TaskId, Ref>, results: map<Ref, Status>, db: map<TaskId, Status>,
                         threads: map<nat, Thread>)

  datatype Event =
    | Spawn(tid: nat, thread: Thread)   // a call of run_task or kill_one_task, by a client or a timeout
    | Move(tid: nat, choice: nat)       // the thread's next access; `choice` is the handler's outcome or a new object
    | Raise(tid: nat)                   // an exception inside _on_task_finish(True), reported as a failure
    | Die(tid: nat)                     // SystemExit, or an exception nobody catches

  function Init(db: map<TaskId, Status>): State { State(map[], map[], db, map[]) }

  /** Where the thread goes from `t`. */
  function NextThread(s: State, t: Thread, choice: nat): Thread {
    match t
    case RunLook(id) => if id in s.db && s.db[id] == RUNNING then Dead else RunInsert(id)
    case RunInsert(id) => if id in s.cache then Dead else if Ref(id, choice) in s.results then t else Working(id)
    case Working(id) => FinishLook(id, choice == 0)
    case FinishLook(id, ok) =>
      if id in s.cache then Mark(s.cache[id], if ok then SUCCESS else FAILURE, Finisher(ok))
      else if ok then Report(id) else Dead
    case KillLook(id) =>
      if id in s.cache && s.cache[id] in s.results && s.results[s.cache[id]] == RUNNING
      then KillStop(s.cache[id]) else Dead
    case KillStop(ref) => Mark(ref, KILLED, Killer)
    case Mark(ref, status, role) => Save(ref, role)
    case Save(ref, role) => if ref in s.results then Write(ref.id, s.results[ref], role) else Dead
    case Write(id, status, role) => Evict(id, role)
    case Evict(id, role) =>  // a pop of a missing key raises KeyError, which the executor catches once
      if role != Finisher(true) then Dead else if id in s.cache then Report(id) else FinishLook(id, false)
    case Report(_) => Dead
    case Dead => Dead
  }

  /** What the access at `t` does to the shared data; a `choice` in use is not a new object. */
  function NextData(s: State, t: Thread, choice: nat): State {
    match t
    case RunInsert(id) =>
      if id in s.cache || Ref(id, choice) in s.results then s
      else s.(cache := s.cache[id := Ref(id, choice)], results := s.results[Ref(id, choice) := RUNNING])
    case Mark(ref, status, role) => s.(results := s.results[ref := status])
    case Write(id, status, role) => s.(db := if id in s.db then s.db[id := status] else s.db)
    case Evict(id, role) => s.(cache := s.cache - {id})
    case _ => s
  }

  function MoveThread(s: State, tid: nat, t: Thread, choice: nat): State {
    NextData(s, t, choice).(threads := s.threads[tid := NextThread(s, t, choice)])
  }

  /** An exception inside _on_task_finish(True), clear handlers included, is reported as a failure. */
  function Raised(t: Thread): Thread {
    match t
    case FinishLook(id, true) => FinishLook(id, false)
    case Mark(ref, _, Finisher(true)) => FinishLook(ref.id, false)
    case Save(ref, Finisher(true)) => FinishLook(ref.id, false)
    case Write(id, _, Finisher(true)) => FinishLook(id, false)
    case Evict(id, Finisher(true)) => FinishLook(id, false)
    case Report(id) => FinishLook(id, false)
    case _ => t
  }

  function Apply(s: State, e: Event): State {
    match e
    case Spawn(tid, t) =>
      if tid !in s.threads && (t.RunLook? || t.KillLook?) then s.(threads := s.threads[tid := t]) else s
    case Move(tid, choice) =>
      if tid in s.threads then MoveThread(s, tid, s.threads[tid], choice) else s
    case Raise(tid) =>
      if tid in s.threads then s.(threads := s.threads[tid := Raised(s.threads[tid])]) else s
    case Die(tid) =>
      if tid in s.threads then s.(threads := s.threads[tid := Dead]) else s
  }

  function Exec(s: State, events: seq<Event>): State {
    if events == [] then s else Apply(Exec(s, events[..|events| - 1]), events[|events| - 1])
  }

  // ---------------------------------------------------------------------------------------------
  // What a client sees
  // ---------------------------------------------------------------------------------------------

  /** `status` first asks the cache, and the database only on a miss. */
  datatype Answer = Hit(status: Status) | Miss

  function CacheAnswer(s: State, id: TaskId): Answer {
    if id in s.cache && s.cache[id] in s.results then Hit(s.results[s.cache[id]]) else Miss
  }

  predicate DbFinished(s: State, id: TaskId) { id in s.db ==> !s.db[id].Active() }

  /** task_finished as one call: the cache is read in state `s`, the database in state `t`. */
  predicate TaskFinished(s: State, t: State, id: TaskId) {
    match CacheAnswer(s, id)
    case Hit(status) => !status.Active()
    case Miss => DbFinished(t, id)
  }

  /** The one step that may take a task back to running: run_task entering it into the cache. */
  predicate Inserts(s: State, e: Event, id: TaskId) {
    e.Move? && e.tid in s.threads && s.threads[e.tid] == RunInsert(id) && id !in s.cache
  }

  // ---------------------------------------------------------------------------------------------
  // The invariant: whoever is about to evict has already persisted
  // ---------------------------------------------------------------------------------------------

  /** The end that each role may give a task. */
  function EndOf(role: Role): Status {
    match role
    case Finisher(ok) => if ok then SUCCESS else FAILURE
    case Killer => KILLED
  }

  ghost predicate ThreadInv(s: State, t: Thread) {
    match t
    case Mark(ref, status, role) => ref in s.results && status == EndOf(role)
    case KillStop(ref) => ref in s.results
    case Save(ref, _) => ref in s.results && !s.results[ref].Active()
    case Write(_, status, _) => !status.Active()
    case Evict(id, _) => DbFinished(s, id)
    case _ => true
  }

  ghost predicate Inv(s: State) {
    && (forall id :: id in s.cache ==> s.cache[id].id == id && s.cache[id] in s.results)
    && (forall tid :: tid in s.threads ==> ThreadInv(s, s.threads[tid]))
  }

  /** Finished results and records stay finished, and no object disappears. */
  ghost predicate Monotone(s: State, t: State) {
    && (forall ref :: ref in s.results ==>
          ref in t.results && (!s.results[ref].Active() ==> !t.results[ref].Active()))
    && (forall id :: DbFinished(s, id) ==> DbFinished(t, id))
  }

  lemma MoveMonotone(s: State, tid: nat, choice: nat)
    requires Inv(s) && tid in s.threads
    ensures Monotone(s, MoveThread(s, tid, s.threads[tid], choice))
  {
    assert ThreadInv(s, s.threads[tid]);
  }

  lemma BystanderInv(s: State, u: State, t: Thread)
    requires ThreadInv(s, t) && Monotone(s, u)
    ensures ThreadInv(u, t)
  {
  }

  lemma MoverInv(s: State, tid: nat, choice: nat)
    requires Inv(s) && tid in s.threads
    ensures var u := MoveThread(s, tid, s.threads[tid], choice);
            tid in u.threads && ThreadInv(u, u.threads[tid])
  {
    assert ThreadInv(s, s.threads[tid]);
  }

  lemma CacheInv(s: State, e: Event)
    requires Inv(s)
    ensures var u := Apply(s, e); forall id :: id in u.cache ==> u.cache[id].id == id && u.cache[id] in u.results
  {
  }

  lemma ApplyMonotone(s: State, e: Event)
    requires Inv(s)
    ensures Monotone(s, Apply(s, e))
  {
    if e.Move? && e.tid in s.threads {
      MoveMonotone(s, e.tid, e.choice);
    }
  }

  lemma ThreadsInv(s: State, e: Event, tid: nat)
    requires Inv(s) && Monotone(s, Apply(s, e)) && tid in Apply(s, e).threads
    ensures ThreadInv(Apply(s, e), Apply(s, e).threads[tid])
  {
    if tid in s.threads && Apply(s, e).threads[tid] == s.threads[tid] {
      BystanderInv(s, Apply(s, e), s.threads[tid]);
    } else if e.Move? {
      MoverInv(s, e.tid, e.choice);
    }
  }

  lemma {:induction false} ApplyKeepsInv(s: State, e: Event)
    requires Inv(s)
    ensures Inv(Apply(s, e)) && Monotone(s, Apply(s, e))
  {
    CacheInv(s, e);
    ApplyMonotone(s, e);
    forall tid | tid in Apply(s, e).threads ensures ThreadInv(Apply(s, e), Apply(s, e).threads[tid]) {
      ThreadsInv(s, e, tid);
    }
  }

  /** A settled id: the cached result is finished, or there is none and the record is. */
  predicate Settled(s: State, id: TaskId) { TaskFinished(s, s, id) }

  lemma {:induction false} ApplyKeepsSettled(s: State, e: Event, id: TaskId)
    requires Inv(s) && Settled(s, id) && !Inserts(s, e, id)
    ensures Settled(Apply(s, e), id)
  {
    ApplyKeepsInv(s, e);
    if e.Move? && e.tid in s.threads {
      assert ThreadInv(s, s.threads[e.tid]);
    }
  }

  /** No insertion of `id` happens in the run. */
  ghost predicate NoInsert(s: State, events: seq<Event>, id: TaskId) {
    forall k :: 0 <= k < |events| ==> !Inserts(Exec(s, events[..k]), events[k], id)
  }

  lemma NoInsertBefore(s: State, events: seq<Event>, id: TaskId)
    requires events != [] && NoInsert(s, events, id)
    ensures NoInsert(s, events[..|events| - 1], id)
    ensures !Inserts(Exec(s, events[..|events| - 1]), events[|events| - 1], id)
  {
    var before := events[..|events| - 1];
    forall k | 0 <= k < |before| ensures !Inserts(Exec(s, before[..k]), before[k], id) {
      assert before[..k] == events[..k];
    }
  }

  lemma {:induction false} ExecKeepsInv(s: State, events: seq<Event>)
    requires Inv(s)
    ensures Inv(Exec(s, events)) && Monotone(s, Exec(s, events))
  {
    if events == [] {
    } else {
      var u := Exec(s, events[..|events| - 1]);
      ExecKeepsInv(s, events[..|events| - 1]);
      ApplyKeepsInv(u, events[|events| - 1]);
      forall id | DbFinished(s, id) ensures DbFinished(Exec(s, events), id) {
        assert DbFinished(u, id);
      }
    }
  }

  lemma {:induction false} ExecKeepsSettled(s: State, events: seq<Event>, id: TaskId)
    requires Inv(s) && Settled(s, id) && NoInsert(s, events, id)
    ensures Settled(Exec(s, events), id)
  {
    if events == [] {
    } else {
      var before := events[..|events| - 1];
      NoInsertBefore(s, events, id);
      ExecKeepsSettled(s, before, id);
      ExecKeepsInv(s, before);
      ApplyKeepsSettled(Exec(s, before), events[|events| - 1], id);
    }
  }

  /** Without an insertion an id that is not cached stays so. */
  lemma {:induction false} ExecStaysMissing(s: State, events: seq<Event>, id: TaskId)
    requires id !in s.cache && NoInsert(s, events, id)
    ensures id !in Exec(s, events).cache
  {
    if events == [] {
    } else {
      NoInsertBefore(s, events, id);
      ExecStaysMissing(s, events[..|events| - 1], id);
      StaysMissing(Exec(s, events[..|events| - 1]), events[|events| - 1], id);
    }
  }

  lemma StaysMissing(s: State, e: Event, id: TaskId)
    requires id !in s.cache && !Inserts(s, e, id)
    ensures id !in Apply(s, e).cache
  {
  }

  /** Status is never stale. Once a call of task_finished has returned true, every later one does until
      run_task enters the id again, for every run before it and every interleaving. Neither call is
      taken as atomic: other threads move between its look into the cache and its look into the
      database, in `look` for the first call and in `gap` for the second. */
  lemma NeverStale(db: map<TaskId, Status>, past: seq<Event>, look: seq<Event>, wait: seq<Event>,
                   gap: seq<Event>, id: TaskId)
    requires var first := Exec(Init(db), past);
             && TaskFinished(first, Exec(first, look), id) && NoInsert(first, look, id)
             && NoInsert(Exec(first, look), wait, id)
    ensures var read := Exec(Exec(Exec(Init(db), past), look), wait);
            TaskFinished(read, Exec(read, gap), id)
  {
    var first := Exec(Init(db), past);
    var s := Exec(first, look);
    ExecKeepsInv(Init(db), past);
    ExecKeepsInv(first, look);
    if CacheAnswer(first, id).Hit? {
      ExecKeepsSettled(first, look, id);
    } else {
      ExecStaysMissing(first, look, id);
    }
    ExecKeepsSettled(s, wait, id);
    ExecKeepsInv(s, wait);
    ExecKeepsInv(Exec(s, wait), gap);
  }

  // ---------------------------------------------------------------------------------------------
  // Which end a task came to
  // ---------------------------------------------------------------------------------------------

  /** The thread is on its way to storing `id`, and what it would store is not `status`. */
  predicate WouldOverwrite(s: State, t: Thread, id: TaskId, status: Status) {
    match t
    case KillStop(ref) => ref.id == id && status != KILLED
    case Mark(ref, st, _) => ref.id == id && st != status
    case Save(ref, _) => ref.id == id && ref in s.results && s.results[ref] != status
    case Write(i, st, _) => i == id && st != status
    case _ => false
  }

  ghost predicate NothingPending(s: State, id: TaskId, status: Status) {
    forall tid :: tid in s.threads ==> !WouldOverwrite(s, s.threads[tid], id, status)
  }

  /** A task that has left the cache with `status` on record. */
  predicate Recorded(s: State, id: TaskId, status: Status) {
    id !in s.cache && id in s.db && s.db[id] == status
  }

  lemma PendingStep(s: State, e: Event, id: TaskId, status: Status, tid: nat)
    requires Inv(s) && Recorded(s, id, status) && NothingPending(s, id, status) && !Inserts(s, e, id)
    requires tid in Apply(s, e).threads
    ensures !WouldOverwrite(Apply(s, e), Apply(s, e).threads[tid], id, status)
  {
    if e.Move? && e.tid in s.threads {
      assert ThreadInv(s, s.threads[e.tid]) && !WouldOverwrite(s, s.threads[e.tid], id, status);
    }
    if tid in s.threads {
      assert ThreadInv(s, s.threads[tid]) && !WouldOverwrite(s, s.threads[tid], id, status);
    }
  }

  lemma ApplyKeepsRecord(s: State, e: Event, id: TaskId, status: Status)
    requires Inv(s) && Recorded(s, id, status) && NothingPending(s, id, status) && !Inserts(s, e, id)
    ensures Recorded(Apply(s, e), id, status) && NothingPending(Apply(s, e), id, status)
  {
    if e.Move? && e.tid in s.threads {
      assert !WouldOverwrite(s, s.threads[e.tid], id, status);
    }
    forall tid | tid in Apply(s, e).threads
      ensures !WouldOverwrite(Apply(s, e), Apply(s, e).threads[tid], id, status)
    {
      PendingStep(s, e, id, status, tid);
    }
  }

  lemma {:induction false} ExecKeepsRecord(s: State, events: seq<Event>, id: TaskId, status: Status)
    requires Inv(s) && Recorded(s, id, status) && NothingPending(s, id, status) && NoInsert(s, events, id)
    ensures Recorded(Exec(s, events), id, status) && NothingPending(Exec(s, events), id, status)
  {
    if events == [] {
    } else {
      NoInsertBefore(s, events, id);
      ExecKeepsRecord(s, events[..|events| - 1], id, status);
      ExecKeepsInv(s, events[..|events| - 1]);
      ApplyKeepsRecord(Exec(s, events[..|events| - 1]), events[|events| - 1], id, status);
    }
  }

  ghost predicate Overwrites(s: State, events: seq<Event>, id: TaskId, status: Status) {
    NoInsert(s, events, id) && !Recorded(Exec(s, events), id, status)
  }

  lemma {:induction false} ExecFirst(s: State, e: Event, events: seq<Event>)
    ensures Exec(s, [e] + events) == Exec(Apply(s, e), events)
    decreases |events|
  {
    if events == [] {
      assert [e] + events == [e] && [e][..0] == [];
      assert Exec(s, [e][..0]) == s;
    } else {
      var all, last := [e] + events, events[|events| - 1];
      assert all[..|all| - 1] == [e] + events[..|events| - 1];
      ExecFirst(s, e, events[..|events| - 1]);
    }
  }

  lemma OverwritesLater(s: State, e: Event, events: seq<Event>, id: TaskId, status: Status)
    requires !Inserts(s, e, id) && Overwrites(Apply(s, e), events, id, status)
    ensures Overwrites(s, [e] + events, id, status)
  {
    ExecFirst(s, e, events);
    forall k | 0 <= k < |[e] + events| ensures !Inserts(Exec(s, ([e] + events)[..k]), ([e] + events)[k], id) {
      NoInsertAt(s, e, events, id, k);
    }
  }

  lemma NoInsertAt(s: State, e: Event, events: seq<Event>, id: TaskId, k: nat)
    requires !Inserts(s, e, id) && NoInsert(Apply(s, e), events, id) && k < |[e] + events|
    ensures !Inserts(Exec(s, ([e] + events)[..k]), ([e] + events)[k], id)
  {
    var all := [e] + events;
    if k == 0 {
      assert all[..0] == [] && Exec(s, []) == s;
    } else {
      assert all[..k] == [e] + events[..k - 1];
      ExecFirst(s, e, events[..k - 1]);
      assert !Inserts(Exec(Apply(s, e), events[..k - 1]), events[k - 1], id);
    }
  }

  /** A thread on its way to storing another status, left alone, stores it. */
  lemma PendingOverwrites(s: State, tid: nat, id: TaskId, status: Status) returns (events: seq<Event>)
    requires Inv(s) && Recorded(s, id, status) && tid in s.threads
    requires WouldOverwrite(s, s.threads[tid], id, status)
    ensures Overwrites(s, events, id, status)
    decreases match s.threads[tid] case KillStop(_) => 3 case Mark(_, _, _) => 2 case Save(_, _) => 1 case _ => 0
  {
    var move := Move(tid, 0);
    var t := Apply(s, move);
    ApplyKeepsInv(s, move);
    if s.threads[tid].Write? {
      events := [];
      assert t.db[id] != status;
      assert Exec(t, []) == t;
    } else {
      assert Recorded(t, id, status);
      events := PendingOverwrites(t, tid, id, status);
    }
    OverwritesLater(s, move, events, id, status);
    events := [move] + events;
  }

  /** The record of a task that has left the cache stays what it is, in every continuation in which
      run_task does not enter the id again, if and only if no thread is on its way to storing another
      status for it. */
  lemma RecordIsFinal(s: State, id: TaskId, status: Status)
    requires Inv(s) && Recorded(s, id, status)
    ensures (forall events :: !Overwrites(s, events, id, status)) <==> NothingPending(s, id, status)
  {
    if NothingPending(s, id, status) {
      forall events ensures !Overwrites(s, events, id, status) {
        if NoInsert(s, events, id) {
          ExecKeepsRecord(s, events, id, status);
        }
      }
    } else {
      var tid :| tid in s.threads && WouldOverwrite(s, s.threads[tid], id, status);
      var events := PendingOverwrites(s, tid, id, status);
    }
  }

  /** Worker 0 enters the task, killer 1 finds it running, and then worker 0 alone runs it to its end. */
  function LateKill(id: TaskId): seq<Event> {
    [Spawn(0, RunLook(id)), Move(0, 0), Move(0, 0), Spawn(1, KillLook(id)), Move(1, 0), Move(0, 0)] + Moves(5)
  }

  function Moves(k: nat): seq<Event> { if k == 0 then [] else [Move(0, 0)] + Moves(k - 1) }

  /** Worker 0, whose handler ended with `ok`, has k moves to make until that end is on record and the
      task out of the cache. */
  ghost predicate Ending(s: State, id: TaskId, ref: Ref, ok: bool, k: nat) {
    var end := if ok then SUCCESS else FAILURE;
    && ref.id == id && id in s.db && 0 in s.threads
    && (k > 0 ==> id in s.cache && s.cache[id] == ref)
    && match k
       case 0 => Recorded(s, id, end)
       case 1 => s.threads[0] == Evict(id, Finisher(ok)) && s.db[id] == end
       case 2 => s.threads[0] == Write(id, end, Finisher(ok))
       case 3 => s.threads[0] == Save(ref, Finisher(ok)) && ref in s.results && s.results[ref] == end
       case 4 => s.threads[0] == Mark(ref, end, Finisher(ok))
       case 5 => s.threads[0] == FinishLook(id, ok)
       case _ => false
  }

  lemma EndingStep(s: State, id: TaskId, ref: Ref, ok: bool, k: nat)
    requires Ending(s, id, ref, ok, k) && k > 0
    ensures Ending(Apply(s, Move(0, 0)), id, ref, ok, k - 1)
    ensures forall tid :: tid in s.threads && tid != 0 ==>
              tid in Apply(s, Move(0, 0)).threads && Apply(s, Move(0, 0)).threads[tid] == s.threads[tid]
  {
  }

  /** Left alone, a worker puts its handler's outcome on record, a failure as well as a success. */
  lemma {:induction false} WorkerEnds(s: State, id: TaskId, ref: Ref, ok: bool, k: nat)
    requires Ending(s, id, ref, ok, k)
    ensures var t := Exec(s, Moves(k));
            && Recorded(t, id, if ok then SUCCESS else FAILURE)
            && forall other :: other in s.threads && other != 0 ==>
                 other in t.threads && t.threads[other] == s.threads[other]
    decreases k
  {
    if k > 0 {
      EndingStep(s, id, ref, ok, k);
      ExecFirst(s, Move(0, 0), Moves(k - 1));
      WorkerEnds(Apply(s, Move(0, 0)), id, ref, ok, k - 1);
    }
  }

  /** It happens: in this run SUCCESS is stored and the task has left the cache, and the killer is still
      on its way to storing KILLED. */
  lemma LateKillReachable(id: TaskId)
    ensures var s := Exec(Init(map[id := PENDING]), LateKill(id));
            && Recorded(s, id, SUCCESS)
            && 1 in s.threads && s.threads[1] == KillStop(Ref(id, 0))
            && !NothingPending(s, id, SUCCESS)
  {
    var e, s := LateKill(id), Init(map[id := PENDING]);
    var s1 := Apply(s, e[0]);
    var s2 := Apply(s1, e[1]);
    var s3 := Apply(s2, e[2]);
    var s4 := Apply(s3, e[3]);
    var s5 := Apply(s4, e[4]);
    var s6 := Apply(s5, e[5]);
    assert s3.threads[0] == Working(id) && s3.results == map[Ref(id, 0) := RUNNING];
    assert s5.threads[1] == KillStop(Ref(id, 0));
    assert e == [e[0]] + ([e[1]] + ([e[2]] + ([e[3]] + ([e[4]] + ([e[5]] + Moves(5))))));
    ExecFirst(s, e[0], [e[1]] + ([e[2]] + ([e[3]] + ([e[4]] + ([e[5]] + Moves(5))))));
    ExecFirst(s1, e[1], [e[2]] + ([e[3]] + ([e[4]] + ([e[5]] + Moves(5)))));
    ExecFirst(s2, e[2], [e[3]] + ([e[4]] + ([e[5]] + Moves(5))));
    ExecFirst(s3, e[3], [e[4]] + ([e[5]] + Moves(5)));
    ExecFirst(s4, e[4], [e[5]] + Moves(5));
    ExecFirst(s5, e[5], Moves(5));
    WorkerEnds(s6, id, Ref(id, 0), true, 5);
    var t := Exec(s, e);
    assert WouldOverwrite(t, t.threads[1], id, SUCCESS);
  }

  /** The killer's next moves store KILLED over whatever is on record. */
  lemma LateKillOverwrites(s: State, tid: nat, ref: Ref)
    requires tid in s.threads && s.threads[tid] == KillStop(ref) && ref.id in s.db
    ensures var move := Move(tid, 0);
            Apply(Apply(Apply(Apply(s, move), move), move), move).db == s.db[ref.id := KILLED]
  {
    var move := Move(tid, 0);
    var s1 := Apply(s, move);
    var s2 := Apply(s1, move);
    assert s2.threads[tid] == Save(ref, Killer) && s2.results[ref] == KILLED;
    var s3 := Apply(s2, move);
    assert s3.threads[tid] == Write(ref.id, KILLED, Killer) && s3.db == s.db;
  }
}
