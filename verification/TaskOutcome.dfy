/** Which end is stored: the steps of TaskLifecycle, followed for one task id from its handler's outcome to
    its record. */
module TaskOutcome {
  import opened TaskLifecycle

  /** In every reachable state a thread gives a task the end that its role stands for. */
  lemma {:induction false} MarksByRole(db: map<TaskId, Status>, events: seq<Event>, tid: nat)
    requires tid in Exec(Init(db), events).threads && Exec(Init(db), events).threads[tid].Mark?
    ensures match Exec(Init(db), events).threads[tid]
            case Mark(_, status, Finisher(true)) => status == SUCCESS
            case Mark(_, status, Finisher(false)) => status == FAILURE
            case Mark(_, status, Killer) => status == KILLED
  {
    ExecKeepsInv(Init(db), events);
    assert ThreadInv(Exec(Init(db), events), Exec(Init(db), events).threads[tid]);
  }

  /** No record is ever created or removed. */
  lemma {:induction false} RecordsStay(s: State, events: seq<Event>)
    ensures Exec(s, events).db.Keys == s.db.Keys
  {
    if events == [] {
    } else {
      RecordsStay(s, events[..|events| - 1]);
      RecordsStayOnce(Exec(s, events[..|events| - 1]), events[|events| - 1]);
    }
  }

  lemma RecordsStayOnce(s: State, e: Event)
    ensures Apply(s, e).db.Keys == s.db.Keys
  {
    if e.Move? && e.tid in s.threads {
      assert NextData(s, s.threads[e.tid], e.choice).db.Keys == s.db.Keys;
    }
  }

  /** run_task leaves a task alone whose record says RUNNING, and otherwise goes on to enter it. */
  lemma RunLooksAtRecord(s: State, tid: nat, id: TaskId, choice: nat)
    requires tid in s.threads && s.threads[tid] == RunLook(id)
    ensures var t := Apply(s, Move(tid, choice));
            && t == s.(threads := t.threads)
            && (t.threads[tid] == RunInsert(id) <==> id !in s.db || s.db[id] != RUNNING)
            && (t.threads[tid] == Dead <==> id in s.db && s.db[id] == RUNNING)
  {
  }

  /** kill_one_task goes on exactly if the task is cached and RUNNING. */
  lemma KillLooksAtCache(s: State, tid: nat, id: TaskId, choice: nat)
    requires tid in s.threads && s.threads[tid] == KillLook(id)
    ensures var t := Apply(s, Move(tid, choice));
            && t == s.(threads := t.threads)
            && (t.threads[tid].KillStop? <==> CacheAnswer(s, id) == Hit(RUNNING))
            && (t.threads[tid].KillStop? ==> t.threads[tid].ref == s.cache[id])
            && (!t.threads[tid].KillStop? ==> t.threads[tid] == Dead)
  {
  }

  /** What task_finished says, in every reachable state: false exactly while the task is cached and PENDING
      or RUNNING, or is not cached and its record says so. */
  lemma {:induction false} FinishedMeans(db: map<TaskId, Status>, events: seq<Event>, id: TaskId)
    ensures var s := Exec(Init(db), events);
            !TaskFinished(s, s, id) <==>
              if id in s.cache then s.cache[id] in s.results && s.results[s.cache[id]] in {PENDING, RUNNING}
              else id in s.db && s.db[id] in {PENDING, RUNNING}
  {
    ExecKeepsInv(Init(db), events);
  }

  /** An exception while a success is being reported turns it into a failure, which worker 0, left alone,
      puts on record; after the task has left the cache it turns the task's next run into one. */
  lemma RaiseStoresFailure(s: State, id: TaskId, ref: Ref, k: nat)
    requires (Ending(s, id, ref, true, k) && k > 0)
             || (ref.id == id && id in s.db && id in s.cache && s.cache[id] == ref
                 && 0 in s.threads && s.threads[0] == Report(id))
    ensures Recorded(Exec(Apply(s, Raise(0)), Moves(5)), id, FAILURE)
  {
    WorkerEnds(Apply(s, Raise(0)), id, ref, false, 5);
  }

  /** A pop of a task that is no longer cached changes nothing; only the report of a success goes on. */
  lemma EvictMissing(s: State, tid: nat, id: TaskId, role: Role, choice: nat)
    requires tid in s.threads && s.threads[tid] == Evict(id, role) && id !in s.cache
    ensures Apply(s, Move(tid, choice))
            == s.(threads := s.threads[tid := if role == Finisher(true) then FinishLook(id, false) else Dead])
  {
    assert s.cache - {id} == s.cache;
  }

  // ---------------------------------------------------------------------------------------------
  // The stored end is the handler's outcome
  // ---------------------------------------------------------------------------------------------

  function Outcome(ok: bool): Status { if ok then SUCCESS else FAILURE }

  /** The step does not kill `id` or raise an exception while its success is being reported, and if it
      ends a handler of `id` then with outcome `ok`. */
  predicate Undisturbed(s: State, e: Event, id: TaskId, ok: bool) {
    match e
    case Spawn(_, t) => t != KillLook(id)
    case Move(tid, choice) => tid in s.threads && s.threads[tid] == Working(id) ==> (choice == 0) == ok
    case Raise(tid) => tid in s.threads && ok ==> Raised(s.threads[tid]) != FinishLook(id, false)
    case Die(_) => true
  }

  /** The thread works on `id` between entering the cache and leaving it. */
  predicate Works(t: Thread, id: TaskId) {
    match t
    case Working(i) => i == id
    case FinishLook(i, _) => i == id
    case Mark(ref, _, _) => ref.id == id
    case Save(ref, _) => ref.id == id
    case Write(i, _, _) => i == id
    case Evict(i, _) => i == id
    case _ => false
  }

  /** Where a worker of `id` may be, and what it holds. */
  predicate OnTrack(s: State, t: Thread, id: TaskId, ok: bool) {
    match t
    case Working(i) => i == id ==> id in s.cache
    case FinishLook(i, b) => i == id ==> b == ok && id in s.cache
    case Mark(ref, status, role) =>
      ref.id == id ==> role == Finisher(ok) && status == Outcome(ok) && id in s.cache
    case Save(ref, role) =>
      ref.id == id ==> role == Finisher(ok) && id in s.cache && ref in s.results && s.results[ref] == Outcome(ok)
    case Write(i, status, role) => i == id ==> role == Finisher(ok) && status == Outcome(ok) && id in s.cache
    case Evict(i, role) =>
      i == id ==> role == Finisher(ok) && id in s.cache && id in s.db && s.db[id] == Outcome(ok)
    case Report(i) => i == id ==> ok
    case KillLook(i) => i != id
    case KillStop(ref) => ref.id != id
    case _ => true
  }

  ghost predicate TrackInv(s: State, id: TaskId, ok: bool, initial: Status) {
    && Inv(s) && id in s.db && (s.db[id] == initial || s.db[id] == Outcome(ok))
    && (forall tid :: tid in s.threads ==> OnTrack(s, s.threads[tid], id, ok))
    && (forall i, j :: i in s.threads && j in s.threads && Works(s.threads[i], id) && Works(s.threads[j], id) ==> i == j)
  }

  lemma AloneStep(s: State, e: Event, id: TaskId, ok: bool, initial: Status, i: nat)
    requires TrackInv(s, id, ok, initial) && Undisturbed(s, e, id, ok)
    requires i in Apply(s, e).threads && Works(Apply(s, e).threads[i], id)
    ensures (i in s.threads && Works(s.threads[i], id))
            || (e.Move? && i == e.tid && s.threads[i] == RunInsert(id) && id !in s.cache)
  {
    if i in s.threads {
      assert OnTrack(s, s.threads[i], id, ok) && ThreadInv(s, s.threads[i]);
    }
  }

  lemma OnTrackMove(s: State, tid: nat, choice: nat, id: TaskId, ok: bool, initial: Status)
    requires TrackInv(s, id, ok, initial) && Undisturbed(s, Move(tid, choice), id, ok) && tid in s.threads
    ensures OnTrack(NextData(s, s.threads[tid], choice), NextThread(s, s.threads[tid], choice), id, ok)
  {
    assert OnTrack(s, s.threads[tid], id, ok) && ThreadInv(s, s.threads[tid]);
  }

  lemma OnTrackMover(s: State, e: Event, id: TaskId, ok: bool, initial: Status)
    requires TrackInv(s, id, ok, initial) && Undisturbed(s, e, id, ok) && e.tid in Apply(s, e).threads
    ensures OnTrack(Apply(s, e), Apply(s, e).threads[e.tid], id, ok)
  {
    if e.tid in s.threads {
      assert OnTrack(s, s.threads[e.tid], id, ok);
      if e.Move? {
        OnTrackMove(s, e.tid, e.choice, id, ok, initial);
      }
    }
  }

  lemma OnTrackOther(s: State, e: Event, id: TaskId, ok: bool, initial: Status, i: nat)
    requires TrackInv(s, id, ok, initial) && Undisturbed(s, e, id, ok) && i != e.tid && i in Apply(s, e).threads
    ensures OnTrack(Apply(s, e), Apply(s, e).threads[i], id, ok)
  {
    assert i in s.threads && Apply(s, e).threads[i] == s.threads[i];
    assert OnTrack(s, s.threads[i], id, ok);
    if e.Move? && e.tid in s.threads {
      assert OnTrack(s, s.threads[e.tid], id, ok) && ThreadInv(s, s.threads[e.tid]);
      assert Works(s.threads[i], id) ==> !Works(s.threads[e.tid], id);
    }
  }

  lemma TrackStep(s: State, e: Event, id: TaskId, ok: bool, initial: Status)
    requires TrackInv(s, id, ok, initial) && Undisturbed(s, e, id, ok)
    ensures TrackInv(Apply(s, e), id, ok, initial)
    ensures id in s.cache && id !in Apply(s, e).cache ==> Apply(s, e).db[id] == Outcome(ok)
    ensures s.db[id] == Outcome(ok) ==> Apply(s, e).db[id] == Outcome(ok)
  {
    var t := Apply(s, e);
    ApplyKeepsInv(s, e);
    forall i | i in t.threads ensures OnTrack(t, t.threads[i], id, ok) {
      if i == e.tid {
        OnTrackMover(s, e, id, ok, initial);
      } else {
        OnTrackOther(s, e, id, ok, initial, i);
      }
    }
    forall i, j | i in t.threads && j in t.threads && Works(t.threads[i], id) && Works(t.threads[j], id) ensures i == j {
      AloneKept(s, e, id, ok, initial, i, j);
    }
    RecordStep(s, e, id, ok, initial);
  }

  lemma AloneKept(s: State, e: Event, id: TaskId, ok: bool, initial: Status, i: nat, j: nat)
    requires TrackInv(s, id, ok, initial) && Undisturbed(s, e, id, ok)
    requires i in Apply(s, e).threads && Works(Apply(s, e).threads[i], id)
    requires j in Apply(s, e).threads && Works(Apply(s, e).threads[j], id)
    ensures i == j
  {
    AloneStep(s, e, id, ok, initial, i);
    AloneStep(s, e, id, ok, initial, j);
    if i in s.threads && Works(s.threads[i], id) {
      assert OnTrack(s, s.threads[i], id, ok);
    }
    if j in s.threads && Works(s.threads[j], id) {
      assert OnTrack(s, s.threads[j], id, ok);
    }
  }

  lemma RecordStep(s: State, e: Event, id: TaskId, ok: bool, initial: Status)
    requires TrackInv(s, id, ok, initial) && Undisturbed(s, e, id, ok)
    ensures id in Apply(s, e).db && (Apply(s, e).db[id] == s.db[id] || Apply(s, e).db[id] == Outcome(ok))
    ensures id in s.cache && id !in Apply(s, e).cache ==> Apply(s, e).db[id] == Outcome(ok)
  {
    if e.Move? && e.tid in s.threads {
      assert OnTrack(s, s.threads[e.tid], id, ok);
    }
  }

  ghost predicate UndisturbedRun(s: State, events: seq<Event>, id: TaskId, ok: bool) {
    forall k :: 0 <= k < |events| ==> Undisturbed(Exec(s, events[..k]), events[k], id, ok)
  }

  /** The id was in the cache at some point of the run. */
  ghost predicate WasCached(s: State, events: seq<Event>, id: TaskId) {
    exists k :: 0 <= k <= |events| && id in Exec(s, events[..k]).cache
  }

  lemma UndisturbedBefore(s: State, events: seq<Event>, id: TaskId, ok: bool)
    requires events != [] && UndisturbedRun(s, events, id, ok)
    ensures UndisturbedRun(s, events[..|events| - 1], id, ok)
    ensures Undisturbed(Exec(s, events[..|events| - 1]), events[|events| - 1], id, ok)
    ensures WasCached(s, events, id) ==>
              WasCached(s, events[..|events| - 1], id) || id in Exec(s, events).cache
  {
    var before := events[..|events| - 1];
    forall k | 0 <= k < |before| ensures Undisturbed(Exec(s, before[..k]), before[k], id, ok) {
      assert before[..k] == events[..k];
    }
    WasCachedBefore(s, events, id);
  }

  lemma WasCachedBefore(s: State, events: seq<Event>, id: TaskId)
    requires events != []
    ensures WasCached(s, events, id) ==>
              WasCached(s, events[..|events| - 1], id) || id in Exec(s, events).cache
  {
    var before := events[..|events| - 1];
    if k :| 0 <= k <= |events| && id in Exec(s, events[..k]).cache {
      if k == |events| {
        assert events[..k] == events;
      } else {
        assert before[..k] == events[..k];
      }
    }
  }

  /** Over every run in which no kill of `id` is requested, nothing is raised while a success of it is
      reported, and its handlers all end with the same outcome, whatever else other tasks and deaths of
      threads do: the record holds its first value or that outcome, and once the task has been in the
      cache and has left it, the outcome. */
  lemma {:induction false} OutcomeStored(db: map<TaskId, Status>, events: seq<Event>, id: TaskId, ok: bool)
    requires id in db && UndisturbedRun(Init(db), events, id, ok)
    ensures TrackInv(Exec(Init(db), events), id, ok, db[id])
    ensures WasCached(Init(db), events, id) && id !in Exec(Init(db), events).cache ==>
              Exec(Init(db), events).db[id] == if ok then SUCCESS else FAILURE
  {
    if events == [] {
      assert forall k :: 0 <= k <= 0 ==> events[..k] == [];
    } else {
      var before := events[..|events| - 1];
      UndisturbedBefore(Init(db), events, id, ok);
      OutcomeStored(db, before, id, ok);
      TrackStep(Exec(Init(db), before), events[|events| - 1], id, ok, db[id]);
    }
  }
}
