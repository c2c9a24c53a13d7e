/** cpp/wedpr-computing/ppc-mpc/src/MPCService.cpp: the job table, and the drivers that submit, run
    and kill jobs. Every method below runs under the one mutex, so it is one step of a run. */
module JobTable {

  type JobId = string

  datatype Status = RUNNING | COMPLETED | FAILED | KILLED

  datatype Table = Table(job2Status: map<JobId, Status>, runningJobs: set<JobId>) {
    predicate IsRunning(id: JobId) { id in job2Status && job2Status[id] == RUNNING }

    function Add(id: JobId): Table {
      if IsRunning(id) then this
      else Table(job2Status[id := RUNNING], runningJobs + {id})
    }

    /** onFinish, onFailed and onKill differ only in the status they leave. */
    function End(id: JobId, status: Status): Table {
      Table(if id in job2Status then job2Status[id := status] else job2Status, runningJobs - {id})
    }

    /** The running set is exactly the ids whose status says so. */
    ghost predicate Consistent() {
      forall id :: id in runningJobs <==> IsRunning(id)
    }
  }

  /** The table as the service holds it. */
  class MPCService {
    var job2Status: map<JobId, Status>
    var runningJobs: set<JobId>

    function Contents(): Table
      reads this
    {
      Table(job2Status, runningJobs)
    }

    constructor ()
      ensures Contents() == Table(map[], {}) && Contents().Consistent()
    {
      job2Status, runningJobs := map[], {};
    }

    method AddJobIfNotRunning(id: JobId) returns (added: bool)
      requires Contents().Consistent()
      modifies this
      ensures Contents() == old(Contents()).Add(id) && Contents().Consistent()
      ensures added == !old(Contents()).IsRunning(id)
      ensures Contents().IsRunning(id)
    {
      if id in job2Status {
        if job2Status[id] == RUNNING {
          return false;
        }
        job2Status := job2Status - {id};
      }
      job2Status := job2Status[id := RUNNING];
      runningJobs := runningJobs + {id};
      assert job2Status == old(job2Status)[id := RUNNING];
      return true;
    }

    method OnFinish(id: JobId)
      requires Contents().Consistent()
      modifies this
      ensures Contents() == old(Contents()).End(id, COMPLETED) && Contents().Consistent()
      ensures job2Status == if id in old(job2Status) then old(job2Status)[id := COMPLETED] else old(job2Status)
      ensures runningJobs == old(runningJobs) - {id}
    {
      runningJobs := runningJobs - {id};
      if id !in job2Status {
        return;
      }
      job2Status := job2Status[id := COMPLETED];
    }

    method OnFailed(id: JobId)
      requires Contents().Consistent()
      modifies this
      ensures Contents() == old(Contents()).End(id, FAILED) && Contents().Consistent()
      ensures job2Status == if id in old(job2Status) then old(job2Status)[id := FAILED] else old(job2Status)
      ensures runningJobs == old(runningJobs) - {id}
    {
      runningJobs := runningJobs - {id};
      if id !in job2Status {
        return;
      }
      job2Status := job2Status[id := FAILED];
    }

    method OnKill(id: JobId)
      requires Contents().Consistent()
      modifies this
      ensures Contents() == old(Contents()).End(id, KILLED) && Contents().Consistent()
      ensures job2Status == if id in old(job2Status) then old(job2Status)[id := KILLED] else old(job2Status)
      ensures runningJobs == old(runningJobs) - {id}
    {
      runningJobs := runningJobs - {id};
      if id !in job2Status {
        return;
      }
      job2Status := job2Status[id := KILLED];
    }

    method QueryJobStatus(id: JobId) returns (found: bool, status: Status)
      ensures found <==> id in Contents().job2Status
      ensures found ==> status == Contents().job2Status[id]
    {
      found, status := id in job2Status, FAILED;
      if found {
        status := job2Status[id];
      }
    }
  }

  // ---------------------------------------------------------------------------------------------
  // Runs of the service, watched for one job id
  // ---------------------------------------------------------------------------------------------

  datatype Event =
    | Submit(id: JobId, sync: bool)             // runMpcRpc or asyncRunMpcRpc, up to the start of doRun
    | RunEnds(id: JobId, sync: bool, ok: bool)  // doRun returned or threw
    | Kill(id: JobId)                           // doKill, when the command succeeded

  /** Counts for the watched id: submissions accepted, calls of onFinish and onFailed, synchronous runs
      that threw, runs of either kind in flight, and kills. */
  datatype Book = Book(accepted: nat, ended: nat, thrown: nat, asyncRuns: nat, syncRuns: nat, kills: nat) {
    function InFlight(): nat { asyncRuns + syncRuns }
  }

  datatype State = State(table: Table, book: Book)

  const INITIAL: State := State(Table(map[], {}), Book(0, 0, 0, 0, 0, 0))

  /** A run can end only if it is in flight; that is asked of the watched id, on which all counts are. */
  predicate Enabled(watch: JobId, s: State, e: Event) {
    match e
    case RunEnds(id, sync, _) => id == watch ==> (if sync then s.book.syncRuns else s.book.asyncRuns) > 0
    case _ => true
  }

  /** A synchronous run that throws reaches neither onFinish nor onFailed. */
  function NextTable(t: Table, e: Event): Table {
    match e
    case Submit(id, _) => t.Add(id)
    case RunEnds(id, sync, ok) =>
      if ok then t.End(id, COMPLETED) else if sync then t else t.End(id, FAILED)
    case Kill(id) => t.End(id, KILLED)
  }

  function NextBook(watch: JobId, t: Table, b: Book, e: Event): Book
    requires Enabled(watch, State(t, b), e)
  {
    if e.id != watch then b
    else
      match e
      case Submit(_, sync) =>
        if t.IsRunning(watch) then b
        else if sync then b.(accepted := b.accepted + 1, syncRuns := b.syncRuns + 1)
        else b.(accepted := b.accepted + 1, asyncRuns := b.asyncRuns + 1)
      case RunEnds(_, sync, ok) =>
        if !sync then b.(ended := b.ended + 1, asyncRuns := b.asyncRuns - 1)
        else if ok then b.(ended := b.ended + 1, syncRuns := b.syncRuns - 1)
        else b.(thrown := b.thrown + 1, syncRuns := b.syncRuns - 1)
      case Kill(_) => b.(kills := b.kills + 1)
  }

  function Step(watch: JobId, s: State, e: Event): State
    requires Enabled(watch, s, e)
  {
    State(NextTable(s.table, e), NextBook(watch, s.table, s.book, e))
  }

  /** The state after a run; an event that cannot happen is skipped. */
  function Exec(watch: JobId, s: State, events: seq<Event>): State {
    if events == [] then s
    else
      var u := Exec(watch, s, events[..|events| - 1]);
      if Enabled(watch, u, events[|events| - 1]) then Step(watch, u, events[|events| - 1]) else u
  }

  function One(b: bool): nat { if b then 1 else 0 }

  ghost predicate Inv(watch: JobId, s: State) {
    && s.table.Consistent()
    && s.book.accepted == s.book.ended + s.book.thrown + s.book.InFlight()
    && s.book.InFlight() <= One(s.table.IsRunning(watch)) + s.book.kills
    && (s.book.kills == 0 ==> s.book.InFlight() + s.book.thrown == One(s.table.IsRunning(watch)))
  }

  lemma {:induction false} StepKeepsInv(watch: JobId, s: State, e: Event)
    requires Inv(watch, s) && Enabled(watch, s, e)
    ensures Inv(watch, Step(watch, s, e))
  {
    var t := NextTable(s.table, e);
    assert e.id != watch ==> t.IsRunning(watch) == s.table.IsRunning(watch);
    match e
    case Submit(_, _) =>
    case RunEnds(_, _, _) =>
    case Kill(_) =>
  }

  lemma {:induction false} ExecKeepsInv(watch: JobId, s: State, events: seq<Event>)
    requires Inv(watch, s)
    ensures Inv(watch, Exec(watch, s, events))
  {
    if events == [] {
    } else {
      ExecKeepsInv(watch, s, events[..|events| - 1]);
      var u := Exec(watch, s, events[..|events| - 1]);
      if Enabled(watch, u, events[|events| - 1]) {
        StepKeepsInv(watch, u, events[|events| - 1]);
      }
    }
  }

  lemma {:induction false} FreshInv(watch: JobId, t: Table, b: Book)
    requires t == Table(map[], {}) && b.accepted == b.ended == b.thrown == b.InFlight() == b.kills
    requires b.kills == 0
    ensures Inv(watch, State(t, b))
  {
    assert !t.IsRunning(watch);
  }

  lemma {:induction false} RunInv(watch: JobId, events: seq<Event>)
    ensures Inv(watch, Exec(watch, INITIAL, events))
  {
    FreshInv(watch, INITIAL.table, INITIAL.book);
    ExecKeepsInv(watch, INITIAL, events);
  }

  /** Over every run, kills and synchronous runs included: the running set is the set of RUNNING ids;
      every accepted submission has ended, has thrown or is in flight; and at most one doRun is in
      flight beyond the number of kills. */
  lemma {:induction false} EveryRun(watch: JobId, events: seq<Event>)
    ensures var s := Exec(watch, INITIAL, events);
            && s.table.Consistent()
            && s.book.accepted == s.book.ended + s.book.thrown + s.book.InFlight()
            && s.book.InFlight() <= One(s.table.IsRunning(watch)) + s.book.kills
  {
    RunInv(watch, events);
  }

  /** The status that an event leaves its job with, if it changes it. */
  function Leaves(e: Event): Status {
    match e
    case Submit(_, _) => RUNNING
    case RunEnds(_, sync, ok) => if ok then COMPLETED else if sync then RUNNING else FAILED
    case Kill(_) => KILLED
  }

  /** Event k happens, is about the job, and can change its status. */
  ghost predicate Touches(watch: JobId, s: State, events: seq<Event>, k: nat)
    requires k < |events|
  {
    var now := Exec(watch, s, events[..k]);
    && events[k].id == watch && Enabled(watch, now, events[k])
    && events[k] != RunEnds(watch, true, false)
    && (events[k].Submit? || watch in now.table.job2Status)
  }

  ghost predicate LastTouch(watch: JobId, s: State, events: seq<Event>, k: int) {
    && 0 <= k < |events| && Touches(watch, s, events, k)
    && forall l :: k < l < |events| ==> !Touches(watch, s, events, l)
  }

  /** The job's status is the one that event k left, the last that touched it. */
  ghost predicate StatusFrom(watch: JobId, s: State, events: seq<Event>, known: map<JobId, Status>, k: int) {
    LastTouch(watch, s, events, k) && watch in known && known[watch] == Leaves(events[k])
  }

  /** What a query answers after any run of a service that starts without jobs: the status left by the last
      event that touched the job, whatever other jobs did meanwhile; and nothing if none has. */
  lemma {:induction false} StatusIsLast(watch: JobId, s: State, events: seq<Event>)
    requires s.table.job2Status == map[]
    ensures var known := Exec(watch, s, events).table.job2Status;
            if watch in known then exists k :: StatusFrom(watch, s, events, known, k)
            else forall k :: 0 <= k < |events| ==> !Touches(watch, s, events, k)
  {
    if events == [] {
    } else {
      var last := |events| - 1;
      var before, known := events[..last], Exec(watch, s, events).table.job2Status;
      StatusIsLast(watch, s, before);
      StatusStep(watch, s, events);
      if Touches(watch, s, events, last) {
        assert StatusFrom(watch, s, events, known, last);
      } else {
        var was := Exec(watch, s, before).table.job2Status;
        forall k | 0 <= k < last ensures Touches(watch, s, before, k) == Touches(watch, s, events, k) {
          TouchesBefore(watch, s, events, k);
        }
        if watch in was {
          var k :| StatusFrom(watch, s, before, was, k);
          assert StatusFrom(watch, s, events, known, k);
        }
      }
    }
  }

  lemma TouchesBefore(watch: JobId, s: State, events: seq<Event>, k: nat)
    requires k < |events| - 1
    ensures Touches(watch, s, events[..|events| - 1], k) == Touches(watch, s, events, k)
  {
    assert events[..|events| - 1][..k] == events[..k];
  }

  lemma StatusStep(watch: JobId, s: State, events: seq<Event>)
    requires events != []
    ensures var last := |events| - 1;
            var was, now := Exec(watch, s, events[..last]).table.job2Status, Exec(watch, s, events).table.job2Status;
            if Touches(watch, s, events, last)
            then watch in now && now[watch] == Leaves(events[last])
            else (watch in now <==> watch in was) && (watch in was ==> now[watch] == was[watch])
  {
  }

  lemma {:induction false} CountsEvents(watch: JobId, events: seq<Event>)
    ensures Kill(watch) !in events ==> Exec(watch, INITIAL, events).book.kills == 0
    ensures RunEnds(watch, true, false) !in events ==> Exec(watch, INITIAL, events).book.thrown == 0
  {
    if events == [] {
    } else {
      CountsEvents(watch, events[..|events| - 1]);
      assert events[|events| - 1] in events;
    }
  }

  /** Runs without a kill of the job. The accepted submissions are those that onFinish or onFailed ended,
      plus one if the job is RUNNING. The job is RUNNING exactly while its one doRun is in flight, if and
      only if no synchronous run of it has thrown; such a run is the only thing that breaks it, and
      does so at once. */
  lemma {:induction false} KillFreeRuns(watch: JobId, events: seq<Event>)
    requires Kill(watch) !in events
    ensures var s := Exec(watch, INITIAL, events);
            && s.book.accepted == s.book.ended + One(s.table.IsRunning(watch))
            && s.book.InFlight() <= 1
            && (s.book.InFlight() == One(s.table.IsRunning(watch)) <==> s.book.thrown == 0)
            && (RunEnds(watch, true, false) !in events ==> s.book.thrown == 0)
  {
    RunInv(watch, events);
    CountsEvents(watch, events);
  }

  /** The converse: a synchronous run in flight that throws leaves a RUNNING job with nothing in flight. */
  lemma {:induction false} ThrowBreaks(watch: JobId, events: seq<Event>)
    requires Kill(watch) !in events
    requires Enabled(watch, Exec(watch, INITIAL, events), RunEnds(watch, true, false))
    ensures var s := Exec(watch, INITIAL, events + [RunEnds(watch, true, false)]);
            s.table.IsRunning(watch) && s.book.InFlight() == 0
  {
    RunInv(watch, events);
    CountsEvents(watch, events);
    ExecLast(watch, INITIAL, events, RunEnds(watch, true, false));
  }

  /** A synchronous run that throws leaves its job RUNNING with nothing in flight; from then on every
      submission of it is refused, until it is killed. */
  lemma {:induction false} FailedSyncRunSticks(watch: JobId, s: State, events: seq<Event>)
    requires s.table.IsRunning(watch) && s.book.InFlight() == 0
    requires Kill(watch) !in events
    ensures var t := Exec(watch, s, events);
            t.table.IsRunning(watch) && t.book == s.book
  {
    if events == [] {
    } else {
      FailedSyncRunSticks(watch, s, events[..|events| - 1]);
      assert events[|events| - 1] in events;
    }
  }

  lemma ExecLast(watch: JobId, s: State, events: seq<Event>, e: Event)
    requires Enabled(watch, Exec(watch, s, events), e)
    ensures Exec(watch, s, events + [e]) == Step(watch, Exec(watch, s, events), e)
  {
    assert (events + [e])[..|events|] == events;
  }

  lemma FailedSyncRunHappens(id: JobId)
    ensures var s := Exec(id, INITIAL, [Submit(id, true), RunEnds(id, true, false)]);
            s.table.IsRunning(id) && s.book.InFlight() == 0
  {
    ExecLast(id, INITIAL, [], Submit(id, true));
    assert [] + [Submit(id, true)] == [Submit(id, true)];
    ExecLast(id, INITIAL, [Submit(id, true)], RunEnds(id, true, false));
    assert [Submit(id, true)] + [RunEnds(id, true, false)] == [Submit(id, true), RunEnds(id, true, false)];
  }

  /** A kill lets a second doRun start beside the first, and the first one's end then reports the
      second as completed while it is still in flight. */
  lemma KillLetsRunsOverlap(id: JobId)
    ensures var s := Exec(id, INITIAL, [Submit(id, false), Kill(id), Submit(id, false)]);
            && s.book.asyncRuns == 2 && s.table.IsRunning(id)
            && var t := Step(id, s, RunEnds(id, false, true));
               id in t.table.job2Status && t.table.job2Status[id] == COMPLETED && t.book.asyncRuns == 1
  {
    var submit, kill := Submit(id, false), Kill(id);
    ExecLast(id, INITIAL, [], submit);
    assert [] + [submit] == [submit];
    ExecLast(id, INITIAL, [submit], kill);
    assert [submit] + [kill] == [submit, kill];
    ExecLast(id, INITIAL, [submit, kill], submit);
    assert [submit, kill] + [submit] == [submit, kill, submit];
  }
}
