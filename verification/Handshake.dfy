/** python/ppc_model/network/wedpr_model_transport.py (ModelRouter) and interface/model_base.py: each
    party sends a handshake to every other one, then waits until it knows the node of each of them. */
module Handshake {
  import opened Outcome
  import opened Sums

  type Agency = nat
  type Node = string
  type TaskId = string
  type RouterInfo = map<TaskId, map<Agency, Node>>

  datatype Message = Message(srcInst: Agency, srcNode: Node)

  predicate AllConnected(info: RouterInfo, task: TaskId, participants: seq<Agency>, self: Agency) {
    task in info && forall i :: 0 <= i < |participants| ==> participants[i] == self || participants[i] in info[task]
  }

  function Record(info: RouterInfo, task: TaskId, m: Message): RouterInfo {
    info[task := (if task in info then info[task] else map[])[m.srcInst := m.srcNode]]
  }

  function RecordAll(info: RouterInfo, task: TaskId, messages: seq<Message>): RouterInfo {
    if messages == [] then info
    else Record(RecordAll(info, task, messages[..|messages| - 1]), task, messages[|messages| - 1])
  }

  function Route(info: RouterInfo, task: TaskId, dst: Agency): Result<Node> {
    if task in info && dst in info[task] then Ok(info[task][dst]) else Err(NoRoute)
  }

  class ModelRouter {
    var routerInfo: RouterInfo

    constructor ()
      ensures routerInfo == map[]
    {
      routerInfo := map[];
    }

    method CheckAllConnected(task: TaskId, participants: seq<Agency>, self: Agency) returns (r: bool)
      ensures r <==> AllConnected(routerInfo, task, participants, self)
    {
      if task !in routerInfo.Keys {
        return false;
      }
      for i := 0 to |participants|
        invariant forall j :: 0 <= j < i ==> participants[j] == self || participants[j] in routerInfo[task]
      {
        if participants[i] == self {
          continue;
        }
        if participants[i] !in routerInfo[task].Keys {
          return false;
        }
      }
      return true;
    }

    /** Pops one message after another until every participant is known, and not one more. The wait
        ends with an exception if the task is killed while it waits, that is when `inbox` runs out. */
    method WaitForHandshake(task: TaskId, participants: seq<Agency>, self: Agency, inbox: seq<Message>)
      returns (r: Result<()>, pops: nat)
      modifies this
      ensures pops <= |inbox| && routerInfo == RecordAll(old(routerInfo), task, inbox[..pops])
      ensures r.Ok? <==> AllConnected(routerInfo, task, participants, self)
      ensures r.Err? ==> r.error == TaskKilled && pops == |inbox|
      ensures forall k :: 0 <= k < pops ==>
                !AllConnected(RecordAll(old(routerInfo), task, inbox[..k]), task, participants, self)
    {
      pops := 0;
      var connected := CheckAllConnected(task, participants, self);
      while !connected
        invariant pops <= |inbox| && routerInfo == RecordAll(old(routerInfo), task, inbox[..pops])
        invariant connected <==> AllConnected(routerInfo, task, participants, self)
        invariant forall k :: 0 <= k < pops ==>
                    !AllConnected(RecordAll(old(routerInfo), task, inbox[..k]), task, participants, self)
        decreases |inbox| - pops
      {
        if pops == |inbox| {
          return Err(TaskKilled), pops;
        }
        assert inbox[..pops + 1][..pops] == inbox[..pops];
        RecordNode(task, inbox[pops]);
        pops := pops + 1;
        connected := CheckAllConnected(task, participants, self);
      }
      r := Ok(());
    }

    method RecordNode(task: TaskId, result: Message)
      modifies this
      ensures routerInfo == Record(old(routerInfo), task, result)
    {
      if task !in routerInfo {
        routerInfo := routerInfo[task := map[]];
      }
      var routes: map<Agency, Node> := routerInfo[task];
      routes := routes[result.srcInst := result.srcNode];
      routerInfo := routerInfo[task := routes];
    }

    method OnTaskFinish(task: TaskId)
      modifies this
      ensures routerInfo == old(routerInfo) - {task}
      ensures forall dst :: Route(routerInfo, task, dst) == Err(NoRoute)
    {
      if task in routerInfo {
        routerInfo := routerInfo - {task};
      }
    }

    method GetDstNode(task: TaskId, dst: Agency) returns (r: Result<Node>)
      ensures r == Route(routerInfo, task, dst)
      ensures r.Ok? <==> task in routerInfo && dst in routerInfo[task]
      ensures r.Err? ==> r.error == NoRoute
    {
      if task in routerInfo && dst in routerInfo[task] {
        return Ok(routerInfo[task][dst]);
      }
      return Err(NoRoute);
    }
  }

  // ---------------------------------------------------------------------------------------------
  // N parties, numbered by their place in the participant list
  // ---------------------------------------------------------------------------------------------

  datatype Phase = Sending(next: nat) | Checking | Popping | Connected | Finished

  /** `inbox[j]` holds the senders of the handshakes waiting for party j, to be popped in any order. */
  datatype State = State(routers: seq<RouterInfo>, phases: seq<Phase>, inbox: seq<set<Agency>>, pops: seq<nat>)

  datatype Setting = Setting(task: TaskId, nodes: seq<Node>, infos: seq<RouterInfo>) {
    function N(): nat { |nodes| }
    function Participants(): seq<Agency> { seq(N(), i => i) }

    /** One router per party, none of which has seen this task. */
    predicate Valid() { |infos| == N() && forall j :: 0 <= j < N() ==> task !in infos[j] }

    function Init(): State {
      State(infos, seq(N(), _ => Sending(0)), seq(N(), _ => {}), seq(N(), _ => 0))
    }
  }

  datatype Event = Send(j: nat) | Check(j: nat) | Pop(j: nat, from: Agency) | Finish(j: nat)

  predicate Sized(x: Setting, s: State) {
    x.Valid() && |s.routers| == |s.phases| == |s.inbox| == |s.pops| == x.N()
  }

  predicate Enabled(x: Setting, s: State, e: Event)
    requires Sized(x, s)
  {
    e.j < x.N() &&
    match e
    case Send(j) => s.phases[j].Sending? && s.phases[j].next < x.N()
    case Check(j) => s.phases[j] == Checking
    case Pop(j, from) => s.phases[j] == Popping && from in s.inbox[j] && from < x.N()
    case Finish(j) => s.phases[j] == Connected
  }

  function Step(x: Setting, s: State, e: Event): State
    requires Sized(x, s) && Enabled(x, s, e)
  {
    match e
    case Send(j) =>
      var i := s.phases[j].next;
      s.(phases := s.phases[j := if i + 1 < x.N() then Sending(i + 1) else Checking],
         inbox := if i == j then s.inbox else s.inbox[i := s.inbox[i] + {j}])
    case Check(j) =>
      s.(phases := s.phases[j := if AllConnected(s.routers[j], x.task, x.Participants(), j) then Connected else Popping])
    case Pop(j, from) =>
      s.(phases := s.phases[j := Checking], pops := s.pops[j := s.pops[j] + 1],
         inbox := s.inbox[j := s.inbox[j] - {from}],
         routers := s.routers[j := Record(s.routers[j], x.task, Message(from, x.nodes[from]))])
    case Finish(j) =>
      s.(phases := s.phases[j := Finished], routers := s.routers[j := s.routers[j] - {x.task}])
  }

  ghost predicate Reaches(x: Setting, s: State, events: seq<Event>, t: State)
    requires Sized(x, s)
    decreases |events|
  {
    if events == [] then t == s
    else Enabled(x, s, events[0]) && Reaches(x, Step(x, s, events[0]), events[1..], t)
  }

  // ---------------------------------------------------------------------------------------------
  // The invariant
  // ---------------------------------------------------------------------------------------------

  predicate HasSent(s: State, i: nat, j: nat)
    requires i < |s.phases|
  {
    s.phases[i].Sending? ==> j < s.phases[i].next
  }

  function Known(x: Setting, info: RouterInfo): set<Agency> {
    if x.task in info then info[x.task].Keys else {}
  }

  function Range(n: nat): (r: set<Agency>)
    ensures forall i: Agency :: i in r <==> i < n
    ensures |r| == n
  {
    if n == 0 then {} else Range(n - 1) + {n - 1}
  }

  function Others(n: nat, j: nat): set<Agency> { Range(n) - {j} }

  /** A handshake from i to j is in exactly one place: not sent yet, in the inbox, or in the router. */
  ghost predicate Delivery(x: Setting, s: State, i: nat, j: nat)
    requires Sized(x, s) && i < x.N() && j < x.N() && i != j
  {
    if !HasSent(s, i, j) then i !in s.inbox[j] && i !in Known(x, s.routers[j])
    else if i in Known(x, s.routers[j]) then i !in s.inbox[j] && s.routers[j][x.task][i] == x.nodes[i]
    else i in s.inbox[j]
  }

  ghost predicate PartyInv(x: Setting, s: State, j: nat)
    requires Sized(x, s) && j < x.N()
  {
    && s.inbox[j] <= Others(x.N(), j)
    && s.routers[j] - {x.task} == x.infos[j]
    && (s.phases[j].Sending? ==> s.phases[j].next < x.N() && s.pops[j] == 0)
    && (s.phases[j] == Finished ==> s.pops[j] == |Others(x.N(), j)| && x.task !in s.routers[j])
    && (s.phases[j] != Finished ==>
          && Known(x, s.routers[j]) <= Others(x.N(), j)
          && s.pops[j] == |Known(x, s.routers[j])|
          && (x.task in s.routers[j] ==> Known(x, s.routers[j]) != {})
          && (forall i :: i in Others(x.N(), j) ==> Delivery(x, s, i, j)))
    && (s.phases[j] == Popping ==> !AllConnected(s.routers[j], x.task, x.Participants(), j))
    && (s.phases[j] == Connected ==> AllConnected(s.routers[j], x.task, x.Participants(), j))
  }

  ghost predicate Inv(x: Setting, s: State) {
    Sized(x, s) && forall j :: 0 <= j < x.N() ==> PartyInv(x, s, j)
  }

  lemma InitParty(x: Setting, j: nat)
    requires x.Valid() && j < x.N()
    ensures PartyInv(x, x.Init(), j)
  {
    assert x.infos[j] - {x.task} == x.infos[j];
  }

  lemma InitInv(x: Setting)
    requires x.Valid()
    ensures Inv(x, x.Init())
  {
    forall j | 0 <= j < x.N() ensures PartyInv(x, x.Init(), j) {
      InitParty(x, j);
    }
  }

  /** Connected means: the routes known are those to all the others, and there is at least one. */
  lemma ConnectedKnowsAll(x: Setting, s: State, j: nat)
    requires Sized(x, s) && j < x.N() && Known(x, s.routers[j]) <= Others(x.N(), j)
    requires x.task in s.routers[j] ==> Known(x, s.routers[j]) != {}
    ensures AllConnected(s.routers[j], x.task, x.Participants(), j)
            <==> Known(x, s.routers[j]) == Others(x.N(), j) != {}
  {
    if AllConnected(s.routers[j], x.task, x.Participants(), j) {
      forall i | i in Others(x.N(), j) ensures i in Known(x, s.routers[j]) {
        assert x.Participants()[i] == i;
      }
    }
  }

  lemma PopRecords(x: Setting, info: RouterInfo, from: Agency)
    requires from < x.N()
    ensures var next := Record(info, x.task, Message(from, x.nodes[from]));
            && Known(x, next) == Known(x, info) + {from} && next - {x.task} == info - {x.task}
            && next[x.task][from] == x.nodes[from]
            && forall i :: i in Known(x, info) && i != from ==> next[x.task][i] == info[x.task][i]
  {
  }

  lemma PopKeeps(x: Setting, s: State, e: Event)
    requires Inv(x, s) && Enabled(x, s, e) && e.Pop?
    ensures PartyInv(x, Step(x, s, e), e.j)
  {
    var t, j := Step(x, s, e), e.j;
    assert PartyInv(x, s, j);
    assert Delivery(x, s, e.from, j);
    PopRecords(x, s.routers[j], e.from);
    forall i | i in Others(x.N(), j) ensures Delivery(x, t, i, j) {
      PopDelivers(x, s, e, i);
    }
  }

  lemma PopDelivers(x: Setting, s: State, e: Event, i: nat)
    requires Inv(x, s) && Enabled(x, s, e) && e.Pop? && i in Others(x.N(), e.j)
    ensures Delivery(x, Step(x, s, e), i, e.j)
  {
    assert PartyInv(x, s, e.j) && Delivery(x, s, i, e.j);
    PopRecords(x, s.routers[e.j], e.from);
  }

  lemma FinishKeeps(x: Setting, s: State, e: Event)
    requires Inv(x, s) && Enabled(x, s, e) && e.Finish?
    ensures PartyInv(x, Step(x, s, e), e.j)
  {
    assert PartyInv(x, s, e.j);
    ConnectedKnowsAll(x, s, e.j);
    assert Step(x, s, e).routers[e.j] - {x.task} == s.routers[e.j] - {x.task};
  }

  lemma OwnStepKeeps(x: Setting, s: State, e: Event)
    requires Inv(x, s) && Enabled(x, s, e) && (e.Send? || e.Check?)
    ensures PartyInv(x, Step(x, s, e), e.j)
  {
    var t, j := Step(x, s, e), e.j;
    assert PartyInv(x, s, j);
    forall i | i in Others(x.N(), j) ensures Delivery(x, t, i, j) {
      assert Delivery(x, s, i, j);
    }
  }

  lemma OtherDelivery(x: Setting, s: State, e: Event, i: nat, k: nat)
    requires Inv(x, s) && Enabled(x, s, e) && k < x.N() && k != e.j && i in Others(x.N(), k)
    requires Delivery(x, s, i, k)
    ensures Delivery(x, Step(x, s, e), i, k)
  {
    assert PartyInv(x, s, e.j);
    if e.Send? {
      assert i == e.j || HasSent(Step(x, s, e), i, k) == HasSent(s, i, k);
    }
  }

  lemma OtherStepKeeps(x: Setting, s: State, e: Event, k: nat)
    requires Inv(x, s) && Enabled(x, s, e) && k < x.N() && k != e.j
    ensures PartyInv(x, Step(x, s, e), k)
  {
    var t := Step(x, s, e);
    assert PartyInv(x, s, k);
    assert t.routers[k] == s.routers[k] && t.phases[k] == s.phases[k] && t.pops[k] == s.pops[k];
    if s.phases[k] != Finished {
      forall i | i in Others(x.N(), k) ensures Delivery(x, t, i, k) {
        assert Delivery(x, s, i, k);
        OtherDelivery(x, s, e, i, k);
      }
    }
  }

  lemma StepKeepsInv(x: Setting, s: State, e: Event)
    requires Inv(x, s) && Enabled(x, s, e)
    ensures Inv(x, Step(x, s, e))
  {
    forall k | 0 <= k < x.N() ensures PartyInv(x, Step(x, s, e), k) {
      if k != e.j {
        OtherStepKeeps(x, s, e, k);
      } else {
        match e
        case Send(_) => OwnStepKeeps(x, s, e);
        case Check(_) => OwnStepKeeps(x, s, e);
        case Pop(_, _) => PopKeeps(x, s, e);
        case Finish(_) => FinishKeeps(x, s, e);
      }
    }
  }

  // ---------------------------------------------------------------------------------------------
  // Runs
  // ---------------------------------------------------------------------------------------------

  ghost function Left(n: nat, phase: Phase, pops: nat): nat {
    var open := if pops < n then n - pops else 0;
    match phase
    case Sending(i) => 2 * n + 2 + (if i < n then n - i else 0)
    case Checking => 2 * open + 2
    case Popping => 2 * open + 1
    case Connected => 1
    case Finished => 0
  }

  ghost function Weights(x: Setting, s: State): seq<nat>
    requires Sized(x, s)
  {
    seq(x.N(), j requires 0 <= j < x.N() => Left(x.N(), s.phases[j], s.pops[j]))
  }

  lemma OthersSize(n: nat, j: nat)
    requires j < n
    ensures |Others(n, j)| == n - 1
  {
    assert Range(n) == Others(n, j) + {j};
  }

  lemma Subsize(a: set<Agency>, b: set<Agency>)
    requires a <= b
    ensures |a| <= |b|
  {
    assert b == a + (b - a);
  }

  lemma PopsBound(x: Setting, s: State, j: nat)
    requires Inv(x, s) && j < x.N()
    ensures s.pops[j] <= x.N() - 1
  {
    assert PartyInv(x, s, j);
    OthersSize(x.N(), j);
    if s.phases[j] != Finished {
      Subsize(Known(x, s.routers[j]), Others(x.N(), j));
    }
  }

  lemma OwnWeightDrops(x: Setting, s: State, e: Event)
    requires Inv(x, s) && Enabled(x, s, e)
    ensures var t := Step(x, s, e);
            Left(x.N(), t.phases[e.j], t.pops[e.j]) < Left(x.N(), s.phases[e.j], s.pops[e.j])
  {
    assert PartyInv(x, s, e.j);
    PopsBound(x, s, e.j);
  }

  lemma StepLowersRank(x: Setting, s: State, e: Event)
    requires Inv(x, s) && Enabled(x, s, e)
    ensures Sized(x, Step(x, s, e)) && Sum(Weights(x, Step(x, s, e))) < Sum(Weights(x, s))
  {
    var a, b := Weights(x, s), Weights(x, Step(x, s, e));
    OwnWeightDrops(x, s, e);
    assert b == a[e.j := b[e.j]];
    SumUpdate(a, e.j, b[e.j]);
  }

  lemma {:induction false} ReachesInv(x: Setting, s: State, events: seq<Event>, t: State)
    requires Inv(x, s) && Reaches(x, s, events, t)
    ensures Inv(x, t) && |events| + Sum(Weights(x, t)) <= Sum(Weights(x, s))
    decreases |events|
  {
    if events == [] {
    } else {
      StepKeepsInv(x, s, events[0]);
      StepLowersRank(x, s, events[0]);
      ReachesInv(x, Step(x, s, events[0]), events[1..], t);
    }
  }

  /** In every reachable state, whatever the order of delivery: a party that has returned from
      wait_for_handshake knows the node of every other one from that party's own handshake, made
      exactly N - 1 pops, and has left the routes of other tasks alone. No party ever pops more. */
  lemma ConnectedRoutes(x: Setting, events: seq<Event>, s: State, j: nat)
    requires x.Valid() && Reaches(x, x.Init(), events, s) && j < x.N()
    ensures Sized(x, s)
    ensures s.pops[j] <= x.N() - 1 && s.routers[j] - {x.task} == x.infos[j]
    ensures s.phases[j] == Connected ==>
              s.pops[j] == x.N() - 1
              && forall i :: 0 <= i < x.N() && i != j ==> Route(s.routers[j], x.task, i) == Ok(x.nodes[i])
    ensures s.phases[j] == Finished ==> forall i :: 0 <= i < x.N() ==> Route(s.routers[j], x.task, i) == Err(NoRoute)
  {
    InitInv(x);
    ReachesInv(x, x.Init(), events, s);
    assert PartyInv(x, s, j);
    OthersSize(x.N(), j);
    PopsBound(x, s, j);
    if s.phases[j] != Finished {
      ConnectedKnowsAll(x, s, j);
      forall i | 0 <= i < x.N() && i != j && s.phases[j] == Connected
        ensures Route(s.routers[j], x.task, i) == Ok(x.nodes[i])
      {
        assert i in Others(x.N(), j) && Delivery(x, s, i, j);
      }
    }
  }

  /** A pop is only ever waiting for a handshake that is there or still to be sent. */
  lemma PopHasOutstanding(x: Setting, s: State, j: nat)
    requires Inv(x, s) && x.N() >= 2 && j < x.N() && s.phases[j] == Popping
    ensures exists i :: i in Others(x.N(), j) && (i in s.inbox[j] || !HasSent(s, i, j))
  {
    assert PartyInv(x, s, j);
    ConnectedKnowsAll(x, s, j);
    OthersSize(x.N(), j);
    var i :| i in Others(x.N(), j) && i !in Known(x, s.routers[j]);
    assert Delivery(x, s, i, j);
  }

  ghost predicate Stuck(x: Setting, s: State)
    requires Sized(x, s)
  {
    forall e: Event :: !e.Finish? ==> !Enabled(x, s, e)
  }

  lemma PartyMoves(x: Setting, s: State, j: nat)
    requires Inv(x, s) && x.N() >= 2 && j < x.N() && s.phases[j] != Connected && s.phases[j] != Finished
    ensures !Stuck(x, s)
  {
    assert PartyInv(x, s, j);
    match s.phases[j]
    case Sending(_) => assert Enabled(x, s, Send(j));
    case Checking => assert Enabled(x, s, Check(j));
    case Popping =>
      PopHasOutstanding(x, s, j);
      var i :| i in Others(x.N(), j) && (i in s.inbox[j] || !HasSent(s, i, j));
      if i in s.inbox[j] {
        assert Enabled(x, s, Pop(j, i));
      } else {
        assert PartyInv(x, s, i);
        assert Enabled(x, s, Send(i));
      }
  }

  /** Every run is finite, and when no party can move the handshake is complete everywhere. A single
      party, whose task never enters its own table, waits for ever. */
  lemma {:induction false} MaximalRuns(x: Setting, events: seq<Event>, s: State)
    requires x.Valid() && x.N() > 0 && Reaches(x, x.Init(), events, s)
    requires Sized(x, s) ==> Stuck(x, s)
    ensures |events| <= Sum(Weights(x, x.Init()))
    ensures Sized(x, s)
    ensures (forall j :: 0 <= j < x.N() ==> s.phases[j] == Connected || s.phases[j] == Finished) <==> x.N() >= 2
  {
    InitInv(x);
    ReachesInv(x, x.Init(), events, s);
    if x.N() >= 2 {
      forall j | 0 <= j < x.N() ensures s.phases[j] == Connected || s.phases[j] == Finished {
        if s.phases[j] != Connected && s.phases[j] != Finished {
          PartyMoves(x, s, j);
        }
      }
    } else {
      AloneNeverConnects(x, x.Init(), events, s);
    }
  }

  lemma {:induction false} AloneNeverConnects(x: Setting, s: State, events: seq<Event>, t: State)
    requires Inv(x, s) && x.N() == 1 && s.phases[0] != Connected && s.phases[0] != Finished
    requires Reaches(x, s, events, t)
    ensures Sized(x, t) && t.phases[0] != Connected && t.phases[0] != Finished
    decreases |events|
  {
    if events == [] {
    } else {
      assert PartyInv(x, s, 0);
      ConnectedKnowsAll(x, s, 0);
      assert Others(1, 0) == {};
      StepKeepsInv(x, s, events[0]);
      AloneNeverConnects(x, Step(x, s, events[0]), events[1..], t);
    }
  }
}
