/** python/ppc_model/datasets/dataset.py, _customized_split_dataset: the active party (number 0)
    gathers the evaluation files of its partners, keeps the first it lacks, and sends its own to all. */
module EvalExchange {
  import opened Bytes
  import opened Sums

  type Text = seq<Byte>
  datatype File = Missing | Present(bytes: Text)

  datatype ActivePc = Gather(next: nat) | Broadcast(next: nat, data: Text) | Failed
  datatype PartnerPc = Send | Receive | Done

  /** `up[i]` and `down[i]` are the messages in flight from and to partner i; index 0 is unused there. */
  datatype State = State(files: seq<File>, active: ActivePc, partners: seq<PartnerPc>,
                         up: seq<seq<Text>>, down: seq<seq<Text>>)

  datatype Event = PartnerSends(i: nat) | ActiveGathers | ActiveLoads | ActiveSends | PartnerReceives(i: nat)

  function Content(f: File): Text { if f.Present? then f.bytes else [] }

  function Init(files: seq<File>): State {
    State(files, Gather(1), seq(|files|, _ => Send), seq(|files|, _ => []), seq(|files|, _ => []))
  }

  predicate Sized(n: nat, s: State) {
    n > 0 && |s.files| == |s.partners| == |s.up| == |s.down| == n
  }

  predicate Enabled(n: nat, s: State, e: Event)
    requires Sized(n, s)
  {
    match e
    case PartnerSends(i) => 0 < i < n && s.partners[i] == Send
    case ActiveGathers => s.active.Gather? && s.active.next < n && s.up[s.active.next] != []
    case ActiveLoads => s.active.Gather? && s.active.next >= n
    case ActiveSends => s.active.Broadcast? && s.active.next < n
    case PartnerReceives(i) => 0 < i < n && s.partners[i] == Receive && s.down[i] != []
  }

  /** `if not exists: write`, with the extra test of the active party for an empty message. */
  function Keep(f: File, data: Text, skipEmpty: bool): File {
    if f.Missing? && !(skipEmpty && data == []) then Present(data) else f
  }

  function Step(n: nat, s: State, e: Event): State
    requires Sized(n, s) && Enabled(n, s, e)
  {
    match e
    case PartnerSends(i) =>
      s.(partners := s.partners[i := Receive], up := s.up[i := s.up[i] + [Content(s.files[i])]])
    case ActiveGathers =>
      var i := s.active.next;
      s.(active := Gather(i + 1), up := s.up[i := s.up[i][1..]],
         files := s.files[0 := Keep(s.files[0], s.up[i][0], true)])
    case ActiveLoads =>
      s.(active := if s.files[0].Missing? then Failed else Broadcast(1, s.files[0].bytes))
    case ActiveSends =>
      var i := s.active.next;
      s.(active := Broadcast(i + 1, s.active.data), down := s.down[i := s.down[i] + [s.active.data]])
    case PartnerReceives(i) =>
      s.(partners := s.partners[i := Done], down := s.down[i := s.down[i][1..]],
         files := s.files[i := Keep(s.files[i], s.down[i][0], false)])
  }

  /** Every reachable state: any interleaving of enabled events from the initial one. */
  ghost predicate Reaches(n: nat, s: State, events: seq<Event>, t: State)
    requires Sized(n, s)
    decreases |events|
  {
    if events == [] then t == s
    else Enabled(n, s, events[0]) && Reaches(n, Step(n, s, events[0]), events[1..], t)
  }

  predicate Finished(n: nat, s: State)
    requires Sized(n, s)
  {
    s.active.Broadcast? && s.active.next >= n && forall i :: 0 < i < n ==> s.partners[i] == Done
  }

  // ---------------------------------------------------------------------------------------------
  // What the exchange must produce, from the initial files alone
  // ---------------------------------------------------------------------------------------------

  /** The active party's file after the first i - 1 partners: its own, else the first non-empty one. */
  function Gathered(files: seq<File>, i: nat): File
    requires 1 <= i <= |files|
  {
    if i == 1 then files[0] else Keep(Gathered(files, i - 1), Content(files[i - 1]), true)
  }

  function Chosen(files: seq<File>): File
    requires files != []
  {
    Gathered(files, |files|)
  }

  /** There is a file to broadcast exactly when the active party has one or some partner sends one. */
  lemma {:induction false} GatheredPresent(files: seq<File>, i: nat)
    requires 1 <= i <= |files|
    ensures Gathered(files, i).Present?
            <==> files[0].Present? || exists j :: 0 < j < i && Content(files[j]) != []
  {
    if i > 1 {
      GatheredPresent(files, i - 1);
    }
  }

  /** Which file is broadcast: the active party's own if it has one, else the first non-empty one. */
  lemma {:induction false} GatheredIs(files: seq<File>, i: nat)
    requires 1 <= i <= |files|
    ensures files[0].Present? ==> Gathered(files, i) == files[0]
    ensures files[0].Missing? ==> forall j :: FirstSent(files, j) && j < i ==> Gathered(files, i) == files[j]
    ensures files[0].Missing? && (forall j :: 0 < j < i ==> Content(files[j]) == []) ==> Gathered(files, i) == Missing
  {
    if i > 1 {
      GatheredIs(files, i - 1);
    }
  }

  /** Partner j is the first that sends something. */
  predicate FirstSent(files: seq<File>, j: int) {
    && 0 < j < |files| && files[j].Present? && files[j].bytes != []
    && forall k :: 0 < k < j ==> Content(files[k]) == []
  }

  function Expected(files: seq<File>): seq<File>
    requires files != [] && Chosen(files).Present?
  {
    seq(|files|, i requires 0 <= i < |files| =>
      if i == 0 || files[i].Missing? then Chosen(files) else files[i])
  }

  // ---------------------------------------------------------------------------------------------
  // The invariant
  // ---------------------------------------------------------------------------------------------

  predicate WasGathered(s: State, j: nat) { s.active.Gather? ==> j < s.active.next }
  predicate WasSent(s: State, j: nat) { s.active.Broadcast? && j < s.active.next }

  ghost predicate PartnerInv(f: seq<File>, s: State, j: nat)
    requires Sized(|f|, s) && 0 < j < |f|
  {
    && (s.partners[j] == Send ==>
          s.files[j] == f[j] && s.up[j] == [] && !WasGathered(s, j))
    && (s.partners[j] == Receive ==>
          s.files[j] == f[j] && s.up[j] == (if WasGathered(s, j) then [] else [Content(f[j])]))
    && (s.partners[j] == Done ==>
          WasSent(s, j) && s.up[j] == [] && s.files[j] == Keep(f[j], s.active.data, false))
    && s.down[j] == (if WasSent(s, j) && s.partners[j] != Done then [s.active.data] else [])
  }

  ghost predicate Inv(f: seq<File>, s: State) {
    && Sized(|f|, s)
    && (match s.active
        case Gather(i) => 1 <= i <= |f| && s.files[0] == Gathered(f, i)
        case Broadcast(i, d) => 1 <= i <= |f| && s.files[0] == Chosen(f) == Present(d)
        case Failed => Chosen(f) == Missing)
    && forall j :: 0 < j < |f| ==> PartnerInv(f, s, j)
  }

  lemma StepKeepsPartner(f: seq<File>, s: State, e: Event, j: nat)
    requires Inv(f, s) && Enabled(|f|, s, e) && 0 < j < |f|
    ensures PartnerInv(f, Step(|f|, s, e), j)
  {
    assert PartnerInv(f, s, j);
  }

  lemma StepKeepsInv(f: seq<File>, s: State, e: Event)
    requires Inv(f, s) && Enabled(|f|, s, e)
    ensures Inv(f, Step(|f|, s, e))
  {
    if e.ActiveGathers? {
      assert PartnerInv(f, s, s.active.next);
    }
    forall j | 0 < j < |f| ensures PartnerInv(f, Step(|f|, s, e), j) {
      StepKeepsPartner(f, s, e, j);
    }
  }

  /** Work left: two steps per partner still to send, one per partner still to receive, and the
      active party's own. Every step uses some of it up. */
  ghost function Left(pc: PartnerPc): nat { match pc case Send => 2 case Receive => 1 case Done => 0 }

  ghost function LeftActive(n: nat, pc: ActivePc): nat {
    match pc
    case Gather(i) => if i <= n then n + 1 + (n - i) else n + 1
    case Broadcast(i, _) => if i <= n then n - i else 0
    case Failed => 0
  }

  ghost function Rank(n: nat, s: State): nat
    requires Sized(n, s)
  {
    LeftActive(n, s.active) + Sum(seq(n, i requires 0 <= i < n => Left(s.partners[i])))
  }

  lemma StepLowersRank(f: seq<File>, s: State, e: Event)
    requires Inv(f, s) && Enabled(|f|, s, e)
    ensures Sized(|f|, Step(|f|, s, e)) && Rank(|f|, Step(|f|, s, e)) < Rank(|f|, s)
  {
    StepKeepsInv(f, s, e);
    var n, t := |f|, Step(|f|, s, e);
    var a := seq(n, i requires 0 <= i < n => Left(s.partners[i]));
    var b := seq(n, i requires 0 <= i < n => Left(t.partners[i]));
    if e.PartnerSends? || e.PartnerReceives? {
      SumUpdate(a, e.i, b[e.i]);
      assert b == a[e.i := b[e.i]];
    } else {
      assert a == b;
    }
  }

  lemma GatherMoves(f: seq<File>, s: State)
    requires Inv(f, s) && s.active.Gather?
    ensures exists e :: Enabled(|f|, s, e)
  {
    var i := s.active.next;
    if i >= |f| {
      assert Enabled(|f|, s, ActiveLoads);
    } else {
      assert PartnerInv(f, s, i);
      assert Enabled(|f|, s, PartnerSends(i)) || Enabled(|f|, s, ActiveGathers);
    }
  }

  /** No deadlock: as long as some party can supply the file, an unfinished exchange has a next step. */
  lemma Progress(f: seq<File>, s: State)
    requires Inv(f, s) && Chosen(f).Present?
    ensures Finished(|f|, s) || exists e :: Enabled(|f|, s, e)
  {
    if s.active.Gather? {
      GatherMoves(f, s);
    } else if s.active.next < |f| {
      assert Enabled(|f|, s, ActiveSends);
    } else if i :| 0 < i < |f| && s.partners[i] != Done {
      assert PartnerInv(f, s, i);
      assert Enabled(|f|, s, PartnerSends(i)) || Enabled(|f|, s, PartnerReceives(i));
    }
  }

  lemma {:induction false} ReachesInv(f: seq<File>, s: State, events: seq<Event>, t: State)
    requires Inv(f, s) && Reaches(|f|, s, events, t)
    ensures Inv(f, t) && |events| + Rank(|f|, t) <= Rank(|f|, s)
    decreases |events|
  {
    if events == [] {
    } else {
      StepKeepsInv(f, s, events[0]);
      StepLowersRank(f, s, events[0]);
      ReachesInv(f, Step(|f|, s, events[0]), events[1..], t);
    }
  }

  lemma InitInv(f: seq<File>)
    requires f != []
    ensures Inv(f, Init(f))
  {
    forall j | 0 < j < |f| ensures PartnerInv(f, Init(f), j) {
    }
  }

  /** Every run is finite, and a run that cannot be continued has either finished with exactly the
      expected files, which happens if and only if the active party or some partner supplied one, or
      stopped at the active party's failing open. */
  lemma {:induction false} MaximalRuns(f: seq<File>, events: seq<Event>, t: State)
    requires f != [] && Reaches(|f|, Init(f), events, t)
    requires Sized(|f|, t) ==> forall e :: !Enabled(|f|, t, e)
    ensures |events| <= Rank(|f|, Init(f))
    ensures Sized(|f|, t)
    ensures Finished(|f|, t) <==> Chosen(f).Present?
    ensures Chosen(f).Present? <==> f[0].Present? || exists j :: 0 < j < |f| && Content(f[j]) != []
    ensures Chosen(f).Present? ==> t.files == Expected(f)
    ensures Chosen(f).Missing? ==> t.active == Failed
  {
    InitInv(f);
    GatheredPresent(f, |f|);
    ReachesInv(f, Init(f), events, t);
    if Chosen(f).Present? {
      Progress(f, t);
      FinishedFiles(f, t);
    } else {
      StuckWithoutFile(f, t);
    }
  }

  /** The files at the end of every run that cannot go on, from the initial ones alone: nobody's file is
      overwritten, and every party without one ends with the active party's, or if that has none with
      the first non-empty one a partner sent. */
  lemma {:induction false} FinalFiles(f: seq<File>, events: seq<Event>, t: State, i: nat)
    requires f != [] && Reaches(|f|, Init(f), events, t) && i < |f|
    requires Sized(|f|, t) ==> forall e :: !Enabled(|f|, t, e)
    ensures Sized(|f|, t)
    ensures f[i].Present? ==> t.files[i] == f[i]
    ensures f[i].Missing? && f[0].Present? ==> t.files[i] == f[0]
    ensures f[i].Missing? && f[0].Missing? ==> forall j :: FirstSent(f, j) ==> t.files[i] == f[j]
  {
    MaximalRuns(f, events, t);
    GatheredIs(f, |f|);
    if Chosen(f).Present? {
      assert t.files[i] == Expected(f)[i];
    } else {
      UnsentFiles(f, events, t);
    }
  }

  lemma UnsentFiles(f: seq<File>, events: seq<Event>, t: State)
    requires f != [] && Reaches(|f|, Init(f), events, t) && Chosen(f).Missing?
    ensures Sized(|f|, t) && forall i :: 0 < i < |f| ==> t.files[i] == f[i]
  {
    InitInv(f);
    ReachesInv(f, Init(f), events, t);
    forall i | 0 < i < |f| ensures t.files[i] == f[i] {
      assert PartnerInv(f, t, i);
    }
  }

  lemma FinishedFiles(f: seq<File>, t: State)
    requires Inv(f, t) && Finished(|f|, t)
    ensures Chosen(f).Present? && t.files == Expected(f)
  {
    forall j | 0 < j < |f| ensures t.files[j] == Expected(f)[j] {
      assert PartnerInv(f, t, j);
    }
  }

  lemma StuckWithoutFile(f: seq<File>, t: State)
    requires Inv(f, t) && Chosen(f).Missing? && forall e :: !Enabled(|f|, t, e)
    ensures t.active == Failed
  {
    if t.active.Gather? {
      GatherMoves(f, t);
    }
  }

  /** All parties end with the same bytes exactly when every file that existed already was the chosen one. */
  lemma Agreement(f: seq<File>)
    requires f != [] && Chosen(f).Present?
    ensures (forall i, j :: 0 <= i < |f| && 0 <= j < |f| ==> Expected(f)[i] == Expected(f)[j])
            <==> (forall i :: 0 < i < |f| && f[i].Present? ==> f[i] == Chosen(f))
  {
    if forall i, j :: 0 <= i < |f| && 0 <= j < |f| ==> Expected(f)[i] == Expected(f)[j] {
      forall i | 0 < i < |f| && f[i].Present? ensures f[i] == Chosen(f) {
        assert Expected(f)[i] == Expected(f)[0];
      }
    }
  }

  /** With a single holder of a non-empty file and no other file, that file is the chosen one. */
  lemma {:induction false} SingleHolder(f: seq<File>, h: nat, i: nat)
    requires h < |f| && 1 <= i <= |f| && f[h].Present? && f[h].bytes != []
    requires forall j :: 0 <= j < |f| && j != h ==> f[j].Missing?
    ensures Gathered(f, i) == if h < i then f[h] else Missing
  {
    if i > 1 {
      SingleHolder(f, h, i - 1);
    }
  }

  /** Exactly one holder: whatever the schedule, every party ends with that holder's bytes. */
  lemma OneHolderReachesAll(f: seq<File>, h: nat, events: seq<Event>, t: State)
    requires h < |f| && f[h].Present? && f[h].bytes != []
    requires forall j :: 0 <= j < |f| && j != h ==> f[j].Missing?
    requires Reaches(|f|, Init(f), events, t)
    requires Sized(|f|, t) ==> forall e :: !Enabled(|f|, t, e)
    ensures Sized(|f|, t) && Finished(|f|, t) && forall j :: 0 <= j < |f| ==> t.files[j] == f[h]
  {
    SingleHolder(f, h, |f|);
    MaximalRuns(f, events, t);
  }
}
