/**
  The start of the background tasks: a flag that initialize calls and timed-out initialize calls check
  before they schedule polling and set after they have done so. Each access to the flag, each call of
  an adapter and each answer is one atomic step; a start can be dropped only while it waits.
  A step that is not enabled changes nothing.
 */
module BackgroundStart {
  import opened Wrappers
  import opened FiniteSets

  function One(b: bool): (n: nat) {
    if b then 1 else 0
  }

  datatype Phase =
    | Called            // not polled yet
    | Skipped           // the flag was set; returned true
    | Entered           // the flag was clear: a scheduling round
    | AwaitingIdLists
    | IdListsAnswered
    | AwaitingSpecs
    | SpecsAnswered
    | Returned          // flag stored
    | Dropped(from: Phase)

  datatype Start = Start(phase: Phase, success: bool)

  /** An initialize call; `own` is the start it makes itself, `spawned` the one its timeout makes. */
  datatype Init = Preparing | Starting(own: nat) | TimedOut(before: Option<nat>, spawned: nat)

  datatype Event =
    | Loaded(s: nat, seen: bool)
    | AskedIdLists(s: nat)
    | IdListsSaid(s: nat, ok: bool)
    | AskedSpecs(s: nat)
    | SpecsSaid(s: nat, ok: bool)
    | Stored(s: nat)

  datatype State = State(flag: bool, starts: map<nat, Start>, inits: map<nat, Init>, log: seq<Event>)

  const INITIAL := State(false, map[], map[], [])

  datatype Action = Load | AskIdLists | HearIdLists(ok: bool) | AskSpecs | HearSpecs(ok: bool) | Store | Drop

  datatype Step =
    | Initialize(n: nat)
    | BeginStart(n: nat, s: nat)
    | Timeout(n: nat, s: nat)
    | Does(s: nat, action: Action)

  /** The await points. */
  predicate Droppable(p: Phase) {
    p == Called || p == AwaitingIdLists || p == AwaitingSpecs
  }

  function Becomes(st: State, s: nat, x: Start, e: Event): (r: State) {
    st.(starts := st.starts[s := x], log := st.log + [e])
  }

  function DropStart(st: State, s: nat): (r: State) {
    if s in st.starts && Droppable(st.starts[s].phase)
    then st.(starts := st.starts[s := st.starts[s].(phase := Dropped(st.starts[s].phase))])
    else st
  }

  /** What start s does next and what others see of it; None when it cannot do that now. */
  function Move(hasIdLists: bool, flag: bool, s: nat, x: Start, action: Action): (r: Option<(Start, Event)>) {
    match action
    case Load =>
      if x.phase != Called then None else Some((x.(phase := if flag then Skipped else Entered), Loaded(s, flag)))
    case AskIdLists =>
      if x.phase != Entered || !hasIdLists then None
      else Some((x.(phase := AwaitingIdLists), AskedIdLists(s)))
    case HearIdLists(ok) =>
      if x.phase != AwaitingIdLists then None
      else Some((Start(IdListsAnswered, x.success && ok), IdListsSaid(s, ok)))
    case AskSpecs =>
      if x.phase != IdListsAnswered && (x.phase != Entered || hasIdLists) then None
      else Some((x.(phase := AwaitingSpecs), AskedSpecs(s)))
    case HearSpecs(ok) =>
      if x.phase != AwaitingSpecs then None
      else Some((Start(SpecsAnswered, x.success && ok), SpecsSaid(s, ok)))
    case Store =>
      if x.phase != SpecsAnswered then None else Some((x.(phase := Returned), Stored(s)))
    case Drop => None
  }

  function ActionNext(hasIdLists: bool, st: State, s: nat, action: Action): (r: State) {
    if s !in st.starts then st
    else if action.Drop? then DropStart(st, s)
    else
      match Move(hasIdLists, st.flag, s, st.starts[s], action)
      case None => st
      case Some((x, e)) => Becomes(st, s, x, e).(flag := st.flag || e.Stored?)
  }

  function WithStart(st: State, n: nat, init: Init, s: nat): (r: State) {
    st.(starts := st.starts[s := Start(Called, true)], inits := st.inits[n := init])
  }

  function Next(hasIdLists: bool, st: State, step: Step): (r: State) {
    match step
    case Initialize(n) => if n in st.inits then st else st.(inits := st.inits[n := Preparing])
    case BeginStart(n, s) =>
      if n !in st.inits || st.inits[n] != Preparing || s in st.starts then st
      else WithStart(st, n, Starting(s), s)
    case Timeout(n, s) =>
      // The select drops the initialization where it waits, then spawns a start of its own.
      if n !in st.inits || s in st.starts then st
      else
        (match st.inits[n]
         case Preparing => WithStart(st, n, TimedOut(None, s), s)
         case Starting(own) =>
           if own !in st.starts || !Droppable(st.starts[own].phase) then st
           else WithStart(DropStart(st, own), n, TimedOut(Some(own), s), s)
         case TimedOut(_, _) => st)
    case Does(s, action) => ActionNext(hasIdLists, st, s, action)
  }

  function Run(hasIdLists: bool, steps: seq<Step>): (st: State) {
    if steps == [] then INITIAL
    else Next(hasIdLists, Run(hasIdLists, steps[..|steps| - 1]), steps[|steps| - 1])
  }

  // ---- Rounds and the order of events ----

  /** How far a start came. */
  function Rank(p: Phase): (n: nat) {
    match p
    case Called => 0
    case Skipped => 0
    case Entered => 1
    case AwaitingIdLists => 2
    case IdListsAnswered => 3
    case AwaitingSpecs => 4
    case SpecsAnswered => 5
    case Returned => 6
    case Dropped(from) => Rank(from)
  }

  /** The starts that found the flag clear and went on to schedule. */
  function Rounds(st: State): (ss: set<nat>) {
    set s | s in st.starts && Rank(st.starts[s].phase) >= 1
  }

  predicate HasStore(log: seq<Event>) {
    exists i :: 0 <= i < |log| && log[i].Stored?
  }

  /** The positions of the loads before the first store. */
  function EarlyLoads(log: seq<Event>): (indices: set<nat>) {
    set i: nat | i < |log| && log[i].Loaded? && !HasStore(log[..i])
  }

  lemma EarlyLoadsSnoc(log: seq<Event>, e: Event)
    ensures EarlyLoads(log + [e]) ==
            EarlyLoads(log) + if e.Loaded? && !HasStore(log) then {|log|} else {}
    ensures HasStore(log + [e]) <==> HasStore(log) || e.Stored?
  {
    var more := log + [e];
    assert forall i: nat :: i <= |log| ==> more[..i] == log[..i];
    assert log[..|log|] == log;
    if HasStore(log) {
      var i :| 0 <= i < |log| && log[i].Stored?;
      assert more[i].Stored?;
    }
    assert more[|log|] == e;
  }

  /** Every round comes from a load before the first store, and every such load makes a round. */
  ghost predicate RoundsInv(st: State) {
    && (st.flag <==> HasStore(st.log))
    && |Rounds(st)| == |EarlyLoads(st.log)|
  }

  lemma EventKeepsRounds(st: State, s: nat, x: Start, e: Event)
    requires |Rounds(st)| == |EarlyLoads(st.log)| && s in st.starts
    requires Rank(x.phase) >= 1 <==> Rank(st.starts[s].phase) >= 1 || (e.Loaded? && !HasStore(st.log))
    requires e.Loaded? ==> Rank(st.starts[s].phase) == 0
    ensures |Rounds(Becomes(st, s, x, e))| == |EarlyLoads(st.log + [e])|
  {
    hide HasStore, EarlyLoads, Rank;
    EarlyLoadsSnoc(st.log, e);
    var r := Becomes(st, s, x, e);
    if e.Loaded? && !HasStore(st.log) {
      assert Rounds(r) == Rounds(st) + {s};
      EarlyLoadsBelow(st.log);
    } else {
      assert Rounds(r) == Rounds(st);
    }
  }

  lemma EarlyLoadsBelow(log: seq<Event>)
    ensures forall i :: i in EarlyLoads(log) ==> i < |log|
  {
  }

  /** A start becomes a round by a load that finds the flag clear, and only then. */
  lemma MoveRank(hasIdLists: bool, flag: bool, s: nat, x: Start, action: Action)
    ensures match Move(hasIdLists, flag, s, x, action)
            case None => true
            case Some((y, e)) =>
              && e.s == s && (e.Loaded? ==> e.seen == flag && Rank(x.phase) == 0)
              && (Rank(y.phase) >= 1 <==> Rank(x.phase) >= 1 || (e.Loaded? && !flag))
  {
  }

  lemma ActionKeepsRounds(hasIdLists: bool, st: State, s: nat, action: Action)
    requires RoundsInv(st)
    ensures RoundsInv(ActionNext(hasIdLists, st, s, action))
  {
    hide HasStore, EarlyLoads, Rounds, Move;
    var r := ActionNext(hasIdLists, st, s, action);
    if s in st.starts && !action.Drop? {
      MoveRank(hasIdLists, st.flag, s, st.starts[s], action);
      match Move(hasIdLists, st.flag, s, st.starts[s], action)
      case None =>
      case Some((x, e)) =>
        EarlyLoadsSnoc(st.log, e);
        EventKeepsRounds(st, s, x, e);
        SameRounds(Becomes(st, s, x, e), r);
    } else {
      SameRounds(st, r);
    }
  }

  lemma SameRounds(st: State, r: State)
    requires st.starts.Keys <= r.starts.Keys
    requires forall s :: s in r.starts ==>
      (Rank(r.starts[s].phase) >= 1 <==> s in st.starts && Rank(st.starts[s].phase) >= 1)
    ensures Rounds(r) == Rounds(st)
  {
  }

  lemma NextKeepsRounds(hasIdLists: bool, st: State, step: Step)
    requires RoundsInv(st)
    ensures RoundsInv(Next(hasIdLists, st, step))
  {
    if step.Does? {
      ActionKeepsRounds(hasIdLists, st, step.s, step.action);
    } else {
      hide Rounds, EarlyLoads, HasStore;
      SameRounds(st, Next(hasIdLists, st, step));
    }
  }

  /** In every interleaving there are as many scheduling rounds as loads before the first store. */
  lemma {:induction false} RoundsAreEarlyLoads(hasIdLists: bool, steps: seq<Step>)
    ensures |Rounds(Run(hasIdLists, steps))| == |EarlyLoads(Run(hasIdLists, steps).log)|
    ensures RoundsInv(Run(hasIdLists, steps))
  {
    if steps != [] {
      RoundsAreEarlyLoads(hasIdLists, steps[..|steps| - 1]);
      NextKeepsRounds(hasIdLists, Run(hasIdLists, steps[..|steps| - 1]), steps[|steps| - 1]);
    }
  }

  lemma RunSnoc(hasIdLists: bool, steps: seq<Step>, step: Step)
    ensures Run(hasIdLists, steps + [step]) == Next(hasIdLists, Run(hasIdLists, steps), step)
  {
    assert (steps + [step])[..|steps|] == steps;
  }

  lemma StepAfterStore(hasIdLists: bool, st: State, step: Step)
    requires st.flag
    ensures Next(hasIdLists, st, step).flag && Rounds(Next(hasIdLists, st, step)) == Rounds(st)
  {
    hide Move, Rounds;
    if step.Does? && step.s in st.starts {
      MoveRank(hasIdLists, true, step.s, st.starts[step.s], step.action);
    }
    SameRounds(st, Next(hasIdLists, st, step));
  }

  /** Once the flag is stored no round begins, even if no adapter could be scheduled. */
  lemma {:induction false} NoRoundAfterStore(hasIdLists: bool, before: seq<Step>, after: seq<Step>)
    requires Run(hasIdLists, before).flag
    ensures Run(hasIdLists, before + after).flag
    ensures Rounds(Run(hasIdLists, before + after)) == Rounds(Run(hasIdLists, before))
  {
    hide Run, Next, Rounds;
    if after == [] {
      assert before + after == before;
    } else {
      var prefix, step := after[..|after| - 1], after[|after| - 1];
      NoRoundAfterStore(hasIdLists, before, prefix);
      assert before + after == (before + prefix) + [step];
      RunSnoc(hasIdLists, before + prefix, step);
      StepAfterStore(hasIdLists, Run(hasIdLists, before + prefix), step);
    }
  }

  // ---- What each start asks for ----

  /** How often each call of start s has happened, by how far it came. */
  ghost predicate Traced(hasIdLists: bool, s: nat, x: Start, events: multiset<Event>) {
    && (x.phase.Dropped? ==> Droppable(x.phase.from))
    && (2 <= Rank(x.phase) <= 3 ==> hasIdLists)
    && events[Loaded(s, false)] == One(Rank(x.phase) >= 1)
    && events[Loaded(s, true)] == One(x.phase == Skipped)
    && events[AskedIdLists(s)] == One(hasIdLists && Rank(x.phase) >= 2)
    && events[AskedSpecs(s)] == One(Rank(x.phase) >= 4)
    && events[Stored(s)] == One(Rank(x.phase) >= 6)
    && (x.success <==> IdListsSaid(s, false) !in events && SpecsSaid(s, false) !in events)
  }

  ghost predicate CallsInv(hasIdLists: bool, st: State) {
    && (forall s :: s in st.starts ==> Traced(hasIdLists, s, st.starts[s], multiset(st.log)))
    && (forall e :: e in multiset(st.log) ==> e.s in st.starts)
  }

  lemma OtherEvent(hasIdLists: bool, s: nat, x: Start, log: seq<Event>, e: Event)
    requires Traced(hasIdLists, s, x, multiset(log)) && e.s != s
    ensures Traced(hasIdLists, s, x, multiset(log + [e]))
  {
    assert multiset(log + [e]) == multiset(log) + multiset{e};
  }

  lemma EventKeepsCalls(hasIdLists: bool, st: State, r: State, s: nat, e: Event)
    requires CallsInv(hasIdLists, st) && s in st.starts && e.s == s
    requires s in r.starts && r.starts == st.starts[s := r.starts[s]] && r.log == st.log + [e]
    requires Traced(hasIdLists, s, r.starts[s], multiset(st.log) + multiset{e})
    ensures CallsInv(hasIdLists, r)
  {
    hide Traced;
    assert multiset(st.log + [e]) == multiset(st.log) + multiset{e};
    forall t | t in st.starts && t != s
      ensures Traced(hasIdLists, t, st.starts[t], multiset(st.log + [e]))
    {
      OtherEvent(hasIdLists, t, st.starts[t], st.log, e);
    }
  }

  lemma MoveTraced(hasIdLists: bool, flag: bool, s: nat, x: Start, action: Action, events: multiset<Event>)
    requires Traced(hasIdLists, s, x, events)
    ensures match Move(hasIdLists, flag, s, x, action)
            case None => true
            case Some((y, e)) =>
              && Traced(hasIdLists, s, y, events + multiset{e})
              && (e.Stored? ==> Loaded(s, false) in events)
  {
  }

  lemma DropTraced(hasIdLists: bool, s: nat, x: Start, events: multiset<Event>)
    requires Traced(hasIdLists, s, x, events) && Droppable(x.phase)
    ensures Traced(hasIdLists, s, x.(phase := Dropped(x.phase)), events)
  {
  }

  lemma ActionKeepsCalls(hasIdLists: bool, st: State, s: nat, action: Action)
    requires CallsInv(hasIdLists, st)
    ensures CallsInv(hasIdLists, ActionNext(hasIdLists, st, s, action))
  {
    hide Traced, Move;
    if s in st.starts && action.Drop? {
      DropKeepsCalls(hasIdLists, st, s);
    } else if s in st.starts {
      assert Traced(hasIdLists, s, st.starts[s], multiset(st.log));
      hide CallsInv;
      MoveRank(hasIdLists, st.flag, s, st.starts[s], action);
      MoveTraced(hasIdLists, st.flag, s, st.starts[s], action, multiset(st.log));
      match Move(hasIdLists, st.flag, s, st.starts[s], action)
      case None =>
      case Some((x, e)) => EventKeepsCalls(hasIdLists, st, ActionNext(hasIdLists, st, s, action), s, e);
    }
  }

  lemma DropKeepsCalls(hasIdLists: bool, st: State, s: nat)
    requires CallsInv(hasIdLists, st)
    ensures CallsInv(hasIdLists, DropStart(st, s))
  {
    hide Traced;
    if s in st.starts && Droppable(st.starts[s].phase) {
      DropTraced(hasIdLists, s, st.starts[s], multiset(st.log));
    }
  }

  lemma NewTraced(hasIdLists: bool, s: nat, events: multiset<Event>)
    requires forall e :: e in events ==> e.s != s
    ensures Traced(hasIdLists, s, Start(Called, true), events)
  {
  }

  lemma NewStartKeepsCalls(hasIdLists: bool, st: State, n: nat, init: Init, s: nat)
    requires CallsInv(hasIdLists, st) && s !in st.starts
    ensures CallsInv(hasIdLists, WithStart(st, n, init, s))
  {
    hide Traced;
    NewTraced(hasIdLists, s, multiset(st.log));
  }

  lemma NextKeepsCalls(hasIdLists: bool, st: State, step: Step)
    requires CallsInv(hasIdLists, st)
    ensures CallsInv(hasIdLists, Next(hasIdLists, st, step))
  {
    hide Traced, ActionNext;
    match step
    case Initialize(n) =>
    case BeginStart(n, s) =>
      if s !in st.starts {
        NewStartKeepsCalls(hasIdLists, st, n, Starting(s), s);
      }
    case Timeout(n, s) =>
      if n in st.inits && s !in st.starts {
        if st.inits[n].Starting? {
          var own := st.inits[n].own;
          DropKeepsCalls(hasIdLists, st, own);
          NewStartKeepsCalls(hasIdLists, DropStart(st, own), n, TimedOut(Some(own), s), s);
        } else {
          NewStartKeepsCalls(hasIdLists, st, n, TimedOut(None, s), s);
        }
      }
    case Does(s, action) => ActionKeepsCalls(hasIdLists, st, s, action);
  }

  lemma {:induction false} RunCalls(hasIdLists: bool, steps: seq<Step>)
    ensures CallsInv(hasIdLists, Run(hasIdLists, steps))
  {
    if steps != [] {
      RunCalls(hasIdLists, steps[..|steps| - 1]);
      NextKeepsCalls(hasIdLists, Run(hasIdLists, steps[..|steps| - 1]), steps[|steps| - 1]);
    }
  }

  /**
    A round that returns has asked each adapter once and reports whether both agreed; a start that is not
    a round has asked none, and none of them is ever asked twice by the same start.
   */
  lemma EachRoundAsksOnce(hasIdLists: bool, steps: seq<Step>, s: nat)
    requires s in Run(hasIdLists, steps).starts
    ensures var st := Run(hasIdLists, steps);
            var events := multiset(st.log);
            && events[AskedIdLists(s)] <= One(hasIdLists) && events[AskedSpecs(s)] <= 1
            && (s !in Rounds(st) ==> events[AskedIdLists(s)] == events[AskedSpecs(s)] == 0)
            && (st.starts[s].phase == Returned ==>
                  && events[AskedIdLists(s)] == One(hasIdLists) && events[AskedSpecs(s)] == 1
                  && (st.starts[s].success <==> IdListsSaid(s, false) !in events && SpecsSaid(s, false) !in events))
  {
    hide Run, Traced, Rank;
    RunCalls(hasIdLists, steps);
    var st := Run(hasIdLists, steps);
    TracedCalls(hasIdLists, s, st.starts[s], multiset(st.log));
  }

  lemma TracedCalls(hasIdLists: bool, s: nat, x: Start, events: multiset<Event>)
    requires Traced(hasIdLists, s, x, events)
    ensures events[AskedIdLists(s)] <= One(hasIdLists) && events[AskedSpecs(s)] <= 1
    ensures Rank(x.phase) < 1 ==> events[AskedIdLists(s)] == events[AskedSpecs(s)] == 0
    ensures x.phase == Returned ==> events[AskedIdLists(s)] == One(hasIdLists) && events[AskedSpecs(s)] == 1
    ensures x.success <==> IdListsSaid(s, false) !in events && SpecsSaid(s, false) !in events
  {
  }

  // ---- Overlap ----

  /** No start reads the flag between another's finding it clear and that one's store. */
  predicate NoOverlap(log: seq<Event>) {
    forall j, i :: 0 <= j < i < |log| && log[j].Loaded? && !log[j].seen && log[i].Loaded? ==>
      Stored(log[j].s) in log[j..i]
  }

  /** A load sees what was stored before it, and a store comes after its own start found the flag clear. */
  ghost predicate OrderInv(log: seq<Event>) {
    && (forall i :: 0 <= i < |log| && log[i].Loaded? ==> (log[i].seen <==> HasStore(log[..i])))
    && (forall k :: 0 <= k < |log| && log[k].Stored? ==> Loaded(log[k].s, false) in log[..k])
  }

  lemma OrderSnoc(log: seq<Event>, e: Event)
    requires OrderInv(log)
    requires e.Loaded? ==> (e.seen <==> HasStore(log))
    requires e.Stored? ==> Loaded(e.s, false) in log
    ensures OrderInv(log + [e])
  {
    var more := log + [e];
    assert forall i: nat :: i <= |log| ==> more[..i] == log[..i];
    assert log[..|log|] == log;
  }

  lemma {:induction false} RunOrder(hasIdLists: bool, steps: seq<Step>)
    ensures OrderInv(Run(hasIdLists, steps).log)
  {
    if steps != [] {
      var prefix, step := steps[..|steps| - 1], steps[|steps| - 1];
      RunOrder(hasIdLists, prefix);
      RunCalls(hasIdLists, prefix);
      RoundsAreEarlyLoads(hasIdLists, prefix);
      StepOrder(hasIdLists, Run(hasIdLists, prefix), step);
    }
  }

  lemma StepOrder(hasIdLists: bool, st: State, step: Step)
    requires CallsInv(hasIdLists, st) && RoundsInv(st) && OrderInv(st.log)
    ensures OrderInv(Next(hasIdLists, st, step).log)
  {
    hide OrderInv, Rounds, EarlyLoads, HasStore, Move, Traced;
    if step.Does? && step.s in st.starts {
      var x := st.starts[step.s];
      MoveRank(hasIdLists, st.flag, step.s, x, step.action);
      MoveTraced(hasIdLists, st.flag, step.s, x, step.action, multiset(st.log));
      match Move(hasIdLists, st.flag, step.s, x, step.action)
      case None =>
      case Some((y, e)) => OrderSnoc(st.log, e);
    }
  }

  lemma EarlyIsClear(log: seq<Event>, i: nat)
    requires OrderInv(log)
    ensures i in EarlyLoads(log) <==> i < |log| && log[i].Loaded? && !log[i].seen
  {
  }

  /** At most one round happens exactly when no start overlaps a round: all the others read the flag after its store. */
  lemma OneRoundExactlyWhenNoOverlap(hasIdLists: bool, steps: seq<Step>)
    ensures var st := Run(hasIdLists, steps); |Rounds(st)| <= 1 <==> NoOverlap(st.log)
  {
    var log := Run(hasIdLists, steps).log;
    RoundsAreEarlyLoads(hasIdLists, steps);
    RunOrder(hasIdLists, steps);
    if |EarlyLoads(log)| <= 1 {
      OneEarlyLoad(log);
    } else {
      TwoEarlyLoadsOverlap(log);
    }
  }

  lemma OneEarlyLoad(log: seq<Event>)
    requires OrderInv(log) && |EarlyLoads(log)| <= 1
    ensures NoOverlap(log)
  {
    hide EarlyLoads;
    forall j, i | 0 <= j < i < |log| && log[j].Loaded? && !log[j].seen && log[i].Loaded?
      ensures Stored(log[j].s) in log[j..i]
    {
      EarlyIsClear(log, j);
      EarlyIsClear(log, i);
      AtMostOne(EarlyLoads(log), i, j);
      assert log[i].seen;
      var k :| 0 <= k < |log[..i]| && log[..i][k].Stored?;
      var l :| 0 <= l < |log[..k]| && log[..k][l] == Loaded(log[k].s, false);
      EarlyIsClear(log, l);
      AtMostOne(EarlyLoads(log), l, j);
      assert log[j..i][k - j] == log[k];
    }
  }

  lemma EarlyPairOverlaps(log: seq<Event>, j: nat, i: nat)
    requires OrderInv(log) && j in EarlyLoads(log) && i in EarlyLoads(log) && j < i
    ensures !NoOverlap(log)
  {
    EarlyIsClear(log, j);
    assert forall k :: 0 <= k < i ==> !log[..i][k].Stored?;
    assert forall k :: j <= k < i ==> log[j..i][k - j] == log[..i][k];
    assert Stored(log[j].s) !in log[j..i];
  }

  lemma TwoEarlyLoadsOverlap(log: seq<Event>)
    requires OrderInv(log) && |EarlyLoads(log)| >= 2
    ensures !NoOverlap(log)
  {
    hide EarlyLoads, NoOverlap, OrderInv;
    var a :| a in EarlyLoads(log);
    assert |EarlyLoads(log) - {a}| >= 1;
    var b :| b in EarlyLoads(log) - {a};
    if a < b {
      EarlyPairOverlaps(log, a, b);
    } else {
      EarlyPairOverlaps(log, b, a);
    }
  }

  /** Then exactly one happens as soon as any start reads the flag. */
  lemma FirstLoadIsARound(hasIdLists: bool, steps: seq<Step>, i: nat)
    requires var log := Run(hasIdLists, steps).log; i < |log| && log[i].Loaded? && NoOverlap(log)
    ensures |Rounds(Run(hasIdLists, steps))| == 1
  {
    var log := Run(hasIdLists, steps).log;
    OneRoundExactlyWhenNoOverlap(hasIdLists, steps);
    RoundsAreEarlyLoads(hasIdLists, steps);
    RunOrder(hasIdLists, steps);
    if log[i].seen {
      var k :| 0 <= k < |log[..i]| && log[..i][k].Stored?;
      var l :| 0 <= l < |log[..k]| && log[..k][l] == Loaded(log[k].s, false);
      EarlyIsClear(log, l);
    } else {
      EarlyIsClear(log, i);
    }
  }

  // ---- Initialize calls ----

  function StartsOf(init: Init): (ss: set<nat>) {
    match init
    case Preparing => {}
    case Starting(own) => {own}
    case TimedOut(None, spawned) => {spawned}
    case TimedOut(Some(own), spawned) => {own, spawned}
  }

  function AllStarts(inits: map<nat, Init>): (ss: set<nat>) {
    set n, s | n in inits && s in StartsOf(inits[n]) :: s
  }

  function TimedOutInits(inits: map<nat, Init>): (ns: set<nat>) {
    set n | n in inits && inits[n].TimedOut?
  }

  lemma WithoutInit(inits: map<nat, Init>, n: nat)
    requires n in inits
    ensures AllStarts(inits) == AllStarts(inits - {n}) + StartsOf(inits[n])
    ensures TimedOutInits(inits) == TimedOutInits(inits - {n}) + if inits[n].TimedOut? then {n} else {}
  {
    hide StartsOf;
    var rest := inits - {n};
    assert forall m :: m in inits && m != n ==> m in rest && rest[m] == inits[m];
  }

  lemma {:induction false} StartsPerInit(inits: map<nat, Init>)
    ensures |AllStarts(inits)| <= |inits| + |TimedOutInits(inits)|
    decreases |inits|
  {
    if inits == map[] {
      assert AllStarts(inits) == {};
    } else {
      var n :| n in inits;
      var rest := inits - {n};
      assert n !in TimedOutInits(rest);
      WithoutInit(inits, n);
      hide AllStarts, TimedOutInits;
      StartsPerInit(rest);
      UnionSize(AllStarts(rest), StartsOf(inits[n]));
    }
  }

  lemma SetInit(inits: map<nat, Init>, n: nat, init: Init)
    requires n in inits ==> StartsOf(inits[n]) <= StartsOf(init)
    ensures AllStarts(inits[n := init]) == AllStarts(inits) + StartsOf(init)
  {
    var r := inits[n := init];
    forall s
      ensures s in AllStarts(r) <==> s in AllStarts(inits) + StartsOf(init)
    {
      if s in AllStarts(inits) {
        var m :| m in inits && s in StartsOf(inits[m]);
        assert s in StartsOf(r[m]);
      }
      if s in StartsOf(init) {
        assert s in StartsOf(r[n]);
      }
    }
  }

  lemma NextKeepsAccount(hasIdLists: bool, st: State, step: Step)
    requires st.starts.Keys == AllStarts(st.inits)
    ensures var r := Next(hasIdLists, st, step); r.starts.Keys == AllStarts(r.inits)
  {
    hide AllStarts;
    var r := Next(hasIdLists, st, step);
    if !step.Does? && r != st {
      if step.Timeout? && st.inits[step.n].Starting? {
        OwnIsAStart(st.inits, step.n);
      }
      SetInit(st.inits, step.n, r.inits[step.n]);
    }
  }

  lemma OwnIsAStart(inits: map<nat, Init>, n: nat)
    requires n in inits
    ensures StartsOf(inits[n]) <= AllStarts(inits)
  {
  }

  lemma {:induction false} StartsAreAccounted(hasIdLists: bool, steps: seq<Step>)
    ensures var st := Run(hasIdLists, steps); st.starts.Keys == AllStarts(st.inits)
  {
    if steps != [] {
      StartsAreAccounted(hasIdLists, steps[..|steps| - 1]);
      NextKeepsAccount(hasIdLists, Run(hasIdLists, steps[..|steps| - 1]), steps[|steps| - 1]);
    }
  }

  /** There are never more rounds than initialize calls and timed-out initialize calls together. */
  lemma RoundsPerInitialize(hasIdLists: bool, steps: seq<Step>)
    ensures var st := Run(hasIdLists, steps); |Rounds(st)| <= |st.inits| + |TimedOutInits(st.inits)|
  {
    var st := Run(hasIdLists, steps);
    StartsAreAccounted(hasIdLists, steps);
    StartsPerInit(st.inits);
    SubsetSize(Rounds(st), AllStarts(st.inits));
  }

  /** An initialize call up to its wait for the specs adapter. */
  const WAITING := [Initialize(0), BeginStart(0, 0), Does(0, Load), Does(0, AskSpecs)]

  /** One initialize call that times out while it waits for the specs adapter schedules twice. */
  lemma TimeoutCanScheduleTwice()
    ensures var st := Run(false, WAITING + [Timeout(0, 1)] + [Does(1, Load)]); |st.inits| == 1 && Rounds(st) == {0, 1}
  {
    hide Run, Next;
    var a, b := Initialize(0), BeginStart(0, 0);
    InitializeBegins();
    RunSnoc(false, [a, b], Does(0, Load));
    RunSnoc(false, [a, b] + [Does(0, Load)], Does(0, AskSpecs));
    assert [a, b] + [Does(0, Load)] + [Does(0, AskSpecs)] == WAITING;
    WaitForSpecs();
    TimeoutWhileWaiting(WAITING);
  }

  const BEGUN := State(false, map[0 := Start(Called, true)], map[0 := Starting(0)], [])

  lemma InitializeBegins()
    ensures Run(false, [Initialize(0), BeginStart(0, 0)]) == BEGUN
  {
    RunSnoc(false, [], Initialize(0));
    RunSnoc(false, [Initialize(0)], BeginStart(0, 0));
    assert [] + [Initialize(0)] == [Initialize(0)];
    assert [Initialize(0)] + [BeginStart(0, 0)] == [Initialize(0), BeginStart(0, 0)];
  }

  lemma WaitForSpecs()
    ensures Next(false, Next(false, BEGUN, Does(0, Load)), Does(0, AskSpecs)) ==
            State(false, map[0 := Start(AwaitingSpecs, true)], map[0 := Starting(0)],
                  [Loaded(0, false), AskedSpecs(0)])
  {
  }

  lemma TimeoutWhileWaiting(steps: seq<Step>)
    requires Run(false, steps) == State(false, map[0 := Start(AwaitingSpecs, true)], map[0 := Starting(0)],
                                        [Loaded(0, false), AskedSpecs(0)])
    ensures var st := Run(false, steps + [Timeout(0, 1)] + [Does(1, Load)]); |st.inits| == 1 && Rounds(st) == {0, 1}
  {
    hide Run;
    RunSnoc(false, steps, Timeout(0, 1));
    RunSnoc(false, steps + [Timeout(0, 1)], Does(1, Load));
    var st := Run(false, steps + [Timeout(0, 1)] + [Does(1, Load)]);
    assert st.inits == map[0 := TimedOut(Some(0), 1)];
    assert st.starts == map[0 := Start(Dropped(AwaitingSpecs), true), 1 := Start(Entered, true)];
  }

  // ---- Starts that nothing interrupts ----

  /** The flag, and the calls the adapters received. */
  datatype Serial = Serial(started: bool, idListCalls: nat, specsCalls: nat)

  function AfterStart(hasIdLists: bool, st: Serial): (r: Serial) {
    if st.started then st else Serial(true, st.idListCalls + One(hasIdLists), st.specsCalls + 1)
  }

  function AfterStarts(hasIdLists: bool, n: nat): (r: Serial) {
    if n == 0 then Serial(false, 0, 0) else AfterStart(hasIdLists, AfterStarts(hasIdLists, n - 1))
  }

  /** The starts of one Statsig instance when nothing interrupts them. */
  class BackgroundTasks {
    const hasIdLists: bool
    var started: bool
    var idListCalls: nat
    var specsCalls: nat

    constructor (hasIdLists: bool)
      ensures this.hasIdLists == hasIdLists && View() == AfterStarts(hasIdLists, 0)
    {
      this.hasIdLists := hasIdLists;
      started, idListCalls, specsCalls := false, 0, 0;
    }

    ghost function View(): (st: Serial)
      reads this
    {
      Serial(started, idListCalls, specsCalls)
    }

    /** `idListsOk` and `specsOk` are the adapters' answers, should they be asked. */
    method Start(idListsOk: bool, specsOk: bool) returns (success: bool)
      modifies this
      ensures View() == AfterStart(hasIdLists, old(View()))
      ensures success == (old(started) || ((hasIdLists ==> idListsOk) && specsOk))
    {
      if started {
        return true;
      }
      success := true;
      if hasIdLists {
        idListCalls := idListCalls + 1;
        if !idListsOk {
          success := false;
        }
      }
      specsCalls := specsCalls + 1;
      if !specsOk {
        success := false;
      }
      started := true;
    }
  }

  /** However often initialize is called, each adapter is asked once. */
  lemma {:induction false} SerialStartsAskOnce(hasIdLists: bool, n: nat)
    requires n > 0
    ensures AfterStarts(hasIdLists, n) == Serial(true, One(hasIdLists), 1)
  {
    if n > 1 {
      SerialStartsAskOnce(hasIdLists, n - 1);
    }
  }

  // ---- The same as steps ----

  predicate IsAsk(e: Event, specs: bool) {
    if specs then e.AskedSpecs? else e.AskedIdLists?
  }

  /** How often the specs adapter, or the ID-list adapter, was asked. */
  function Asks(log: seq<Event>, specs: bool): (n: nat) {
    if log == [] then 0 else Asks(log[..|log| - 1], specs) + One(IsAsk(log[|log| - 1], specs))
  }

  lemma AsksSnoc(log: seq<Event>, e: Event, specs: bool)
    ensures Asks(log + [e], specs) == Asks(log, specs) + One(IsAsk(e, specs))
  {
    assert (log + [e])[..|log|] == log;
  }

  /** What a state of the machine is to the class above. */
  function SerialOf(st: State): (r: Serial) {
    Serial(st.flag, Asks(st.log, false), Asks(st.log, true))
  }

  function Acts(hasIdLists: bool, st: State, s: nat, actions: seq<Action>): (r: State)
    decreases |actions|
  {
    if actions == [] then st else Acts(hasIdLists, ActionNext(hasIdLists, st, s, actions[0]), s, actions[1..])
  }

  /** A start on its own: where it is, the flag, and the asks so far. */
  datatype Alone = Alone(x: Start, serial: Serial)

  function AloneNext(hasIdLists: bool, s: nat, p: Alone, action: Action): (r: Alone) {
    match Move(hasIdLists, p.serial.started, s, p.x, action)
    case None => p
    case Some((y, e)) =>
      Alone(y, Serial(p.serial.started || e.Stored?, p.serial.idListCalls + One(e.AskedIdLists?),
                      p.serial.specsCalls + One(e.AskedSpecs?)))
  }

  function AloneActs(hasIdLists: bool, s: nat, p: Alone, actions: seq<Action>): (r: Alone)
    decreases |actions|
  {
    if actions == [] then p else AloneActs(hasIdLists, s, AloneNext(hasIdLists, s, p, actions[0]), actions[1..])
  }

  ghost predicate StartAt(st: State, s: nat, p: Alone) {
    s in st.starts && st.starts[s] == p.x && SerialOf(st) == p.serial
  }

  lemma ActionAlone(hasIdLists: bool, st: State, s: nat, action: Action, p: Alone)
    requires StartAt(st, s, p) && !action.Drop?
    ensures StartAt(ActionNext(hasIdLists, st, s, action), s, AloneNext(hasIdLists, s, p, action))
  {
    hide Move, Asks;
    match Move(hasIdLists, st.flag, s, p.x, action)
    case None =>
    case Some((y, e)) =>
      AsksSnoc(st.log, e, false);
      AsksSnoc(st.log, e, true);
  }

  lemma {:induction false} ActsAlone(hasIdLists: bool, st: State, s: nat, actions: seq<Action>, p: Alone)
    requires StartAt(st, s, p) && Drop !in actions
    ensures StartAt(Acts(hasIdLists, st, s, actions), s, AloneActs(hasIdLists, s, p, actions))
    decreases |actions|
  {
    hide ActionNext, AloneNext, StartAt;
    if actions != [] {
      ActionAlone(hasIdLists, st, s, actions[0], p);
      ActsAlone(hasIdLists, ActionNext(hasIdLists, st, s, actions[0]), s, actions[1..],
                AloneNext(hasIdLists, s, p, actions[0]));
    }
  }

  /** All actions of a start in order; those that do not apply to it are not enabled. */
  function WholeStart(idListsOk: bool, specsOk: bool): (actions: seq<Action>) {
    [Load] + ([AskIdLists] + ([HearIdLists(idListsOk)] + ([AskSpecs] + ([HearSpecs(specsOk)] + ([Store] + [])))))
  }

  lemma AloneCons(hasIdLists: bool, s: nat, p: Alone, action: Action, rest: seq<Action>)
    ensures AloneActs(hasIdLists, s, p, [action] + rest)
            == AloneActs(hasIdLists, s, AloneNext(hasIdLists, s, p, action), rest)
    ensures AloneActs(hasIdLists, s, p, []) == p
  {
    assert ([action] + rest)[1..] == rest;
  }

  lemma WholeStartAlone(hasIdLists: bool, s: nat, serial: Serial, idListsOk: bool, specsOk: bool)
    ensures var r := AloneActs(hasIdLists, s, Alone(Start(Called, true), serial), WholeStart(idListsOk, specsOk));
            && r.serial == AfterStart(hasIdLists, serial)
            && r.x == Start(if serial.started then Skipped else Returned,
                            serial.started || ((hasIdLists ==> idListsOk) && specsOk))
  {
    hide AloneActs;
    var p0 := Alone(Start(Called, true), serial);
    var p1 := AloneNext(hasIdLists, s, p0, Load);
    var p2 := AloneNext(hasIdLists, s, p1, AskIdLists);
    var p3 := AloneNext(hasIdLists, s, p2, HearIdLists(idListsOk));
    var p4 := AloneNext(hasIdLists, s, p3, AskSpecs);
    var p5 := AloneNext(hasIdLists, s, p4, HearSpecs(specsOk));
    var p6 := AloneNext(hasIdLists, s, p5, Store);
    var a5 := [Store] + [];
    var a4 := [HearSpecs(specsOk)] + a5;
    var a3 := [AskSpecs] + a4;
    var a2 := [HearIdLists(idListsOk)] + a3;
    AloneCons(hasIdLists, s, p0, Load, [AskIdLists] + a2);
    AloneCons(hasIdLists, s, p1, AskIdLists, a2);
    AloneCons(hasIdLists, s, p2, HearIdLists(idListsOk), a3);
    AloneCons(hasIdLists, s, p3, AskSpecs, a4);
    AloneCons(hasIdLists, s, p4, HearSpecs(specsOk), a5);
    AloneCons(hasIdLists, s, p5, Store, []);
    AloneCons(hasIdLists, s, p6, Store, []);
  }

  /** The uninterrupted steps of a start do what Start does: to the flag, to the adapters and in the result. */
  lemma StartIsItsSteps(hasIdLists: bool, st: State, s: nat, idListsOk: bool, specsOk: bool)
    requires s in st.starts && st.starts[s] == Start(Called, true)
    ensures var r := Acts(hasIdLists, st, s, WholeStart(idListsOk, specsOk));
            && SerialOf(r) == AfterStart(hasIdLists, SerialOf(st))
            && s in r.starts && r.starts[s].phase == (if st.flag then Skipped else Returned)
            && r.starts[s].success == (st.flag || ((hasIdLists ==> idListsOk) && specsOk))
  {
    hide Acts, AloneActs, Asks;
    ActsAlone(hasIdLists, st, s, WholeStart(idListsOk, specsOk), Alone(st.starts[s], SerialOf(st)));
    WholeStartAlone(hasIdLists, s, SerialOf(st), idListsOk, specsOk);
  }

  // ---- Timeouts ----

  /** An initialize call can time out while it prepares or while its own start waits. */
  predicate CanTimeOut(st: State, n: nat) {
    && n in st.inits
    && match st.inits[n]
       case Preparing => true
       case Starting(own) =>
         own in st.starts
         && (st.starts[own].phase == Called || st.starts[own].phase == AwaitingIdLists
             || st.starts[own].phase == AwaitingSpecs)
       case TimedOut(_, _) => false
  }

  /** A timeout spawns a new start, and gives up its own where that one waits; everything else stays. */
  lemma TimeoutSpawnsExactly(hasIdLists: bool, st: State, n: nat, s: nat)
    requires s !in st.starts
    ensures var r := Next(hasIdLists, st, Timeout(n, s));
            && r.flag == st.flag && r.log == st.log
            && (s in r.starts <==> CanTimeOut(st, n))
            && (CanTimeOut(st, n) ==>
                  && r.starts[s] == Start(Called, true)
                  && n in r.inits && r.inits[n].TimedOut? && r.inits[n].spawned == s
                  && (st.inits[n].Starting? ==>
                        var own := st.inits[n].own;
                        && own in r.starts && r.starts[own].phase == Dropped(st.starts[own].phase)
                        && r.inits[n].before == Some(own))
                  && forall e :: e in st.starts && !(st.inits[n].Starting? && e == st.inits[n].own) ==>
                       e in r.starts && r.starts[e] == st.starts[e])
            && (!CanTimeOut(st, n) ==> r == st)
  {
  }

  /** In every run a start was given up only where it waited: never between the last answer and the store. */
  lemma DroppedOnlyWhileWaiting(hasIdLists: bool, steps: seq<Step>, s: nat)
    requires s in Run(hasIdLists, steps).starts && Run(hasIdLists, steps).starts[s].phase.Dropped?
    ensures Run(hasIdLists, steps).starts[s].phase.from in {Called, AwaitingIdLists, AwaitingSpecs}
  {
    hide Run;
    RunCalls(hasIdLists, steps);
    assert Traced(hasIdLists, s, Run(hasIdLists, steps).starts[s], multiset(Run(hasIdLists, steps).log));
  }

  /** An initialize call that gets that far makes a start of its own; everything else stays. */
  lemma InitializeStarts(hasIdLists: bool, st: State, n: nat, s: nat)
    requires n !in st.inits && s !in st.starts
    ensures var r := Next(hasIdLists, Next(hasIdLists, st, Initialize(n)), BeginStart(n, s));
            && r.starts == st.starts[s := Start(Called, true)] && r.inits == st.inits[n := Starting(s)]
            && r.flag == st.flag && r.log == st.log
  {
  }
}
