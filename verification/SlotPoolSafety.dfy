/**
  What the slot pool promises in every interleaving of constructors, destructors and dispatches,
  including exhausted pools and failed native registrations.
 */
module SlotPoolSafety {
  import opened Wrappers
  import opened FiniteSets
  import opened SlotTable
  import opened SlotPool

  // ---- Callbacks in flight ----

  predicate InFlight(st: State, d: nat, cbs: Callbacks) {
    d in st.dispatches && st.dispatches[d].held == Some(cbs)
  }

  predicate Ended(st: State, d: nat) {
    DispatchIn(st, d, Done) || DispatchIn(st, d, ThrewEarly)
  }

  lemma OthersKeepDispatch(handles: (nat, Callbacks) -> bool, st: State, step: Step, d: nat)
    requires Inv(st) && d in st.dispatches && (step.DispatchDoes? ==> step.d != d)
    ensures InBounds(st) && d in Next(handles, st, step).dispatches
    ensures Next(handles, st, step).dispatches[d] == st.dispatches[d]
  {
    hide Inv, ClientNext, DispatchNext;
    InvBounds(st);
    match step
    case ClientDoes(c, client) => OnlyOneClient(st, c, client);
    case DispatchDoes(e, dispatch) =>
      DispatchKeepsClients(handles, st, e, dispatch);
      assert d in st.dispatches - {e};
  }

  lemma EndedStays(handles: (nat, Callbacks) -> bool, st: State, step: Step, d: nat)
    requires Inv(st) && Ended(st, d)
    ensures InBounds(st) && Ended(Next(handles, st, step), d)
    ensures Next(handles, st, step).dispatches[d] == st.dispatches[d]
  {
    hide Inv, ClientNext;
    InvBounds(st);
    if step.ClientDoes? || step.d != d {
      OthersKeepDispatch(handles, st, step, d);
    }
  }

  lemma OwnStepKeepsInFlight(handles: (nat, Callbacks) -> bool, st: State, step: DispatchStep, d: nat, cbs: Callbacks)
    requires Inv(st) && InFlight(st, d, cbs)
    ensures InBounds(st)
    ensures var r := DispatchNext(handles, st, d, step); InFlight(r, d, cbs) || Ended(r, d)
  {
    InvBounds(st);
    assert DispatchInv(st.dispatches[d]);
    hide Inv, Release;
  }

  /**
    The callbacks a dispatch found stay allocated until that dispatch ends, whatever happens to the client
    that installed them and to the slot they came from.
   */
  lemma {:induction false} HeldUntilDispatchEnds(
    handles: (nat, Callbacks) -> bool, st: State, steps: seq<Step>, d: nat, cbs: Callbacks)
    requires Inv(st) && (InFlight(st, d, cbs) || Ended(st, d))
    ensures var r := Run(handles, st, steps);
            Ended(r, d) || (InFlight(r, d, cbs) && cbs in r.counts && cbs !in r.destroyed)
    decreases |steps|
  {
    hide Ended;
    if steps == [] {
      if InFlight(st, d, cbs) {
        OwnedIsAlive(st, ByDispatch(d));
      }
    } else {
      StepKeepsInFlight(handles, st, steps[0], d, cbs);
      NextKeepsInv(handles, st, steps[0]);
      hide Inv, Next;
      HeldUntilDispatchEnds(handles, Next(handles, st, steps[0]), steps[1..], d, cbs);
    }
  }

  lemma StepKeepsInFlight(handles: (nat, Callbacks) -> bool, st: State, step: Step, d: nat, cbs: Callbacks)
    requires Inv(st) && (InFlight(st, d, cbs) || Ended(st, d))
    ensures InBounds(st)
    ensures var r := Next(handles, st, step); InFlight(r, d, cbs) || Ended(r, d)
  {
    hide Inv, ClientNext, DispatchNext;
    InvBounds(st);
    if Ended(st, d) {
      EndedStays(handles, st, step, d);
    } else if step.ClientDoes? || step.d != d {
      OthersKeepDispatch(handles, st, step, d);
    } else {
      OwnStepKeepsInFlight(handles, st, step.dispatch, d, cbs);
    }
  }

  /** A lookup finds the callbacks of the client that holds the slot at that moment, or nothing. */
  lemma LookupFindsTheHolder(handles: (nat, Callbacks) -> bool, st: State, d: nat, cbs: Callbacks)
    requires Inv(st) && DispatchIn(st, d, Entered)
    ensures InBounds(st)
    ensures InFlight(DispatchNext(handles, st, d, Lookup), d, cbs) <==>
            exists c :: c in st.clients && st.clients[c].slot == st.dispatches[d].slot && st.clients[c].callbacks == cbs
  {
    InvBounds(st);
    var i := st.dispatches[d].slot;
    assert i < |st.slots|;
    hide CountInv, DispatchesInv, PhasesInv, Retain;
    if InFlight(DispatchNext(handles, st, d, Lookup), d, cbs) {
      assert st.slots[i] == Some(cbs);
      var c :| c in st.clients && st.clients[c].slot == i;
      assert Holding(st.clients[c]);
    }
  }

  // ---- Lifetimes ----

  lemma NextKeepsKnown(handles: (nat, Callbacks) -> bool, st: State, step: Step)
    requires InBounds(st)
    ensures Known(st) <= Known(Next(handles, st, step))
    ensures st.destroyed <= Next(handles, st, step).destroyed
  {
    hide Retain, Release;
  }

  /** Callbacks once allocated are destroyed exactly when nothing owns them any more, and never again come back. */
  lemma {:induction false} DestroyedExactlyWhenUnowned(
    handles: (nat, Callbacks) -> bool, st: State, steps: seq<Step>, cbs: Callbacks)
    requires Inv(st) && cbs in Known(st)
    ensures var r := Run(handles, st, steps);
            && (cbs in r.destroyed <==> Owners(r, cbs) == {})
            && (cbs in st.destroyed ==> cbs in r.destroyed)
    decreases |steps|
  {
    if steps == [] {
      assert CountOf(st, cbs) == |Owners(st, cbs)|;
    } else {
      NextKeepsInv(handles, st, steps[0]);
      NextKeepsKnown(handles, st, steps[0]);
      hide Inv, Next, Owners;
      DestroyedExactlyWhenUnowned(handles, Next(handles, st, steps[0]), steps[1..], cbs);
    }
  }

  /** With no client left and no dispatch under way, all callbacks are destroyed and all slots are empty. */
  lemma NothingLeaks(handles: (nat, Callbacks) -> bool, capacity: nat, steps: seq<Step>)
    ensures var r := Reached(handles, capacity, steps);
            r.clients == map[] && (forall d :: d in r.dispatches ==> Ended(r, d)) ==>
              r.counts == map[] && r.destroyed == Known(r) && (forall i :: 0 <= i < capacity ==> r.slots[i].None?)
  {
    var r := Reached(handles, capacity, steps);
    if r.clients == map[] && (forall d :: d in r.dispatches ==> Ended(r, d)) {
      assert forall d :: d in r.dispatches ==> DispatchInv(r.dispatches[d]) && Ended(r, d);
      assert forall o :: Holds(r, o).None?;
      forall cbs
        ensures cbs !in r.counts
      {
        assert Owners(r, cbs) == {};
        assert CountOf(r, cbs) == 0;
      }
    }
  }

  // ---- Argument buffers ----

  /** A buffer is freed at most once, and has been freed exactly when the dispatch copied or discarded its arguments. */
  lemma BuffersFreedOnce(handles: (nat, Callbacks) -> bool, capacity: nat, steps: seq<Step>, d: nat)
    requires d in Reached(handles, capacity, steps).dispatches
    ensures var x := Reached(handles, capacity, steps).dispatches[d];
            && x.frees <= 1
            && (x.frees == 1 <==> x.hasBuffer && (x.phase == Copied || x.phase == Done))
  {
    hide Reached;
    assert DispatchInv(Reached(handles, capacity, steps).dispatches[d]);
  }

  /** Nothing after its end touches a dispatch or its buffer. */
  lemma {:induction false} EndedForGood(handles: (nat, Callbacks) -> bool, st: State, steps: seq<Step>, d: nat)
    requires Inv(st) && Ended(st, d)
    ensures var r := Run(handles, st, steps); d in r.dispatches && r.dispatches[d] == st.dispatches[d]
    decreases |steps|
  {
    hide Inv, Next;
    if steps != [] {
      EndedStays(handles, st, steps[0], d);
      NextKeepsInv(handles, st, steps[0]);
      EndedForGood(handles, Next(handles, st, steps[0]), steps[1..], d);
    }
  }

  lemma RunCons(handles: (nat, Callbacks) -> bool, st: State, step: Step, rest: seq<Step>)
    requires Inv(st)
    ensures InBounds(st) && Inv(Next(handles, st, step))
    ensures Run(handles, st, [step] + rest) == Run(handles, Next(handles, st, step), rest)
  {
    hide Inv, Next;
    NextKeepsInv(handles, st, step);
    assert ([step] + rest)[1..] == rest;
  }

  /** A dispatch that ended with its buffer never freed. */
  predicate Leaked(st: State, d: nat) {
    Ended(st, d) && st.dispatches[d].hasBuffer && st.dispatches[d].frees == 0
  }

  /** A throw at the lookup leaks the buffer. */
  lemma LookupThrowLeaks(handles: (nat, Callbacks) -> bool, capacity: nat)
    requires capacity > 0
    ensures Leaked(Reached(handles, capacity, [DispatchDoes(0, Enter(0, true)), DispatchDoes(0, LookupThrows)]), 0)
  {
    hide Inv;
    var st := Initial(capacity);
    var enter, throws := DispatchDoes(0, Enter(0, true)), DispatchDoes(0, LookupThrows);
    InitialInv(capacity);
    assert [enter, throws] == [enter] + ([throws] + []);
    RunCons(handles, st, enter, [throws] + []);
    RunCons(handles, Next(handles, st, enter), throws, []);
  }

  /** So does a throw at the copy, once the dispatch has found callbacks that handle it. */
  lemma CopyThrowLeaks(handles: (nat, Callbacks) -> bool, st: State, d: nat)
    requires Inv(st) && DispatchIn(st, d, LookedUp) && st.dispatches[d].hasBuffer
    requires st.dispatches[d].held.Some? && handles(d, st.dispatches[d].held.value)
    ensures InBounds(st) && Leaked(DispatchNext(handles, st, d, CopyThrows), d)
  {
    InvBounds(st);
    assert DispatchInv(st.dispatches[d]);
    hide Inv, Release;
  }

  /** Such a run: a client claims slot 0, a dispatch through it looks its callbacks up, and the copy throws. */
  lemma CopyThrowRun(handles: (nat, Callbacks) -> bool, capacity: nat, cbs: Callbacks)
    requires capacity > 0 && handles(0, cbs)
    ensures Leaked(Reached(handles, capacity, [
                             ClientDoes(0, Construct(cbs)), ClientDoes(0, Claim),
                             DispatchDoes(0, Enter(0, true)), DispatchDoes(0, Lookup), DispatchDoes(0, CopyThrows)]), 0)
  {
    hide Inv, ClientNext, DispatchNext;
    var st := Initial(capacity);
    var make, claim := ClientDoes(0, Construct(cbs)), ClientDoes(0, Claim);
    var enter, lookup, throws := DispatchDoes(0, Enter(0, true)), DispatchDoes(0, Lookup), DispatchDoes(0, CopyThrows);
    var rest := [enter] + ([lookup] + ([throws] + []));
    assert [make, claim, enter, lookup, throws] == [make] + ([claim] + rest);
    InitialInv(capacity);
    FirstClientTakesSlotZero(capacity, cbs);
    RunCons(handles, st, make, [claim] + rest);
    RunCons(handles, Next(handles, st, make), claim, rest);
    var claimed := Next(handles, Next(handles, st, make), claim);
    FoundThenThrown(handles, claimed, cbs);
    RunCons(handles, claimed, enter, [lookup] + ([throws] + []));
    RunCons(handles, Next(handles, claimed, enter), lookup, [throws] + []);
    RunCons(handles, Next(handles, Next(handles, claimed, enter), lookup), throws, []);
  }

  lemma FirstClientTakesSlotZero(capacity: nat, cbs: Callbacks)
    requires capacity > 0
    ensures var made := ClientNext(Initial(capacity), 0, Construct(cbs));
            && InBounds(made)
            && ClientNext(made, 0, Claim).slots == Initial(capacity).slots[0 := Some(cbs)]
            && ClientNext(made, 0, Claim).dispatches == map[]
  {
    hide Retain, Release;
  }

  lemma FoundThenThrown(handles: (nat, Callbacks) -> bool, st: State, cbs: Callbacks)
    requires Inv(st) && st.slots != [] && st.slots[0] == Some(cbs) && st.dispatches == map[] && handles(0, cbs)
    ensures InBounds(st) && InBounds(DispatchNext(handles, st, 0, Enter(0, true)))
    ensures var found := DispatchNext(handles, DispatchNext(handles, st, 0, Enter(0, true)), 0, Lookup);
            InBounds(found) && Leaked(DispatchNext(handles, found, 0, CopyThrows), 0)
  {
    hide Inv, Retain, Release, FirstFree;
    InvBounds(st);
  }

  /** In state st this step is a throw of dispatch d, at the lookup or at the copy, that has a buffer to lose. */
  predicate Throws(handles: (nat, Callbacks) -> bool, st: State, step: Step, d: nat) {
    && step.DispatchDoes? && step.d == d && d in st.dispatches && st.dispatches[d].hasBuffer
    && var x := st.dispatches[d];
       || (step.dispatch.LookupThrows? && x.phase == Entered)
       || (step.dispatch.CopyThrows? && x.phase == LookedUp && x.held.Some? && handles(d, x.held.value))
  }

  lemma OwnStepLeaks(handles: (nat, Callbacks) -> bool, st: State, step: DispatchStep, d: nat)
    requires Inv(st)
    ensures InBounds(st)
    ensures Leaked(DispatchNext(handles, st, d, step), d) <==>
            Leaked(st, d) || Throws(handles, st, DispatchDoes(d, step), d)
  {
    hide Retain, Release, SlotInv, CountInv, PhasesInv;
    PoolInBounds(st);
    assert d in st.dispatches ==> DispatchInv(st.dispatches[d]);
  }

  lemma StepLeaks(handles: (nat, Callbacks) -> bool, st: State, step: Step, d: nat)
    requires Inv(st)
    ensures InBounds(st)
    ensures Leaked(Next(handles, st, step), d) <==> Leaked(st, d) || Throws(handles, st, step, d)
  {
    hide Inv, ClientNext, DispatchNext;
    InvBounds(st);
    match step
    case ClientDoes(c, client) => OnlyOneClient(st, c, client);
    case DispatchDoes(e, dispatch) =>
      if e == d {
        OwnStepLeaks(handles, st, dispatch, d);
      } else {
        DispatchKeepsClients(handles, st, e, dispatch);
        SameElsewhere(st.dispatches, DispatchNext(handles, st, e, dispatch).dispatches, e);
      }
  }

  lemma {:induction false} RunSnoc(handles: (nat, Callbacks) -> bool, st: State, steps: seq<Step>, step: Step)
    requires Inv(st)
    ensures InBounds(Run(handles, st, steps))
    ensures Run(handles, st, steps + [step]) == Next(handles, Run(handles, st, steps), step)
    decreases |steps|
  {
    hide Inv, Next, InBounds;
    InvBounds(Run(handles, st, steps));
    if steps == [] {
      RunCons(handles, st, step, []);
      assert [] + [step] == [step] + [];
    } else {
      RunCons(handles, st, steps[0], steps[1..] + [step]);
      RunCons(handles, st, steps[0], steps[1..]);
      assert steps + [step] == [steps[0]] + (steps[1..] + [step]) && steps == [steps[0]] + steps[1..];
      RunSnoc(handles, Next(handles, st, steps[0]), steps[1..], step);
    }
  }

  ghost predicate ThrowsAt(handles: (nat, Callbacks) -> bool, capacity: nat, steps: seq<Step>, k: nat, d: nat) {
    k < |steps| && Throws(handles, Reached(handles, capacity, steps[..k]), steps[k], d)
  }

  /** In every run, a dispatch ends with its buffer never freed exactly when one of the steps is such a throw of it. */
  lemma {:induction false} LeaksExactlyAtThrows(
    handles: (nat, Callbacks) -> bool, capacity: nat, steps: seq<Step>, d: nat)
    ensures Leaked(Reached(handles, capacity, steps), d) <==>
            exists k :: ThrowsAt(handles, capacity, steps, k, d)
    decreases |steps|
  {
    hide Inv, Next, Throws, Leaked, Run;
    if steps == [] {
      NothingLeakedYet(handles, capacity, d);
    } else {
      var n := |steps| - 1;
      var front := steps[..n];
      LeaksExactlyAtThrows(handles, capacity, front, d);
      assert steps == front + [steps[n]];
      InitialInv(capacity);
      RunSnoc(handles, Initial(capacity), front, steps[n]);
      StepLeaks(handles, Reached(handles, capacity, front), steps[n], d);
      if k: nat :| ThrowsAt(handles, capacity, front, k, d) {
        assert front[..k] == steps[..k];
        assert ThrowsAt(handles, capacity, steps, k, d);
      }
      if k: nat :| k < n && ThrowsAt(handles, capacity, steps, k, d) {
        assert front[..k] == steps[..k];
        assert ThrowsAt(handles, capacity, front, k, d);
      }
      assert ThrowsAt(handles, capacity, steps, n, d) <==>
             Throws(handles, Reached(handles, capacity, front), steps[n], d);
    }
  }

  lemma NothingLeakedYet(handles: (nat, Callbacks) -> bool, capacity: nat, d: nat)
    ensures !Leaked(Reached(handles, capacity, []), d)
  {
  }

  // ---- Slots ----

  function Holders(st: State): (cs: set<nat>) {
    set c | c in st.clients && Holding(st.clients[c])
  }

  function Occupied(st: State): (indices: set<nat>) {
    set i: nat | i < |st.slots| && st.slots[i].Some?
  }

  /** Occupied slots and holding clients correspond one to one, and each slot has its client's callbacks. */
  lemma SlotsMatchHolders(st: State)
    requires Inv(st)
    ensures forall c :: c in Holders(st) ==>
              st.clients[c].slot in Occupied(st) && st.slots[st.clients[c].slot] == Some(st.clients[c].callbacks)
    ensures forall c, e :: c in Holders(st) && e in Holders(st) && st.clients[c].slot == st.clients[e].slot ==> c == e
    ensures forall i :: i in Occupied(st) ==> exists c :: c in Holders(st) && st.clients[c].slot == i
    ensures |Holders(st)| == |Occupied(st)|
  {
    hide CountInv, DispatchesInv, PhasesInv;
    var slotOf: map<nat, nat> := map c | c in Holders(st) :: st.clients[c].slot;
    forall i | i in Occupied(st)
      ensures exists c :: c in Holders(st) && st.clients[c].slot == i
    {
      var c :| c in st.clients && st.clients[c].slot == i;
      assert c in Holders(st);
    }
    assert slotOf.Keys == Holders(st);
    forall i
      ensures i in slotOf.Values <==> i in Occupied(st)
    {
      if i in Occupied(st) {
        var c :| c in Holders(st) && st.clients[c].slot == i;
        assert slotOf[c] == i;
      }
    }
    assert slotOf.Values == Occupied(st);
    InjectiveSize(slotOf);
  }

  /** A claim comes back without a slot exactly when as many clients as there are slots hold one. */
  lemma ClaimFailsExactlyWhenFull(st: State, c: nat)
    requires Inv(st) && InPhase(st, c, Made)
    ensures InBounds(st)
    ensures var r := ClientNext(st, c, Claim);
            && c in r.clients
            && (!Holding(r.clients[c]) <==> |Holders(st)| == |st.slots|)
            && (Holding(r.clients[c]) ==> forall e :: e in st.clients ==> st.clients[e].slot != r.clients[c].slot)
  {
    InvBounds(st);
    assert PhaseInv(st.clients[c]);
    SlotsMatchHolders(st);
    BelowSize(|st.slots|, Occupied(st));
    hide Inv, Retain;
    var i := FirstFree(st.slots);
    assert i >= 0 ==> i !in Occupied(st);
    assert forall e :: e in st.clients && Holding(st.clients[e]) ==> e in Holders(st);
  }

  /** No step of a client takes, clears or overwrites the slot of another. */
  lemma OthersKeepTheirSlots(handles: (nat, Callbacks) -> bool, st: State, step: Step, c: nat)
    requires Inv(st) && c in Holders(st) && (step.ClientDoes? ==> step.c != c)
    ensures InBounds(st)
    ensures var r := Next(handles, st, step);
            && c in r.clients && r.clients[c] == st.clients[c]
            && r.clients[c].slot < |r.slots|
            && r.slots[r.clients[c].slot] == st.slots[st.clients[c].slot] == Some(st.clients[c].callbacks)
  {
    hide CountInv, DispatchesInv, PhasesInv, ClientNext, DispatchNext;
    InvBounds(st);
    NextKeepsPool(handles, st, step);
    match step
    case ClientDoes(e, client) =>
      OnlyOneClient(st, e, client);
      assert c in st.clients - {e};
    case DispatchDoes(d, dispatch) => DispatchKeepsClients(handles, st, d, dispatch);
  }

  function Registered(st: State): (cs: set<nat>) {
    set c | c in st.clients && st.clients[c].ref != 0
  }

  /** A registered client holds a slot, and a dispatch that looks that slot up finds its callbacks. */
  lemma RegisteredClientsAreFound(handles: (nat, Callbacks) -> bool, st: State, c: nat)
    requires Inv(st) && c in Registered(st)
    ensures c in Holders(st) && InBounds(st)
    ensures forall d :: DispatchIn(st, d, Entered) && st.dispatches[d].slot == st.clients[c].slot ==>
              InFlight(DispatchNext(handles, st, d, Lookup), d, st.clients[c].callbacks)
  {
    InvBounds(st);
    assert PhaseInv(st.clients[c]);
    forall d | DispatchIn(st, d, Entered) && st.dispatches[d].slot == st.clients[c].slot
      ensures InFlight(DispatchNext(handles, st, d, Lookup), d, st.clients[c].callbacks)
    {
      LookupFindsTheHolder(handles, st, d, st.clients[c].callbacks);
    }
  }

  /** With the pool size of both C++ files, no more than 32 clients are ever registered at a time. */
  lemma AtMostMaxSlotsRegistered(handles: (nat, Callbacks) -> bool, steps: seq<Step>)
    ensures var st := Reached(handles, MAX_SLOTS, steps);
            |st.slots| == 32 && |Registered(st)| <= |Holders(st)| <= 32
  {
    hide Reached, CountInv, SlotInv, DispatchesInv;
    var st := Reached(handles, MAX_SLOTS, steps);
    SlotsMatchHolders(st);
    BelowSize(|st.slots|, Occupied(st));
    forall c | c in Registered(st)
      ensures c in Holders(st)
    {
      assert PhaseInv(st.clients[c]);
    }
    SubsetSize(Registered(st), Holders(st));
  }

  // ---- Constructors and destructors as their steps ----

  /** After the claim: the first free slot is taken, if there is one. */
  predicate HasClaimed(st: State, r: State, c: nat, cbs: Callbacks) {
    var i := FirstFree(st.slots);
    if i < 0 then r.slots == st.slots && r.clients == st.clients[c := ClientState(cbs, -1, 0, Live)]
    else r.slots == st.slots[i := Some(cbs)] && r.clients == st.clients[c := ClientState(cbs, i, 0, Claimed)]
  }

  /** What Client's constructor leaves behind. */
  predicate IsConstructed(st: State, r: State, c: nat, cbs: Callbacks, native: nat) {
    var i := FirstFree(st.slots);
    if i < 0 || native == 0
    then r.slots == st.slots && r.clients == st.clients[c := ClientState(cbs, -1, 0, Live)]
    else r.slots == st.slots[i := Some(cbs)] && r.clients == st.clients[c := ClientState(cbs, i, native, Live)]
  }

  lemma ClaimingSteps(st: State, c: nat, cbs: Callbacks)
    requires Inv(st) && c !in st.clients && cbs !in Known(st)
    ensures InBounds(st) && InBounds(ClientNext(st, c, Construct(cbs)))
    ensures HasClaimed(st, ClientNext(ClientNext(st, c, Construct(cbs)), c, Claim), c, cbs)
  {
    hide Inv, Retain, Release, FirstFree;
    InvBounds(st);
  }

  lemma RegisterStep(st: State, c: nat, native: nat)
    requires InBounds(st)
    ensures var r := ClientNext(st, c, Register(native));
            if InPhase(st, c, Claimed)
            then
              && r.slots == st.slots && r.dispatches == st.dispatches
              && r.clients ==
                 st.clients[c := st.clients[c].(ref := native, phase := if native == 0 then Unregistering else Live)]
            else r == st
  {
  }

  lemma UnregisterStep(st: State, c: nat)
    requires InBounds(st)
    ensures var r := ClientNext(st, c, Unregister);
            if InPhase(st, c, Unregistering)
            then
              && r.slots == (if Holding(st.clients[c]) then st.slots[st.clients[c].slot := None] else st.slots)
              && r.clients == st.clients[c := st.clients[c].(slot := -1, phase := Live)]
            else r == st
  {
    hide Release;
  }

  lemma RegisteringSteps(st: State, claimed: State, c: nat, cbs: Callbacks, native: nat)
    requires InBounds(st) && c !in st.clients && HasClaimed(st, claimed, c, cbs) && claimed.dispatches == st.dispatches
    ensures InBounds(claimed) && InBounds(ClientNext(claimed, c, Register(native)))
    ensures IsConstructed(st, ClientNext(ClientNext(claimed, c, Register(native)), c, Unregister), c, cbs, native)
  {
    hide ClientNext, FirstFree;
    RegisterStep(claimed, c, native);
    UnregisterStep(ClientNext(claimed, c, Register(native)), c);
  }

  /** The steps of a constructor that nothing interrupts do what Client's constructor does. */
  lemma ConstructorIsItsSteps(st: State, c: nat, cbs: Callbacks, native: nat)
    requires Inv(st) && c !in st.clients && cbs !in Known(st)
    ensures InBounds(st) && InBounds(ClientNext(st, c, Construct(cbs)))
    ensures var claimed := ClientNext(ClientNext(st, c, Construct(cbs)), c, Claim);
            && InBounds(claimed) && InBounds(ClientNext(claimed, c, Register(native)))
            && IsConstructed(st, ClientNext(ClientNext(claimed, c, Register(native)), c, Unregister), c, cbs, native)
  {
    ClaimingSteps(st, c, cbs);
    var made := ClientNext(st, c, Construct(cbs));
    OnlyOneClient(st, c, Construct(cbs));
    OnlyOneClient(made, c, Claim);
    hide Inv, ClientNext, IsConstructed, HasClaimed;
    RegisteringSteps(st, ClientNext(made, c, Claim), c, cbs, native);
  }

  lemma ClosingSteps(st: State, c: nat)
    requires InBounds(st) && InPhase(st, c, Closing)
    ensures var cleared := ClientNext(st, c, ReleaseSlot);
            && InBounds(cleared)
            && ClientNext(cleared, c, Drop).clients == st.clients - {c}
            && ClientNext(cleared, c, Drop).slots ==
               if st.clients[c].slot < 0 then st.slots else st.slots[st.clients[c].slot := None]
  {
    hide Retain, Release;
  }

  /** The same for the destructor, after which the object is gone. */
  lemma DestructorIsItsSteps(st: State, c: nat)
    requires Inv(st) && InPhase(st, c, Live)
    ensures InBounds(st) && InBounds(ClientNext(st, c, ReleaseRef))
    ensures var cleared := ClientNext(ClientNext(st, c, ReleaseRef), c, ReleaseSlot);
            && InBounds(cleared)
            && ClientNext(cleared, c, Drop).clients == st.clients - {c}
            && ClientNext(cleared, c, Drop).slots ==
               if st.clients[c].slot < 0 then st.slots else st.slots[st.clients[c].slot := None]
  {
    InvBounds(st);
    var closing := ClientNext(st, c, ReleaseRef);
    assert closing.slots == st.slots && closing.clients == st.clients[c := st.clients[c].(ref := 0, phase := Closing)];
    hide Inv, ClientNext;
    ClosingSteps(closing, c);
    assert closing.clients - {c} == st.clients - {c};
  }

  // ---- When the user callback runs ----

  /** The callbacks a dispatch has found have the entry point it is for. */
  predicate FoundHandler(handles: (nat, Callbacks) -> bool, st: State, d: nat) {
    d in st.dispatches && st.dispatches[d].held.Some? && handles(d, st.dispatches[d].held.value)
  }

  /** After the lookup the callback is run exactly when it is there, and the call discarded exactly when it is not. */
  lemma RunsExactlyWhenHandled(handles: (nat, Callbacks) -> bool, st: State, d: nat)
    requires Inv(st) && DispatchIn(st, d, LookedUp)
    ensures InBounds(st)
    ensures DispatchIn(DispatchNext(handles, st, d, Copy), d, Copied) <==> FoundHandler(handles, st, d)
    ensures DispatchIn(DispatchNext(handles, st, d, Skip), d, Done) <==> !FoundHandler(handles, st, d)
    ensures FoundHandler(handles, st, d) ==>
      && DispatchNext(handles, st, d, Skip) == st
      && DispatchNext(handles, st, d, Copy).dispatches[d].held == st.dispatches[d].held
    ensures !FoundHandler(handles, st, d) ==> DispatchNext(handles, st, d, Copy) == st
  {
    hide Inv, Retain, Release;
    InvBounds(st);
  }

  ghost predicate OnlyHandlersRun(handles: (nat, Callbacks) -> bool, st: State) {
    forall d :: DispatchIn(st, d, Copied) ==> FoundHandler(handles, st, d)
  }

  lemma StepRunsHandlers(handles: (nat, Callbacks) -> bool, st: State, step: Step)
    requires Inv(st) && OnlyHandlersRun(handles, st)
    ensures InBounds(st) && OnlyHandlersRun(handles, Next(handles, st, step))
  {
    hide Inv, ClientNext, Retain, Release;
    InvBounds(st);
    var r := Next(handles, st, step);
    forall d | DispatchIn(r, d, Copied)
      ensures FoundHandler(handles, r, d)
    {
      if step.ClientDoes? {
        OnlyOneClient(st, step.c, step.client);
        assert DispatchIn(st, d, Copied);
      } else if step.d != d {
        DispatchKeepsClients(handles, st, step.d, step.dispatch);
        SameElsewhere(st.dispatches, r.dispatches, step.d);
        assert DispatchIn(st, d, Copied);
      } else if DispatchIn(st, d, Copied) {
        assert FoundHandler(handles, st, d);
      }
    }
  }

  /** In every run only callbacks that handle a dispatch are ever run for it. */
  lemma {:induction false} OnlyHandlersAreRun(
    handles: (nat, Callbacks) -> bool, capacity: nat, steps: seq<Step>, d: nat)
    ensures OnlyHandlersRun(handles, Reached(handles, capacity, steps))
    ensures DispatchIn(Reached(handles, capacity, steps), d, Copied) ==>
            FoundHandler(handles, Reached(handles, capacity, steps), d)
    decreases |steps|
  {
    hide Inv, Next, FoundHandler, Run;
    if steps == [] {
      NoDispatchYet(handles, capacity);
    } else {
      var front, last := steps[..|steps| - 1], steps[|steps| - 1];
      OnlyHandlersAreRun(handles, capacity, front, d);
      assert steps == front + [last];
      InitialInv(capacity);
      RunSnoc(handles, Initial(capacity), front, last);
      StepRunsHandlers(handles, Reached(handles, capacity, front), last);
    }
  }

  lemma NoDispatchYet(handles: (nat, Callbacks) -> bool, capacity: nat)
    ensures Reached(handles, capacity, []).dispatches == map[]
  {
  }

  /** A call through the slot of a registered client that handles it runs that client's callback and then ends. */
  lemma RegisteredCallbackRuns(
    handles: (nat, Callbacks) -> bool, st: State, c: nat, d: nat, hasBuffer: bool)
    requires Inv(st) && c in Registered(st) && d !in st.dispatches && handles(d, st.clients[c].callbacks)
    ensures InBounds(st) && 0 <= st.clients[c].slot
    ensures var entered := DispatchNext(handles, st, d, Enter(st.clients[c].slot, hasBuffer));
            InBounds(entered)
            && var found := DispatchNext(handles, entered, d, Lookup);
               InBounds(found)
               && var r := DispatchNext(handles, found, d, Copy);
                  && DispatchIn(r, d, Copied) && r.dispatches[d].held == Some(st.clients[c].callbacks)
                  && InBounds(r) && DispatchIn(DispatchNext(handles, r, d, Finish), d, Done)
  {
    hide Inv, DispatchNext;
    RegisteredClientsAreFound(handles, st, c);
    InvBounds(st);
    var slot := st.clients[c].slot;
    EnteredAt(handles, st, d, slot, hasBuffer);
    NextKeepsInv(handles, st, DispatchDoes(d, Enter(slot, hasBuffer)));
    var entered := DispatchNext(handles, st, d, Enter(slot, hasBuffer));
    RegisteredClientsAreFound(handles, entered, c);
    NextKeepsInv(handles, entered, DispatchDoes(d, Lookup));
    LookedUpNow(handles, entered, d);
    var found := DispatchNext(handles, entered, d, Lookup);
    RunsExactlyWhenHandled(handles, found, d);
    NextKeepsInv(handles, found, DispatchDoes(d, Copy));
    InvBounds(DispatchNext(handles, found, d, Copy));
    FinishedNow(handles, DispatchNext(handles, found, d, Copy), d);
  }

  lemma FinishedNow(handles: (nat, Callbacks) -> bool, st: State, d: nat)
    requires InBounds(st) && DispatchIn(st, d, Copied)
    ensures DispatchIn(DispatchNext(handles, st, d, Finish), d, Done)
  {
    hide Release;
  }

  lemma EnteredAt(handles: (nat, Callbacks) -> bool, st: State, d: nat, slot: nat, hasBuffer: bool)
    requires InBounds(st) && d !in st.dispatches && slot < |st.slots|
    ensures var r := DispatchNext(handles, st, d, Enter(slot, hasBuffer));
            && r.clients == st.clients && DispatchIn(r, d, Entered) && r.dispatches[d].slot == slot
            && r.dispatches[d].hasBuffer == hasBuffer
  {
  }

  lemma LookedUpNow(handles: (nat, Callbacks) -> bool, st: State, d: nat)
    requires InBounds(st) && DispatchIn(st, d, Entered)
    ensures DispatchIn(DispatchNext(handles, st, d, Lookup), d, LookedUp)
  {
    hide Retain;
  }
}
