/**
  The slot pool under concurrency: clients are constructed and destroyed and callbacks are dispatched by
  any number of threads. Each section under the mutex, and each other action another thread can observe,
  is one atomic step. Callbacks are shared: every shared_ptr copy adds to their count, and they are
  destroyed when the count reaches zero. A step that is not enabled changes nothing.
 */
module SlotPool {
  import opened Wrappers
  import opened SlotTable

  datatype ClientPhase =
    | Made            // callbacks allocated, no slot asked for yet
    | Claimed         // slot claimed, native registration pending
    | Unregistering   // native registration failed, slot still held
    | Live            // constructor done
    | Closing         // destructor has released the native reference
    | Closed          // destructor has released the slot

  datatype ClientState = ClientState(callbacks: Callbacks, slot: int, ref: nat, phase: ClientPhase)

  datatype DispatchPhase =
    | Entered         // the trampoline was called
    | LookedUp        // a strong reference to the slot's content is held
    | Copied          // arguments copied out and freed; the user callback runs
    | Done            // returned, with arguments released on the way
    | ThrewEarly      // threw at the lookup or at the copy

  /** A call through a trampoline; `frees` counts the calls to free_string on its argument buffer. */
  datatype Dispatch = Dispatch(slot: nat, hasBuffer: bool, held: Option<Callbacks>, frees: nat, phase: DispatchPhase)

  datatype State = State(
    slots: Slots,
    clients: map<nat, ClientState>,
    dispatches: map<nat, Dispatch>,
    counts: map<Callbacks, nat>,
    destroyed: set<Callbacks>)

  function Initial(capacity: nat): (st: State) {
    State(seq(capacity, i => None), map[], map[], map[], {})
  }

  /** The life of a client: its constructor up to Live, its destructor from there. */
  datatype ClientStep =
    | Construct(cbs: Callbacks)
    | Claim
    | Register(native: nat)
    | Unregister
    | ReleaseRef
    | ReleaseSlot
    | Drop

  /** The course of a dispatch; the two throws leave the argument buffer unfreed. */
  datatype DispatchStep =
    | Enter(slot: nat, hasBuffer: bool)
    | Lookup
    | LookupThrows
    | Skip
    | Copy
    | CopyThrows
    | Finish

  datatype Step = ClientDoes(c: nat, client: ClientStep) | DispatchDoes(d: nat, dispatch: DispatchStep)

  // ---- Shared ownership ----

  function CountOf(st: State, cbs: Callbacks): (n: nat) {
    if cbs in st.counts then st.counts[cbs] else 0
  }

  /** The callbacks that were ever allocated. */
  function Known(st: State): (s: set<Callbacks>) {
    st.counts.Keys + st.destroyed
  }

  /** A new shared_ptr copy. */
  function Retain(st: State, cbs: Option<Callbacks>): (r: State)
    ensures r.slots == st.slots && r.clients == st.clients && r.dispatches == st.dispatches
    ensures Known(st) <= Known(r) && st.destroyed <= r.destroyed
  {
    if cbs.None? then st else st.(counts := st.counts[cbs.value := CountOf(st, cbs.value) + 1])
  }

  /** A shared_ptr goes away; the last one destroys the callbacks. */
  function Release(st: State, cbs: Option<Callbacks>): (r: State)
    ensures r.slots == st.slots && r.clients == st.clients && r.dispatches == st.dispatches
    ensures Known(st) <= Known(r) && st.destroyed <= r.destroyed
  {
    if cbs.None? then st
    else if CountOf(st, cbs.value) <= 1 then
      st.(counts := st.counts - {cbs.value}, destroyed := st.destroyed + {cbs.value})
    else st.(counts := st.counts[cbs.value := CountOf(st, cbs.value) - 1])
  }

  // ---- Steps ----

  predicate InPhase(st: State, c: nat, phase: ClientPhase) {
    c in st.clients && st.clients[c].phase == phase
  }

  predicate DispatchIn(st: State, d: nat, phase: DispatchPhase) {
    d in st.dispatches && st.dispatches[d].phase == phase
  }

  function SetClient(st: State, c: nat, client: ClientState): (r: State) {
    st.(clients := st.clients[c := client])
  }

  function SetDispatch(st: State, d: nat, dispatch: Dispatch): (r: State) {
    st.(dispatches := st.dispatches[d := dispatch])
  }

  /** release_slot: a negative slot is ignored. */
  function ClearSlot(st: State, slot: int): (r: State)
    requires slot < |st.slots|
  {
    if slot < 0 then st else Release(st.(slots := st.slots[slot := None]), st.slots[slot])
  }

  /** The end of a dispatch: its strong reference goes away. */
  function EndDispatch(st: State, d: nat, phase: DispatchPhase, freed: nat): (r: State)
    requires d in st.dispatches
  {
    var x := st.dispatches[d];
    Release(SetDispatch(st, d, x.(held := None, frees := x.frees + freed, phase := phase)), x.held)
  }

  function Freed(x: Dispatch): (n: nat) {
    if x.hasBuffer then 1 else 0
  }

  function ClientNext(st: State, c: nat, step: ClientStep): (r: State)
    requires forall e :: e in st.clients ==> st.clients[e].slot < |st.slots|
  {
    match step
    case Construct(cbs) =>
      if c in st.clients || cbs in st.counts || cbs in st.destroyed then st
      else Retain(SetClient(st, c, ClientState(cbs, -1, 0, Made)), Some(cbs))
    case Claim =>
      if !InPhase(st, c, Made) then st
      else
        var client, i := st.clients[c], FirstFree(st.slots);
        if i < 0 then SetClient(st, c, client.(phase := Live))
        else
          var claimed := SetClient(st, c, client.(slot := i, phase := Claimed));
          Retain(claimed.(slots := st.slots[i := Some(client.callbacks)]), Some(client.callbacks))
    case Register(native) =>
      if !InPhase(st, c, Claimed) then st
      else SetClient(st, c, st.clients[c].(ref := native, phase := if native == 0 then Unregistering else Live))
    case Unregister =>
      if !InPhase(st, c, Unregistering) then st
      else ClearSlot(SetClient(st, c, st.clients[c].(slot := -1, phase := Live)), st.clients[c].slot)
    case ReleaseRef =>
      if !InPhase(st, c, Live) then st else SetClient(st, c, st.clients[c].(ref := 0, phase := Closing))
    case ReleaseSlot =>
      if !InPhase(st, c, Closing) then st
      else ClearSlot(SetClient(st, c, st.clients[c].(slot := -1, phase := Closed)), st.clients[c].slot)
    case Drop =>
      if !InPhase(st, c, Closed) then st
      else Release(st.(clients := st.clients - {c}), Some(st.clients[c].callbacks))
  }

  /** handles says which callbacks have the entry point that a dispatch is for. */
  function DispatchNext(handles: (nat, Callbacks) -> bool, st: State, d: nat, step: DispatchStep): (r: State)
    requires forall e :: e in st.dispatches ==> st.dispatches[e].slot < |st.slots|
  {
    match step
    case Enter(slot, hasBuffer) =>
      if d in st.dispatches || slot >= |st.slots| then st
      else SetDispatch(st, d, Dispatch(slot, hasBuffer, None, 0, Entered))
    case Lookup =>
      if !DispatchIn(st, d, Entered) then st
      else
        var x := st.dispatches[d];
        Retain(SetDispatch(st, d, x.(held := st.slots[x.slot], phase := LookedUp)), st.slots[x.slot])
    case LookupThrows =>
      if !DispatchIn(st, d, Entered) then st
      else SetDispatch(st, d, st.dispatches[d].(phase := ThrewEarly))
    case Skip =>
      if !DispatchIn(st, d, LookedUp) then st
      else
        var x := st.dispatches[d];
        if x.held.Some? && handles(d, x.held.value) then st else EndDispatch(st, d, Done, Freed(x))
    case Copy =>
      if !DispatchIn(st, d, LookedUp) then st
      else
        var x := st.dispatches[d];
        if x.held.None? || !handles(d, x.held.value) then st
        else SetDispatch(st, d, x.(frees := x.frees + Freed(x), phase := Copied))
    case CopyThrows =>
      if !DispatchIn(st, d, LookedUp) then st
      else
        var x := st.dispatches[d];
        if x.held.None? || !handles(d, x.held.value) || !x.hasBuffer then st
        else EndDispatch(st, d, ThrewEarly, 0)
    case Finish =>
      if !DispatchIn(st, d, Copied) then st else EndDispatch(st, d, Done, 0)
  }

  predicate InBounds(st: State) {
    && (forall c :: c in st.clients ==> st.clients[c].slot < |st.slots|)
    && (forall d :: d in st.dispatches ==> st.dispatches[d].slot < |st.slots|)
  }

  function Next(handles: (nat, Callbacks) -> bool, st: State, step: Step): (r: State)
    requires InBounds(st)
  {
    match step
    case ClientDoes(c, client) => ClientNext(st, c, client)
    case DispatchDoes(d, dispatch) => DispatchNext(handles, st, d, dispatch)
  }

  // ---- Slots and clients ----

  predicate Holding(client: ClientState) {
    client.slot >= 0
  }

  /** Occupied slots and clients holding a slot correspond one to one, and match in their callbacks. */
  ghost predicate SlotInv(st: State) {
    && (forall c :: c in st.clients ==>
          && -1 <= st.clients[c].slot < |st.slots|
          && (Holding(st.clients[c]) ==> st.slots[st.clients[c].slot] == Some(st.clients[c].callbacks)))
    && (forall c, e :: c in st.clients && e in st.clients && c != e && Holding(st.clients[c]) ==>
          st.clients[c].slot != st.clients[e].slot)
    && (forall i :: 0 <= i < |st.slots| && st.slots[i].Some? ==>
          exists c :: c in st.clients && st.clients[c].slot == i)
    && (forall d :: d in st.dispatches ==> st.dispatches[d].slot < |st.slots|)
  }

  /** Each phase of a client's life fixes whether it holds a slot and whether it is registered. */
  ghost predicate PhaseInv(client: ClientState) {
    match client.phase
    case Made => !Holding(client) && client.ref == 0
    case Claimed => Holding(client) && client.ref == 0
    case Unregistering => Holding(client) && client.ref == 0
    case Live => Holding(client) <==> client.ref != 0
    case Closing => client.ref == 0
    case Closed => !Holding(client) && client.ref == 0
  }

  ghost predicate PhasesInv(st: State) {
    forall c :: c in st.clients ==> PhaseInv(st.clients[c])
  }

  lemma ClaimKeepsSlots(st: State, r: State, c: nat, i: nat)
    requires SlotInv(st) && c in st.clients && !Holding(st.clients[c]) && i < |st.slots| && st.slots[i].None?
    requires r.slots == st.slots[i := Some(st.clients[c].callbacks)] && r.dispatches == st.dispatches
    requires r.clients == st.clients[c := st.clients[c].(slot := i, phase := Claimed)]
    ensures SlotInv(r)
  {
    forall k | 0 <= k < |r.slots| && r.slots[k].Some?
      ensures exists e :: e in r.clients && r.clients[e].slot == k
    {
      if k == i {
        assert r.clients[c].slot == k;
      } else {
        var e :| e in st.clients && st.clients[e].slot == k;
        assert r.clients[e].slot == k;
      }
    }
  }

  lemma ClearKeepsSlots(st: State, r: State, c: nat, phase: ClientPhase)
    requires SlotInv(st) && c in st.clients
    requires r.slots == if Holding(st.clients[c]) then st.slots[st.clients[c].slot := None] else st.slots
    requires r.dispatches == st.dispatches
    requires r.clients == st.clients[c := st.clients[c].(slot := -1, phase := phase)]
    ensures SlotInv(r)
  {
    forall k | 0 <= k < |r.slots| && r.slots[k].Some?
      ensures exists e :: e in r.clients && r.clients[e].slot == k
    {
      var e :| e in st.clients && st.clients[e].slot == k;
      assert e != c;
      assert r.clients[e].slot == k;
    }
  }

  /** A client changes in neither slot nor callbacks, or one appears or goes without a slot. */
  lemma SameSlots(st: State, r: State)
    requires SlotInv(st) && r.slots == st.slots
    requires forall d :: d in r.dispatches ==> r.dispatches[d].slot < |r.slots|
    requires forall c :: c in r.clients ==>
      if c in st.clients
      then r.clients[c].slot == st.clients[c].slot && r.clients[c].callbacks == st.clients[c].callbacks
      else r.clients[c].slot == -1
    requires forall c :: c in st.clients && c !in r.clients ==> st.clients[c].slot == -1
    ensures SlotInv(r)
  {
    forall k | 0 <= k < |r.slots| && r.slots[k].Some?
      ensures exists e :: e in r.clients && r.clients[e].slot == k
    {
      var e :| e in st.clients && st.clients[e].slot == k;
      assert e in r.clients;
    }
  }

  ghost predicate SameExcept<T(!new)>(m: map<nat, T>, r: map<nat, T>, k: nat) {
    m - {k} == r - {k}
  }

  lemma SameElsewhere<T(!new)>(m: map<nat, T>, r: map<nat, T>, k: nat)
    requires SameExcept(m, r, k)
    ensures forall e :: e != k ==> (e in m <==> e in r) && (e in m ==> r[e] == m[e])
  {
    assert forall e :: e != k && e in m ==> e in m - {k} && m[e] == (m - {k})[e];
    assert forall e :: e != k && e in r ==> e in r - {k} && r[e] == (r - {k})[e];
  }

  /** The steps at which a client neither takes nor gives back a slot. */
  predicate LeavesSlots(st: State, c: nat, step: ClientStep) {
    match step
    case Claim => !InPhase(st, c, Made) || FirstFree(st.slots) < 0
    case Unregister => !InPhase(st, c, Unregistering)
    case ReleaseSlot => !InPhase(st, c, Closing)
    case _ => true
  }

  lemma OtherStepsLeaveSlots(st: State, c: nat, step: ClientStep)
    requires InBounds(st) && PhasesInv(st) && LeavesSlots(st, c, step)
    ensures var r := ClientNext(st, c, step);
            && r.slots == st.slots && r.dispatches == st.dispatches
            && SameExcept(st.clients, r.clients, c)
            && (c in r.clients && c in st.clients ==>
                  r.clients[c].slot == st.clients[c].slot && r.clients[c].callbacks == st.clients[c].callbacks)
            && (c in r.clients && c !in st.clients ==> r.clients[c].slot == -1)
            && (c !in r.clients && c in st.clients ==> !Holding(st.clients[c]))
  {
    hide Retain, Release, FirstFree;
    assert c in st.clients ==> PhaseInv(st.clients[c]);
  }

  lemma ClientKeepsSlots(st: State, c: nat, step: ClientStep)
    requires SlotInv(st) && PhasesInv(st)
    ensures SlotInv(ClientNext(st, c, step))
  {
    hide Retain, Release, FirstFree;
    if LeavesSlots(st, c, step) {
      LeavingSlotsKeeps(st, c, step);
    } else {
      MovingSlotKeeps(st, c, step);
    }
  }

  lemma LeavingSlotsKeeps(st: State, c: nat, step: ClientStep)
    requires SlotInv(st) && PhasesInv(st) && LeavesSlots(st, c, step)
    ensures SlotInv(ClientNext(st, c, step))
  {
    hide ClientNext, PhasesInv, LeavesSlots, SameExcept;
    OtherStepsLeaveSlots(st, c, step);
    var r := ClientNext(st, c, step);
    SameElsewhere(st.clients, r.clients, c);
    SameSlots(st, r);
  }

  lemma MovingSlotKeeps(st: State, c: nat, step: ClientStep)
    requires SlotInv(st) && PhasesInv(st) && !LeavesSlots(st, c, step)
    ensures SlotInv(ClientNext(st, c, step))
  {
    hide Retain, Release, FirstFree;
    var r := ClientNext(st, c, step);
    assert PhaseInv(st.clients[c]);
    match step
    case Claim => ClaimKeepsSlots(st, r, c, FirstFree(st.slots));
    case Unregister => ClearKeepsSlots(st, r, c, Live);
    case ReleaseSlot => ClearKeepsSlots(st, r, c, Closed);
  }

  lemma ClientKeepsPhases(st: State, c: nat, step: ClientStep)
    requires SlotInv(st) && PhasesInv(st)
    ensures PhasesInv(ClientNext(st, c, step))
  {
    hide Retain, Release, FirstFree;
    var r := ClientNext(st, c, step);
    OnlyOneClient(st, c, step);
    assert c in st.clients ==> PhaseInv(st.clients[c]);
    assert c in r.clients ==> PhaseInv(r.clients[c]);
  }

  lemma OnlyOneClient(st: State, c: nat, step: ClientStep)
    requires InBounds(st)
    ensures SameExcept(st.clients, ClientNext(st, c, step).clients, c)
    ensures ClientNext(st, c, step).dispatches == st.dispatches
    ensures |ClientNext(st, c, step).slots| == |st.slots|
  {
    hide Retain, Release, FirstFree;
  }

  lemma DispatchKeepsClients(handles: (nat, Callbacks) -> bool, st: State, d: nat, step: DispatchStep)
    requires InBounds(st)
    ensures var r := DispatchNext(handles, st, d, step);
            && r.clients == st.clients && r.slots == st.slots
            && SameExcept(st.dispatches, r.dispatches, d)
            && (d in r.dispatches ==> r.dispatches[d].slot < |r.slots|)
  {
    hide Retain, Release;
  }

  ghost predicate PoolInv(st: State) {
    SlotInv(st) && PhasesInv(st)
  }

  lemma NextKeepsPool(handles: (nat, Callbacks) -> bool, st: State, step: Step)
    requires PoolInv(st)
    ensures InBounds(st) && PoolInv(Next(handles, st, step))
  {
    hide ClientNext, DispatchNext, SlotInv, PhasesInv;
    PoolInBounds(st);
    match step
    case ClientDoes(c, client) =>
      ClientKeepsSlots(st, c, client);
      ClientKeepsPhases(st, c, client);
    case DispatchDoes(d, dispatch) => DispatchKeepsPool(handles, st, d, dispatch);
  }

  lemma DispatchKeepsPool(handles: (nat, Callbacks) -> bool, st: State, d: nat, step: DispatchStep)
    requires PoolInv(st)
    ensures InBounds(st) && PoolInv(DispatchNext(handles, st, d, step))
  {
    hide DispatchNext, SameExcept;
    PoolInBounds(st);
    DispatchKeepsClients(handles, st, d, step);
    var r := DispatchNext(handles, st, d, step);
    SameElsewhere(st.dispatches, r.dispatches, d);
    SameSlots(st, r);
  }

  lemma PoolInBounds(st: State)
    requires PoolInv(st)
    ensures InBounds(st)
  {
  }

  // ---- Reference counts ----

  /** The places a shared_ptr to callbacks is kept. */
  datatype Owner = ByClient(c: nat) | BySlot(i: nat) | ByDispatch(d: nat)

  function Holds(st: State, o: Owner): (cbs: Option<Callbacks>) {
    match o
    case ByClient(c) => if c in st.clients then Some(st.clients[c].callbacks) else None
    case BySlot(i) => if i < |st.slots| then st.slots[i] else None
    case ByDispatch(d) => if d in st.dispatches then st.dispatches[d].held else None
  }

  function Everyone(st: State): (os: set<Owner>) {
    (set c | c in st.clients :: ByClient(c))
    + (set i: nat | i < |st.slots| :: BySlot(i))
    + (set d | d in st.dispatches :: ByDispatch(d))
  }

  function Owners(st: State, cbs: Callbacks): (os: set<Owner>) {
    set o | o in Everyone(st) && Holds(st, o) == Some(cbs)
  }

  lemma OwnersAre(st: State, cbs: Callbacks, o: Owner)
    ensures o in Owners(st, cbs) <==> Holds(st, o) == Some(cbs)
  {
  }

  /** Counts are the numbers of owners, and exactly the callbacks without owner are destroyed. */
  ghost predicate CountInv(st: State) {
    && (forall cbs :: CountOf(st, cbs) == |Owners(st, cbs)|)
    && (forall cbs :: cbs in st.counts ==> st.counts[cbs] > 0)
    && st.counts.Keys !! st.destroyed
  }

  ghost predicate OnlyChanges(st: State, r: State, o: Owner) {
    forall e :: e != o ==> Holds(r, e) == Holds(st, e)
  }

  lemma OwnersSame(st: State, r: State, cbs: Callbacks)
    requires forall o :: Holds(st, o) == Some(cbs) <==> Holds(r, o) == Some(cbs)
    ensures Owners(r, cbs) == Owners(st, cbs)
  {
    forall o
      ensures o in Owners(r, cbs) <==> o in Owners(st, cbs)
    {
      OwnersAre(st, cbs, o);
      OwnersAre(r, cbs, o);
    }
  }

  lemma OwnersPlus(st: State, r: State, cbs: Callbacks, o: Owner)
    requires OnlyChanges(st, r, o) && Holds(st, o) != Some(cbs) && Holds(r, o) == Some(cbs)
    ensures |Owners(r, cbs)| == |Owners(st, cbs)| + 1
  {
    forall e
      ensures e in Owners(r, cbs) <==> e in Owners(st, cbs) + {o}
    {
      OwnersAre(st, cbs, e);
      OwnersAre(r, cbs, e);
    }
    assert Owners(r, cbs) == Owners(st, cbs) + {o};
    OwnersAre(st, cbs, o);
  }

  /** An owner that held nothing takes a copy. */
  lemma RetainCounts(st: State, mid: State, o: Owner, cbs: Callbacks)
    requires CountInv(st) && mid.counts == st.counts && mid.destroyed == st.destroyed
    requires OnlyChanges(st, mid, o) && Holds(st, o) == None && Holds(mid, o) == Some(cbs)
    requires cbs !in st.destroyed
    ensures CountInv(Retain(mid, Some(cbs)))
  {
    var r := Retain(mid, Some(cbs));
    forall x
      ensures CountOf(r, x) == |Owners(r, x)|
    {
      assert forall e :: Holds(r, e) == Holds(mid, e);
      if x == cbs {
        OwnersPlus(st, r, x, o);
      } else {
        OwnersSame(st, r, x);
      }
    }
  }

  /** An owner gives its copy up. */
  lemma ReleaseCounts(st: State, mid: State, o: Owner, cbs: Callbacks)
    requires CountInv(st) && mid.counts == st.counts && mid.destroyed == st.destroyed
    requires OnlyChanges(st, mid, o) && Holds(st, o) == Some(cbs) && Holds(mid, o) == None
    ensures CountInv(Release(mid, Some(cbs)))
  {
    var r := Release(mid, Some(cbs));
    OwnersPlus(mid, st, cbs, o);
    forall x
      ensures CountOf(r, x) == |Owners(r, x)|
    {
      assert forall e :: Holds(r, e) == Holds(mid, e);
      OwnersSame(mid, r, x);
      if x != cbs {
        OwnersSame(st, mid, x);
      }
    }
  }

  lemma SameCounts(st: State, r: State)
    requires CountInv(st) && r.counts == st.counts && r.destroyed == st.destroyed
    requires forall o :: Holds(r, o) == Holds(st, o)
    ensures CountInv(r)
  {
    forall x
      ensures CountOf(r, x) == |Owners(r, x)|
    {
      OwnersSame(st, r, x);
    }
  }

  /** Whoever is owned is alive. */
  lemma OwnedIsAlive(st: State, o: Owner)
    requires CountInv(st) && Holds(st, o).Some?
    ensures Holds(st, o).value in st.counts && Holds(st, o).value !in st.destroyed
  {
    OwnersAre(st, Holds(st, o).value, o);
  }

  lemma ClientKeepsCounts(st: State, c: nat, step: ClientStep)
    requires PoolInv(st) && CountInv(st)
    ensures CountInv(ClientNext(st, c, step))
  {
    hide Owners, CountInv, Retain, Release;
    var r := ClientNext(st, c, step);
    match step
    case Construct(cbs) =>
      if !(c in st.clients || cbs in st.counts || cbs in st.destroyed) {
        RetainCounts(st, SetClient(st, c, ClientState(cbs, -1, 0, Made)), ByClient(c), cbs);
      }
    case Claim =>
      if InPhase(st, c, Made) {
        ClaimKeepsCounts(st, c);
      }
    case Register(native) => SameCounts(st, r);
    case Unregister =>
      if InPhase(st, c, Unregistering) {
        ClearKeepsCounts(st, c, Live);
      }
    case ReleaseRef => SameCounts(st, r);
    case ReleaseSlot =>
      if InPhase(st, c, Closing) {
        ClearKeepsCounts(st, c, Closed);
      }
    case Drop =>
      if InPhase(st, c, Closed) {
        ReleaseCounts(st, st.(clients := st.clients - {c}), ByClient(c), st.clients[c].callbacks);
      }
  }

  lemma ClaimKeepsCounts(st: State, c: nat)
    requires PoolInv(st) && CountInv(st) && InPhase(st, c, Made)
    ensures CountInv(ClientNext(st, c, Claim))
  {
    hide Owners, CountInv, Retain, Release, SlotInv, PhasesInv, FirstFree;
    PoolInBounds(st);
    var client, i := st.clients[c], FirstFree(st.slots);
    if i < 0 {
      SameCounts(st, SetClient(st, c, client.(phase := Live)));
    } else {
      OwnedIsAlive(st, ByClient(c));
      var claimed := SetClient(st, c, client.(slot := i, phase := Claimed));
      RetainCounts(st, claimed.(slots := st.slots[i := Some(client.callbacks)]), BySlot(i), client.callbacks);
    }
  }

  lemma ClearKeepsCounts(st: State, c: nat, phase: ClientPhase)
    requires PoolInv(st) && CountInv(st) && c in st.clients
    ensures CountInv(ClearSlot(SetClient(st, c, st.clients[c].(slot := -1, phase := phase)), st.clients[c].slot))
  {
    hide Owners, CountInv, Retain, Release;
    var slot := st.clients[c].slot;
    var cleared := SetClient(st, c, st.clients[c].(slot := -1, phase := phase));
    if slot < 0 {
      SameCounts(st, cleared);
    } else {
      ReleaseCounts(st, cleared.(slots := st.slots[slot := None]), BySlot(slot), st.clients[c].callbacks);
    }
  }

  lemma EndKeepsCounts(st: State, d: nat, phase: DispatchPhase, freed: nat)
    requires CountInv(st) && d in st.dispatches
    ensures CountInv(EndDispatch(st, d, phase, freed))
  {
    hide Owners, CountInv, Retain;
    var x := st.dispatches[d];
    var ended := SetDispatch(st, d, x.(held := None, frees := x.frees + freed, phase := phase));
    if x.held.None? {
      SameCounts(st, ended);
    } else {
      ReleaseCounts(st, ended, ByDispatch(d), x.held.value);
    }
  }

  lemma LookupKeepsCounts(st: State, d: nat)
    requires PoolInv(st) && CountInv(st) && DispatchIn(st, d, Entered) && st.dispatches[d].held.None?
    ensures var x := st.dispatches[d];
            CountInv(Retain(SetDispatch(st, d, x.(held := st.slots[x.slot], phase := LookedUp)), st.slots[x.slot]))
  {
    hide Owners, CountInv;
    var x := st.dispatches[d];
    var looked := SetDispatch(st, d, x.(held := st.slots[x.slot], phase := LookedUp));
    if st.slots[x.slot].None? {
      SameCounts(st, looked);
    } else {
      OwnedIsAlive(st, BySlot(x.slot));
      RetainCounts(st, looked, ByDispatch(d), st.slots[x.slot].value);
    }
  }

  // ---- Argument buffers ----

  /**
    A strong reference is held from a successful lookup to the end; buffers are freed once, or never after
    an early throw.
   */
  ghost predicate DispatchInv(x: Dispatch) {
    match x.phase
    case Entered => x.held.None? && x.frees == 0
    case LookedUp => x.frees == 0
    case Copied => x.held.Some? && x.frees == Freed(x)
    case Done => x.held.None? && x.frees == Freed(x)
    case ThrewEarly => x.held.None? && x.frees == 0
  }

  ghost predicate DispatchesInv(st: State) {
    forall d :: d in st.dispatches ==> DispatchInv(st.dispatches[d])
  }

  lemma DispatchKeepsBuffers(handles: (nat, Callbacks) -> bool, st: State, d: nat, step: DispatchStep)
    requires InBounds(st) && DispatchesInv(st)
    ensures DispatchesInv(DispatchNext(handles, st, d, step))
  {
    var r := DispatchNext(handles, st, d, step);
    DispatchKeepsClients(handles, st, d, step);
    assert d in st.dispatches ==> DispatchInv(st.dispatches[d]);
    assert d in r.dispatches ==> DispatchInv(r.dispatches[d]);
  }

  lemma DispatchKeepsCounts(handles: (nat, Callbacks) -> bool, st: State, d: nat, step: DispatchStep)
    requires PoolInv(st) && CountInv(st) && DispatchesInv(st)
    ensures CountInv(DispatchNext(handles, st, d, step))
  {
    hide Owners, CountInv, Retain, EndDispatch;
    var r := DispatchNext(handles, st, d, step);
    assert d in st.dispatches ==> DispatchInv(st.dispatches[d]);
    match step
    case Enter(slot, hasBuffer) => SameCounts(st, r);
    case Lookup =>
      if DispatchIn(st, d, Entered) {
        LookupKeepsCounts(st, d);
      }
    case LookupThrows => SameCounts(st, r);
    case Skip =>
      if DispatchIn(st, d, LookedUp) {
        EndKeepsCounts(st, d, Done, Freed(st.dispatches[d]));
      }
    case Copy => SameCounts(st, r);
    case CopyThrows =>
      if DispatchIn(st, d, LookedUp) {
        EndKeepsCounts(st, d, ThrewEarly, 0);
      }
    case Finish =>
      if DispatchIn(st, d, Copied) {
        EndKeepsCounts(st, d, Done, 0);
      }
  }

  // ---- Every run ----

  ghost predicate Inv(st: State) {
    PoolInv(st) && CountInv(st) && DispatchesInv(st)
  }

  lemma NextKeepsInv(handles: (nat, Callbacks) -> bool, st: State, step: Step)
    requires Inv(st)
    ensures InBounds(st) && Inv(Next(handles, st, step))
  {
    hide SlotInv, PhasesInv, CountInv, ClientNext, DispatchNext;
    NextKeepsPool(handles, st, step);
    match step
    case ClientDoes(c, client) =>
      ClientKeepsCounts(st, c, client);
      ClientKeepsDispatches(st, c, client);
    case DispatchDoes(d, dispatch) =>
      DispatchKeepsCounts(handles, st, d, dispatch);
      PoolInBounds(st);
      DispatchKeepsBuffers(handles, st, d, dispatch);
  }

  lemma InvBounds(st: State)
    requires Inv(st)
    ensures InBounds(st)
  {
  }

  lemma ClientKeepsDispatches(st: State, c: nat, step: ClientStep)
    requires PoolInv(st)
    ensures ClientNext(st, c, step).dispatches == st.dispatches
  {
    OnlyOneClient(st, c, step);
  }

  lemma InitialInv(capacity: nat)
    ensures Inv(Initial(capacity))
  {
    var st := Initial(capacity);
    forall cbs
      ensures CountOf(st, cbs) == |Owners(st, cbs)|
    {
      assert Owners(st, cbs) == {};
    }
  }

  ghost function Run(handles: (nat, Callbacks) -> bool, st: State, steps: seq<Step>): (r: State)
    requires Inv(st)
    ensures Inv(r) && |r.slots| == |st.slots|
    decreases |steps|
  {
    hide Inv, Next;
    if steps == [] then st
    else
      InvBounds(st);
      NextKeepsInv(handles, st, steps[0]);
      NextKeepsCapacity(handles, st, steps[0]);
      Run(handles, Next(handles, st, steps[0]), steps[1..])
  }

  /** What a run from the empty pool leads to. */
  ghost function Reached(handles: (nat, Callbacks) -> bool, capacity: nat, steps: seq<Step>): (r: State)
    ensures Inv(r) && |r.slots| == capacity
  {
    hide Inv;
    InitialInv(capacity);
    Run(handles, Initial(capacity), steps)
  }

  lemma NextKeepsCapacity(handles: (nat, Callbacks) -> bool, st: State, step: Step)
    requires InBounds(st)
    ensures |Next(handles, st, step).slots| == |st.slots|
  {
    match step
    case ClientDoes(c, client) => OnlyOneClient(st, c, client);
    case DispatchDoes(d, dispatch) => DispatchKeepsClients(handles, st, d, dispatch);
  }
}
