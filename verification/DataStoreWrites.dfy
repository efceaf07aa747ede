/**
  The background writes to the data store. A write task first offers the payload as bytes; only when the
  store reports that bytes are not implemented, and the payload is JSON and valid UTF-8, is it written as
  a string. Tasks of different updates run concurrently: each call to the store is one atomic step, and
  every interleaving is considered. Which bytes are valid UTF-8 is a parameter.
 */
module DataStoreWrites {
  import opened Wrappers
  import opened CacheKeys
  import opened SpecUpdates

  datatype BytesReply = Written | BytesNotImplemented | Failed

  /** One call received by the data store, with the task that made it. */
  datatype StoreCall =
    | SetBytes(id: nat, key: string, bytes: Bytes, time: nat, reply: BytesReply)
    | SetString(id: nat, key: string, text: Bytes, time: nat, ok: bool)

  datatype Phase = Spawned | AwaitingString | Finished

  datatype Running = Running(task: WriteTask, phase: Phase)

  /** Tasks by the number under which they were spawned, and the store's calls in order. */
  datatype State = State(tasks: seq<Running>, calls: seq<StoreCall>)

  /** `now` is when the update was applied, which is handed on to the later notification. */
  datatype Step =
    | Notify(u: SpecsUpdate, now: nat)
    | ReadFails(id: nat)
    | OfferBytes(id: nat, reply: BytesReply)
    | WriteString(id: nat, ok: bool)

  datatype Setup = Setup(keys: DataStoreCacheKeys, hasStore: bool, utf8: Bytes -> bool)

  function SetPhase(st: State, id: nat, phase: Phase): (r: State)
    requires id < |st.tasks|
  {
    st.(tasks := st.tasks[id := st.tasks[id].(phase := phase)])
  }

  /** What a task does after the store's answer to the bytes write. */
  function AfterReply(setup: Setup, task: WriteTask, reply: BytesReply): (p: Phase) {
    match reply
    case Written => Finished
    case Failed => Finished
    case BytesNotImplemented =>
      if task.isProtobuf then Finished
      else if setup.utf8(task.body) then AwaitingString
      else Finished
  }

  /** One atomic step; a step that is not enabled changes nothing. */
  function Next(setup: Setup, st: State, step: Step): (r: State) {
    match step
    case Notify(u, now) =>
      (match TaskFor(setup.keys, setup.hasStore, u, now)
       case None => st
       case Some(t) => st.(tasks := st.tasks + [Running(t, Spawned)]))
    case ReadFails(id) =>
      if id < |st.tasks| && st.tasks[id].phase == Spawned then SetPhase(st, id, Finished) else st
    case OfferBytes(id, reply) =>
      if id < |st.tasks| && st.tasks[id].phase == Spawned then
        var t := st.tasks[id].task;
        SetPhase(st, id, AfterReply(setup, t, reply)).(calls := st.calls + [SetBytes(id, t.key, t.body, t.time, reply)])
      else st
    case WriteString(id, ok) =>
      if id < |st.tasks| && st.tasks[id].phase == AwaitingString then
        var t := st.tasks[id].task;
        SetPhase(st, id, Finished).(calls := st.calls + [SetString(id, t.key, t.body, t.time, ok)])
      else st
  }

  function Run(setup: Setup, steps: seq<Step>): (r: State) {
    if steps == [] then State([], []) else Next(setup, Run(setup, steps[..|steps| - 1]), steps[|steps| - 1])
  }

  // ---- What every reachable state satisfies ----

  /** The task was spawned by a notified update that asked for it. */
  ghost predicate Asked(setup: Setup, steps: seq<Step>, task: WriteTask) {
    exists u, now :: Notify(u, now) in steps && TaskFor(setup.keys, setup.hasStore, u, now) == Some(task)
  }

  ghost predicate TasksAsked(setup: Setup, steps: seq<Step>, st: State) {
    forall i :: 0 <= i < |st.tasks| ==> Asked(setup, steps, st.tasks[i].task)
  }

  /** Call c hands over exactly what its task carries. */
  ghost predicate Delivers(c: StoreCall, t: WriteTask) {
    match c
    case SetBytes(_, key, bytes, time, _) => key == t.key && bytes == t.body && time == t.time
    case SetString(_, key, text, time, _) => key == t.key && text == t.body && time == t.time
  }

  /** A bytes write of task id was refused as not implemented among these calls. */
  ghost predicate Refused(calls: seq<StoreCall>, id: nat) {
    exists j :: 0 <= j < |calls| && calls[j].SetBytes? && calls[j].id == id && calls[j].reply == BytesNotImplemented
  }

  ghost predicate CallJustified(setup: Setup, st: State, i: nat)
    requires i < |st.calls|
  {
    var c := st.calls[i];
    && c.id < |st.tasks|
    && Delivers(c, st.tasks[c.id].task)
    && st.tasks[c.id].phase != Spawned
    && (c.SetString? ==>
          && !st.tasks[c.id].task.isProtobuf && setup.utf8(c.text)
          && st.tasks[c.id].phase == Finished
          && Refused(st.calls[..i], c.id))
  }

  ghost predicate Justified(setup: Setup, st: State) {
    && (forall i :: 0 <= i < |st.calls| ==> CallJustified(setup, st, i))
    && (forall id :: 0 <= id < |st.tasks| && st.tasks[id].phase == AwaitingString ==>
          !st.tasks[id].task.isProtobuf && setup.utf8(st.tasks[id].task.body) && Refused(st.calls, id))
  }

  lemma NotifyJustified(setup: Setup, st: State, t: WriteTask)
    requires Justified(setup, st)
    ensures Justified(setup, st.(tasks := st.tasks + [Running(t, Spawned)]))
  {
    var r := st.(tasks := st.tasks + [Running(t, Spawned)]);
    forall i | 0 <= i < |r.calls|
      ensures CallJustified(setup, r, i)
    {
      assert CallJustified(setup, st, i);
    }
  }

  lemma RefusedGrows(calls: seq<StoreCall>, c: StoreCall, id: nat)
    ensures Refused(calls, id) ==> Refused(calls + [c], id)
  {
    if Refused(calls, id) {
      var j :| 0 <= j < |calls| && calls[j].SetBytes? && calls[j].id == id && calls[j].reply == BytesNotImplemented;
      assert (calls + [c])[j] == calls[j];
    }
  }

  lemma OldCallsJustified(setup: Setup, st: State, r: State, i: nat)
    requires i < |st.calls| <= |r.calls| && r.calls[..|st.calls|] == st.calls
    requires |r.tasks| == |st.tasks|
    requires forall id :: 0 <= id < |st.tasks| ==>
      r.tasks[id].task == st.tasks[id].task && (st.tasks[id].phase == Finished ==> r.tasks[id].phase == Finished)
      && (st.tasks[id].phase != Spawned ==> r.tasks[id].phase != Spawned)
    requires CallJustified(setup, st, i)
    ensures CallJustified(setup, r, i)
  {
    assert r.calls[i] == st.calls[i];
    assert r.calls[..i] == st.calls[..i];
  }

  lemma OfferJustified(setup: Setup, st: State, id: nat, reply: BytesReply)
    requires Justified(setup, st) && id < |st.tasks| && st.tasks[id].phase == Spawned
    ensures Justified(setup, Next(setup, st, OfferBytes(id, reply)))
  {
    var r := Next(setup, st, OfferBytes(id, reply));
    var c := r.calls[|st.calls|];
    assert r.calls == st.calls + [c] && r.calls[|st.calls|] == c;
    forall i | 0 <= i < |r.calls|
      ensures CallJustified(setup, r, i)
    {
      if i < |st.calls| {
        OldCallsJustified(setup, st, r, i);
      }
    }
    forall k | 0 <= k < |r.tasks| && r.tasks[k].phase == AwaitingString
      ensures !r.tasks[k].task.isProtobuf && setup.utf8(r.tasks[k].task.body) && Refused(r.calls, k)
    {
      RefusedGrows(st.calls, c, k);
      assert k == id ==> c.id == k && c.reply == BytesNotImplemented;
    }
  }

  lemma StringJustified(setup: Setup, st: State, id: nat, ok: bool)
    requires Justified(setup, st) && id < |st.tasks| && st.tasks[id].phase == AwaitingString
    ensures Justified(setup, Next(setup, st, WriteString(id, ok)))
  {
    var r := Next(setup, st, WriteString(id, ok));
    var c := r.calls[|st.calls|];
    assert r.calls == st.calls + [c] && r.calls[..|st.calls|] == st.calls;
    forall i | 0 <= i < |r.calls|
      ensures CallJustified(setup, r, i)
    {
      if i < |st.calls| {
        OldCallsJustified(setup, st, r, i);
      }
    }
    forall k | 0 <= k < |r.tasks| && r.tasks[k].phase == AwaitingString
      ensures Refused(r.calls, k)
    {
      RefusedGrows(st.calls, c, k);
    }
  }

  lemma ReadFailsJustified(setup: Setup, st: State, id: nat)
    requires Justified(setup, st) && id < |st.tasks| && st.tasks[id].phase == Spawned
    ensures Justified(setup, SetPhase(st, id, Finished))
  {
    var r := SetPhase(st, id, Finished);
    forall i | 0 <= i < |r.calls|
      ensures CallJustified(setup, r, i)
    {
      assert r.calls[..|st.calls|] == st.calls;
      OldCallsJustified(setup, st, r, i);
    }
  }

  lemma {:induction false} RunJustified(setup: Setup, steps: seq<Step>)
    ensures Justified(setup, Run(setup, steps))
  {
    hide Justified;
    if steps == [] {
      NothingJustified(setup);
    } else {
      var st, step := Run(setup, steps[..|steps| - 1]), steps[|steps| - 1];
      RunJustified(setup, steps[..|steps| - 1]);
      match step
      case Notify(u, now) =>
        var t := TaskFor(setup.keys, setup.hasStore, u, now);
        if t.Some? {
          NotifyJustified(setup, st, t.value);
        }
      case ReadFails(id) =>
        if id < |st.tasks| && st.tasks[id].phase == Spawned {
          ReadFailsJustified(setup, st, id);
        }
      case OfferBytes(id, reply) =>
        if id < |st.tasks| && st.tasks[id].phase == Spawned {
          OfferJustified(setup, st, id, reply);
        }
      case WriteString(id, ok) =>
        if id < |st.tasks| && st.tasks[id].phase == AwaitingString {
          StringJustified(setup, st, id, ok);
        }
    }
  }

  lemma NothingJustified(setup: Setup)
    ensures Justified(setup, State([], []))
  {
  }

  lemma {:induction false} RunTasksAsked(setup: Setup, steps: seq<Step>)
    ensures TasksAsked(setup, steps, Run(setup, steps))
  {
    if steps != [] {
      var front, step := steps[..|steps| - 1], steps[|steps| - 1];
      var st, r := Run(setup, front), Run(setup, steps);
      RunTasksAsked(setup, front);
      forall i | 0 <= i < |r.tasks|
        ensures Asked(setup, steps, r.tasks[i].task)
      {
        if i < |st.tasks| {
          assert Asked(setup, front, st.tasks[i].task) && r.tasks[i].task == st.tasks[i].task;
          var task := st.tasks[i].task;
          var u, now :| Notify(u, now) in front && TaskFor(setup.keys, setup.hasStore, u, now) == Some(task);
          assert Notify(u, now) in steps;
        } else {
          assert Notify(step.u, step.now) in steps;
        }
      }
    }
  }

  /**
    Every call the data store ever receives, in any interleaving, delivers the body of some notified
    update: a network update, no delta; a protobuf one goes as bytes to the statsig-br key, a JSON one to
    the plain-text key; a string is written only after the store refused the same task's bytes as not
    implemented, and only if it is valid UTF-8.
   */
  ghost predicate WellFounded(setup: Setup, steps: seq<Step>, i: nat, u: SpecsUpdate, now: nat)
    requires i < |Run(setup, steps).calls|
  {
    var calls := Run(setup, steps).calls;
    var c := calls[i];
    && Notify(u, now) in steps && c.time == now
    && u.source == Network && "x-deltas-used" !in u.data.headers
    && (ResponseFormat(u.data) == Protobuf ==> c.SetBytes? && c.key == setup.keys.statsigBr)
    && (ResponseFormat(u.data) == Json ==> c.key == setup.keys.plainText)
    && (match c
        case SetBytes(_, _, bytes, _, _) => bytes == u.data.body
        case SetString(id, _, text, _, _) => text == u.data.body && setup.utf8(text) && Refused(calls[..i], id))
  }

  lemma EveryCallWellFounded(setup: Setup, steps: seq<Step>, i: nat)
    requires i < |Run(setup, steps).calls|
    ensures exists u, now :: WellFounded(setup, steps, i, u, now)
  {
    RunJustified(setup, steps);
    RunTasksAsked(setup, steps);
    var st := Run(setup, steps);
    assert CallJustified(setup, st, i);
    var t := st.tasks[st.calls[i].id].task;
    assert Asked(setup, steps, t);
    var u, now :| Notify(u, now) in steps && TaskFor(setup.keys, setup.hasStore, u, now) == Some(t);
    assert WellFounded(setup, steps, i, u, now);
  }

  /**
    With the keys derived for a store, the plain-text key only ever receives JSON payloads and the
    statsig-br key only protobuf payloads, as bytes.
   */
  lemma KeysSeparateFormats(
    path: RequestPath, version: KeyVersion, sdkKey: string, hash: string -> string,
    setup: Setup, steps: seq<Step>, i: nat)
    requires GetDataStoreKey(path, version, sdkKey, hash).Some?
    requires setup.keys == FromSelectedKey(GetDataStoreKey(path, version, sdkKey, hash).value)
    requires i < |Run(setup, steps).calls|
    ensures var c := Run(setup, steps).calls[i];
            && (c.key == setup.keys.plainText || c.key == setup.keys.statsigBr)
            && exists u, now :: WellFounded(setup, steps, i, u, now)
                 && (c.key == setup.keys.plainText <==> ResponseFormat(u.data) == Json)
                 && (c.key == setup.keys.statsigBr <==> ResponseFormat(u.data) == Protobuf)
                 && (c.key == setup.keys.statsigBr ==> c.SetBytes?)
  {
    DerivedKeys(path, version, sdkKey, hash);
    EveryCallWellFounded(setup, steps, i);
    KeysSeparate(setup, steps, i);
  }

  lemma KeysSeparate(setup: Setup, steps: seq<Step>, i: nat)
    requires i < |Run(setup, steps).calls| && setup.keys.plainText != setup.keys.statsigBr
    requires exists u, now :: WellFounded(setup, steps, i, u, now)
    ensures var c := Run(setup, steps).calls[i];
            && (c.key == setup.keys.plainText || c.key == setup.keys.statsigBr)
            && exists u, now :: WellFounded(setup, steps, i, u, now)
                 && (c.key == setup.keys.plainText <==> ResponseFormat(u.data) == Json)
                 && (c.key == setup.keys.statsigBr <==> ResponseFormat(u.data) == Protobuf)
                 && (c.key == setup.keys.statsigBr ==> c.SetBytes?)
  {
    hide Run, ResponseFormat;
    var u, now :| WellFounded(setup, steps, i, u, now);
    assert ResponseFormat(u.data) == Json || ResponseFormat(u.data) == Protobuf;
  }

  // ---- The order of writes ----

  /** The state before step k of a run. */
  function At(setup: Setup, steps: seq<Step>, k: nat): (st: State)
    requires k <= |steps|
  {
    Run(setup, steps[..k])
  }

  lemma AtNext(setup: Setup, steps: seq<Step>, k: nat)
    requires k < |steps|
    ensures At(setup, steps, k + 1) == Next(setup, At(setup, steps, k), steps[k])
  {
    assert steps[..k + 1][..k] == steps[..k];
  }

  /** The call a step makes, if it is enabled and makes one. */
  function CallOf(st: State, step: Step): (c: Option<StoreCall>) {
    match step
    case OfferBytes(id, reply) =>
      if id < |st.tasks| && st.tasks[id].phase == Spawned then
        var t := st.tasks[id].task;
        Some(SetBytes(id, t.key, t.body, t.time, reply))
      else None
    case WriteString(id, ok) =>
      if id < |st.tasks| && st.tasks[id].phase == AwaitingString then
        var t := st.tasks[id].task;
        Some(SetString(id, t.key, t.body, t.time, ok))
      else None
    case _ => None
  }

  function CallsOf(st: State, step: Step): (cs: seq<StoreCall>) {
    if CallOf(st, step).Some? then [CallOf(st, step).value] else []
  }

  /** What came before stays: calls in their places, tasks with their content, and what has finished. */
  ghost predicate Extends(st: State, r: State) {
    && |st.calls| <= |r.calls| && st.calls == r.calls[..|st.calls|]
    && |st.tasks| <= |r.tasks|
    && forall i :: 0 <= i < |st.tasks| ==>
         r.tasks[i].task == st.tasks[i].task && (st.tasks[i].phase == Finished ==> r.tasks[i].phase == Finished)
  }

  lemma StepExtends(setup: Setup, st: State, step: Step)
    ensures Next(setup, st, step).calls == st.calls + CallsOf(st, step)
    ensures Extends(st, Next(setup, st, step))
  {
  }

  lemma {:induction false} RunExtends(setup: Setup, steps: seq<Step>, a: nat, b: nat)
    requires a <= b <= |steps|
    ensures Extends(At(setup, steps, a), At(setup, steps, b))
    decreases b
  {
    hide At, Next;
    if a < b {
      RunExtends(setup, steps, a, b - 1);
      AtNext(setup, steps, b - 1);
      StepExtends(setup, At(setup, steps, b - 1), steps[b - 1]);
      var x, y, z := At(setup, steps, a), At(setup, steps, b - 1), At(setup, steps, b);
      assert z.calls[..|x.calls|] == y.calls[..|x.calls|];
    }
  }

  /** Each call was made by one of the steps. */
  lemma {:induction false} StepOfCall(setup: Setup, steps: seq<Step>, n: nat, j: nat) returns (k: nat)
    requires n <= |steps| && j < |At(setup, steps, n).calls|
    ensures k < n && |At(setup, steps, k).calls| == j
    ensures CallOf(At(setup, steps, k), steps[k]) == Some(At(setup, steps, n).calls[j])
    decreases n
  {
    hide Next, CallOf;
    assert n > 0;
    AtNext(setup, steps, n - 1);
    var st := At(setup, steps, n - 1);
    StepExtends(setup, st, steps[n - 1]);
    if j < |st.calls| {
      k := StepOfCall(setup, steps, n - 1, j);
    } else {
      k := n - 1;
    }
  }

  /** Step k is a call of task id that takes effect; which calls do is for the data store to say. */
  ghost predicate LandsAt(setup: Setup, lands: StoreCall -> bool, steps: seq<Step>, k: nat, id: nat) {
    k < |steps|
    && match CallOf(At(setup, steps, k), steps[k])
       case None => false
       case Some(c) => c.id == id && lands(c)
  }

  /** What a landing leaves at the end of the run. */
  lemma LandedCall(setup: Setup, lands: StoreCall -> bool, steps: seq<Step>, k: nat, id: nat)
    requires LandsAt(setup, lands, steps, k, id)
    ensures var st, j := Run(setup, steps), |At(setup, steps, k).calls|;
            && j < |st.calls| && st.calls[j].id == id && lands(st.calls[j])
            && id < |st.tasks| && st.calls[j].key == st.tasks[id].task.key
            && st.calls[j].time == st.tasks[id].task.time
            && |At(setup, steps, k + 1).calls| == j + 1
  {
    hide Next, Run;
    AtNext(setup, steps, k);
    var before, after := At(setup, steps, k), At(setup, steps, k + 1);
    StepExtends(setup, before, steps[k]);
    RunExtends(setup, steps, k + 1, |steps|);
    assert steps[..|steps|] == steps;
    var st := Run(setup, steps);
    assert st.calls[|before.calls|] == st.calls[..|after.calls|][|before.calls|];
  }

  /** Task i is not yet notified, or not finished. */
  predicate StillToCome(st: State, i: nat) {
    i >= |st.tasks| || st.tasks[i].phase != Finished
  }

  /**
    Task n was overtaken by task i of the same key: when n landed for the last time, at k, task i was still
    to come, and it landed later, at m.
   */
  ghost predicate Overtaken(
    setup: Setup, lands: StoreCall -> bool, steps: seq<Step>, n: nat, k: nat, m: nat, i: nat)
  {
    && LandsAt(setup, lands, steps, k, n) && (forall l :: l > k ==> !LandsAt(setup, lands, steps, l, n))
    && StillToCome(At(setup, steps, k + 1), i)
    && m > k && LandsAt(setup, lands, steps, m, i) && i != n
    && SameKey(Run(setup, steps), n, i)
  }

  predicate SameKey(st: State, n: nat, i: nat) {
    n < |st.tasks| && i < |st.tasks| && st.tasks[i].task.key == st.tasks[n].task.key
  }

  /** Task n landed and no other task overtook it. */
  ghost predicate Stays(setup: Setup, lands: StoreCall -> bool, steps: seq<Step>, n: nat) {
    && (exists k :: LandsAt(setup, lands, steps, k, n))
    && forall k, m, i :: !Overtaken(setup, lands, steps, n, k, m, i)
  }

  /** Call j is the last one for its key that takes effect: what the key holds in the end. */
  ghost predicate LastLanding(lands: StoreCall -> bool, st: State, j: nat) {
    && j < |st.calls| && lands(st.calls[j])
    && forall i :: j < i < |st.calls| && st.calls[i].key == st.calls[j].key ==> !lands(st.calls[i])
  }

  lemma LastWriterStays(setup: Setup, lands: StoreCall -> bool, steps: seq<Step>, j: nat)
    requires LastLanding(lands, Run(setup, steps), j)
    ensures Stays(setup, lands, steps, Run(setup, steps).calls[j].id)
  {
    hide Next, Run, CallOf;
    var st := Run(setup, steps);
    var n := st.calls[j].id;
    assert steps[..|steps|] == steps;
    var k := StepOfCall(setup, steps, |steps|, j);
    assert LandsAt(setup, lands, steps, k, n);
    forall l, m, i
      ensures !Overtaken(setup, lands, steps, n, l, m, i)
    {
      if Overtaken(setup, lands, steps, n, l, m, i) {
        assert m > l >= k;
        LandedCall(setup, lands, steps, k, n);
        LandedCall(setup, lands, steps, m, i);
        RunExtends(setup, steps, k + 1, m);
      }
    }
  }

  /** The last landing of a task that landed. */
  lemma {:induction false} LastLandingOf(setup: Setup, lands: StoreCall -> bool, steps: seq<Step>, k: nat, n: nat)
    returns (last: nat)
    requires LandsAt(setup, lands, steps, k, n)
    ensures LandsAt(setup, lands, steps, last, n) && forall l :: l > last ==> !LandsAt(setup, lands, steps, l, n)
    decreases |steps| - k
  {
    if l: nat :| l > k && LandsAt(setup, lands, steps, l, n) {
      last := LastLandingOf(setup, lands, steps, l, n);
    } else {
      last := k;
    }
  }

  /** If another task wrote last, task n was overtaken by it. */
  lemma LastWriterOvertook(setup: Setup, lands: StoreCall -> bool, steps: seq<Step>, j: nat, n: nat, some: nat)
    requires LastLanding(lands, Run(setup, steps), j) && LandsAt(setup, lands, steps, some, n)
    requires n < |Run(setup, steps).tasks| && Run(setup, steps).tasks[n].task.key == Run(setup, steps).calls[j].key
    requires Run(setup, steps).calls[j].id != n
    ensures !Stays(setup, lands, steps, n)
  {
    hide Next, Run, CallOf;
    var i := Run(setup, steps).calls[j].id;
    assert steps[..|steps|] == steps;
    var k := LastLandingOf(setup, lands, steps, some, n);
    var m := StepOfCall(setup, steps, |steps|, j);
    LandedCall(setup, lands, steps, k, n);
    LandedCall(setup, lands, steps, m, i);
    if m <= k {
      RunExtends(setup, steps, m, k);
    }
    FinishedMakesNoCall(setup, lands, steps, k + 1, m, i);
    assert Overtaken(setup, lands, steps, n, k, m, i);
  }

  lemma FinishedMakesNoCall(setup: Setup, lands: StoreCall -> bool, steps: seq<Step>, a: nat, m: nat, i: nat)
    requires a <= m && LandsAt(setup, lands, steps, m, i)
    ensures StillToCome(At(setup, steps, a), i)
  {
    hide Next, Run, At;
    RunExtends(setup, steps, a, m);
  }

  /**
    In every interleaving, whatever the times: what a key holds in the end was written by task n of that
    key exactly when n wrote and was not overtaken.
   */
  lemma LastWriterExactly(setup: Setup, lands: StoreCall -> bool, steps: seq<Step>, j: nat, n: nat)
    requires LastLanding(lands, Run(setup, steps), j)
    requires n < |Run(setup, steps).tasks| && Run(setup, steps).tasks[n].task.key == Run(setup, steps).calls[j].key
    ensures Run(setup, steps).calls[j].id == n <==> Stays(setup, lands, steps, n)
  {
    hide Run, LandsAt, Overtaken;
    if Run(setup, steps).calls[j].id == n {
      LastWriterStays(setup, lands, steps, j);
    } else if some: nat :| LandsAt(setup, lands, steps, some, n) {
      LastWriterOvertook(setup, lands, steps, j, n, some);
    }
  }

  /** No task for the key has a later time. */
  ghost predicate IsNewest(st: State, key: string, time: nat) {
    forall i :: 0 <= i < |st.tasks| && st.tasks[i].task.key == key ==> st.tasks[i].task.time <= time
  }

  ghost predicate NewestTask(st: State, key: string, n: nat) {
    n < |st.tasks| && st.tasks[n].task.key == key && IsNewest(st, key, st.tasks[n].task.time)
  }

  /** So the newest payload stays exactly when some task that carries the newest time wrote and was not overtaken. */
  lemma NewestStaysExactly(setup: Setup, lands: StoreCall -> bool, steps: seq<Step>, j: nat)
    requires LastLanding(lands, Run(setup, steps), j)
    ensures var st := Run(setup, steps);
            IsNewest(st, st.calls[j].key, st.calls[j].time) <==>
            exists n :: NewestTask(st, st.calls[j].key, n) && Stays(setup, lands, steps, n)
  {
    hide Run, Stays;
    RunJustified(setup, steps);
    var st := Run(setup, steps);
    assert CallJustified(setup, st, j);
    LastWriterExactly(setup, lands, steps, j, st.calls[j].id);
    forall n | NewestTask(st, st.calls[j].key, n) && Stays(setup, lands, steps, n)
      ensures st.calls[j].id == n
    {
      LastWriterExactly(setup, lands, steps, j, n);
    }
  }

  // ---- Writes that do not overlap ----

  /** Only the task notified last for a key is still at work. */
  ghost predicate OneAtWork(st: State) {
    forall i, j :: 0 <= i < j < |st.tasks| && st.tasks[i].task.key == st.tasks[j].task.key ==>
      st.tasks[i].phase == Finished
  }

  /** Calls for one key come in the order in which their tasks were notified. */
  ghost predicate InOrder(st: State) {
    forall i, j :: 0 <= i < j < |st.calls| && st.calls[i].key == st.calls[j].key ==> st.calls[i].id <= st.calls[j].id
  }

  lemma StepInOrder(setup: Setup, st: State, step: Step)
    requires Justified(setup, st) && OneAtWork(st) && InOrder(st)
    ensures InOrder(Next(setup, st, step))
  {
    var r := Next(setup, st, step);
    if |r.calls| > |st.calls| {
      var id := step.id;
      forall i | 0 <= i < |st.calls| && st.calls[i].key == st.tasks[id].task.key
        ensures st.calls[i].id <= id
      {
        assert CallJustified(setup, st, i);
        assert st.tasks[id].phase != Finished;
      }
    }
  }

  /** If each write for a key is finished before the next one for it is notified, writes land in order. */
  lemma {:induction false} SerialWritesLandInOrder(setup: Setup, steps: seq<Step>)
    requires forall k :: 0 <= k <= |steps| ==> OneAtWork(At(setup, steps, k))
    ensures InOrder(Run(setup, steps))
  {
    hide OneAtWork, Justified, Next;
    if steps != [] {
      var front := steps[..|steps| - 1];
      forall k | 0 <= k <= |front|
        ensures OneAtWork(At(setup, front, k))
      {
        assert front[..k] == steps[..k];
        assert OneAtWork(At(setup, steps, k));
      }
      SerialWritesLandInOrder(setup, front);
      RunJustified(setup, front);
      assert front[..|front|] == front && OneAtWork(At(setup, front, |front|));
      StepInOrder(setup, Run(setup, front), steps[|steps| - 1]);
    }
  }

  ghost predicate Landed(lands: StoreCall -> bool, st: State, n: nat) {
    exists i :: 0 <= i < |st.calls| && st.calls[i].id == n && lands(st.calls[i])
  }

  /** Task n landed, and no task notified after it for its key did. */
  ghost predicate LandedLast(lands: StoreCall -> bool, st: State, n: nat) {
    Landed(lands, st, n) && forall i :: i > n && SameKey(st, n, i) ==> !Landed(lands, st, i)
  }

  lemma InOrderLandsLast(setup: Setup, lands: StoreCall -> bool, st: State, j: nat, n: nat)
    requires Justified(setup, st) && InOrder(st) && LastLanding(lands, st, j)
    requires n < |st.tasks| && st.tasks[n].task.key == st.calls[j].key
    ensures st.calls[j].id == n <==> LandedLast(lands, st, n)
  {
    hide Refused;
    assert CallJustified(setup, st, j);
    var id := st.calls[j].id;
    assert Landed(lands, st, id);
    forall i | SameKey(st, n, i) && Landed(lands, st, i)
      ensures i <= id
    {
      var c :| 0 <= c < |st.calls| && st.calls[c].id == i && lands(st.calls[c]);
      assert CallJustified(setup, st, c);
      assert c <= j;
    }
    hide Landed;
    assert SameKey(st, n, id) && SameKey(st, n, n);
  }

  /**
    When writes for a key do not overlap, whatever the times: the newest payload stays exactly when some
    task that carries the newest time landed and none notified after it did.
   */
  lemma SerialWritesEndNewest(setup: Setup, lands: StoreCall -> bool, steps: seq<Step>, j: nat)
    requires forall k :: 0 <= k <= |steps| ==> OneAtWork(At(setup, steps, k))
    requires LastLanding(lands, Run(setup, steps), j)
    ensures var st := Run(setup, steps);
            IsNewest(st, st.calls[j].key, st.calls[j].time) <==>
            exists n :: NewestTask(st, st.calls[j].key, n) && LandedLast(lands, st, n)
  {
    hide Run, LandedLast;
    SerialWritesLandInOrder(setup, steps);
    RunJustified(setup, steps);
    var st := Run(setup, steps);
    assert CallJustified(setup, st, j);
    InOrderLandsLast(setup, lands, st, j, st.calls[j].id);
    forall n | NewestTask(st, st.calls[j].key, n) && LandedLast(lands, st, n)
      ensures st.calls[j].id == n
    {
      InOrderLandsLast(setup, lands, st, j, n);
    }
  }

  // ---- The two ways the older payload stays ----

  /** The final state after two writes for one key: the first call carried time 2, the last one time 1. */
  predicate OlderLast(st: State) {
    && |st.calls| == 2 && st.calls[0].key == st.calls[1].key
    && st.calls[0].time == 2 && st.calls[1].time == 1
  }

  /** Two writes for one key at work at once: the one notified first can be the one that lands last. */
  lemma OlderWriteCanLandLast(setup: Setup, u: SpecsUpdate)
    requires TaskFor(setup.keys, setup.hasStore, u, 1).Some?
    ensures OlderLast(Run(setup, [Notify(u, 1), Notify(u, 2), OfferBytes(1, Written), OfferBytes(0, Written)]))
  {
    hide Run;
    var steps := [Notify(u, 1), Notify(u, 2), OfferBytes(1, Written), OfferBytes(0, Written)];
    RunsFrom(setup, steps);
    AtNext(setup, steps, 0);
    AtNext(setup, steps, 1);
    AtNext(setup, steps, 2);
    AtNext(setup, steps, 3);
  }

  /**
    A late notification: the time is that of the apply, so the update applied first can be notified last.
    Then the older payload stays although the two writes never overlap.
   */
  lemma LateNotifyLandsLast(setup: Setup, u: SpecsUpdate)
    requires TaskFor(setup.keys, setup.hasStore, u, 1).Some?
    ensures var steps := [Notify(u, 2), OfferBytes(0, Written), Notify(u, 1), OfferBytes(1, Written)];
            && OlderLast(Run(setup, steps))
            && forall k :: 0 <= k <= |steps| ==> OneAtWork(At(setup, steps, k))
  {
    hide Run;
    var steps := [Notify(u, 2), OfferBytes(0, Written), Notify(u, 1), OfferBytes(1, Written)];
    RunsFrom(setup, steps);
    AtNext(setup, steps, 0);
    AtNext(setup, steps, 1);
    AtNext(setup, steps, 2);
    AtNext(setup, steps, 3);
    assert OneAtWork(At(setup, steps, 0)) && OneAtWork(At(setup, steps, 1)) && OneAtWork(At(setup, steps, 2));
    assert OneAtWork(At(setup, steps, 3)) && OneAtWork(At(setup, steps, 4));
  }

  lemma RunsFrom(setup: Setup, steps: seq<Step>)
    ensures At(setup, steps, 0) == State([], []) && At(setup, steps, |steps|) == Run(setup, steps)
  {
    assert steps[..|steps|] == steps;
  }

  // ---- What must happen ----

  /** A task that offers its bytes goes on to a string exactly when they are refused and the body can be one. */
  lemma FallsBackExactly(setup: Setup, st: State, id: nat, reply: BytesReply)
    requires id < |st.tasks| && st.tasks[id].phase == Spawned
    ensures var t, r := st.tasks[id].task, Next(setup, st, OfferBytes(id, reply));
            && r.calls == st.calls + [SetBytes(id, t.key, t.body, t.time, reply)]
            && (r.tasks[id].phase == AwaitingString <==>
                  reply == BytesNotImplemented && !t.isProtobuf && setup.utf8(t.body))
            && (r.tasks[id].phase == Finished <==> r.tasks[id].phase != AwaitingString)
  {
  }

  /** Then the next thing it does is to write the string, and that is the end of it. */
  lemma StringIsWritten(setup: Setup, st: State, id: nat, ok: bool)
    requires id < |st.tasks| && st.tasks[id].phase == Spawned && !st.tasks[id].task.isProtobuf
    requires setup.utf8(st.tasks[id].task.body)
    ensures var t := st.tasks[id].task;
            var r := Next(setup, Next(setup, st, OfferBytes(id, BytesNotImplemented)), WriteString(id, ok));
            && r.calls == st.calls + [SetBytes(id, t.key, t.body, t.time, BytesNotImplemented)]
                          + [SetString(id, t.key, t.body, t.time, ok)]
            && r.tasks[id].phase == Finished
  {
  }

  /** A notified network update that is no delta gets a task of its own, if there is a store. */
  lemma NotifiedIsSpawned(setup: Setup, st: State, u: SpecsUpdate, now: nat)
    requires u.source == Network && "x-deltas-used" !in u.data.headers && setup.hasStore
    ensures var r := Next(setup, st, Notify(u, now));
            && |r.tasks| == |st.tasks| + 1 && r.tasks[..|st.tasks|] == st.tasks
            && var t := r.tasks[|st.tasks|];
               && t.phase == Spawned && t.task.body == u.data.body && t.task.time == now
               && (t.task.isProtobuf <==> ResponseFormat(u.data) == Protobuf)
               && t.task.key == (if t.task.isProtobuf then setup.keys.statsigBr else setup.keys.plainText)
  {
    hide ResponseFormat;
  }

  /** A task whose body cannot be read is over, and has called nothing. */
  lemma FailedReadEndsIt(setup: Setup, st: State, id: nat)
    requires id < |st.tasks| && st.tasks[id].phase == Spawned
    ensures var r := Next(setup, st, ReadFails(id));
            r.calls == st.calls && |r.tasks| == |st.tasks| && r.tasks[id].phase == Finished
  {
  }
}
