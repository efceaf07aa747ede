/**
  Spec updates by any number of updaters at once. Each section under the store's lock is one atomic step:
  prep compares the update with the values it reads, apply installs what prep let through without looking
  again, notify ends the update. A step that is not enabled changes nothing.
 */
module SpecStoreInterleaving {
  import opened Wrappers
  import opened GlobalConfigs
  import opened SpecUpdates

  datatype Updater = Prepped(u: SpecsUpdate, next: Specs) | Applied(u: SpecsUpdate)

  datatype State = State(data: StoreData, inFlight: map<nat, Updater>)

  datatype Step =
    | PrepStep(id: nat, u: SpecsUpdate)
    | ApplyStep(id: nat, now: nat)
    | NotifyStep(id: nat)
    | AbandonStep(id: nat)
    | SetSourceStep(source: SpecsSource)

  function Next(dec: Decoders, st: State, step: Step): (r: State) {
    match step
    case PrepStep(id, u) =>
      if id in st.inFlight then st
      else
        (match Prep(dec, st.data.values, u)
         case Ok(HasUpdates(next, _)) => st.(inFlight := st.inFlight[id := Prepped(u, next)])
         case _ => st)
    case ApplyStep(id, now) =>
      if id in st.inFlight && st.inFlight[id].Prepped? then
        var p := st.inFlight[id];
        State(Apply(p.next, p.u, now), st.inFlight[id := Applied(p.u)])
      else st
    case NotifyStep(id) =>
      if id in st.inFlight && st.inFlight[id].Applied? then st.(inFlight := st.inFlight - {id}) else st
    case AbandonStep(id) => st.(inFlight := st.inFlight - {id})
    case SetSourceStep(source) => st.(data := st.data.(source := source))
  }

  function Run(dec: Decoders, start: StoreData, steps: seq<Step>): (r: State) {
    if steps == [] then State(start, map[])
    else Next(dec, Run(dec, start, steps[..|steps| - 1]), steps[|steps| - 1])
  }

  /** The state before step k of a run. */
  function At(dec: Decoders, start: StoreData, steps: seq<Step>, k: nat): (r: State)
    requires k <= |steps|
  {
    Run(dec, start, steps[..k])
  }

  lemma AtNext(dec: Decoders, start: StoreData, steps: seq<Step>, k: nat)
    requires k < |steps|
    ensures At(dec, start, steps, k + 1) == Next(dec, At(dec, start, steps, k), steps[k])
  {
    assert steps[..k + 1][..k] == steps[..k];
  }

  predicate Enabled(st: State, id: nat) {
    id in st.inFlight && st.inFlight[id].Prepped?
  }

  /** Step k applies an update. */
  ghost predicate AppliesAt(dec: Decoders, start: StoreData, steps: seq<Step>, k: nat, id: nat)
    requires k < |steps|
  {
    steps[k].ApplyStep? && steps[k].id == id && Enabled(At(dec, start, steps, k), id)
  }

  /**
    Step p is the prep of the update that updater id is about to apply at k: it let `next` through, and
    the updater has carried it ever since.
   */
  ghost predicate PrepOf(
    dec: Decoders, start: StoreData, steps: seq<Step>, p: nat, k: nat, id: nat, u: SpecsUpdate, next: Specs)
    requires k <= |steps|
  {
    && p < k && steps[p] == PrepStep(id, u)
    && Prep(dec, At(dec, start, steps, p).data.values, u) == Ok(HasUpdates(next, ResponseFormat(u.data)))
    && forall q :: p < q <= k ==>
         id in At(dec, start, steps, q).inFlight && At(dec, start, steps, q).inFlight[id] == Prepped(u, next)
  }

  /** Every prepared update in flight has its prep in the past. */
  lemma {:induction false} PrepExists(dec: Decoders, start: StoreData, steps: seq<Step>, k: nat, id: nat)
    requires k <= |steps| && Enabled(At(dec, start, steps, k), id)
    ensures var st := At(dec, start, steps, k);
            exists p: nat :: PrepOf(dec, start, steps, p, k, id, st.inFlight[id].u, st.inFlight[id].next)
    decreases k
  {
    var st := At(dec, start, steps, k);
    var u, next := st.inFlight[id].u, st.inFlight[id].next;
    assert k > 0;
    AtNext(dec, start, steps, k - 1);
    var prev := At(dec, start, steps, k - 1);
    if Enabled(prev, id) {
      assert prev.inFlight[id] == Prepped(u, next);
      PrepExists(dec, start, steps, k - 1, id);
      var p: nat :| PrepOf(dec, start, steps, p, k - 1, id, u, next);
      assert PrepOf(dec, start, steps, p, k, id, u, next);
    } else {
      assert PrepOf(dec, start, steps, k - 1, k, id, u, next);
    }
  }

  /** Between p and k the values can only change at a step that applies an update. */
  lemma {:induction false} ValuesChangeByApply(dec: Decoders, start: StoreData, steps: seq<Step>, p: nat, k: nat)
    requires p <= k <= |steps|
    ensures At(dec, start, steps, k).data.values == At(dec, start, steps, p).data.values
            || exists j: nat, id :: p <= j < k && AppliesAt(dec, start, steps, j, id)
    decreases k
  {
    hide Prep, Run, At;
    if p < k {
      AtNext(dec, start, steps, k - 1);
      ValuesChangeByApply(dec, start, steps, p, k - 1);
      var step := steps[k - 1];
      if step.ApplyStep? && Enabled(At(dec, start, steps, k - 1), step.id) {
        assert AppliesAt(dec, start, steps, k - 1, step.id);
      }
    }
  }

  /** Every apply installs values no older than the store its own prep read. */
  lemma AppliedValuesNoOlderThanPrep(dec: Decoders, start: StoreData, steps: seq<Step>, k: nat, id: nat)
    requires k < |steps| && AppliesAt(dec, start, steps, k, id)
    ensures exists p: nat, u, next ::
      && PrepOf(dec, start, steps, p, k, id, u, next)
      && At(dec, start, steps, k + 1).data == Apply(next, u, steps[k].now)
      && next.time >= At(dec, start, steps, p).data.values.time
  {
    var st := At(dec, start, steps, k);
    var u, next := st.inFlight[id].u, st.inFlight[id].next;
    PrepExists(dec, start, steps, k, id);
    var p: nat :| PrepOf(dec, start, steps, p, k, id, u, next);
    PrepNeverGoesBack(dec, At(dec, start, steps, p).data.values, u);
    AtNext(dec, start, steps, k);
    assert PrepOf(dec, start, steps, p, k, id, u, next);
  }

  ghost predicate GoesBackAt(dec: Decoders, start: StoreData, steps: seq<Step>, k: nat)
    requires k < |steps|
  {
    At(dec, start, steps, k + 1).data.values.time < At(dec, start, steps, k).data.values.time
  }

  /** Between p, the prep of the update applied at k, and k another updater's update was applied, at j. */
  ghost predicate Raced(dec: Decoders, start: StoreData, steps: seq<Step>, k: nat, id: nat, p: nat, j: nat, other: nat)
    requires k < |steps|
  {
    && (exists u, next :: PrepOf(dec, start, steps, p, k, id, u, next))
    && p < j < k && other != id && AppliesAt(dec, start, steps, j, other)
  }

  /** An update still carried at k was not applied before. */
  lemma AppliedByAnother(
    dec: Decoders, start: StoreData, steps: seq<Step>, p: nat, k: nat, id: nat, u: SpecsUpdate, next: Specs, j: nat,
    other: nat)
    requires k <= |steps| && PrepOf(dec, start, steps, p, k, id, u, next)
    requires p < j < k && AppliesAt(dec, start, steps, j, other)
    ensures other != id
  {
    hide Prep, Run;
    AtNext(dec, start, steps, j);
    assert At(dec, start, steps, j + 1).inFlight[id] == Prepped(u, next);
  }

  /** The store's time goes down only at an apply, and only if another apply fell between its prep and it. */
  lemma GoesBackOnlyWhenRaced(dec: Decoders, start: StoreData, steps: seq<Step>, k: nat)
    requires k < |steps| && GoesBackAt(dec, start, steps, k)
    ensures steps[k].ApplyStep? && AppliesAt(dec, start, steps, k, steps[k].id)
    ensures exists p: nat, j: nat, other: nat :: Raced(dec, start, steps, k, steps[k].id, p, j, other)
  {
    hide Prep, Run, At;
    AtNext(dec, start, steps, k);
    var id := steps[k].id;
    AppliedValuesNoOlderThanPrep(dec, start, steps, k, id);
    var p: nat, u, next :|
      && PrepOf(dec, start, steps, p, k, id, u, next)
      && At(dec, start, steps, k + 1).data == Apply(next, u, steps[k].now)
      && next.time >= At(dec, start, steps, p).data.values.time;
    AtNext(dec, start, steps, p);
    ValuesChangeByApply(dec, start, steps, p + 1, k);
    hide AppliesAt;
    var j: nat, other :| p + 1 <= j < k && AppliesAt(dec, start, steps, j, other);
    AppliedByAnother(dec, start, steps, p, k, id, u, next, j, other);
    assert Raced(dec, start, steps, k, id, p, j, other);
  }

  // ---- Exactly when the store goes back ----

  /** The last update applied strictly between p and k was other's, at j. */
  ghost predicate LastApply(dec: Decoders, start: StoreData, steps: seq<Step>, p: nat, j: nat, k: nat, other: nat)
    requires k <= |steps|
  {
    && p < j < k && AppliesAt(dec, start, steps, j, other)
    && forall i: nat, whose :: j < i < k ==> !AppliesAt(dec, start, steps, i, whose)
  }

  /**
    The update that updater id carries at k was let through by the prep at p, and the last update applied
    since, other's at j, carried newer values.
   */
  ghost predicate Overtaken(
    dec: Decoders, start: StoreData, steps: seq<Step>, k: nat, id: nat, p: nat, j: nat, other: nat, u: SpecsUpdate,
    next: Specs)
    requires k <= |steps|
  {
    && PrepOf(dec, start, steps, p, k, id, u, next)
    && LastApply(dec, start, steps, p, j, k, other) && other != id
    && At(dec, start, steps, j).inFlight[other].next.time > next.time
  }

  lemma {:induction false} LastApplyExists(
    dec: Decoders, start: StoreData, steps: seq<Step>, p: nat, j: nat, k: nat, other: nat)
    returns (last: nat, whose: nat)
    requires k <= |steps| && p < j < k && AppliesAt(dec, start, steps, j, other)
    ensures LastApply(dec, start, steps, p, last, k, whose)
    decreases k - j
  {
    hide AppliesAt;
    if i: nat, id :| j < i < k && AppliesAt(dec, start, steps, i, id) {
      last, whose := LastApplyExists(dec, start, steps, p, i, k, id);
    } else {
      last, whose := j, other;
    }
  }

  /** At k the store still holds what the last apply before k installed. */
  lemma LastApplyDecides(dec: Decoders, start: StoreData, steps: seq<Step>, p: nat, j: nat, k: nat, other: nat)
    requires k <= |steps| && LastApply(dec, start, steps, p, j, k, other)
    ensures At(dec, start, steps, k).data.values == At(dec, start, steps, j + 1).data.values
  {
    hide At, AppliesAt;
    ValuesChangeByApply(dec, start, steps, j + 1, k);
  }

  /** An apply installs what its updater carries. */
  lemma ApplyInstalls(dec: Decoders, start: StoreData, steps: seq<Step>, k: nat, id: nat)
    requires k < |steps| && AppliesAt(dec, start, steps, k, id)
    ensures Enabled(At(dec, start, steps, k), id)
    ensures At(dec, start, steps, k + 1).data.values == At(dec, start, steps, k).inFlight[id].next
  {
    hide Prep, Run, At;
    AtNext(dec, start, steps, k);
  }

  lemma CarriedAt(
    dec: Decoders, start: StoreData, steps: seq<Step>, p: nat, k: nat, id: nat, u: SpecsUpdate, next: Specs)
    requires k <= |steps| && PrepOf(dec, start, steps, p, k, id, u, next)
    ensures id in At(dec, start, steps, k).inFlight && At(dec, start, steps, k).inFlight[id] == Prepped(u, next)
  {
    hide At;
  }

  /**
    A step takes the store back in time if and only if it applies an update that was overtaken: the last
    one applied between its prep and it carried newer values. Nothing else ever does.
   */
  lemma GoesBackExactlyWhenOvertaken(dec: Decoders, start: StoreData, steps: seq<Step>, k: nat)
    requires k < |steps|
    ensures GoesBackAt(dec, start, steps, k) <==>
            && steps[k].ApplyStep? && AppliesAt(dec, start, steps, k, steps[k].id)
            && exists p, j, other, u, next :: Overtaken(dec, start, steps, k, steps[k].id, p, j, other, u, next)
  {
    hide At, AppliesAt, PrepOf;
    if GoesBackAt(dec, start, steps, k) {
      OvertakenWhenBack(dec, start, steps, k);
    }
    if steps[k].ApplyStep? && AppliesAt(dec, start, steps, k, steps[k].id) {
      forall p, j, other, u, next | Overtaken(dec, start, steps, k, steps[k].id, p, j, other, u, next)
        ensures GoesBackAt(dec, start, steps, k)
      {
        LastApplyDecides(dec, start, steps, p, j, k, other);
        ApplyInstalls(dec, start, steps, j, other);
        ApplyInstalls(dec, start, steps, k, steps[k].id);
        CarriedAt(dec, start, steps, p, k, steps[k].id, u, next);
      }
    }
  }

  predicate Ready(st: State) {
    st.data.values.time != 0
  }

  /** Spec readiness is lost exactly where an overtaken update of time zero is applied. */
  lemma ReadinessLostExactlyWhenOvertakenByZero(dec: Decoders, start: StoreData, steps: seq<Step>, k: nat)
    requires k < |steps|
    ensures Ready(At(dec, start, steps, k)) && !Ready(At(dec, start, steps, k + 1)) <==>
            && steps[k].ApplyStep? && AppliesAt(dec, start, steps, k, steps[k].id)
            && exists p, j, other, u, next ::
                 Overtaken(dec, start, steps, k, steps[k].id, p, j, other, u, next) && next.time == 0
  {
    hide At, AppliesAt, PrepOf, LastApply;
    GoesBackExactlyWhenOvertaken(dec, start, steps, k);
    if steps[k].ApplyStep? && AppliesAt(dec, start, steps, k, steps[k].id) {
      ApplyInstalls(dec, start, steps, k, steps[k].id);
      forall p, j, other, u, next | Overtaken(dec, start, steps, k, steps[k].id, p, j, other, u, next)
        ensures At(dec, start, steps, k + 1).data.values.time == next.time
      {
        CarriedAt(dec, start, steps, p, k, steps[k].id, u, next);
      }
    }
  }

  lemma OvertakenWhenBack(dec: Decoders, start: StoreData, steps: seq<Step>, k: nat)
    requires k < |steps| && GoesBackAt(dec, start, steps, k)
    ensures steps[k].ApplyStep? && AppliesAt(dec, start, steps, k, steps[k].id)
    ensures exists p, j, other, u, next :: Overtaken(dec, start, steps, k, steps[k].id, p, j, other, u, next)
  {
    hide At, AppliesAt, PrepOf;
    GoesBackOnlyWhenRaced(dec, start, steps, k);
    var id := steps[k].id;
    var p: nat, i: nat, racer: nat :| Raced(dec, start, steps, k, id, p, i, racer);
    var u, next :| PrepOf(dec, start, steps, p, k, id, u, next);
    var j, other := LastApplyExists(dec, start, steps, p, i, k, racer);
    LastApplyDecides(dec, start, steps, p, j, k, other);
    ApplyInstalls(dec, start, steps, j, other);
    ApplyInstalls(dec, start, steps, k, id);
    CarriedAt(dec, start, steps, p, k, id, u, next);
    AppliedByAnother(dec, start, steps, p, k, id, u, next, j, other);
    assert Overtaken(dec, start, steps, k, id, p, j, other, u, next);
  }

  lemma TwoInFlightWhenBack(dec: Decoders, start: StoreData, steps: seq<Step>, k: nat)
    requires k < |steps| && GoesBackAt(dec, start, steps, k)
    ensures exists j :: 0 <= j <= |steps| && !OneInFlight(At(dec, start, steps, j))
  {
    hide At, GoesBackAt;
    GoesBackOnlyWhenRaced(dec, start, steps, k);
    var id := steps[k].id;
    var p: nat, j: nat, other: nat :| Raced(dec, start, steps, k, id, p, j, other);
    var u, next :| PrepOf(dec, start, steps, p, k, id, u, next);
    hide Prep;
    assert id in At(dec, start, steps, j).inFlight && other in At(dec, start, steps, j).inFlight;
    assert !OneInFlight(At(dec, start, steps, j));
  }

  ghost predicate OneInFlight(st: State) {
    forall a, b :: a in st.inFlight && b in st.inFlight ==> a == b
  }

  /** So a run with at most one update in flight at a time never goes back. */
  lemma {:induction false} OneUpdaterNeverGoesBack(dec: Decoders, start: StoreData, steps: seq<Step>, m: nat, n: nat)
    requires m <= n <= |steps|
    requires forall k :: 0 <= k <= |steps| ==> OneInFlight(At(dec, start, steps, k))
    ensures At(dec, start, steps, m).data.values.time <= At(dec, start, steps, n).data.values.time
    decreases n
  {
    if m < n {
      OneUpdaterNeverGoesBack(dec, start, steps, m, n - 1);
      if GoesBackAt(dec, start, steps, n - 1) {
        TwoInFlightWhenBack(dec, start, steps, n - 1);
      }
    }
  }

  /** Two interleaved updates can take the store back, even to not ready: the one prepared first is applied last. */
  lemma RaceGoesBack() returns (dec: Decoders, steps: seq<Step>)
    ensures |steps| == 4 && GoesBackAt(dec, InitialData(), steps, 3)
    ensures Ready(At(dec, InitialData(), steps, 3)) && !Ready(At(dec, InitialData(), steps, 4))
  {
    var start := InitialData();
    dec := Decoders(
      body => Ok(Specs(|body|, None, true, ConfigFields(None, None, None), "")),
      (current, body) => Err(LockFailure),
      body => Err(LockFailure));
    var older := SpecsUpdate(ResponseData(map[], []), Network, None);
    var newer := SpecsUpdate(ResponseData(map[], [0, 0]), Network, None);
    steps := [PrepStep(0, older), PrepStep(1, newer), ApplyStep(1, 0), ApplyStep(0, 0)];
    var s0 := At(dec, start, steps, 0);
    AtNext(dec, start, steps, 0);
    var s1 := At(dec, start, steps, 1);
    assert s1.inFlight[0].next.time == 0;
    AtNext(dec, start, steps, 1);
    var s2 := At(dec, start, steps, 2);
    assert s2.inFlight[1].next.time == 2 && s2.inFlight[0] == s1.inFlight[0];
    AtNext(dec, start, steps, 2);
    AtNext(dec, start, steps, 3);
  }
}
