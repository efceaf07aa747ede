/**
  Global configs when several updaters are at work. Between its prep and its write lock an update merges its
  three fields into the global configs, each under a lock of its own. The machine below adds these merges
  to the spec store's steps: an update can be applied only after its three merges, granted or not.
 */
module ConfigInterleaving {
  import opened Wrappers
  import opened GlobalConfigs
  import opened SpecUpdates
  import Store = SpecStoreInterleaving
  import Serial = SpecStore

  /** The three maps, in the order in which they are merged. */
  datatype Kind = Rates | SdkConfigs | SdkFlags

  function Stage(kind: Kind): (n: nat) {
    match kind
    case Rates => 0
    case SdkConfigs => 1
    case SdkFlags => 2
  }

  const STAGES: nat := 3

  /** `stages` counts the merges that the update an updater carries has gone through. */
  datatype State = State(store: Store.State, configs: Configs, stages: map<nat, nat>)

  datatype Step = StoreDoes(step: Store.Step) | MergeStep(id: nat, locked: bool)

  function StageOf(st: State, id: nat): (n: nat) {
    if id in st.stages then st.stages[id] else 0
  }

  /** The one field merged at a stage; nothing without the lock. */
  function FieldAt(f: ConfigFields, stage: nat, locked: bool): (r: ConfigFields) {
    Granted(f, ConfigLocks(locked && stage == 0, locked && stage == 1, locked && stage == 2))
  }

  predicate Merging(st: State, id: nat) {
    Store.Enabled(st.store, id) && StageOf(st, id) < STAGES
  }

  function Next(dec: Decoders, st: State, step: Step): (r: State) {
    match step
    case MergeStep(id, locked) =>
      if Merging(st, id) then
        var n := StageOf(st, id);
        var field := FieldAt(st.store.inFlight[id].next.fields, n, locked);
        State(st.store, Merge(st.configs, field), st.stages[id := n + 1])
      else st
    case StoreDoes(s) =>
      if s.ApplyStep? && Merging(st, s.id) then st
      else if s.PrepStep? && s.id !in st.store.inFlight then
        State(Store.Next(dec, st.store, s), st.configs, st.stages[s.id := 0])
      else st.(store := Store.Next(dec, st.store, s))
  }

  function Initial(start: StoreData, configs: Configs): (st: State) {
    State(Store.State(start, map[]), configs, map[])
  }

  function Run(dec: Decoders, st: State, steps: seq<Step>): (r: State) {
    if steps == [] then st else Next(dec, Run(dec, st, steps[..|steps| - 1]), steps[|steps| - 1])
  }

  /** The state before step k of a run. */
  function At(dec: Decoders, st: State, steps: seq<Step>, k: nat): (r: State)
    requires k <= |steps|
  {
    Run(dec, st, steps[..k])
  }

  lemma AtNext(dec: Decoders, st: State, steps: seq<Step>, k: nat)
    requires k < |steps|
    ensures At(dec, st, steps, k + 1) == Next(dec, At(dec, st, steps, k), steps[k])
  {
    assert steps[..k + 1][..k] == steps[..k];
  }

  // ---- The store is the one without configs ----

  /** The store's own step, if this is one: merges, and applies that come too early, are none. */
  function ErasedStep(st: State, step: Step): (r: seq<Store.Step>)
    ensures |r| <= 1
  {
    if step.MergeStep? || (step.step.ApplyStep? && Merging(st, step.step.id)) then [] else [step.step]
  }

  function Erased(dec: Decoders, st: State, steps: seq<Step>): (r: seq<Store.Step>) {
    if steps == [] then []
    else
      var front, last := steps[..|steps| - 1], steps[|steps| - 1];
      Erased(dec, st, front) + ErasedStep(Run(dec, st, front), last)
  }

  lemma StepErases(dec: Decoders, st: State, step: Step)
    ensures var own := ErasedStep(st, step);
            Next(dec, st, step).store == if own == [] then st.store else Store.Next(dec, st.store, own[0])
  {
    hide Store.Next, Merge, FieldAt;
  }

  lemma StoreRunMore(dec: Decoders, start: StoreData, steps: seq<Store.Step>, more: seq<Store.Step>)
    requires |more| <= 1
    ensures Store.Run(dec, start, steps + more) ==
            if more == [] then Store.Run(dec, start, steps)
            else Store.Next(dec, Store.Run(dec, start, steps), more[0])
  {
    hide Store.Next;
    if more == [] {
      assert steps + more == steps;
    } else {
      assert (steps + more)[..|steps|] == steps;
    }
  }

  /** So everything proved of the store's interleavings holds of these. */
  lemma {:induction false} StoreRunsAsBefore(dec: Decoders, start: StoreData, configs: Configs, steps: seq<Step>)
    ensures var st := Initial(start, configs);
            Run(dec, st, steps).store == Store.Run(dec, start, Erased(dec, st, steps))
  {
    hide Store.Next, Next, ErasedStep;
    if steps != [] {
      var st, front, last := Initial(start, configs), steps[..|steps| - 1], steps[|steps| - 1];
      StoreRunsAsBefore(dec, start, configs, front);
      StepErases(dec, Run(dec, st, front), last);
      StoreRunMore(dec, start, Erased(dec, st, front), ErasedStep(Run(dec, st, front), last));
    }
  }

  // ---- Settings ----

  /** A value under one key of one of the maps. */
  datatype Setting = RateIs(rate: real) | ConfigIs(value: DynamicValue) | FlagIs(on: bool)

  /** What the configs say for a key. */
  function Current(c: Configs, kind: Kind, key: string): (v: Option<Setting>) {
    match kind
    case Rates => if key in c.rates then Some(RateIs(c.rates[key])) else None
    case SdkConfigs => if key in c.sdkConfigs then Some(ConfigIs(c.sdkConfigs[key])) else None
    case SdkFlags => if key in c.sdkFlags then Some(FlagIs(c.sdkFlags[key])) else None
  }

  /** What an update's fields say for a key. */
  function Asked(f: ConfigFields, kind: Kind, key: string): (v: Option<Setting>) {
    match kind
    case Rates =>
      var m := OrEmpty(f.diagnostics);
      if key in m then Some(RateIs(Clamp(m[key]))) else None
    case SdkConfigs =>
      var m := OrEmpty(f.sdkConfigs);
      if key in m then Some(ConfigIs(m[key])) else None
    case SdkFlags =>
      var m := OrEmpty(f.sdkFlags);
      if key in m then Some(FlagIs(m[key])) else None
  }

  lemma MergeSets(c: Configs, f: ConfigFields, kind: Kind, key: string)
    ensures Current(Merge(c, f), kind, key) ==
            if Asked(f, kind, key).Some? then Asked(f, kind, key) else Current(c, kind, key)
  {
    hide Clamp;
  }

  lemma FieldAsks(f: ConfigFields, stage: nat, locked: bool, kind: Kind, key: string)
    ensures Asked(FieldAt(f, stage, locked), kind, key) ==
            if locked && stage == Stage(kind) then Asked(f, kind, key) else None
  {
    hide Clamp;
  }

  /** What step k sets under the key, if it is a granted merge of the right field that names it. */
  function SetAt(dec: Decoders, st: State, steps: seq<Step>, k: nat, kind: Kind, key: string): (v: Option<Setting>) {
    if k >= |steps| || !steps[k].MergeStep? then None
    else
      var now, id := At(dec, st, steps, k), steps[k].id;
      if !Merging(now, id) || StageOf(now, id) != Stage(kind) || !steps[k].locked then None
      else Asked(now.store.inFlight[id].next.fields, kind, key)
  }

  lemma StepSets(dec: Decoders, st: State, steps: seq<Step>, k: nat, kind: Kind, key: string)
    requires k < |steps|
    ensures var v := SetAt(dec, st, steps, k, kind, key);
            Current(At(dec, st, steps, k + 1).configs, kind, key) ==
            if v.Some? then v else Current(At(dec, st, steps, k).configs, kind, key)
  {
    hide Merge, FieldAt, Current, Asked, Run, Store.Next;
    AtNext(dec, st, steps, k);
    var now := At(dec, st, steps, k);
    if steps[k].MergeStep? && Merging(now, steps[k].id) {
      var id := steps[k].id;
      var f := now.store.inFlight[id].next.fields;
      MergeSets(now.configs, FieldAt(f, StageOf(now, id), steps[k].locked), kind, key);
      FieldAsks(f, StageOf(now, id), steps[k].locked, kind, key);
    }
  }

  /** From a to b no step sets the key. */
  ghost predicate Untouched(dec: Decoders, st: State, steps: seq<Step>, a: nat, b: nat, kind: Kind, key: string) {
    forall k: nat :: a <= k < b ==> SetAt(dec, st, steps, k, kind, key).None?
  }

  lemma {:induction false} UntouchedKeeps(
    dec: Decoders, st: State, steps: seq<Step>, a: nat, b: nat, kind: Kind, key: string)
    requires a <= b <= |steps| && Untouched(dec, st, steps, a, b, kind, key)
    ensures Current(At(dec, st, steps, b).configs, kind, key) == Current(At(dec, st, steps, a).configs, kind, key)
    decreases b
  {
    hide At, SetAt, Current;
    if a < b {
      UntouchedKeeps(dec, st, steps, a, b - 1, kind, key);
      StepSets(dec, st, steps, b - 1, kind, key);
    }
  }

  /** Step m is the last one before n that sets the key. */
  ghost predicate LastSet(dec: Decoders, st: State, steps: seq<Step>, m: nat, n: nat, kind: Kind, key: string) {
    m < n && SetAt(dec, st, steps, m, kind, key).Some? && Untouched(dec, st, steps, m + 1, n, kind, key)
  }

  /** In every interleaving the last merge that names a key decides it. */
  lemma LastSetDecides(dec: Decoders, st: State, steps: seq<Step>, m: nat, n: nat, kind: Kind, key: string)
    requires n <= |steps| && LastSet(dec, st, steps, m, n, kind, key)
    ensures Current(At(dec, st, steps, n).configs, kind, key) == SetAt(dec, st, steps, m, kind, key)
  {
    hide At, SetAt, Current;
    StepSets(dec, st, steps, m, kind, key);
    UntouchedKeeps(dec, st, steps, m + 1, n, kind, key);
  }

  lemma {:induction false} LastSetExists(
    dec: Decoders, st: State, steps: seq<Step>, k: nat, n: nat, kind: Kind, key: string) returns (m: nat)
    requires k < n && SetAt(dec, st, steps, k, kind, key).Some?
    ensures k <= m && LastSet(dec, st, steps, m, n, kind, key)
    decreases n - k
  {
    hide SetAt;
    if l: nat :| k < l < n && SetAt(dec, st, steps, l, kind, key).Some? {
      m := LastSetExists(dec, st, steps, l, n, kind, key);
    } else {
      m := k;
    }
  }

  // ---- The configs of the update that was applied ----

  /** Step k is the merge, granted or not, of this kind of the update `next` that updater id carries. */
  ghost predicate OwnMerge(dec: Decoders, st: State, steps: seq<Step>, k: nat, id: nat, kind: Kind, next: Specs) {
    && k < |steps| && steps[k].MergeStep? && steps[k].id == id
    && var now := At(dec, st, steps, k);
       Merging(now, id) && StageOf(now, id) == Stage(kind) && now.store.inFlight[id].next == next
  }

  /** An update that has gone through n merges made them, each in its turn. */
  lemma {:induction false} OwnMergesExist(
    dec: Decoders, st: State, steps: seq<Step>, a: nat, id: nat, kind: Kind) returns (k: nat)
    requires st.store.inFlight == map[] && st.stages == map[]
    requires a <= |steps| && Store.Enabled(At(dec, st, steps, a).store, id)
    requires StageOf(At(dec, st, steps, a), id) > Stage(kind)
    ensures k < a && OwnMerge(dec, st, steps, k, id, kind, At(dec, st, steps, a).store.inFlight[id].next)
    decreases a
  {
    hide Prep, Merge, FieldAt, Stage;
    assert steps[..0] == [];
    assert a > 0;
    AtNext(dec, st, steps, a - 1);
    var before := At(dec, st, steps, a - 1);
    if Store.Enabled(before.store, id) && StageOf(before, id) > Stage(kind) {
      k := OwnMergesExist(dec, st, steps, a - 1, id, kind);
    } else {
      k := a - 1;
    }
  }

  /** Step a applies the update `next` of updater id. */
  ghost predicate Applies(dec: Decoders, st: State, steps: seq<Step>, a: nat, id: nat, next: Specs) {
    && a < |steps| && steps[a].StoreDoes? && steps[a].step.ApplyStep? && steps[a].step.id == id
    && var now := At(dec, st, steps, a);
       Store.Enabled(now.store, id) && !Merging(now, id) && now.store.inFlight[id].next == next
  }

  /** After its own merge at k, the last step that sets the key sets something else. */
  ghost predicate Overridden(
    dec: Decoders, st: State, steps: seq<Step>, k: nat, m: nat, n: nat, kind: Kind, key: string, v: Setting)
  {
    m > k && LastSet(dec, st, steps, m, n, kind, key) && SetAt(dec, st, steps, m, kind, key) != Some(v)
  }

  /**
    An applied update made its three merges before. If the one for a key it names got its lock, the key has the
    update's value exactly when no later merge, by whichever updater and whatever became of it, overrode it. If
    it did not get its lock, the key has that value exactly when someone else set it last, or nobody and it
    was there from the start.
   */
  lemma AppliedSettingStaysExactly(
    dec: Decoders, st: State, steps: seq<Step>, a: nat, id: nat, next: Specs, n: nat, kind: Kind, key: string)
    returns (k: nat)
    requires st.store.inFlight == map[] && st.stages == map[]
    requires a < n <= |steps| && Applies(dec, st, steps, a, id, next) && Asked(next.fields, kind, key).Some?
    ensures k < a && OwnMerge(dec, st, steps, k, id, kind, next)
    ensures steps[k].locked ==>
      var v := Asked(next.fields, kind, key);
      Current(At(dec, st, steps, n).configs, kind, key) == v <==>
      forall m :: !Overridden(dec, st, steps, k, m, n, kind, key, v.value)
    ensures !steps[k].locked ==>
      var v := Asked(next.fields, kind, key);
      Current(At(dec, st, steps, n).configs, kind, key) == v <==>
      SetByOthers(dec, st, steps, n, kind, key, v.value)
  {
    StageBelow(kind);
    k := OwnMergesExist(dec, st, steps, a, id, kind);
    if steps[k].locked {
      GrantedSettingStays(dec, st, steps, k, id, next, n, kind, key);
    } else {
      SettingExactly(dec, st, steps, n, kind, key, Asked(next.fields, kind, key).value);
    }
  }

  /** The last step before n that sets the key sets this value, or none sets it and it was there. */
  ghost predicate SetByOthers(
    dec: Decoders, st: State, steps: seq<Step>, n: nat, kind: Kind, key: string, v: Setting)
  {
    || (exists m :: LastSet(dec, st, steps, m, n, kind, key) && SetAt(dec, st, steps, m, kind, key) == Some(v))
    || (Untouched(dec, st, steps, 0, n, kind, key) && Current(st.configs, kind, key) == Some(v))
  }

  lemma SettingExactly(dec: Decoders, st: State, steps: seq<Step>, n: nat, kind: Kind, key: string, v: Setting)
    requires n <= |steps|
    ensures Current(At(dec, st, steps, n).configs, kind, key) == Some(v) <==>
            SetByOthers(dec, st, steps, n, kind, key, v)
  {
    hide SetAt, Current, Next, LastSet;
    assert steps[..0] == [] && At(dec, st, steps, 0) == st;
    if k: nat :| k < n && SetAt(dec, st, steps, k, kind, key).Some? {
      var m := LastSetExists(dec, st, steps, k, n, kind, key);
      LastSetDecides(dec, st, steps, m, n, kind, key);
      assert !Untouched(dec, st, steps, 0, n, kind, key);
    } else {
      UntouchedKeeps(dec, st, steps, 0, n, kind, key);
    }
    forall m | LastSet(dec, st, steps, m, n, kind, key)
      ensures Current(At(dec, st, steps, n).configs, kind, key) == SetAt(dec, st, steps, m, kind, key)
    {
      LastSetDecides(dec, st, steps, m, n, kind, key);
    }
  }

  lemma StageBelow(kind: Kind)
    ensures Stage(kind) < STAGES
  {
  }

  lemma GrantedSettingStays(
    dec: Decoders, st: State, steps: seq<Step>, k: nat, id: nat, next: Specs, n: nat, kind: Kind, key: string)
    requires k < n <= |steps| && OwnMerge(dec, st, steps, k, id, kind, next) && steps[k].locked
    requires Asked(next.fields, kind, key).Some?
    ensures var v := Asked(next.fields, kind, key);
            Current(At(dec, st, steps, n).configs, kind, key) == v <==>
            forall m :: !Overridden(dec, st, steps, k, m, n, kind, key, v.value)
  {
    hide Run, Asked, Current, Untouched;
    var v := Asked(next.fields, kind, key);
    assert SetAt(dec, st, steps, k, kind, key) == v;
    var m := LastSetExists(dec, st, steps, k, n, kind, key);
    LastSetDecides(dec, st, steps, m, n, kind, key);
    forall l | Overridden(dec, st, steps, k, l, n, kind, key, v.value)
      ensures Current(At(dec, st, steps, n).configs, kind, key) != v
    {
      LastSetDecides(dec, st, steps, l, n, kind, key);
    }
    if SetAt(dec, st, steps, m, kind, key) != v {
      assert Overridden(dec, st, steps, k, m, n, kind, key, v.value);
    }
  }

  // ---- One updater at a time ----

  /** The configs hold what these fields say in one of the maps. */
  ghost predicate Agree(c: Configs, f: ConfigFields, kind: Kind) {
    forall key :: Asked(f, kind, key).Some? ==> Current(c, kind, key) == Asked(f, kind, key)
  }

  /** Whose fields a map should hold while updater id is at work: its own once it has merged them. */
  function Source(st: State, id: nat, kind: Kind): (f: ConfigFields)
    requires Store.Enabled(st.store, id)
  {
    if Stage(kind) < StageOf(st, id) then st.store.inFlight[id].next.fields else st.store.data.values.fields
  }

  predicate AtRest(st: State) {
    forall id :: id in st.store.inFlight ==> !Store.Enabled(st.store, id)
  }

  /** All maps hold what the installed values say. */
  ghost predicate AllAgree(st: State) {
    forall kind :: Agree(st.configs, st.store.data.values.fields, kind)
  }

  /** Each map holds the fields of the update that merged it last: the one under way, or the one installed. */
  ghost predicate InStep(st: State) {
    && (forall id, kind :: Store.Enabled(st.store, id) ==> Agree(st.configs, Source(st, id, kind), kind))
    && (AtRest(st) ==> AllAgree(st))
  }

  /** The locks of merges are acquired, and no update is given up once it has merged. */
  predicate Quiet(st: State, step: Step) {
    match step
    case MergeStep(_, locked) => locked
    case StoreDoes(s) => s.AbandonStep? && Store.Enabled(st.store, s.id) ==> StageOf(st, s.id) == 0
  }

  lemma MergeAgrees(c: Configs, f: ConfigFields, g: ConfigFields, stage: nat, kind: Kind)
    ensures stage == Stage(kind) ==> Agree(Merge(c, FieldAt(f, stage, true)), f, kind)
    ensures stage != Stage(kind) && Agree(c, g, kind) ==> Agree(Merge(c, FieldAt(f, stage, true)), g, kind)
  {
    hide Merge, FieldAt, Asked, Current;
    forall key
      ensures var r := Current(Merge(c, FieldAt(f, stage, true)), kind, key);
              if stage == Stage(kind) && Asked(f, kind, key).Some? then r == Asked(f, kind, key)
              else r == Current(c, kind, key)
    {
      MergeSets(c, FieldAt(f, stage, true), kind, key);
      FieldAsks(f, stage, true, kind, key);
    }
  }

  lemma MergeKeepsStep(dec: Decoders, st: State, id: nat)
    requires InStep(st) && Store.OneInFlight(st.store)
    ensures InStep(Next(dec, st, MergeStep(id, true)))
  {
    hide Merge, FieldAt, Agree, AllAgree;
    if Merging(st, id) {
      var r := Next(dec, st, MergeStep(id, true));
      var own, n := st.store.inFlight[id].next.fields, StageOf(st, id);
      assert !AtRest(r);
      forall e, kind | Store.Enabled(r.store, e)
        ensures Agree(r.configs, Source(r, e, kind), kind)
      {
        assert e == id && Agree(st.configs, Source(st, id, kind), kind);
        MergeAgrees(st.configs, own, Source(st, id, kind), n, kind);
      }
    }
  }

  /** Nothing but the store's bookkeeping changes, and whoever is at work was so before. */
  lemma SameKeepsStep(st: State, r: State)
    requires InStep(st) && r.configs == st.configs && r.store.data.values == st.store.data.values
    requires forall id :: Store.Enabled(r.store, id) ==>
      && Store.Enabled(st.store, id) && r.store.inFlight[id] == st.store.inFlight[id]
      && StageOf(r, id) == StageOf(st, id)
    requires AtRest(r) ==> AtRest(st)
    ensures InStep(r)
  {
    hide Agree;
    forall id, kind | Store.Enabled(r.store, id)
      ensures Agree(r.configs, Source(r, id, kind), kind)
    {
      assert Agree(st.configs, Source(st, id, kind), kind);
    }
  }

  lemma PrepKeepsStep(st: State, r: State, id: nat)
    requires InStep(st) && AtRest(st) && r.configs == st.configs && r.store.data.values == st.store.data.values
    requires forall e :: Store.Enabled(r.store, e) ==> e == id
    requires Store.Enabled(r.store, id) && StageOf(r, id) == 0
    ensures InStep(r)
  {
    hide Agree;
    assert AllAgree(st);
  }

  /** An update leaves at stage 0, or is installed after its last merge. */
  lemma LeavingKeepsStep(st: State, r: State, id: nat)
    requires InStep(st) && Store.Enabled(st.store, id) && AtRest(r) && r.configs == st.configs
    requires if StageOf(st, id) == 0 then r.store.data.values == st.store.data.values
             else StageOf(st, id) >= STAGES && r.store.data.values == st.store.inFlight[id].next
    ensures InStep(r)
  {
    hide Agree;
    forall kind
      ensures Agree(r.configs, r.store.data.values.fields, kind)
    {
      StageBelow(kind);
      assert Agree(st.configs, Source(st, id, kind), kind);
    }
  }

  lemma StoreKeepsStep(dec: Decoders, st: State, s: Store.Step)
    requires InStep(st) && Store.OneInFlight(st.store) && Quiet(st, StoreDoes(s))
    requires Store.OneInFlight(Next(dec, st, StoreDoes(s)).store)
    ensures InStep(Next(dec, st, StoreDoes(s)))
  {
    hide InStep, Prep;
    var r := Next(dec, st, StoreDoes(s));
    match s
    case PrepStep(id, u) =>
      if id !in st.store.inFlight && id in r.store.inFlight {
        assert forall e :: e in st.store.inFlight ==> e in r.store.inFlight;
        assert st.store.inFlight.Keys == {};
        PrepKeepsStep(st, r, id);
      } else {
        SameKeepsStep(st, r);
      }
    case ApplyStep(id, now) =>
      if Store.Enabled(st.store, id) && !Merging(st, id) {
        assert r.store.inFlight.Keys == st.store.inFlight.Keys;
        LeavingKeepsStep(st, r, id);
      } else {
        SameKeepsStep(st, r);
      }
    case NotifyStep(id) =>
      SameKeepsStep(st, r);
    case AbandonStep(id) =>
      if Store.Enabled(st.store, id) {
        assert forall e :: e in st.store.inFlight ==> e == id;
        LeavingKeepsStep(st, r, id);
      } else {
        SameKeepsStep(st, r);
      }
    case SetSourceStep(source) =>
      SameKeepsStep(st, r);
  }

  /**
    A run with at most one update in flight, its locks acquired and none given up half way: whenever no update
    is being made, the configs hold everything the installed values say.
   */
  lemma {:induction false} OneUpdaterConfigsAgree(dec: Decoders, st: State, steps: seq<Step>)
    requires InStep(st)
    requires forall k :: 0 <= k <= |steps| ==> Store.OneInFlight(At(dec, st, steps, k).store)
    requires forall k :: 0 <= k < |steps| ==> Quiet(At(dec, st, steps, k), steps[k])
    ensures var r := Run(dec, st, steps);
            && InStep(r)
            && (AtRest(r) ==>
                  forall kind, key :: Asked(r.store.data.values.fields, kind, key).Some? ==>
                    Current(r.configs, kind, key) == Asked(r.store.data.values.fields, kind, key))
  {
    hide InStep, AtRest, Store.OneInFlight, Quiet, Next, Asked, Current;
    if steps != [] {
      var n := |steps| - 1;
      var front := steps[..n];
      forall k | 0 <= k <= n
        ensures Store.OneInFlight(At(dec, st, front, k).store)
        ensures k < n ==> Quiet(At(dec, st, front, k), front[k])
      {
        assert front[..k] == steps[..k];
        assert Store.OneInFlight(At(dec, st, steps, k).store);
        assert k < n ==> Quiet(At(dec, st, steps, k), steps[k]);
      }
      OneUpdaterConfigsAgree(dec, st, front);
      assert steps[..n + 1] == steps && Store.OneInFlight(At(dec, st, steps, n).store);
      assert Store.OneInFlight(At(dec, st, steps, n + 1).store) && Quiet(At(dec, st, steps, n), steps[n]);
      StepKeepsStep(dec, Run(dec, st, front), steps[n]);
    }
    if AtRest(Run(dec, st, steps)) {
      InStepAtRest(Run(dec, st, steps));
    }
  }

  lemma StepKeepsStep(dec: Decoders, st: State, step: Step)
    requires InStep(st) && Store.OneInFlight(st.store) && Quiet(st, step)
    requires Store.OneInFlight(Next(dec, st, step).store)
    ensures InStep(Next(dec, st, step))
  {
    hide InStep, Store.OneInFlight, Next;
    match step
    case MergeStep(id, locked) => MergeKeepsStep(dec, st, id);
    case StoreDoes(s) => StoreKeepsStep(dec, st, s);
  }

  lemma InStepAtRest(st: State)
    requires InStep(st) && AtRest(st)
    ensures forall kind, key :: Asked(st.store.data.values.fields, kind, key).Some? ==>
              Current(st.configs, kind, key) == Asked(st.store.data.values.fields, kind, key)
  {
    hide Asked, Current, AtRest;
    forall kind, key | Asked(st.store.data.values.fields, kind, key).Some?
      ensures Current(st.configs, kind, key) == Asked(st.store.data.values.fields, kind, key)
    {
      assert Agree(st.configs, st.store.data.values.fields, kind);
    }
  }

  // ---- Uninterrupted merges, and two runs ----

  lemma {:induction false} RunAppend(dec: Decoders, st: State, a: seq<Step>, b: seq<Step>)
    ensures Run(dec, st, a + b) == Run(dec, Run(dec, st, a), b)
  {
    hide Next;
    if b == [] {
      assert a + b == a;
    } else {
      RunAppend(dec, st, a, b[..|b| - 1]);
      assert (a + b)[..|a + b| - 1] == a + b[..|b| - 1];
    }
  }

  lemma RunOne(dec: Decoders, st: State, step: Step)
    ensures Run(dec, st, [step]) == Next(dec, st, step)
  {
    assert [step][..0] == [];
  }

  function ThreeMerges(id: nat, locks: ConfigLocks): (steps: seq<Step>) {
    [MergeStep(id, locks.diagnostics)] + [MergeStep(id, locks.sdkConfigs)] + [MergeStep(id, locks.sdkFlags)]
  }

  lemma MergeThrice(c: Configs, f: ConfigFields, locks: ConfigLocks)
    ensures Merge(Merge(Merge(c, FieldAt(f, 0, locks.diagnostics)), FieldAt(f, 1, locks.sdkConfigs)),
                  FieldAt(f, 2, locks.sdkFlags))
            == Merge(c, Granted(f, locks))
  {
    EmptyMerges();
  }

  /** The three merges of an update that nothing interrupts do what GlobalConfigs.Update does. */
  lemma MergesAreTheUpdate(dec: Decoders, st: State, id: nat, locks: ConfigLocks)
    requires Store.Enabled(st.store, id) && StageOf(st, id) == 0
    ensures var next := st.store.inFlight[id].next;
            Run(dec, st, ThreeMerges(id, locks)) ==
            State(st.store, Merge(st.configs, Granted(next.fields, locks)), st.stages[id := STAGES])
  {
    hide Merge, FieldAt, Run, Granted;
    var a, b, c := MergeStep(id, locks.diagnostics), MergeStep(id, locks.sdkConfigs), MergeStep(id, locks.sdkFlags);
    RunAppend(dec, st, [a] + [b], [c]);
    RunAppend(dec, st, [a], [b]);
    RunOne(dec, st, a);
    RunOne(dec, Next(dec, st, a), b);
    RunOne(dec, Next(dec, Next(dec, st, a), b), c);
    MergeThrice(st.configs, st.store.inFlight[id].next.fields, locks);
    assert st.stages[id := 1][id := 2][id := 3] == st.stages[id := 3];
  }

  /** Decoders for the two runs below: the time is the length of the body, and a flag says whether it is 2. */
  function Lengths(): (dec: Decoders) {
    Decoders(
      body => Ok(Specs(|body|, None, true, ConfigFields(None, None, Some(map["flag" := |body| == 2])), "")),
      (current, body) => Err(LockFailure),
      body => Err(LockFailure))
  }

  function UpdateOf(body: Bytes): (u: SpecsUpdate) {
    SpecsUpdate(ResponseData(map[], body), Network, None)
  }

  const ALL := ConfigLocks(true, true, true)

  /** A prep of such an update on a store without values. */
  lemma PrepOfLength(st: State, id: nat, body: Bytes)
    requires st.store.data == InitialData() && id !in st.store.inFlight
    ensures var r := Next(Lengths(), st, StoreDoes(Store.PrepStep(id, UpdateOf(body))));
            var next := Specs(|body|, None, true, ConfigFields(None, None, Some(map["flag" := |body| == 2])), "");
            && r == State(Store.State(st.store.data, st.store.inFlight[id := Store.Prepped(UpdateOf(body), next)]),
                          st.configs, st.stages[id := 0])
  {
  }

  lemma FlagMerged(c: Configs, on: bool)
    ensures Current(Merge(c, Granted(ConfigFields(None, None, Some(map["flag" := on])), ALL)), SdkFlags, "flag")
            == Some(FlagIs(on))
  {
  }

  /** An update that merges and then fails to get the write lock leaves its configs behind: nothing is installed. */
  lemma GivenUpConfigsStay()
    ensures var r := Run(Lengths(), Initial(InitialData(), DefaultConfigs()),
                         [StoreDoes(Store.PrepStep(0, UpdateOf([0, 0])))] + ThreeMerges(0, ALL)
                         + [StoreDoes(Store.AbandonStep(0))]);
            && r.store == Store.State(InitialData(), map[])
            && Current(r.configs, SdkFlags, "flag") == Some(FlagIs(true))
  {
    hide Run, Merge, Granted, Current, ThreeMerges, Lengths, DefaultConfigs;
    var dec, st := Lengths(), Initial(InitialData(), DefaultConfigs());
    var prep, drop := StoreDoes(Store.PrepStep(0, UpdateOf([0, 0]))), StoreDoes(Store.AbandonStep(0));
    RunAppend(dec, st, [prep] + ThreeMerges(0, ALL), [drop]);
    RunAppend(dec, st, [prep], ThreeMerges(0, ALL));
    RunOne(dec, st, prep);
    PrepOfLength(st, 0, [0, 0]);
    var prepped := Next(dec, st, prep);
    MergesAreTheUpdate(dec, prepped, 0, ALL);
    RunOne(dec, Run(dec, prepped, ThreeMerges(0, ALL)), drop);
    FlagMerged(st.configs, true);
    assert prepped.store.inFlight - {0} == map[];
  }

  /** Two updaters: the values of one are installed under the configs of the other. */
  lemma ConfigsOfTheOtherStay()
    ensures var r := Run(Lengths(), Initial(InitialData(), DefaultConfigs()),
                         [StoreDoes(Store.PrepStep(0, UpdateOf([0])))]
                         + [StoreDoes(Store.PrepStep(1, UpdateOf([0, 0])))]
                         + ThreeMerges(0, ALL) + ThreeMerges(1, ALL)
                         + [StoreDoes(Store.ApplyStep(1, 0))] + [StoreDoes(Store.ApplyStep(0, 0))]);
            && Asked(r.store.data.values.fields, SdkFlags, "flag") == Some(FlagIs(false))
            && Current(r.configs, SdkFlags, "flag") == Some(FlagIs(true))
  {
    hide Run, Merge, Granted, Current, ThreeMerges, Lengths, DefaultConfigs, Prep;
    var dec, st := Lengths(), Initial(InitialData(), DefaultConfigs());
    var a, b := StoreDoes(Store.PrepStep(0, UpdateOf([0]))), StoreDoes(Store.PrepStep(1, UpdateOf([0, 0])));
    var x, y := StoreDoes(Store.ApplyStep(1, 0)), StoreDoes(Store.ApplyStep(0, 0));
    RunAppend(dec, st, [a] + [b] + ThreeMerges(0, ALL) + ThreeMerges(1, ALL) + [x], [y]);
    RunAppend(dec, st, [a] + [b] + ThreeMerges(0, ALL) + ThreeMerges(1, ALL), [x]);
    RunAppend(dec, st, [a] + [b] + ThreeMerges(0, ALL), ThreeMerges(1, ALL));
    RunAppend(dec, st, [a] + [b], ThreeMerges(0, ALL));
    RunAppend(dec, st, [a], [b]);
    RunOne(dec, st, a);
    PrepOfLength(st, 0, [0]);
    var one := Next(dec, st, a);
    RunOne(dec, one, b);
    PrepOfLength(one, 1, [0, 0]);
    var two := Next(dec, one, b);
    MergesAreTheUpdate(dec, two, 0, ALL);
    var three := Run(dec, two, ThreeMerges(0, ALL));
    MergesAreTheUpdate(dec, three, 1, ALL);
    var four := Run(dec, three, ThreeMerges(1, ALL));
    FlagMerged(three.configs, true);
    RunOne(dec, four, x);
    RunOne(dec, Next(dec, four, x), y);
  }

  // ---- Uninterrupted calls ----

  /** All steps of one update; those that do not apply to it are not enabled. */
  function WholeUpdate(id: nat, u: SpecsUpdate, locks: ConfigLocks, now: nat): (steps: seq<Step>) {
    [StoreDoes(Store.PrepStep(id, u))] + ThreeMerges(id, locks) + [StoreDoes(Store.ApplyStep(id, now))]
    + [StoreDoes(Store.NotifyStep(id))]
  }

  lemma RunOfWholeUpdate(dec: Decoders, st: State, id: nat, u: SpecsUpdate, locks: ConfigLocks, now: nat)
    ensures var merged := Run(dec, Next(dec, st, StoreDoes(Store.PrepStep(id, u))), ThreeMerges(id, locks));
            Run(dec, st, WholeUpdate(id, u, locks, now)) ==
            Next(dec, Next(dec, merged, StoreDoes(Store.ApplyStep(id, now))), StoreDoes(Store.NotifyStep(id)))
  {
    hide Run, Next, ThreeMerges;
    var a, m := StoreDoes(Store.PrepStep(id, u)), ThreeMerges(id, locks);
    var x, y := StoreDoes(Store.ApplyStep(id, now)), StoreDoes(Store.NotifyStep(id));
    RunAppend(dec, st, [a] + m + [x], [y]);
    RunAppend(dec, st, [a] + m, [x]);
    RunAppend(dec, st, [a], m);
    RunOne(dec, st, a);
    var merged := Run(dec, Next(dec, st, a), m);
    RunOne(dec, merged, x);
    RunOne(dec, Next(dec, merged, x), y);
  }

  /** Without an update under way the merges do nothing. */
  lemma IdleMerges(dec: Decoders, st: State, id: nat, locks: ConfigLocks)
    requires !Store.Enabled(st.store, id)
    ensures Run(dec, st, ThreeMerges(id, locks)) == st
  {
    hide Run;
    var a, b, c := MergeStep(id, locks.diagnostics), MergeStep(id, locks.sdkConfigs), MergeStep(id, locks.sdkFlags);
    RunAppend(dec, st, [a] + [b], [c]);
    RunAppend(dec, st, [a], [b]);
    RunOne(dec, st, a);
    RunOne(dec, st, b);
    RunOne(dec, st, c);
  }

  /** The steps of one update that nothing interrupts do what set_values does to the store and to the configs. */
  lemma WholeUpdateIsSetValues(
    setup: Serial.Setup, st: State, id: nat, u: SpecsUpdate, locks: ConfigLocks, now: nat)
    requires id !in st.store.inFlight
    ensures var r := Run(setup.dec, st, WholeUpdate(id, u, locks, now));
            var serial := Serial.AfterSetValues(setup, Serial.State(st.store.data, st.configs, []), u,
                                                Serial.Env(true, locks, true, true, now));
            && r.store == Store.State(serial.data, st.store.inFlight) && r.configs == serial.configs
  {
    hide Run, WholeUpdate, ThreeMerges, Merge, Granted, Prep, Serial.Spawned;
    RunOfWholeUpdate(setup.dec, st, id, u, locks, now);
    var prepped := Next(setup.dec, st, StoreDoes(Store.PrepStep(id, u)));
    if Store.Enabled(prepped.store, id) {
      MergesAreTheUpdate(setup.dec, prepped, id, locks);
      assert st.store.inFlight[id := Store.Applied(u)] - {id} == st.store.inFlight;
    } else {
      IdleMerges(setup.dec, prepped, id, locks);
    }
  }

  /** Setting the source is one step, and does what set_source does. */
  lemma SetSourceIsItsStep(setup: Serial.Setup, st: State, source: SpecsSource)
    ensures var r := Next(setup.dec, st, StoreDoes(Store.SetSourceStep(source)));
            && r.store.data ==
               Serial.Step(setup, Serial.State(st.store.data, st.configs, []), Serial.SetSource(source, true)).data
            && r.store.data.source == source && r.store.inFlight == st.store.inFlight && r.configs == st.configs
  {
  }
}
