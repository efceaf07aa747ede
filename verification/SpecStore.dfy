/**
  The spec store as an object, its updates run one after another. Whether each lock is acquired in time
  and the clock are parameters of a call. The store's methods are proved against functions on its state,
  and the invariants of whole runs are proved about those.
 */
module SpecStore {
  import opened Wrappers
  import opened GlobalConfigs
  import opened CacheKeys
  import opened SpecUpdates

  /** Outside influence on one call: which locks were acquired, and the time. */
  datatype Env = Env(prepLock: bool, configLocks: ConfigLocks, applyLock: bool, notifyLock: bool, now: nat)

  /** What never changes during a run. */
  datatype Setup = Setup(dec: Decoders, keys: DataStoreCacheKeys, hasStore: bool)

  datatype State = State(data: StoreData, configs: Configs, tasks: seq<WriteTask>)

  function Initial(): (st: State) {
    State(InitialData(), DefaultConfigs(), [])
  }

  /** The values an update would install, when prep runs and lets it through. */
  function Accepted(setup: Setup, st: State, u: SpecsUpdate, env: Env): (r: Option<Specs>) {
    if !env.prepLock then None
    else
      match Prep(setup.dec, st.data.values, u)
      case Ok(HasUpdates(next, _)) => Some(next)
      case _ => None
  }

  function Spawned(setup: Setup, u: SpecsUpdate, env: Env): (ts: seq<WriteTask>) {
    match TaskFor(setup.keys, setup.hasStore, u, env.now)
    case None => []
    case Some(t) => [t]
  }

  /** set_values on the state: global configs change before the write lock is taken. */
  function AfterSetValues(setup: Setup, st: State, u: SpecsUpdate, env: Env): (r: State) {
    match Accepted(setup, st, u, env)
    case None => st
    case Some(next) =>
      var configs := Merge(st.configs, Granted(next.fields, env.configLocks));
      if !env.applyLock then st.(configs := configs)
      else if !env.notifyLock then State(Apply(next, u, env.now), configs, st.tasks)
      else State(Apply(next, u, env.now), configs, st.tasks + Spawned(setup, u, env))
  }

  function ResultOfSetValues(setup: Setup, st: State, u: SpecsUpdate, env: Env): (r: Result<(), StatsigErr>) {
    if !env.prepLock then Err(LockFailure)
    else
      match Prep(setup.dec, st.data.values, u)
      case Err(e) => Err(e)
      case Ok(NoUpdates) => Ok(())
      case Ok(CurrentValuesNewer) => Ok(())
      case Ok(HasUpdates(_, _)) => if env.applyLock && env.notifyLock then Ok(()) else Err(LockFailure)
  }

  class SpecStore {
    var source: SpecsSource
    var sourceApi: Option<string>
    var timeReceivedAt: Option<nat>
    var values: Specs
    const globalConfigs: GlobalConfigs

    /** Data-store writes handed to the runtime, in spawning order. */
    var tasks: seq<WriteTask>

    constructor ()
      ensures View() == Initial() && fresh(globalConfigs)
    {
      source, sourceApi, timeReceivedAt, values := Uninitialized, None, None, DefaultSpecs();
      tasks := [];
      globalConfigs := new GlobalConfigs();
    }

    ghost function View(): (st: State)
      reads this, globalConfigs
    {
      State(StoreData(source, sourceApi, timeReceivedAt, values), globalConfigs.View(), tasks)
    }

    method SetSource(newSource: SpecsSource, locked: bool)
      modifies this`source
      ensures source == if locked then newSource else old(source)
    {
      if locked {
        source := newSource;
      }
    }

    /** First a full deserialization, then, failing that, the no-update form. */
    method SpecsUpdatePrep(dec: Decoders, u: SpecsUpdate) returns (r: Result<PrepResult, StatsigErr>)
      ensures r == Prep(dec, values, u)
    {
      var format := ResponseFormat(u.data);
      var first := Deserialize(dec, values, u.data);
      var firstError: Option<StatsigErr> := None;
      if first.Ok? {
        if CurrentValuesAreNewer(values, first.value) {
          return Ok(CurrentValuesNewer);
        }
        if first.value.hasUpdates {
          return Ok(HasUpdates(first.value, format));
        }
      } else {
        firstError := Some(first.error);
      }
      var second := dec.noUpdates(u.data.body);
      if second.Ok? && !second.value {
        return Ok(NoUpdates);
      }
      if firstError.Some? {
        r := Err(firstError.value);
      } else if second.Err? {
        r := Err(second.error);
      } else {
        r := Err(ParseError("Unknown error"));
      }
    }

    method SpecsUpdateApply(next: Specs, u: SpecsUpdate, env: Env) returns (ok: bool)
      modifies this`source, this`sourceApi, this`timeReceivedAt, this`values, globalConfigs
      ensures ok == env.applyLock
      ensures globalConfigs.View() == Merge(old(globalConfigs.View()), Granted(next.fields, env.configLocks))
      ensures StoreData(source, sourceApi, timeReceivedAt, values) ==
              if ok then Apply(next, u, env.now) else old(StoreData(source, sourceApi, timeReceivedAt, values))
    {
      globalConfigs.Update(next.fields, env.configLocks);
      if !env.applyLock {
        return false;
      }
      source := u.source;
      values := next;
      timeReceivedAt := Some(env.now);
      sourceApi := u.sourceApi;
      ok := true;
    }

    method SpecsUpdateNotify(setup: Setup, u: SpecsUpdate, env: Env) returns (ok: bool)
      modifies this`tasks
      ensures ok == env.notifyLock
      ensures tasks == if ok then old(tasks) + Spawned(setup, u, env) else old(tasks)
    {
      if !env.notifyLock {
        return false;
      }
      var task := TaskFor(setup.keys, setup.hasStore, u, env.now);
      if task.Some? {
        tasks := tasks + [task.value];
      }
      ok := true;
    }

    method SetValues(setup: Setup, u: SpecsUpdate, env: Env) returns (r: Result<(), StatsigErr>)
      modifies this, globalConfigs
      ensures View() == AfterSetValues(setup, old(View()), u, env)
      ensures r == ResultOfSetValues(setup, old(View()), u, env)
    {
      if !env.prepLock {
        return Err(LockFailure);
      }
      var prep := SpecsUpdatePrep(setup.dec, u);
      if prep.Err? {
        return Err(prep.error);
      }
      if !prep.value.HasUpdates? {
        return Ok(());
      }
      var applied := SpecsUpdateApply(prep.value.next, u, env);
      if !applied {
        return Err(LockFailure);
      }
      var notified := SpecsUpdateNotify(setup, u, env);
      r := if notified then Ok(()) else Err(LockFailure);
    }
  }

  // ---- Runs ----

  datatype Call = SetValues(u: SpecsUpdate, env: Env) | SetSource(source: SpecsSource, locked: bool)

  function Step(setup: Setup, st: State, call: Call): (r: State) {
    match call
    case SetValues(u, env) => AfterSetValues(setup, st, u, env)
    case SetSource(source, locked) => if locked then st.(data := st.data.(source := source)) else st
  }

  function Run(setup: Setup, st: State, calls: seq<Call>): (r: State) {
    if calls == [] then st else Step(setup, Run(setup, st, calls[..|calls| - 1]), calls[|calls| - 1])
  }

  /** is_config_spec_ready: a specs info with a non-zero time; without the read lock there is none. */
  predicate IsReady(st: State, locked: bool) {
    locked && st.data.values.time != 0
  }

  /** The readiness an initialization reports: never after a timeout, otherwise that of the store. */
  predicate ReportsReady(st: State, locked: bool, timedOut: bool) {
    !timedOut && IsReady(st, locked)
  }

  /** One call never takes the store back in time, whatever locks fail, and replaces all four fields or none. */
  lemma SetValuesAllOrNothing(setup: Setup, st: State, u: SpecsUpdate, env: Env)
    ensures var r := AfterSetValues(setup, st, u, env);
            && r.data.values.time >= st.data.values.time
            && (r.data == st.data ||
                exists next :: Accepted(setup, st, u, env) == Some(next) && r.data == Apply(next, u, env.now))
            && (Accepted(setup, st, u, env).Some? && env.applyLock ==>
                  r.data.values == Accepted(setup, st, u, env).value)
  {
    if Accepted(setup, st, u, env).Some? {
      PrepNeverGoesBack(setup.dec, st.data.values, u);
    }
  }

  /** Over any serial run the store's time never decreases. */
  lemma {:induction false} TimeNeverDecreases(setup: Setup, st: State, calls: seq<Call>, n: nat)
    requires n <= |calls|
    ensures Run(setup, st, calls[..n]).data.values.time <= Run(setup, st, calls).data.values.time
    decreases |calls|
  {
    if n == |calls| {
      assert calls[..n] == calls;
    } else {
      var front, last := calls[..|calls| - 1], calls[|calls| - 1];
      TimeNeverDecreases(setup, st, front, n);
      assert front[..n] == calls[..n];
      if last.SetValues? {
        SetValuesAllOrNothing(setup, Run(setup, st, front), last.u, last.env);
      }
    }
  }

  /** So once reported, readiness is reported by exactly those that get the read lock and do not time out. */
  lemma ReadinessStays(
    setup: Setup, st: State, calls: seq<Call>, n: nat, locked: bool, timedOut: bool, locked': bool, timedOut': bool)
    requires n <= |calls| && ReportsReady(Run(setup, st, calls[..n]), locked, timedOut)
    ensures ReportsReady(Run(setup, st, calls), locked', timedOut') <==> locked' && !timedOut'
  {
    TimeNeverDecreases(setup, st, calls, n);
  }

  /** The fields one call contributes: those of an accepted update that got their locks. */
  function Contributed(setup: Setup, st: State, call: Call): (fs: seq<ConfigFields>) {
    if call.SetSource? || Accepted(setup, st, call.u, call.env).None? then []
    else [Granted(Accepted(setup, st, call.u, call.env).value.fields, call.env.configLocks)]
  }

  /** All fields contributed during a run, in order. */
  function AcceptedFields(setup: Setup, st: State, calls: seq<Call>): (fs: seq<ConfigFields>) {
    if calls == [] then []
    else
      var front, last := calls[..|calls| - 1], calls[|calls| - 1];
      AcceptedFields(setup, st, front) + Contributed(setup, Run(setup, st, front), last)
  }

  lemma StepMerges(setup: Setup, st: State, call: Call)
    ensures var fs := Contributed(setup, st, call);
            && |fs| <= 1
            && Step(setup, st, call).configs == if fs == [] then st.configs else Merge(st.configs, fs[0])
  {
    hide Merge, Granted, Prep, Apply, Spawned;
  }

  lemma MergeOneMore(c: Configs, fs: seq<ConfigFields>, more: seq<ConfigFields>)
    requires |more| <= 1
    ensures MergeAll(c, fs + more) == if more == [] then MergeAll(c, fs) else Merge(MergeAll(c, fs), more[0])
  {
    hide Merge;
    if more == [] {
      assert fs + more == fs;
    } else {
      assert (fs + more)[..|fs|] == fs;
    }
  }

  /** Global configs are the start merged with every accepted update's fields, and with nothing else. */
  lemma {:induction false} ConfigsAreMerged(setup: Setup, st: State, calls: seq<Call>)
    ensures Run(setup, st, calls).configs == MergeAll(st.configs, AcceptedFields(setup, st, calls))
  {
    hide Merge, Step, Contributed;
    if calls != [] {
      var front, last := calls[..|calls| - 1], calls[|calls| - 1];
      ConfigsAreMerged(setup, st, front);
      StepMerges(setup, Run(setup, st, front), last);
      MergeOneMore(st.configs, AcceptedFields(setup, st, front), Contributed(setup, Run(setup, st, front), last));
    }
  }

  /** Hence in every run from the start: rates in range, default keys never lost. */
  lemma ConfigsStayInRange(setup: Setup, calls: seq<Call>)
    ensures RatesInRange(Run(setup, Initial(), calls).configs)
    ensures DefaultConfigs().rates.Keys <= Run(setup, Initial(), calls).configs.rates.Keys
  {
    hide Run, DefaultConfigs, AcceptedFields, RatesInRange;
    DefaultsInRange();
    ConfigsAreMerged(setup, Initial(), calls);
    MergesKeepKeysAndRange(DefaultConfigs(), AcceptedFields(setup, Initial(), calls));
  }

  /** No key of the three maps ever disappears. */
  lemma {:induction false} KeysNeverDisappear(setup: Setup, st: State, calls: seq<Call>, n: nat)
    requires n <= |calls|
    ensures var before, after := Run(setup, st, calls[..n]).configs, Run(setup, st, calls).configs;
            && before.sdkConfigs.Keys <= after.sdkConfigs.Keys
            && before.sdkFlags.Keys <= after.sdkFlags.Keys
            && before.rates.Keys <= after.rates.Keys
    decreases |calls|
  {
    if n == |calls| {
      assert calls[..n] == calls;
    } else {
      var front, last := calls[..|calls| - 1], calls[|calls| - 1];
      KeysNeverDisappear(setup, st, front, n);
      assert front[..n] == calls[..n];
      StepKeepsKeys(setup, Run(setup, st, front), last);
    }
  }

  lemma StepKeepsKeys(setup: Setup, st: State, call: Call)
    ensures var r := Step(setup, st, call).configs;
            && st.configs.sdkConfigs.Keys <= r.sdkConfigs.Keys
            && st.configs.sdkFlags.Keys <= r.sdkFlags.Keys
            && st.configs.rates.Keys <= r.rates.Keys
  {
  }

  /** Why a write was spawned: a fully applied network update that is no delta, in the format of its key. */
  ghost predicate SpawnedBy(setup: Setup, st: State, calls: seq<Call>, i: nat, t: WriteTask) {
    && i < |calls| && calls[i].SetValues?
    && var u, env := calls[i].u, calls[i].env;
       && Accepted(setup, Run(setup, st, calls[..i]), u, env).Some? && env.applyLock && env.notifyLock
       && TaskFor(setup.keys, setup.hasStore, u, env.now) == Some(t)
  }

  /** Every data-store write of a run comes from one of its accepted updates. */
  lemma {:induction false} TasksComeFromAcceptedUpdates(setup: Setup, calls: seq<Call>, t: WriteTask)
    requires t in Run(setup, Initial(), calls).tasks
    ensures exists i: nat :: SpawnedBy(setup, Initial(), calls, i, t)
  {
    var n := |calls| - 1;
    var front := calls[..n];
    if t in Run(setup, Initial(), front).tasks {
      TasksComeFromAcceptedUpdates(setup, front, t);
      var i: nat :| SpawnedBy(setup, Initial(), front, i, t);
      assert front[..i] == calls[..i];
      assert SpawnedBy(setup, Initial(), calls, i, t);
    } else {
      assert SpawnedBy(setup, Initial(), calls, n, t);
    }
  }

  // ---- What must happen ----

  lemma RunSnoc(setup: Setup, st: State, calls: seq<Call>, call: Call)
    ensures Run(setup, st, calls + [call]) == Step(setup, Run(setup, st, calls), call)
  {
    assert (calls + [call])[..|calls|] == calls;
  }

  /** The write an update asks for: the body under the key of its format, at the time of the apply. */
  function Write(setup: Setup, u: SpecsUpdate, now: nat): (ts: seq<WriteTask>) {
    if u.source != Network || "x-deltas-used" in u.data.headers || !setup.hasStore then []
    else if ResponseFormat(u.data) == Protobuf then [WriteTask(setup.keys.statsigBr, u.data.body, now, true)]
    else [WriteTask(setup.keys.plainText, u.data.body, now, false)]
  }

  lemma SpawnedIsWrite(setup: Setup, u: SpecsUpdate, env: Env)
    ensures Spawned(setup, u, env) == Write(setup, u, env.now)
  {
    hide ResponseFormat;
  }

  /**
    At any point of a run, an update that deserializes to values which say they are an update, are no older
    and have another checksum is let through if prep gets its lock: its configs are merged as far as their
    locks allow, it is installed if the write lock is acquired, and its write is spawned if the last lock is,
    too. Any other update changes nothing.
   */
  lemma FreshUpdatesAreInstalled(setup: Setup, st: State, calls: seq<Call>, u: SpecsUpdate, env: Env)
    ensures var before, after := Run(setup, st, calls), Run(setup, st, calls + [SetValues(u, env)]);
            var current, first := before.data.values, First(setup.dec, before.data.values, u);
            if env.prepLock && first.Ok? && first.value.hasUpdates
               && (current.time == 0 || first.value.time >= current.time)
               && (current.checksum == None || current.checksum == Some("") || first.value.checksum != current.checksum)
            then
              && after.configs == Merge(before.configs, Granted(first.value.fields, env.configLocks))
              && after.data == (if env.applyLock then StoreData(u.source, u.sourceApi, Some(env.now), first.value)
                                else before.data)
              && after.tasks ==
                 before.tasks + (if env.applyLock && env.notifyLock then Write(setup, u, env.now) else [])
              && ResultOfSetValues(setup, before, u, env)
                 == (if env.applyLock && env.notifyLock then Ok(()) else Err(LockFailure))
            else after == before
  {
    hide Prep, First, Merge, Granted, Run, Spawned, Write;
    var before := Run(setup, st, calls);
    RunSnoc(setup, st, calls, SetValues(u, env));
    SpawnedIsWrite(setup, u, env);
    if First(setup.dec, before.data.values, u).Ok? {
      LetThroughExactly(setup.dec, before.data.values, u, First(setup.dec, before.data.values, u).value);
    }
    if Accepted(setup, before, u, env).Some? {
      PrepNeverGoesBack(setup.dec, before.data.values, u);
      LetThroughExactly(setup.dec, before.data.values, u, Accepted(setup, before, u, env).value);
    }
  }

  /** Setting the source under the lock changes the source and nothing else; without the lock nothing. */
  lemma SourceIsSet(setup: Setup, st: State, calls: seq<Call>, source: SpecsSource, locked: bool)
    ensures var before, after := Run(setup, st, calls), Run(setup, st, calls + [SetSource(source, locked)]);
            && after.data.source == (if locked then source else before.data.source)
            && after.data.values == before.data.values && after.data.sourceApi == before.data.sourceApi
            && after.data.timeReceivedAt == before.data.timeReceivedAt
            && after.configs == before.configs && after.tasks == before.tasks
  {
    RunSnoc(setup, st, calls, SetSource(source, locked));
  }

  /** A call fails exactly when a lock it needs is not acquired or neither deserialization succeeds. */
  lemma FailsExactly(setup: Setup, st: State, u: SpecsUpdate, env: Env)
    ensures ResultOfSetValues(setup, st, u, env).Err? <==>
            || !env.prepLock
            || Prep(setup.dec, st.data.values, u).Err?
            || (Prep(setup.dec, st.data.values, u).value.HasUpdates? && (!env.applyLock || !env.notifyLock))
  {
    hide Prep;
  }

  /** Call i of a run installs values of a time other than zero. */
  ghost predicate InstallsAt(setup: Setup, calls: seq<Call>, i: nat) {
    && i < |calls| && calls[i].SetValues? && calls[i].env.applyLock
    && var next := Accepted(setup, Run(setup, Initial(), calls[..i]), calls[i].u, calls[i].env);
       next.Some? && next.value.time != 0
  }

  /** The store is ready exactly when the read lock is acquired and such values were installed before. */
  lemma {:induction false} ReadyExactlyAfterInstall(setup: Setup, calls: seq<Call>, locked: bool, timedOut: bool)
    ensures ReportsReady(Run(setup, Initial(), calls), locked, timedOut) <==>
            locked && !timedOut && exists i :: InstallsAt(setup, calls, i)
    decreases |calls|
  {
    hide Prep, Merge, Spawned;
    if calls != [] {
      var n := |calls| - 1;
      var front, last := calls[..n], calls[n];
      ReadyExactlyAfterInstall(setup, front, true, false);
      var before := Run(setup, Initial(), front);
      if last.SetValues? {
        SetValuesAllOrNothing(setup, before, last.u, last.env);
      }
      if i: nat :| InstallsAt(setup, front, i) {
        assert front[..i] == calls[..i];
        assert InstallsAt(setup, calls, i);
      }
      if i: nat :| i < n && InstallsAt(setup, calls, i) {
        assert front[..i] == calls[..i];
        assert InstallsAt(setup, front, i);
      }
      assert InstallsAt(setup, calls, n) <==>
        last.SetValues? && last.env.applyLock && Accepted(setup, before, last.u, last.env).Some?
        && Accepted(setup, before, last.u, last.env).value.time != 0;
    }
  }

  /** Until an update names them, the four default sampling rates stand. */
  lemma DefaultRatesStand(setup: Setup, calls: seq<Call>, key: string)
    requires forall i :: 0 <= i < |AcceptedFields(setup, Initial(), calls)| ==>
      var f := AcceptedFields(setup, Initial(), calls)[i];
      key !in OrEmpty(f.sdkConfigs) && key !in OrEmpty(f.sdkFlags) && key !in OrEmpty(f.diagnostics)
    ensures var rates := Run(setup, Initial(), calls).configs.rates;
            && (key == "initialize" ==> key in rates && rates[key] == 10000.0)
            && (key == "config_sync" ==> key in rates && rates[key] == 1000.0)
            && (key == "dcs" ==> key in rates && rates[key] == 1000.0)
            && (key == "get_id_list" ==> key in rates && rates[key] == 100.0)
            && (key !in {"initialize", "config_sync", "dcs", "get_id_list"} ==> key !in rates)
  {
    hide Run, AcceptedFields, MergeAll, OrEmpty;
    ConfigsAreMerged(setup, Initial(), calls);
    UnnamedKeysKept(DefaultConfigs(), AcceptedFields(setup, Initial(), calls), key);
    DefaultRates(key);
  }

  lemma DefaultRates(key: string)
    ensures var rates := DefaultConfigs().rates;
            && (key == "initialize" ==> key in rates && rates[key] == 10000.0)
            && (key == "config_sync" ==> key in rates && rates[key] == 1000.0)
            && (key == "dcs" ==> key in rates && rates[key] == 1000.0)
            && (key == "get_id_list" ==> key in rates && rates[key] == 100.0)
            && (key !in {"initialize", "config_sync", "dcs", "get_id_list"} ==> key !in rates)
  {
    assert "initialize"[0] == 'i' && "config_sync"[0] == 'c' && "dcs"[0] == 'd' && "get_id_list"[0] == 'g';
  }
}
