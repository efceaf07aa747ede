/**
  The process-wide configuration an accepted specs update writes: SDK configs, SDK flags and diagnostics
  sampling rates, the rates clamped on the way in. f64 rates are modelled as real numbers.
 */
module GlobalConfigs {
  import opened Wrappers

  /** A dynamic config value, carried as its serialized text. */
  type DynamicValue = string

  const MAX_SAMPLING_RATE: real := 10000.0

  datatype Configs = Configs(
    sdkConfigs: map<string, DynamicValue>,
    sdkFlags: map<string, bool>,
    rates: map<string, real>)

  /** The three optional fields of a specs response that reach the global configs. */
  datatype ConfigFields = ConfigFields(
    diagnostics: Option<map<string, real>>,
    sdkConfigs: Option<map<string, DynamicValue>>,
    sdkFlags: Option<map<string, bool>>)

  function DefaultConfigs(): (c: Configs) {
    Configs(map[], map[],
            map["initialize" := 10000.0, "config_sync" := 1000.0, "dcs" := 1000.0, "get_id_list" := 100.0])
  }

  function Clamp(rate: real): (r: real)
    ensures 0.0 <= rate <= 10000.0 ==> r == rate
    ensures rate < 0.0 ==> r == 0.0
    ensures rate > 10000.0 ==> r == 10000.0
  {
    if rate < 0.0 then 0.0 else if rate > MAX_SAMPLING_RATE then MAX_SAMPLING_RATE else rate
  }

  function Clamped(m: map<string, real>): (r: map<string, real>) {
    map k | k in m :: Clamp(m[k])
  }

  function OrEmpty<V>(m: Option<map<string, V>>): (r: map<string, V>) {
    if m.None? then map[] else m.value
  }

  /** Each of the three merges takes the lock for itself: which of them were acquired in time. */
  datatype ConfigLocks = ConfigLocks(diagnostics: bool, sdkConfigs: bool, sdkFlags: bool)

  /** The fields whose lock was acquired; the others count as absent. */
  function Granted(f: ConfigFields, locks: ConfigLocks): (r: ConfigFields) {
    ConfigFields(
      if locks.diagnostics then f.diagnostics else None,
      if locks.sdkConfigs then f.sdkConfigs else None,
      if locks.sdkFlags then f.sdkFlags else None)
  }

  /** One update's fields merged over the current configs. */
  function Merge(c: Configs, f: ConfigFields): (r: Configs) {
    Configs(c.sdkConfigs + OrEmpty(f.sdkConfigs),
            c.sdkFlags + OrEmpty(f.sdkFlags),
            c.rates + Clamped(OrEmpty(f.diagnostics)))
  }

  function MergeAll(c: Configs, fs: seq<ConfigFields>): (r: Configs) {
    if fs == [] then c else Merge(MergeAll(c, fs[..|fs| - 1]), fs[|fs| - 1])
  }

  class GlobalConfigs {
    var sdkConfigs: map<string, DynamicValue>
    var sdkFlags: map<string, bool>
    var rates: map<string, real>

    constructor ()
      ensures View() == DefaultConfigs()
    {
      var d := DefaultConfigs();
      sdkConfigs, sdkFlags, rates := d.sdkConfigs, d.sdkFlags, d.rates;
    }

    ghost function View(): (c: Configs)
      reads this
    {
      Configs(sdkConfigs, sdkFlags, rates)
    }

    /** Insertion in whatever order the hash map is iterated; nothing happens when the lock times out. */
    method SetSdkConfigs(newConfigs: map<string, DynamicValue>, locked: bool)
      modifies this`sdkConfigs
      ensures sdkConfigs == if locked then old(sdkConfigs) + newConfigs else old(sdkConfigs)
    {
      if !locked {
        return;
      }
      var todo := newConfigs.Keys;
      while todo != {}
        invariant todo <= newConfigs.Keys
        invariant sdkConfigs == old(sdkConfigs) + (newConfigs - todo)
        decreases todo
      {
        var key :| key in todo;
        sdkConfigs := sdkConfigs[key := newConfigs[key]];
        todo := todo - {key};
      }
      assert newConfigs - todo == newConfigs;
    }

    method SetSdkFlags(newFlags: map<string, bool>, locked: bool)
      modifies this`sdkFlags
      ensures sdkFlags == if locked then old(sdkFlags) + newFlags else old(sdkFlags)
    {
      if !locked {
        return;
      }
      var todo := newFlags.Keys;
      while todo != {}
        invariant todo <= newFlags.Keys
        invariant sdkFlags == old(sdkFlags) + (newFlags - todo)
        decreases todo
      {
        var key :| key in todo;
        sdkFlags := sdkFlags[key := newFlags[key]];
        todo := todo - {key};
      }
      assert newFlags - todo == newFlags;
    }

    method SetDiagnosticsSamplingRates(newRates: map<string, real>, locked: bool)
      modifies this`rates
      ensures rates == if locked then old(rates) + Clamped(newRates) else old(rates)
    {
      if !locked {
        return;
      }
      var todo := newRates.Keys;
      assert newRates - todo == map[] && Clamped(map[]) == map[];
      hide Clamped, Clamp;
      while todo != {}
        invariant todo <= newRates.Keys
        invariant rates == old(rates) + Clamped(newRates - todo)
        decreases todo
      {
        var key :| key in todo;
        ClampedStep(newRates, todo, key);
        InsertLast(old(rates), Clamped(newRates - todo), key, Clamp(newRates[key]));
        rates := rates[key := Clamp(newRates[key])];
        todo := todo - {key};
      }
      assert newRates - todo == newRates;
    }

    /** try_update_global_configs: each field that is present and gets its lock is merged in. */
    method Update(f: ConfigFields, locks: ConfigLocks)
      modifies this
      ensures View() == Merge(old(View()), Granted(f, locks))
    {
      if f.diagnostics.Some? {
        SetDiagnosticsSamplingRates(f.diagnostics.value, locks.diagnostics);
      }
      if f.sdkConfigs.Some? {
        SetSdkConfigs(f.sdkConfigs.value, locks.sdkConfigs);
      }
      if f.sdkFlags.Some? {
        SetSdkFlags(f.sdkFlags.value, locks.sdkFlags);
      }
      EmptyMerges();
    }
  }

  lemma InsertLast<V>(a: map<string, V>, b: map<string, V>, k: string, v: V)
    ensures (a + b)[k := v] == a + b[k := v]
  {
  }

  lemma ClampedStep(m: map<string, real>, todo: set<string>, key: string)
    requires key in todo && key in m
    ensures Clamped(m - (todo - {key})) == Clamped(m - todo)[key := Clamp(m[key])]
  {
    hide Clamp;
  }

  lemma EmptyMerges()
    ensures forall m: map<string, DynamicValue> {:trigger m + map[]} :: m + map[] == m
    ensures forall m: map<string, bool> {:trigger m + map[]} :: m + map[] == m
    ensures forall m: map<string, real> {:trigger m + Clamped(map[])} :: m + Clamped(map[]) == m
  {
  }

  // ---- Over any number of merges ----

  ghost predicate RatesInRange(c: Configs) {
    forall k :: k in c.rates ==> 0.0 <= c.rates[k] <= 10000.0
  }

  lemma DefaultsInRange()
    ensures RatesInRange(DefaultConfigs())
  {
  }

  /** Rates stay in range and no key ever disappears. */
  lemma {:induction false} MergesKeepKeysAndRange(c: Configs, fs: seq<ConfigFields>)
    requires RatesInRange(c)
    ensures RatesInRange(MergeAll(c, fs))
    ensures c.sdkConfigs.Keys <= MergeAll(c, fs).sdkConfigs.Keys
    ensures c.sdkFlags.Keys <= MergeAll(c, fs).sdkFlags.Keys
    ensures c.rates.Keys <= MergeAll(c, fs).rates.Keys
  {
    if fs != [] {
      MergesKeepKeysAndRange(c, fs[..|fs| - 1]);
    }
  }

  /** What one merge does to one key. */
  lemma MergeLookup(c: Configs, f: ConfigFields, k: string)
    ensures var r := Merge(c, f);
            && (k in OrEmpty(f.sdkConfigs) ==> k in r.sdkConfigs && r.sdkConfigs[k] == OrEmpty(f.sdkConfigs)[k])
            && (k in OrEmpty(f.sdkFlags) ==> k in r.sdkFlags && r.sdkFlags[k] == OrEmpty(f.sdkFlags)[k])
            && (k in OrEmpty(f.diagnostics) ==> k in r.rates && r.rates[k] == Clamp(OrEmpty(f.diagnostics)[k]))
            && (k !in OrEmpty(f.sdkConfigs) && k in c.sdkConfigs ==>
                  k in r.sdkConfigs && r.sdkConfigs[k] == c.sdkConfigs[k])
            && (k !in OrEmpty(f.sdkFlags) && k in c.sdkFlags ==> k in r.sdkFlags && r.sdkFlags[k] == c.sdkFlags[k])
            && (k !in OrEmpty(f.diagnostics) && k in c.rates ==> k in r.rates && r.rates[k] == c.rates[k])
  {
    hide Clamp, OrEmpty;
  }

  /** The last update that names a key decides it, in each of the three maps. */
  lemma {:induction false} LastUpdateDecides(c: Configs, fs: seq<ConfigFields>, i: nat, k: string)
    requires i < |fs|
    ensures (k in OrEmpty(fs[i].sdkConfigs) && forall j :: i < j < |fs| ==> k !in OrEmpty(fs[j].sdkConfigs)) ==>
      k in MergeAll(c, fs).sdkConfigs && MergeAll(c, fs).sdkConfigs[k] == OrEmpty(fs[i].sdkConfigs)[k]
    ensures (k in OrEmpty(fs[i].sdkFlags) && forall j :: i < j < |fs| ==> k !in OrEmpty(fs[j].sdkFlags)) ==>
      k in MergeAll(c, fs).sdkFlags && MergeAll(c, fs).sdkFlags[k] == OrEmpty(fs[i].sdkFlags)[k]
    ensures (k in OrEmpty(fs[i].diagnostics) && forall j :: i < j < |fs| ==> k !in OrEmpty(fs[j].diagnostics)) ==>
      k in MergeAll(c, fs).rates && MergeAll(c, fs).rates[k] == Clamp(OrEmpty(fs[i].diagnostics)[k])
  {
    hide Merge, Clamp, OrEmpty;
    MergeLookup(MergeAll(c, fs[..|fs| - 1]), fs[|fs| - 1], k);
    if i < |fs| - 1 {
      LastUpdateDecides(c, fs[..|fs| - 1], i, k);
    }
  }

  /** A key no update names keeps its value. */
  lemma {:induction false} UnnamedKeysKept(c: Configs, fs: seq<ConfigFields>, k: string)
    requires forall i :: 0 <= i < |fs| ==>
      k !in OrEmpty(fs[i].sdkConfigs) && k !in OrEmpty(fs[i].sdkFlags) && k !in OrEmpty(fs[i].diagnostics)
    ensures var r := MergeAll(c, fs);
            && (k in r.sdkConfigs <==> k in c.sdkConfigs) && (k in c.sdkConfigs ==> r.sdkConfigs[k] == c.sdkConfigs[k])
            && (k in r.sdkFlags <==> k in c.sdkFlags) && (k in c.sdkFlags ==> r.sdkFlags[k] == c.sdkFlags[k])
            && (k in r.rates <==> k in c.rates) && (k in c.rates ==> r.rates[k] == c.rates[k])
  {
    if fs != [] {
      UnnamedKeysKept(c, fs[..|fs| - 1], k);
    }
  }
}
