/**
  The pure decisions of a specs update: its format, whether the current values are newer, what the
  prep, apply and notify steps make of it, and the background write the notify step spawns.

  Response data is its headers and its body: every read of the stream rewinds it first. What the body
  deserializes to is a parameter.
 */
module SpecUpdates {
  import opened Wrappers
  import opened BigEndian
  import opened Strings
  import opened GlobalConfigs
  import opened CacheKeys

  type Bytes = seq<Byte>

  datatype SpecsSource = Uninitialized | NoValues | Error | Loading | Bootstrap | Adapter(name: string) | Network

  datatype SpecsFormat = Json | Protobuf

  datatype StatsigErr = LockFailure | ParseError(message: string) | OtherErr(message: string)

  /** A full specs response; `entities` stands for the gates, configs and layers, which no step inspects. */
  datatype Specs = Specs(
    time: nat,
    checksum: Option<string>,
    hasUpdates: bool,
    fields: ConfigFields,
    entities: string)

  function DefaultSpecs(): (v: Specs) {
    Specs(0, None, false, ConfigFields(None, None, None), "")
  }

  datatype ResponseData = ResponseData(headers: map<string, string>, body: Bytes)

  datatype SpecsUpdate = SpecsUpdate(data: ResponseData, source: SpecsSource, sourceApi: Option<string>)

  /** The deserializers: JSON, protobuf (which may be a delta on the current values), and the no-update form. */
  datatype Decoders = Decoders(
    json: Bytes -> Result<Specs, StatsigErr>,
    proto: (Specs, Bytes) -> Result<Specs, StatsigErr>,
    noUpdates: Bytes -> Result<bool, StatsigErr>)

  /** The locked part of the spec store, apart from the ID lists. */
  datatype StoreData = StoreData(
    source: SpecsSource,
    sourceApi: Option<string>,
    timeReceivedAt: Option<nat>,
    values: Specs)

  function InitialData(): (d: StoreData) {
    StoreData(Uninitialized, None, None, DefaultSpecs())
  }

  predicate HeaderContains(data: ResponseData, header: string, text: string) {
    header in data.headers && IndexOf(data.headers[header], text).Some?
  }

  /** get_spec_response_format: protobuf needs both headers, everything else is JSON. */
  function ResponseFormat(data: ResponseData): (f: SpecsFormat) {
    if !HeaderContains(data, "content-type", "application/octet-stream") then Json
    else if !HeaderContains(data, "content-encoding", "statsig-br") then Json
    else Protobuf
  }

  function Deserialize(dec: Decoders, current: Specs, data: ResponseData): (r: Result<Specs, StatsigErr>) {
    match ResponseFormat(data)
    case Protobuf => dec.proto(current, data.body)
    case Json => dec.json(data.body)
  }

  function ChecksumOf(v: Specs): (s: string) {
    if v.checksum.None? then "" else v.checksum.value
  }

  /** are_current_values_newer. */
  predicate CurrentValuesAreNewer(current: Specs, next: Specs) {
    || (current.time > 0 && current.time > next.time)
    || (ChecksumOf(current) != "" && ChecksumOf(current) == ChecksumOf(next))
  }

  datatype PrepResult = HasUpdates(next: Specs, format: SpecsFormat) | NoUpdates | CurrentValuesNewer

  /** specs_update_prep, under the read lock. */
  function Prep(dec: Decoders, current: Specs, u: SpecsUpdate): (r: Result<PrepResult, StatsigErr>) {
    var first := Deserialize(dec, current, u.data);
    if first.Ok? && CurrentValuesAreNewer(current, first.value) then Ok(CurrentValuesNewer)
    else if first.Ok? && first.value.hasUpdates then Ok(HasUpdates(first.value, ResponseFormat(u.data)))
    else
      match dec.noUpdates(u.data.body)
      case Ok(hasUpdates) =>
        if !hasUpdates then Ok(NoUpdates)
        else Err(if first.Err? then first.error else ParseError("Unknown error"))
      case Err(e) => Err(if first.Err? then first.error else e)
  }

  /** specs_update_apply, under the write lock: all four fields at once. */
  function Apply(next: Specs, u: SpecsUpdate, now: nat): (d: StoreData) {
    StoreData(u.source, u.sourceApi, Some(now), next)
  }

  /** A spawned data-store write. */
  datatype WriteTask = WriteTask(key: string, body: Bytes, time: nat, isProtobuf: bool)

  /** try_update_data_store: what the notify step spawns, if anything. */
  function TaskFor(keys: DataStoreCacheKeys, hasStore: bool, u: SpecsUpdate, now: nat): (t: Option<WriteTask>) {
    if u.source != Network then None
    else if "x-deltas-used" in u.data.headers then None
    else if !hasStore then None
    else
      var isProtobuf := ResponseFormat(u.data) == Protobuf;
      Some(WriteTask(if isProtobuf then keys.statsigBr else keys.plainText, u.data.body, now, isProtobuf))
  }

  /** An update that prep lets through carries values no older than those prep compared it with. */
  lemma PrepNeverGoesBack(dec: Decoders, current: Specs, u: SpecsUpdate)
    requires Prep(dec, current, u).Ok? && Prep(dec, current, u).value.HasUpdates?
    ensures Prep(dec, current, u).value.next.time >= current.time
    ensures ChecksumOf(current) != "" ==> ChecksumOf(Prep(dec, current, u).value.next) != ChecksumOf(current)
    ensures Prep(dec, current, u).value.format == ResponseFormat(u.data)
  {
  }

  // ---- The decisions, without the functions above ----

  ghost predicate Holds(s: string, text: string) {
    exists before: string, after: string :: s == before + text + after
  }

  lemma IndexOfFinds(s: string, text: string)
    ensures IndexOf(s, text).Some? <==> Holds(s, text)
  {
    if IndexOf(s, text).Some? {
      var i := IndexOf(s, text).value;
      assert s == s[..i] + text + s[i + |text|..];
    }
    if before: string, after: string :| s == before + text + after {
      assert At(s, text, |before|);
    }
  }

  /** A response is protobuf exactly when both headers say so. */
  lemma FormatExactly(data: ResponseData)
    ensures ResponseFormat(data) == Protobuf <==>
            && "content-type" in data.headers && Holds(data.headers["content-type"], "application/octet-stream")
            && "content-encoding" in data.headers && Holds(data.headers["content-encoding"], "statsig-br")
  {
    hide IndexOf, Holds;
    if "content-type" in data.headers {
      IndexOfFinds(data.headers["content-type"], "application/octet-stream");
    }
    if "content-encoding" in data.headers {
      IndexOfFinds(data.headers["content-encoding"], "statsig-br");
    }
  }

  /** What the first deserialization makes of an update. */
  function First(dec: Decoders, current: Specs, u: SpecsUpdate): (r: Result<Specs, StatsigErr>) {
    if ResponseFormat(u.data) == Protobuf then dec.proto(current, u.data.body) else dec.json(u.data.body)
  }

  /** Neither older than the current values nor carrying their checksum. */
  predicate IsFresh(current: Specs, next: Specs) {
    && (current.time == 0 || next.time >= current.time)
    && (current.checksum == None || current.checksum == Some("") || next.checksum != current.checksum)
  }

  /** An update is let through exactly when it deserializes to fresh values that say they are an update. */
  lemma LetThroughExactly(dec: Decoders, current: Specs, u: SpecsUpdate, next: Specs)
    ensures Prep(dec, current, u) == Ok(HasUpdates(next, ResponseFormat(u.data))) <==>
            && First(dec, current, u) == Ok(next) && next.hasUpdates
            && (current.time == 0 || next.time >= current.time)
            && (current.checksum == None || current.checksum == Some("") || next.checksum != current.checksum)
  {
    hide ResponseFormat;
  }

  /** And turned down exactly when it deserializes to values that are not fresh. */
  lemma TurnedDownExactly(dec: Decoders, current: Specs, u: SpecsUpdate)
    ensures Prep(dec, current, u) == Ok(CurrentValuesNewer) <==>
            First(dec, current, u).Ok? && !IsFresh(current, First(dec, current, u).value)
  {
    hide ResponseFormat;
  }

  /** Otherwise the no-update form decides, and the first error is the one reported. */
  lemma OtherwiseNoUpdates(dec: Decoders, current: Specs, u: SpecsUpdate)
    requires First(dec, current, u).Ok? ==>
      IsFresh(current, First(dec, current, u).value) && !First(dec, current, u).value.hasUpdates
    ensures Prep(dec, current, u) == Ok(NoUpdates) <==> dec.noUpdates(u.data.body) == Ok(false)
    ensures dec.noUpdates(u.data.body) != Ok(false) ==>
      Prep(dec, current, u) == Err(if First(dec, current, u).Err? then First(dec, current, u).error
                                   else if dec.noUpdates(u.data.body).Err? then dec.noUpdates(u.data.body).error
                                   else ParseError("Unknown error"))
  {
    hide ResponseFormat;
  }

  /** A data-store write is spawned exactly for network updates that are no deltas, if there is a store. */
  lemma SpawnedExactly(keys: DataStoreCacheKeys, hasStore: bool, u: SpecsUpdate, now: nat, t: WriteTask)
    ensures TaskFor(keys, hasStore, u, now) == Some(t) <==>
            && u.source == Network && "x-deltas-used" !in u.data.headers && hasStore
            && t.body == u.data.body && t.time == now
            && (t.isProtobuf <==> ResponseFormat(u.data) == Protobuf)
            && t.key == (if ResponseFormat(u.data) == Protobuf then keys.statsigBr else keys.plainText)
  {
    hide ResponseFormat;
  }
}
