/**
  What a parse tree of the user payload means: seven scalars and three maps. Entry lists become maps
  by inserting in wire order, so the last of several entries with one key wins; a string entry with a
  null key or value adds nothing.
 */
module PayloadMeaning {
  import opened Wrappers
  import opened BigEndian
  import opened PayloadGrammar
  import opened PayloadBijection

  datatype DynamicValue<+J> =
    | Str(text: Text)
    | Bool(b: bool)
    | Int(i: int)
    | Float(bits: seq<Byte>)
    | Json(j: J)

  datatype User<+J> = User(
    userId: Option<Text>,
    email: Option<Text>,
    ip: Option<Text>,
    userAgent: Option<Text>,
    country: Option<Text>,
    locale: Option<Text>,
    appVersion: Option<Text>,
    customIds: Option<map<Text, Text>>,
    custom: Option<map<Text, DynamicValue<J>>>,
    privateAttributes: Option<map<Text, DynamicValue<J>>>)

  function ValueOf<J>(leaves: Leaves<J>, v: TypedValue): (d: DynamicValue<J>)
    requires IsValue(leaves, v)
  {
    match v
    case StringValue(t) => Str(t)
    case TrueValue => Bool(true)
    case FalseValue => Bool(false)
    case IntValue(i) => Int(i)
    case FloatValue(bits) => Float(bits)
    case JsonValue(t) => Json(leaves.json(t).value)
  }

  /** Insertion of a list of pairs into an empty hash map, first to last. */
  function Inserted<V>(ps: seq<(Text, V)>): (m: map<Text, V>) {
    if ps == [] then map[]
    else
      var last := ps[|ps| - 1];
      Inserted(ps[..|ps| - 1])[last.0 := last.1]
  }

  /** The pairs a string-map entry list inserts: entries with a null part are skipped. */
  function StringPairs(es: seq<StringEntry>): (ps: seq<(Text, Text)>) {
    if es == [] then []
    else
      var front, last := StringPairs(es[..|es| - 1]), es[|es| - 1];
      if last.key.Some? && last.value.Some? then front + [(last.key.value, last.value.value)] else front
  }

  function TypedPairs<J>(leaves: Leaves<J>, es: seq<TypedEntry>): (ps: seq<(Text, DynamicValue<J>)>)
    requires AreItems(TypedEntryFormat(leaves), es)
    ensures |ps| == |es|
    ensures forall i :: 0 <= i < |es| ==> ps[i] == (es[i].key, ValueOf(leaves, es[i].value))
  {
    seq(|es|, i requires 0 <= i < |es| && AreItems(TypedEntryFormat(leaves), es) =>
          assert TypedEntryFormat(leaves).valid(es[i]); (es[i].key, ValueOf(leaves, es[i].value)))
  }

  function StringMapOf(m: Option<seq<StringEntry>>): (r: Option<map<Text, Text>>) {
    match m
    case None => None
    case Some(es) => Some(Inserted(StringPairs(es)))
  }

  function TypedMapOf<J>(leaves: Leaves<J>, m: Option<seq<TypedEntry>>): (r: Option<map<Text, DynamicValue<J>>>)
    requires m.Some? ==> AreItems(TypedEntryFormat(leaves), m.value)
  {
    match m
    case None => None
    case Some(es) => Some(Inserted(TypedPairs(leaves, es)))
  }

  /** Without custom IDs the builder is entered with a user ID, defaulting to the empty string. */
  function Meaning<J>(leaves: Leaves<J>, p: Payload): (u: User<J>)
    requires IsPayload(GrammarOf(leaves), p)
  {
    var t := p.scalars;
    User(
      if p.customIds.None? && t[0].None? then Some([]) else t[0],
      t[1], t[2], t[3], t[4], t[5], t[6],
      StringMapOf(p.customIds),
      TypedMapOf(leaves, p.custom),
      TypedMapOf(leaves, p.privateAttributes))
  }

  /** The decoder as a function of the payload bytes. */
  function Decode<J(!new)>(leaves: Leaves<J>, s: seq<Byte>): (u: Option<User<J>>) {
    match Parse(GrammarOf(leaves), s)
    case None => None
    case Some(p) =>
      UserPayloadBijection(leaves, s, p);
      Some(Meaning(leaves, p))
  }

  // ---- Insertion order ----

  lemma {:induction false} InsertedKeys<V>(ps: seq<(Text, V)>, k: Text)
    ensures k in Inserted(ps) <==> exists i :: 0 <= i < |ps| && ps[i].0 == k
  {
    if ps != [] {
      var front := ps[..|ps| - 1];
      InsertedKeys(front, k);
      assert forall i :: 0 <= i < |front| ==> front[i] == ps[i];
      if k in Inserted(front) {
        var i :| 0 <= i < |front| && front[i].0 == k;
        assert ps[i].0 == k;
      } else if exists i :: 0 <= i < |ps| && ps[i].0 == k {
        var i :| 0 <= i < |ps| && ps[i].0 == k;
        assert i < |front| ==> front[i].0 == k;
      }
    }
  }

  /** With repeated keys the last pair wins. */
  lemma {:induction false} LastPairWins<V>(ps: seq<(Text, V)>, i: nat)
    requires i < |ps|
    requires forall j :: i < j < |ps| ==> ps[j].0 != ps[i].0
    ensures ps[i].0 in Inserted(ps) && Inserted(ps)[ps[i].0] == ps[i].1
  {
    if i < |ps| - 1 {
      LastPairWins(ps[..|ps| - 1], i);
    }
  }

  ghost predicate DistinctKeys<V>(ps: seq<(Text, V)>) {
    forall i, j :: 0 <= i < j < |ps| ==> ps[i].0 != ps[j].0
  }

  /** ps is the content of m, each key once, in some order. */
  ghost predicate Lists<V>(ps: seq<(Text, V)>, m: map<Text, V>) {
    && DistinctKeys(ps)
    && (forall i :: 0 <= i < |ps| ==> ps[i].0 in m && m[ps[i].0] == ps[i].1)
    && (forall k :: k in m ==> exists i :: 0 <= i < |ps| && ps[i].0 == k)
  }

  /** Inserting the content of a map in any order gives the map. */
  lemma ListingGivesMap<V>(ps: seq<(Text, V)>, m: map<Text, V>)
    requires Lists(ps, m)
    ensures Inserted(ps) == m
  {
    forall k
      ensures k in Inserted(ps) <==> k in m
      ensures k in m ==> k in Inserted(ps) && Inserted(ps)[k] == m[k]
    {
      InsertedKeys(ps, k);
      if k in m {
        var i :| 0 <= i < |ps| && ps[i].0 == k;
        LastPairWins(ps, i);
      }
    }
  }

  lemma ListsSnoc<V>(front: seq<(Text, V)>, m: map<Text, V>, k: Text)
    requires k in m && Lists(front, m - {k})
    ensures Lists(front + [(k, m[k])], m)
  {
    var ps := front + [(k, m[k])];
    assert ps[|front|].0 == k;
    forall key | key in m
      ensures exists i :: 0 <= i < |ps| && ps[i].0 == key
    {
      if key != k {
        assert key in m - {k};
        var i :| 0 <= i < |front| && front[i].0 == key;
        assert ps[i].0 == key;
      }
    }
  }

  /** Every map has a listing. */
  lemma {:induction false} ListingExists<V>(m: map<Text, V>) returns (ps: seq<(Text, V)>)
    ensures Lists(ps, m)
    ensures |ps| == |m|
    decreases |m|
  {
    if m == map[] {
      ps := [];
    } else {
      var k :| k in m;
      assert (m - {k}).Keys == m.Keys - {k};
      var front := ListingExists(m - {k});
      ListsSnoc(front, m, k);
      ps := front + [(k, m[k])];
    }
  }

  // ---- Round trip to meaning ----

  /**
    The tree p carries the user u: its scalars in wire order, and each of the three maps either absent
    on both sides or listed by p's entries in any order.
   */
  ghost predicate Carries<J>(leaves: Leaves<J>, p: Payload, u: User<J>) {
    && IsPayload(GrammarOf(leaves), p)
    && p.scalars == [u.userId, u.email, u.ip, u.userAgent, u.country, u.locale, u.appVersion]
    && (p.customIds.None? <==> u.customIds.None?)
    && (p.customIds.Some? ==> Lists(StringPairs(p.customIds.value), u.customIds.value))
    && (p.custom.None? <==> u.custom.None?)
    && (p.custom.Some? ==> Lists(TypedPairs(leaves, p.custom.value), u.custom.value))
    && (p.privateAttributes.None? <==> u.privateAttributes.None?)
    && (p.privateAttributes.Some? ==>
          Lists(TypedPairs(leaves, p.privateAttributes.value), u.privateAttributes.value))
  }

  /** The one thing decoding changes: a user with neither a user ID nor custom IDs gets the empty user ID. */
  function Normal<J>(u: User<J>): (r: User<J>) {
    if u.userId.None? && u.customIds.None? then u.(userId := Some([])) else u
  }

  lemma CarriedMeaning<J>(leaves: Leaves<J>, p: Payload, u: User<J>)
    requires Carries(leaves, p, u)
    ensures IsPayload(GrammarOf(leaves), p)
    ensures Meaning(leaves, p) == Normal(u)
  {
    if p.customIds.Some? {
      ListingGivesMap(StringPairs(p.customIds.value), u.customIds.value);
    }
    if p.custom.Some? {
      ListingGivesMap(TypedPairs(leaves, p.custom.value), u.custom.value);
    }
    if p.privateAttributes.Some? {
      ListingGivesMap(TypedPairs(leaves, p.privateAttributes.value), u.privateAttributes.value);
    }
    MeaningOfCarried(leaves, p, u);
  }

  /** Encoding a user's entries in any order decodes to that user. */
  lemma RoundTrip<J(!new)>(leaves: Leaves<J>, p: Payload, u: User<J>)
    requires Carries(leaves, p, u)
    ensures Decode(leaves, Print(GrammarOf(leaves), p)) == Some(Normal(u))
  {
    hide Parse, Print, IsPayload, GrammarOf, Meaning, Normal, Carries;
    CarriedMeaning(leaves, p, u);
    UserPayloadBijection(leaves, Print(GrammarOf(leaves), p), p);
  }

  lemma MeaningOfCarried<J>(leaves: Leaves<J>, p: Payload, u: User<J>)
    requires IsPayload(GrammarOf(leaves), p)
    requires p.scalars == [u.userId, u.email, u.ip, u.userAgent, u.country, u.locale, u.appVersion]
    requires StringMapOf(p.customIds) == u.customIds
    requires TypedMapOf(leaves, p.custom) == u.custom
    requires TypedMapOf(leaves, p.privateAttributes) == u.privateAttributes
    ensures Meaning(leaves, p) == Normal(u)
  {
  }

  /** Null string entries take bytes on the wire and leave the map as it was. */
  lemma {:induction false} NullEntriesAddNothing(es: seq<StringEntry>, e: StringEntry, fs: seq<StringEntry>)
    requires e.key.None? || e.value.None?
    ensures |PrintStringEntry(e)| >= 8
    ensures StringPairs(es + [e] + fs) == StringPairs(es + fs)
  {
    if fs == [] {
      assert (es + [e] + fs)[..|es|] == es && es + fs == es;
      assert es + [e] + fs == es + [e];
    } else {
      var n := |fs| - 1;
      NullEntriesAddNothing(es, e, fs[..n]);
      assert (es + [e] + fs)[..|es| + 1 + n] == es + [e] + fs[..n];
      assert (es + fs)[..|es| + n] == es + fs[..n];
    }
  }

  lemma {:induction false} StringPairsOfComplete(es: seq<StringEntry>)
    requires forall i :: 0 <= i < |es| ==> es[i].key.Some? && es[i].value.Some?
    ensures |StringPairs(es)| == |es|
    ensures forall i :: 0 <= i < |es| ==> StringPairs(es)[i] == (es[i].key.value, es[i].value.value)
  {
    if es != [] {
      StringPairsOfComplete(es[..|es| - 1]);
    }
  }

  // ---- The users that have a payload ----

  /** d is what some value of the grammar converts to. */
  ghost predicate Expressible<J>(leaves: Leaves<J>, d: DynamicValue<J>) {
    exists v :: IsValue(leaves, v) && ValueOf(leaves, v) == d
  }

  ghost predicate EncodableStrings<J>(leaves: Leaves<J>, m: map<Text, Text>) {
    InRange(|m|, 4) && forall k :: k in m ==> IsText(leaves, k) && IsText(leaves, m[k])
  }

  ghost predicate EncodableTyped<J>(leaves: Leaves<J>, m: map<Text, DynamicValue<J>>) {
    InRange(|m|, 4) && forall k :: k in m ==> IsText(leaves, k) && Expressible(leaves, m[k])
  }

  function ScalarsOf<J>(u: User<J>): (ts: seq<Option<Text>>) {
    [u.userId, u.email, u.ip, u.userAgent, u.country, u.locale, u.appVersion]
  }

  /** All texts are valid and of encodable length, all maps of encodable size, all values expressible. */
  ghost predicate Encodable<J>(leaves: Leaves<J>, u: User<J>) {
    && AreItems(ScalarFormat(leaves), ScalarsOf(u))
    && (u.customIds.Some? ==> EncodableStrings(leaves, u.customIds.value))
    && (u.custom.Some? ==> EncodableTyped(leaves, u.custom.value))
    && (u.privateAttributes.Some? ==> EncodableTyped(leaves, u.privateAttributes.value))
  }

  lemma StringsListed<J>(leaves: Leaves<J>, m: map<Text, Text>) returns (es: seq<StringEntry>)
    requires EncodableStrings(leaves, m)
    ensures IsCounted(StringEntryFormat(leaves), Some(es)) && Lists(StringPairs(es), m)
  {
    hide StringPairs, IsText;
    var ps := ListingExists(m);
    es := seq(|ps|, i requires 0 <= i < |ps| => StringEntry(Some(ps[i].0), Some(ps[i].1)));
    StringPairsOfComplete(es);
    assert StringPairs(es) == ps;
    EntriesOfListing(leaves, m, ps, es);
  }

  lemma EntriesOfListing<J>(leaves: Leaves<J>, m: map<Text, Text>, ps: seq<(Text, Text)>, es: seq<StringEntry>)
    requires EncodableStrings(leaves, m) && Lists(ps, m) && |es| == |ps|
    requires forall i :: 0 <= i < |ps| ==> es[i] == StringEntry(Some(ps[i].0), Some(ps[i].1))
    ensures AreItems(StringEntryFormat(leaves), es)
  {
    hide IsText;
  }

  ghost function Expressed<J>(leaves: Leaves<J>, d: DynamicValue<J>): (v: TypedValue)
    requires Expressible(leaves, d)
    ensures IsValue(leaves, v) && ValueOf(leaves, v) == d
  {
    var v :| IsValue(leaves, v) && ValueOf(leaves, v) == d;
    v
  }

  lemma TypedListed<J>(leaves: Leaves<J>, m: map<Text, DynamicValue<J>>) returns (es: seq<TypedEntry>)
    requires EncodableTyped(leaves, m)
    ensures IsCounted(TypedEntryFormat(leaves), Some(es)) && Lists(TypedPairs(leaves, es), m)
  {
    var ps := ListingExists(m);
    es := seq(|ps|, i requires 0 <= i < |ps| => TypedEntry(ps[i].0, Expressed(leaves, ps[i].1)));
    assert TypedPairs(leaves, es) == ps;
  }

  /** Every encodable user is carried by a payload. */
  lemma EncodableIsCarried<J>(leaves: Leaves<J>, u: User<J>) returns (p: Payload)
    requires Encodable(leaves, u)
    ensures Carries(leaves, p, u)
  {
    hide Lists, StringPairs, TypedPairs, EncodableStrings, EncodableTyped;
    p := Payload(ScalarsOf(u), None, None, None);
    if u.customIds.Some? {
      var es := StringsListed(leaves, u.customIds.value);
      p := p.(customIds := Some(es));
    }
    if u.custom.Some? {
      var es := TypedListed(leaves, u.custom.value);
      p := p.(custom := Some(es));
    }
    if u.privateAttributes.Some? {
      var es := TypedListed(leaves, u.privateAttributes.value);
      p := p.(privateAttributes := Some(es));
    }
  }

  /** What insertion leaves comes from the pairs, and is no more than they are. */
  lemma {:induction false} InsertedFrom<V>(ps: seq<(Text, V)>)
    ensures |Inserted(ps)| <= |ps|
    ensures forall k :: k in Inserted(ps) ==> (k, Inserted(ps)[k]) in ps
  {
    if ps != [] {
      var front, last := ps[..|ps| - 1], ps[|ps| - 1];
      InsertedFrom(front);
      assert ps == front + [last];
      assert Inserted(ps).Keys == Inserted(front).Keys + {last.0};
    }
  }

  lemma {:induction false} StringPairsFrom(es: seq<StringEntry>)
    ensures |StringPairs(es)| <= |es|
    ensures forall kv :: kv in StringPairs(es) ==> StringEntry(Some(kv.0), Some(kv.1)) in es
  {
    if es != [] {
      StringPairsFrom(es[..|es| - 1]);
      assert es == es[..|es| - 1] + [es[|es| - 1]];
    }
  }

  lemma StringsAreEncodable<J>(leaves: Leaves<J>, es: seq<StringEntry>)
    requires IsCounted(StringEntryFormat(leaves), Some(es))
    ensures EncodableStrings(leaves, Inserted(StringPairs(es)))
  {
    hide Inserted, StringPairs;
    var m := Inserted(StringPairs(es));
    InsertedFrom(StringPairs(es));
    StringPairsFrom(es);
    forall k | k in m
      ensures IsText(leaves, k) && IsText(leaves, m[k])
    {
      var i :| 0 <= i < |es| && es[i] == StringEntry(Some(k), Some(m[k]));
      assert StringEntryFormat(leaves).valid(es[i]);
    }
  }

  lemma TypedAreEncodable<J>(leaves: Leaves<J>, es: seq<TypedEntry>)
    requires IsCounted(TypedEntryFormat(leaves), Some(es))
    ensures EncodableTyped(leaves, Inserted(TypedPairs(leaves, es)))
  {
    hide Inserted;
    var m := Inserted(TypedPairs(leaves, es));
    InsertedFrom(TypedPairs(leaves, es));
    forall k | k in m
      ensures IsText(leaves, k) && Expressible(leaves, m[k])
    {
      var i :| 0 <= i < |es| && TypedPairs(leaves, es)[i] == (k, m[k]);
      assert TypedEntryFormat(leaves).valid(es[i]);
    }
  }

  /** What a payload means is an encodable user, up to the default user ID. */
  lemma MeaningIsEncodable<J>(leaves: Leaves<J>, p: Payload) returns (u: User<J>)
    requires IsPayload(GrammarOf(leaves), p)
    ensures Encodable(leaves, u) && Meaning(leaves, p) == Normal(u)
  {
    hide Inserted, StringPairs, TypedPairs, EncodableStrings, EncodableTyped;
    u := Meaning(leaves, p).(userId := p.scalars[0]);
    assert ScalarsOf(u) == p.scalars;
    if p.customIds.Some? {
      StringsAreEncodable(leaves, p.customIds.value);
    }
    if p.custom.Some? {
      TypedAreEncodable(leaves, p.custom.value);
    }
    if p.privateAttributes.Some? {
      TypedAreEncodable(leaves, p.privateAttributes.value);
    }
  }

  /** The users that decoding can give are exactly the encodable ones, up to the default user ID. */
  lemma DecodingReachesExactlyTheEncodable<J(!new)>(leaves: Leaves<J>, u: User<J>)
    ensures (exists s :: Decode(leaves, s) == Some(u)) <==> (exists w :: Encodable(leaves, w) && Normal(w) == u)
  {
    hide Encodable, Normal, Carries, Meaning, IsPayload, Print, Parse, GrammarOf;
    if s :| Decode(leaves, s) == Some(u) {
      var p := Parse(GrammarOf(leaves), s).value;
      UserPayloadBijection(leaves, s, p);
      var w := MeaningIsEncodable(leaves, p);
    }
    if w :| Encodable(leaves, w) && Normal(w) == u {
      var p := EncodableIsCarried(leaves, w);
      RoundTrip(leaves, p, w);
    }
  }
}
