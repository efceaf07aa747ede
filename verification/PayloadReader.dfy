/**
  The bounds-checked cursor over a user payload and the decoder that drives it. Every read method is
  proved to do to the bytes ahead of the cursor what the corresponding parser function does.
 */
module PayloadReader {
  import opened Wrappers
  import opened BigEndian
  import opened PayloadGrammar
  import opened PayloadBijection
  import opened PayloadMeaning

  /** r is p's outcome and, on success, `ahead` is what p left unread. */
  ghost predicate Follows<T>(p: Parsed<T>, r: Option<T>, ahead: seq<Byte>) {
    match p
    case Reject => r == None
    case Accept(v, rest) => r == Some(v) && ahead == rest
  }

  /** The customIDs loop: n entries read from s, inserted into m one by one. */
  function InsertStrings<J>(leaves: Leaves<J>, m: map<Text, Text>, s: seq<Byte>, n: nat): (r: Parsed<map<Text, Text>>)
    decreases n
  {
    if n == 0 then Accept(m, s)
    else
      match ParseStringEntry(leaves, s)
      case Reject => Reject
      case Accept(e, rest) => InsertStrings(leaves, Put(m, e), rest, n - 1)
  }

  /** Insertion of an entry, skipped when its key or its value is null. */
  function Put(m: map<Text, Text>, e: StringEntry): (r: map<Text, Text>) {
    if e.key.Some? && e.value.Some? then m[e.key.value := e.value.value] else m
  }

  /** The typed-map loop: n entries read from s, their values converted and inserted into m one by one. */
  function InsertTyped<J>(leaves: Leaves<J>, m: map<Text, DynamicValue<J>>, s: seq<Byte>, n: nat):
    (r: Parsed<map<Text, DynamicValue<J>>>)
    decreases n
  {
    if n == 0 then Accept(m, s)
    else
      match ParseTypedEntry(leaves, s)
      case Reject => Reject
      case Accept(e, rest) => InsertTyped(leaves, m[e.key := ValueOf(leaves, e.value)], rest, n - 1)
  }

  lemma InsertStringsStep<J>(leaves: Leaves<J>, m: map<Text, Text>, s: seq<Byte>, n: nat)
    ensures InsertStrings(leaves, m, s, n) ==
            if n == 0 then Accept(m, s)
            else
              match ParseStringEntry(leaves, s)
              case Reject => Reject
              case Accept(e, rest) => InsertStrings(leaves, Put(m, e), rest, n - 1)
  {
  }

  lemma InsertTypedStep<J>(leaves: Leaves<J>, m: map<Text, DynamicValue<J>>, s: seq<Byte>, n: nat)
    ensures InsertTyped(leaves, m, s, n) ==
            if n == 0 then Accept(m, s)
            else
              match ParseTypedEntry(leaves, s)
              case Reject => Reject
              case Accept(e, rest) => InsertTyped(leaves, m[e.key := ValueOf(leaves, e.value)], rest, n - 1)
  {
  }

  lemma {:induction false} InsertStringsIsInserted<J>(
    leaves: Leaves<J>, done: seq<StringEntry>, s: seq<Byte>, n: nat)
    ensures match ParseItems(StringEntryFormat(leaves), s, n)
            case Reject => InsertStrings(leaves, Inserted(StringPairs(done)), s, n) == Reject
            case Accept(es, rest) =>
              InsertStrings(leaves, Inserted(StringPairs(done)), s, n) == Accept(Inserted(StringPairs(done + es)), rest)
    decreases n
  {
    hide ParseStringEntry, Inserted, StringPairs, Put;
    if n == 0 {
      assert done + [] == done;
    } else if ParseStringEntry(leaves, s).Accept? {
      var Accept(e, rest) := ParseStringEntry(leaves, s);
      StringPairsSnoc(done, e);
      InsertStringsIsInserted(leaves, done + [e], rest, n - 1);
      Regroup(done, e);
    }
  }

  lemma {:induction false} InsertTypedIsInserted<J>(
    leaves: Leaves<J>, done: seq<TypedEntry>, s: seq<Byte>, n: nat)
    requires AreItems(TypedEntryFormat(leaves), done)
    ensures match ParseItems(TypedEntryFormat(leaves), s, n)
            case Reject => InsertTyped(leaves, Inserted(TypedPairs(leaves, done)), s, n) == Reject
            case Accept(es, rest) =>
              && AreItems(TypedEntryFormat(leaves), done + es)
              && InsertTyped(leaves, Inserted(TypedPairs(leaves, done)), s, n)
                 == Accept(Inserted(TypedPairs(leaves, done + es)), rest)
    decreases n
  {
    hide ParseTypedEntry, Inserted, TypedPairs, ValueOf;
    if n == 0 {
      assert done + [] == done;
    } else if ParseTypedEntry(leaves, s).Accept? {
      var Accept(e, rest) := ParseTypedEntry(leaves, s);
      TypedPairsSnoc(leaves, done, e);
      InsertTypedIsInserted(leaves, done + [e], rest, n - 1);
      Regroup(done, e);
    }
  }

  lemma Regroup<T>(done: seq<T>, e: T)
    ensures forall es: seq<T> {:trigger [e] + es} :: done + [e] + es == done + ([e] + es)
  {
  }

  lemma NothingBefore<T>()
    ensures forall es: seq<T> {:trigger [] + es} :: [] + es == es
  {
  }

  lemma {:induction false} ScalarsSnoc<J>(leaves: Leaves<J>, s: seq<Byte>, n: nat)
    ensures match ParseItems(ScalarFormat(leaves), s, n)
            case Reject => ParseItems(ScalarFormat(leaves), s, n + 1) == Reject
            case Accept(ts, rest) =>
              match ParseText(leaves, rest)
              case Reject => ParseItems(ScalarFormat(leaves), s, n + 1) == Reject
              case Accept(t, rest') => ParseItems(ScalarFormat(leaves), s, n + 1) == Accept(ts + [t], rest')
    decreases n
  {
    hide ParseText;
    var f := ScalarFormat(leaves);
    if n == 0 {
      if f.read(s).Accept? {
        var Accept(t, rest) := f.read(s);
        assert ParseItems(f, rest, 0) == Accept([], rest);
        assert [t] + [] == [] + [t];
      }
    } else if f.read(s).Accept? {
      var Accept(t, rest) := f.read(s);
      ScalarsSnoc(leaves, rest, n - 1);
      if ParseItems(f, rest, n - 1).Accept? {
        var Accept(ts, last) := ParseItems(f, rest, n - 1);
        if f.read(last).Accept? {
          assert [t] + (ts + [f.read(last).value]) == [t] + ts + [f.read(last).value];
        }
      }
    }
  }

  class Reader {
    const bytes: seq<Byte>
    var pos: nat

    /** Map entries whose reading was begun; bounds the decoder's work. */
    ghost var attempts: nat

    constructor (bytes: seq<Byte>)
      ensures this.bytes == bytes && pos == 0 && attempts == 0
    {
      this.bytes := bytes;
      pos := 0;
      attempts := 0;
    }

    ghost predicate Valid()
      reads this
    {
      pos <= |bytes|
    }

    ghost function Ahead(): (s: seq<Byte>)
      requires Valid()
      reads this
      ensures |s| == |bytes| - pos
    {
      bytes[pos..]
    }

    method ReadU8() returns (r: Option<Byte>)
      requires Valid()
      modifies this`pos
      ensures Valid() && pos >= old(pos)
      ensures Follows(if old(Ahead()) == [] then Reject else Accept(old(Ahead())[0], old(Ahead())[1..]), r, Ahead())
    {
      if pos >= |bytes| {
        return None;
      }
      r := Some(bytes[pos]);
      pos := pos + 1;
    }

    method ReadI32() returns (r: Option<int>)
      requires Valid()
      modifies this`pos
      ensures Valid() && pos >= old(pos)
      ensures Follows(ParseInt(old(Ahead()), 4), r, Ahead())
      ensures r.Some? <==> old(|Ahead()|) >= 4
      ensures r.Some? ==>
        var s: seq<int> := old(Ahead());
        r.value == (if s[0] < 128 then s[0] else s[0] - 256) * 16777216 + s[1] * 65536 + s[2] * 256 + s[3]
    {
      var end := pos + 4;
      if end > |bytes| {
        return None;
      }
      var slice := bytes[pos..end];
      assert slice == Ahead()[..4];
      assert slice == [slice[0], slice[1], slice[2], slice[3]];
      FourBytes(slice[0], slice[1], slice[2], slice[3]);
      pos := end;
      r := Some(FromBeBytes(slice));
    }

    method ReadI64() returns (r: Option<int>)
      requires Valid()
      modifies this`pos
      ensures Valid() && pos >= old(pos)
      ensures Follows(ParseInt(old(Ahead()), 8), r, Ahead())
    {
      var end := pos + 8;
      if end > |bytes| {
        return None;
      }
      var slice := bytes[pos..end];
      assert slice == Ahead()[..8];
      pos := end;
      r := Some(FromBeBytes(slice));
    }

    method ReadF64() returns (r: Option<seq<Byte>>)
      requires Valid()
      modifies this`pos
      ensures Valid() && pos >= old(pos)
      ensures Follows(if |old(Ahead())| < 8 then Reject else Accept(old(Ahead())[..8], old(Ahead())[8..]), r, Ahead())
    {
      var end := pos + 8;
      if end > |bytes| {
        return None;
      }
      var slice := bytes[pos..end];
      assert slice == Ahead()[..8];
      pos := end;
      r := Some(slice);
    }

    method ReadOptString<J>(leaves: Leaves<J>) returns (r: Option<Option<Text>>)
      requires Valid()
      modifies this`pos
      ensures Valid() && pos >= old(pos)
      ensures Follows(ParseText(leaves, old(Ahead())), r, Ahead())
    {
      var len := ReadI32();
      if len.None? {
        return None;
      }
      if len.value == -1 {
        return Some(None);
      }
      if len.value < 0 {
        return None;
      }
      var end := pos + len.value;
      if end > |bytes| {
        return None;
      }
      var slice := bytes[pos..end];
      assert slice == Ahead()[..len.value];
      pos := end;
      if leaves.utf8(slice) {
        r := Some(Some(slice));
      } else {
        r := None;
      }
    }

    /** One tagged value, read as the value it decodes to. */
    method ReadValue<J>(leaves: Leaves<J>) returns (r: Option<DynamicValue<J>>)
      requires Valid()
      modifies this`pos
      ensures Valid() && pos >= old(pos)
      ensures match ParseValue(leaves, old(Ahead()))
              case Reject => r == None
              case Accept(v, rest) => IsValue(leaves, v) && r == Some(ValueOf(leaves, v)) && Ahead() == rest
    {
      ghost var start := Ahead();
      if ParseValue(leaves, start).Accept? {
        ValueSound(leaves, start);
      }
      var tag := ReadU8();
      if tag.None? {
        return None;
      }
      if tag.value == TAG_STRING {
        var text := ReadOptString(leaves);
        if text.None? || text.value.None? {
          return None;
        }
        r := Some(Str(text.value.value));
      } else if tag.value == TAG_BOOL_TRUE {
        r := Some(Bool(true));
      } else if tag.value == TAG_BOOL_FALSE {
        r := Some(Bool(false));
      } else if tag.value == TAG_I64 {
        var i := ReadI64();
        if i.None? {
          return None;
        }
        r := Some(Int(i.value));
      } else if tag.value == TAG_F64 {
        var bits := ReadF64();
        if bits.None? {
          return None;
        }
        r := Some(Float(bits.value));
      } else if tag.value == TAG_JSON {
        var text := ReadOptString(leaves);
        if text.None? || text.value.None? {
          return None;
        }
        var parsed := leaves.json(text.value.value);
        if parsed.None? {
          return None;
        }
        r := Some(Json(parsed.value));
      } else {
        r := None;
      }
    }

    method ReadStringEntry<J>(leaves: Leaves<J>) returns (r: Option<StringEntry>)
      requires Valid()
      modifies this`pos
      ensures Valid() && pos >= old(pos)
      ensures Follows(ParseStringEntry(leaves, old(Ahead())), r, Ahead())
    {
      var key := ReadOptString(leaves);
      if key.None? {
        return None;
      }
      var value := ReadOptString(leaves);
      if value.None? {
        return None;
      }
      r := Some(StringEntry(key.value, value.value));
    }

    method ReadTypedEntry<J>(leaves: Leaves<J>) returns (r: Option<(Text, DynamicValue<J>)>)
      requires Valid()
      modifies this`pos
      ensures Valid() && pos >= old(pos)
      ensures match ParseTypedEntry(leaves, old(Ahead()))
              case Reject => r == None
              case Accept(e, rest) => r == Some((e.key, ValueOf(leaves, e.value))) && Ahead() == rest
    {
      var key := ReadOptString(leaves);
      if key.None? || key.value.None? {
        return None;
      }
      var value := ReadValue(leaves);
      if value.None? {
        return None;
      }
      r := Some((key.value.value, value.value));
    }

    /** The counted loop of the customIDs map. */
    method ReadStringEntries<J>(leaves: Leaves<J>, count: nat) returns (r: Option<map<Text, Text>>)
      requires Valid()
      modifies this`pos, this`attempts
      ensures Valid() && pos >= old(pos) && attempts >= old(attempts)
      ensures Follows(InsertStrings(leaves, map[], old(Ahead()), count), r, Ahead())
      ensures 8 * (attempts - old(attempts) - if r.None? then 1 else 0) <= pos - old(pos)
    {
      hide ParseStringEntry, Put, InsertStrings;
      var m: map<Text, Text> := map[];
      for i := 0 to count
        invariant Valid() && pos >= old(pos)
        invariant InsertStrings(leaves, m, Ahead(), count - i) == InsertStrings(leaves, map[], old(Ahead()), count)
        invariant attempts == old(attempts) + i && 8 * i <= pos - old(pos)
      {
        InsertStringsStep(leaves, m, Ahead(), count - i);
        attempts := attempts + 1;
        var e := ReadStringEntry(leaves);
        if e.None? {
          return None;
        }
        m := Put(m, e.value);
      }
      InsertStringsStep(leaves, m, Ahead(), 0);
      r := Some(m);
    }

    /** The counted loop of the custom and privateAttributes maps. */
    method ReadTypedEntries<J>(leaves: Leaves<J>, count: nat) returns (r: Option<map<Text, DynamicValue<J>>>)
      requires Valid()
      modifies this`pos, this`attempts
      ensures Valid() && pos >= old(pos) && attempts >= old(attempts)
      ensures Follows(InsertTyped(leaves, map[], old(Ahead()), count), r, Ahead())
      ensures 5 * (attempts - old(attempts) - if r.None? then 1 else 0) <= pos - old(pos)
    {
      hide ParseTypedEntry, ValueOf, InsertTyped;
      var m: map<Text, DynamicValue<J>> := map[];
      for i := 0 to count
        invariant Valid() && pos >= old(pos)
        invariant InsertTyped(leaves, m, Ahead(), count - i) == InsertTyped(leaves, map[], old(Ahead()), count)
        invariant attempts == old(attempts) + i && 5 * i <= pos - old(pos)
      {
        InsertTypedStep(leaves, m, Ahead(), count - i);
        attempts := attempts + 1;
        var kv := ReadTypedEntry(leaves);
        if kv.None? {
          return None;
        }
        m := m[kv.value.0 := kv.value.1];
      }
      InsertTypedStep(leaves, m, Ahead(), 0);
      r := Some(m);
    }

    /** The customIDs map. Each entry begun, except possibly a last rejected one, consumed eight bytes. */
    method ReadStringMap<J>(leaves: Leaves<J>) returns (r: Option<Option<map<Text, Text>>>)
      requires Valid()
      modifies this`pos, this`attempts
      ensures Valid() && pos >= old(pos) && attempts >= old(attempts)
      ensures match ParseCounted(StringEntryFormat(leaves), old(Ahead()))
              case Reject => r == None
              case Accept(m, rest) => r == Some(StringMapOf(m)) && Ahead() == rest
      ensures 8 * (attempts - old(attempts) - if r.None? then 1 else 0) <= pos - old(pos)
    {
      var count := ReadI32();
      if count.None? {
        return None;
      }
      if count.value == -1 {
        return Some(None);
      }
      if count.value < 0 {
        return None;
      }
      InsertStringsIsInserted(leaves, [], Ahead(), count.value);
      NothingBefore<StringEntry>();
      var m := ReadStringEntries(leaves, count.value);
      r := if m.None? then None else Some(m);
    }

    /** The custom and privateAttributes maps. Each entry begun, except possibly a last one, consumed five bytes. */
    method ReadTypedMap<J>(leaves: Leaves<J>) returns (r: Option<Option<map<Text, DynamicValue<J>>>>)
      requires Valid()
      modifies this`pos, this`attempts
      ensures Valid() && pos >= old(pos) && attempts >= old(attempts)
      ensures match ParseCounted(TypedEntryFormat(leaves), old(Ahead()))
              case Reject => r == None
              case Accept(m, rest) =>
                && (m.Some? ==> AreItems(TypedEntryFormat(leaves), m.value))
                && r == Some(TypedMapOf(leaves, m)) && Ahead() == rest
      ensures 5 * (attempts - old(attempts) - if r.None? then 1 else 0) <= pos - old(pos)
    {
      var count := ReadI32();
      if count.None? {
        return None;
      }
      if count.value == -1 {
        return Some(None);
      }
      if count.value < 0 {
        return None;
      }
      InsertTypedIsInserted(leaves, [], Ahead(), count.value);
      NothingBefore<TypedEntry>();
      var m := ReadTypedEntries(leaves, count.value);
      r := if m.None? then None else Some(m);
    }

    /** The seven scalar reads, in wire order. */
    method ReadScalars<J>(leaves: Leaves<J>) returns (r: Option<seq<Option<Text>>>)
      requires Valid()
      modifies this`pos
      ensures Valid() && pos >= old(pos)
      ensures Follows(ParseItems(ScalarFormat(leaves), old(Ahead()), |SCALAR_FIELDS|), r, Ahead())
    {
      var n := |SCALAR_FIELDS|;
      var done: seq<Option<Text>> := [];
      for i := 0 to n
        invariant Valid() && pos >= old(pos)
        invariant ParseItems(ScalarFormat(leaves), old(Ahead()), i) == Accept(done, Ahead())
      {
        ScalarsSnoc(leaves, old(Ahead()), i);
        var t := ReadOptString(leaves);
        if t.None? {
          ItemsRejectedStay(ScalarFormat(leaves), old(Ahead()), i + 1, n);
          return None;
        }
        done := done + [t.value];
      }
      r := Some(done);
    }

    /** Everything after the version byte. */
    method ReadBody<J>(leaves: Leaves<J>) returns (r: Option<User<J>>)
      requires Valid()
      modifies this`pos, this`attempts
      ensures Valid() && pos >= old(pos) && attempts >= old(attempts)
      ensures match ParseBody(GrammarOf(leaves), old(Ahead()))
              case Reject => r == None
              case Accept(p, rest) =>
                IsPayload(GrammarOf(leaves), p) ==> r == Some(Meaning(leaves, p)) && Ahead() == rest
      ensures 5 * (attempts - old(attempts) - if r.None? then 1 else 0) <= pos - old(pos)
    {
      var scalars := ReadScalars(leaves);
      if scalars.None? {
        return None;
      }
      var customIds := ReadStringMap(leaves);
      if customIds.None? {
        return None;
      }
      var custom := ReadTypedMap(leaves);
      if custom.None? {
        return None;
      }
      var privateAttributes := ReadTypedMap(leaves);
      if privateAttributes.None? {
        return None;
      }
      var t := scalars.value;
      var userId := if customIds.value.Some? || t[0].Some? then t[0] else Some([]);
      r := Some(User(userId, t[1], t[2], t[3], t[4], t[5], t[6],
                     customIds.value, custom.value, privateAttributes.value));
    }
  }

  lemma {:induction false} ItemsRejectedStay<T>(f: Format<T>, s: seq<Byte>, m: nat, n: nat)
    requires m <= n && ParseItems(f, s, m) == Reject
    ensures ParseItems(f, s, n) == Reject
    decreases n
  {
    if f.read(s).Accept? {
      ItemsRejectedStay(f, f.read(s).rest, m - 1, n - 1);
    }
  }

  /**
    decode_user_payload: the user the payload's parse tree means, or nothing when there is no such
    tree. The number of map entries begun is bounded by the payload's length, not by declared counts.
   */
  method DecodeUserPayload<J(!new)>(leaves: Leaves<J>, bytes: seq<Byte>) returns (r: Option<User<J>>, ghost work: nat)
    ensures r == Decode(leaves, bytes)
    ensures 5 * work <= |bytes| + 5
  {
    hide Decode, ParseBody, Meaning, IsPayload, GrammarOf;
    DecodeByBody(leaves, bytes);
    var reader := new Reader(bytes);
    work := 0;
    assert reader.Ahead() == bytes;
    var version := reader.ReadU8();
    if version.None? || version.value != VERSION {
      return None, 0;
    }
    assert reader.Ahead() == bytes[1..];
    r := reader.ReadBody(leaves);
    work := reader.attempts;
    assert |reader.Ahead()| == |bytes| - reader.pos;
    if r.Some? && reader.pos != |bytes| {
      r := None;
    }
  }

  /** Decoding is reading the version and the body, and finding nothing left. */
  lemma DecodeByBody<J(!new)>(leaves: Leaves<J>, bytes: seq<Byte>)
    ensures bytes == [] || bytes[0] != VERSION ==> Decode(leaves, bytes) == None
    ensures bytes != [] && bytes[0] == VERSION ==>
      match ParseBody(GrammarOf(leaves), bytes[1..])
      case Reject => Decode(leaves, bytes) == None
      case Accept(p, rest) =>
        && IsPayload(GrammarOf(leaves), p)
        && Decode(leaves, bytes) == if rest == [] then Some(Meaning(leaves, p)) else None
  {
    hide ParseBody, Meaning, IsPayload, GrammarOf, PrintBody;
    UserGrammarExact(leaves);
    if bytes != [] && ParseBody(GrammarOf(leaves), bytes[1..]).Accept? {
      BodySound(GrammarOf(leaves), bytes[1..]);
    }
  }

  lemma StringPairsSnoc(es: seq<StringEntry>, e: StringEntry)
    ensures Inserted(StringPairs(es + [e])) == Put(Inserted(StringPairs(es)), e)
  {
    assert (es + [e])[..|es|] == es;
    if e.key.Some? && e.value.Some? {
      var ps := StringPairs(es);
      assert (ps + [(e.key.value, e.value.value)])[..|ps|] == ps;
    }
  }

  lemma TypedPairsSnoc<J>(leaves: Leaves<J>, es: seq<TypedEntry>, e: TypedEntry)
    requires AreItems(TypedEntryFormat(leaves), es) && IsTypedEntry(leaves, e)
    ensures AreItems(TypedEntryFormat(leaves), es + [e])
    ensures Inserted(TypedPairs(leaves, es + [e]))
            == Inserted(TypedPairs(leaves, es))[e.key := ValueOf(leaves, e.value)]
  {
    assert TypedPairs(leaves, es + [e])[..|es|] == TypedPairs(leaves, es);
  }
}
