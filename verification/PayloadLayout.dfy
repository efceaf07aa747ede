/**
  The wire layout written out in literal bytes, and what whole payloads of it decode to. Nothing here goes
  through the constants and printers that the parser and the writer share.
 */
module PayloadLayout {
  import opened Wrappers
  import opened BigEndian
  import opened PayloadGrammar
  import opened PayloadBijection
  import opened PayloadMeaning

  /** A length below 2^31 in four bytes, highest first. */
  function Length(n: nat): (s: seq<Byte>)
    requires n < 0x8000_0000
    ensures |s| == 4
  {
    [n / 256 / 256 / 256, n / 256 / 256 % 256, n / 256 % 256, n % 256]
  }

  /** A text on the wire. */
  function Prefixed(t: Text): (s: seq<Byte>)
    requires |t| < 0x8000_0000
  {
    Length(|t|) + t
  }

  /** n absent texts or maps. */
  function Absent(n: nat): (s: seq<Byte>) {
    if n == 0 then [] else [255, 255, 255, 255] + Absent(n - 1)
  }

  function NoTexts(n: nat): (ts: seq<Option<Text>>) {
    seq(n, _ => None)
  }

  lemma LengthWritten(n: nat)
    requires n < 0x8000_0000
    ensures ToBeBytes(n, 4) == Length(n) && InRange(n, 4)
  {
    hide ToBeBytes, Pow256;
    Pow256Values();
    var x := n / 256;
    var y := x / 256;
    assert n == 256 * x + n % 256 && x == 256 * y + x % 256 && y == 256 * (y / 256) + y % 256;
    WrittenAsFour(n, y / 256, y % 256, x % 256, n % 256);
  }

  /** An absent text is -1, a present one its length and its bytes. */
  lemma TextLayout(t: Text)
    requires |t| < 0x8000_0000
    ensures PrintText(None) == [255, 255, 255, 255] && PrintText(Some(t)) == Prefixed(t)
  {
    hide ToBeBytes;
    MinusOne();
    LengthWritten(|t|);
  }

  /** Maps: -1 when absent, otherwise the number of entries and the entries. */
  lemma MapLayout<T>(f: Format<T>, xs: seq<T>)
    requires |xs| < 0x8000_0000
    ensures PrintCounted(f, None) == [255, 255, 255, 255]
    ensures PrintCounted(f, Some(xs)) == Length(|xs|) + PrintItems(f, xs)
  {
    hide ToBeBytes, PrintItems;
    MinusOne();
    LengthWritten(|xs|);
  }

  /** Two's complement by weights: the first byte is the signed one. */
  function SignedEight(a: int, b: int, c: int, d: int, e: int, f: int, g: int, h: int): (v: int) {
    (if a < 128 then a else a - 256) * 72057594037927936 + b * 281474976710656 + c * 1099511627776
    + d * 4294967296 + e * 16777216 + f * 65536 + g * 256 + h
  }

  /** The six kinds of values: a literal tag and its payload, and what they decode to. */
  ghost predicate OnTheWire<J>(leaves: Leaves<J>, s: seq<Byte>, d: DynamicValue<J>) {
    match d
    case Str(t) => |t| < 0x8000_0000 && leaves.utf8(t) && s == [1] + Prefixed(t)
    case Bool(b) => s == if b then [2] else [3]
    case Int(i) =>
      exists x: seq<Byte> ::
        |x| == 8 && s == [4] + x && i == SignedEight(x[0], x[1], x[2], x[3], x[4], x[5], x[6], x[7])
    case Float(bits) => |bits| == 8 && s == [5] + bits
    case Json(j) =>
      exists t: Text :: |t| < 0x8000_0000 && leaves.utf8(t) && leaves.json(t) == Some(j) && s == [6] + Prefixed(t)
  }

  /** Such bytes are the printing of a value of the grammar that means d. */
  lemma ValueLayout<J>(leaves: Leaves<J>, s: seq<Byte>, d: DynamicValue<J>) returns (v: TypedValue)
    requires OnTheWire(leaves, s, d)
    ensures IsValue(leaves, v) && ValueOf(leaves, v) == d && PrintValue(v) == s
  {
    hide ToBeBytes, FromBeBytes, Length, PrintText, InRange;
    match d
    case Str(t) =>
      TextLayout(t);
      LengthWritten(|t|);
      v := StringValue(t);
    case Bool(b) =>
      v := if b then TrueValue else FalseValue;
      assert PrintUntagged(v) == [];
    case Int(i) =>
      var x: seq<Byte> :|
        |x| == 8 && s == [4] + x && i == SignedEight(x[0], x[1], x[2], x[3], x[4], x[5], x[6], x[7]);
      EightBytes(x[0], x[1], x[2], x[3], x[4], x[5], x[6], x[7]);
      assert x == [x[0], x[1], x[2], x[3], x[4], x[5], x[6], x[7]];
      EncodeDecode(x);
      v := IntValue(i);
    case Float(bits) =>
      v := FloatValue(bits);
    case Json(j) =>
      var t: Text :| |t| < 0x8000_0000 && leaves.utf8(t) && leaves.json(t) == Some(j) && s == [6] + Prefixed(t);
      TextLayout(t);
      LengthWritten(|t|);
      v := JsonValue(t);
  }

  lemma {:induction false} AbsentScalars<J>(leaves: Leaves<J>, n: nat)
    ensures PrintItems(ScalarFormat(leaves), NoTexts(n)) == Absent(n)
  {
    hide PrintText;
    if n > 0 {
      AbsentScalars(leaves, n - 1);
      TextLayout([]);
      assert NoTexts(n)[1..] == NoTexts(n - 1);
    }
  }

  /** What decoding gives for a payload that is printed as s. */
  lemma DecodesTo<J(!new)>(leaves: Leaves<J>, p: Payload, s: seq<Byte>)
    requires IsPayload(GrammarOf(leaves), p) && Print(GrammarOf(leaves), p) == s
    ensures Decode(leaves, s) == Some(Meaning(leaves, p))
  {
    hide Parse, Print, IsPayload, GrammarOf, Meaning;
    UserPayloadBijection(leaves, s, p);
  }

  /** Version byte, a user ID, six absent texts and three absent maps: the user with that ID and nothing else. */
  lemma UserIdPayload<J(!new)>(leaves: Leaves<J>, t: Text)
    requires |t| < 0x8000_0000 && leaves.utf8(t)
    ensures Decode(leaves, [1] + Prefixed(t) + Absent(6) + Absent(3))
            == Some(User(Some(t), None, None, None, None, None, None, None, None, None))
  {
    hide ToBeBytes, Prefixed, PrintText, InRange, ParseText;
    var p := Payload([Some(t)] + NoTexts(6), None, None, None);
    var g := GrammarOf(leaves);
    TextLayout(t);
    LengthWritten(|t|);
    AbsentScalars(leaves, 6);
    FirstScalar(leaves, Some(t), NoTexts(6));
    AbsentMaps(g, p);
    var s := [1] + Prefixed(t) + Absent(6) + Absent(3);
    assert Print(g, p) == [1] + ((Prefixed(t) + Absent(6)) + Absent(3));
    assert [1] + ((Prefixed(t) + Absent(6)) + Absent(3)) == s;
    DecodesTo(leaves, p, s);
  }

  lemma FirstScalar<J>(leaves: Leaves<J>, t: Option<Text>, ts: seq<Option<Text>>)
    ensures PrintItems(ScalarFormat(leaves), [t] + ts) == PrintText(t) + PrintItems(ScalarFormat(leaves), ts)
  {
    assert ([t] + ts)[1..] == ts;
  }

  lemma AbsentMaps(g: Grammar, p: Payload)
    requires p.customIds == None && p.custom == None && p.privateAttributes == None
    ensures PrintBody(g, p) == PrintItems(g.scalar, p.scalars) + Absent(3)
  {
    hide ToBeBytes, PrintItems;
    MinusOne();
    AbsentThree();
  }

  lemma AbsentThree()
    ensures Absent(3) == [255, 255, 255, 255] + ([255, 255, 255, 255] + [255, 255, 255, 255])
    ensures Absent(1) == [255, 255, 255, 255]
  {
  }

  /** One custom ID, with everything else absent but the maps' places. */
  lemma CustomIdPayload<J(!new)>(leaves: Leaves<J>, k: Text, v: Text)
    requires |k| < 0x8000_0000 && |v| < 0x8000_0000 && leaves.utf8(k) && leaves.utf8(v)
    ensures Decode(leaves, [1] + Absent(7) + ([0, 0, 0, 1] + Prefixed(k) + Prefixed(v)) + Absent(1) + Absent(1))
            == Some(User(None, None, None, None, None, None, None, Some(map[k := v]), None, None))
  {
    hide ToBeBytes, Prefixed, PrintText, InRange, ParseText, Absent, Print, Parse;
    var e := StringEntry(Some(k), Some(v));
    var p := Payload(NoTexts(7), Some([e]), None, None);
    TextLayout(k);
    TextLayout(v);
    LengthWritten(|k|);
    LengthWritten(|v|);
    LengthWritten(1);
    AbsentScalars(leaves, 7);
    AbsentThree();
    var f := StringEntryFormat(leaves);
    OneItem(f, e);
    MapLayout(f, [e]);
    MapLayout(TypedEntryFormat(leaves), []);
    assert Length(1) == [0, 0, 0, 1];
    var m := [0, 0, 0, 1] + (Prefixed(k) + Prefixed(v));
    assert m == [0, 0, 0, 1] + Prefixed(k) + Prefixed(v);
    PrintedAs(leaves, p, Absent(7), m, Absent(1), Absent(1));
    StringPairsOfComplete([e]);
    OnePair((k, v));
    assert StringPairs([e]) == [(k, v)];
    DecodesTo(leaves, p, [1] + Absent(7) + m + Absent(1) + Absent(1));
  }

  lemma OneItem<T>(f: Format<T>, x: T)
    ensures PrintItems(f, [x]) == f.write(x)
  {
    assert [x][1..] == [] && f.write(x) + [] == f.write(x);
  }

  lemma OnePair<V>(kv: (Text, V))
    ensures Inserted([kv]) == map[kv.0 := kv.1]
  {
    assert [kv][..0] == [];
  }

  lemma PrintedAs<J>(
    leaves: Leaves<J>, p: Payload, scalars: seq<Byte>, ids: seq<Byte>, custom: seq<Byte>, private: seq<Byte>)
    requires PrintItems(ScalarFormat(leaves), p.scalars) == scalars
    requires PrintCounted(StringEntryFormat(leaves), p.customIds) == ids
    requires PrintCounted(TypedEntryFormat(leaves), p.custom) == custom
    requires PrintCounted(TypedEntryFormat(leaves), p.privateAttributes) == private
    ensures Print(GrammarOf(leaves), p) == [1] + scalars + ids + custom + private
  {
    hide PrintItems, PrintCounted;
    assert scalars + (ids + (custom + private)) == scalars + ids + custom + private;
    assert [1] + (scalars + ids + custom + private) == [1] + scalars + ids + custom + private;
  }

  /** One custom value of any kind, read from its literal tag, in the map it was written for. */
  lemma CustomPayload<J(!new)>(leaves: Leaves<J>, k: Text, s: seq<Byte>, d: DynamicValue<J>)
    requires |k| < 0x8000_0000 && leaves.utf8(k) && OnTheWire(leaves, s, d)
    ensures Decode(leaves, [1] + Absent(7) + Absent(1) + ([0, 0, 0, 1] + Prefixed(k) + s) + Absent(1))
            == Some(User(Some([]), None, None, None, None, None, None, None, Some(map[k := d]), None))
    ensures Decode(leaves, [1] + Absent(7) + Absent(1) + Absent(1) + ([0, 0, 0, 1] + Prefixed(k) + s))
            == Some(User(Some([]), None, None, None, None, None, None, None, None, Some(map[k := d])))
  {
    hide ToBeBytes, Prefixed, PrintText, InRange, ParseText, Absent, Print, Parse;
    hide OnTheWire, PrintValue, ValueOf, IsValue;
    var v := ValueLayout(leaves, s, d);
    var e := TypedEntry(k, v);
    TextLayout(k);
    LengthWritten(|k|);
    LengthWritten(1);
    AbsentScalars(leaves, 7);
    AbsentThree();
    var f := TypedEntryFormat(leaves);
    OneItem(f, e);
    MapLayout(f, [e]);
    MapLayout(StringEntryFormat(leaves), []);
    assert Length(1) == [0, 0, 0, 1];
    var m := [0, 0, 0, 1] + (Prefixed(k) + s);
    assert m == [0, 0, 0, 1] + Prefixed(k) + s;
    var p := Payload(NoTexts(7), None, Some([e]), None);
    var q := Payload(NoTexts(7), None, None, Some([e]));
    PrintedAs(leaves, p, Absent(7), Absent(1), m, Absent(1));
    PrintedAs(leaves, q, Absent(7), Absent(1), Absent(1), m);
    OnePair((k, d));
    assert TypedPairs(leaves, [e]) == [(k, d)];
    DecodesTo(leaves, p, [1] + Absent(7) + Absent(1) + m + Absent(1));
    DecodesTo(leaves, q, [1] + Absent(7) + Absent(1) + Absent(1) + m);
  }

  /** Any other version, and the empty payload, are rejected. */
  lemma OtherVersionsRejected<J(!new)>(leaves: Leaves<J>, s: seq<Byte>)
    requires s == [] || s[0] != 1
    ensures Decode(leaves, s) == None
  {
  }

  /** No other tag is accepted, nor a null where a text must be. */
  lemma OtherTagsRejected<J>(leaves: Leaves<J>, tag: Byte, s: seq<Byte>)
    ensures tag !in {1, 2, 3, 4, 5, 6} ==> ParseValue(leaves, [tag] + s) == Reject
    ensures tag in {1, 6} ==> ParseValue(leaves, [tag] + [255, 255, 255, 255] + s) == Reject
  {
    assert ([tag] + s)[1..] == s;
    var none: seq<Byte> := [255, 255, 255, 255];
    assert ([tag] + none + s)[1..] == none + s;
    TextLayout([]);
    TextComplete(leaves, None, s);
  }
}
