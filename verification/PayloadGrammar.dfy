/**
  The binary user payload: its parse trees, the grammar read as a printer, and the parser that the
  reader class implements. Validity of UTF-8 text (section 4 of RFC 3629) and the parsing of JSON
  leaves (RFC 8259) are parameters, so every result holds for all of them.
 */
module PayloadGrammar {
  import opened Wrappers
  import opened BigEndian

  type Text = seq<Byte>

  const VERSION: Byte := 1

  const TAG_STRING: Byte := 1
  const TAG_BOOL_TRUE: Byte := 2
  const TAG_BOOL_FALSE: Byte := 3
  const TAG_I64: Byte := 4
  const TAG_F64: Byte := 5
  const TAG_JSON: Byte := 6

  /** The scalar fields in wire order. */
  const SCALAR_FIELDS: seq<string> := ["userID", "email", "ip", "userAgent", "country", "locale", "appVersion"]

  /** The two library calls the decoder makes on a consumed slice. */
  datatype Leaves<!J> = Leaves(utf8: Text -> bool, json: Text -> Option<J>)

  datatype TypedValue =
    | StringValue(text: Text)
    | TrueValue
    | FalseValue
    | IntValue(i: int)
    | FloatValue(bits: seq<Byte>)
    | JsonValue(json: Text)

  datatype StringEntry = StringEntry(key: Option<Text>, value: Option<Text>)

  datatype TypedEntry = TypedEntry(key: Text, value: TypedValue)

  /** A parse tree: map entries are kept in wire order, nulls and duplicates included. */
  datatype Payload = Payload(
    scalars: seq<Option<Text>>,
    customIds: Option<seq<StringEntry>>,
    custom: Option<seq<TypedEntry>>,
    privateAttributes: Option<seq<TypedEntry>>)

  /** What a read makes of the bytes ahead of the cursor. */
  datatype Parsed<+T> = Reject | Accept(value: T, rest: seq<Byte>)

  /** One nonterminal: how it is read, how it is written, and which values it can write. */
  datatype Format<!T> = Format(
    read: seq<Byte> -> Parsed<T>,
    write: T -> seq<Byte>,
    valid: T -> bool)

  // ---- Text: a length and that many bytes, or -1 for null ----

  predicate IsText<J>(leaves: Leaves<J>, t: Text) {
    InRange(|t|, 4) && leaves.utf8(t)
  }

  predicate IsOptText<J>(leaves: Leaves<J>, t: Option<Text>) {
    t.Some? ==> IsText(leaves, t.value)
  }

  function PrintText(t: Option<Text>): (s: seq<Byte>) {
    match t
    case None => ToBeBytes(-1, 4)
    case Some(x) => ToBeBytes(|x|, 4) + x
  }

  function ParseInt(s: seq<Byte>, n: nat): (r: Parsed<int>)
    requires n > 0
    ensures r.Accept? ==> InRange(r.value, n)
  {
    if |s| < n then Reject else Accept(FromBeBytes(s[..n]), s[n..])
  }

  function ParseText<J>(leaves: Leaves<J>, s: seq<Byte>): (r: Parsed<Option<Text>>)
    ensures r.Accept? ==> |r.rest| + 4 <= |s| && IsOptText(leaves, r.value)
  {
    match ParseInt(s, 4)
    case Reject => Reject
    case Accept(len, rest) =>
      if len == -1 then Accept(None, rest)
      else if len < 0 || |rest| < len || !leaves.utf8(rest[..len]) then Reject
      else Accept(Some(rest[..len]), rest[len..])
  }

  /** A null is not allowed here: the decoder's double question mark. */
  function ParseSomeText<J>(leaves: Leaves<J>, s: seq<Byte>): (r: Parsed<Text>)
    ensures r.Accept? ==> |r.rest| + 4 <= |s| && IsText(leaves, r.value)
  {
    match ParseText(leaves, s)
    case Reject => Reject
    case Accept(t, rest) => if t.None? then Reject else Accept(t.value, rest)
  }

  // ---- Tagged values ----

  predicate IsValue<J>(leaves: Leaves<J>, v: TypedValue) {
    match v
    case StringValue(t) => IsText(leaves, t)
    case TrueValue => true
    case FalseValue => true
    case IntValue(i) => InRange(i, 8)
    case FloatValue(bits) => |bits| == 8
    case JsonValue(t) => IsText(leaves, t) && leaves.json(t).Some?
  }

  function TagOf(v: TypedValue): (tag: Byte) {
    match v
    case StringValue(_) => TAG_STRING
    case TrueValue => TAG_BOOL_TRUE
    case FalseValue => TAG_BOOL_FALSE
    case IntValue(_) => TAG_I64
    case FloatValue(_) => TAG_F64
    case JsonValue(_) => TAG_JSON
  }

  function PrintUntagged(v: TypedValue): (s: seq<Byte>) {
    match v
    case StringValue(t) => PrintText(Some(t))
    case TrueValue => []
    case FalseValue => []
    case IntValue(i) => ToBeBytes(i, 8)
    case FloatValue(bits) => bits
    case JsonValue(t) => PrintText(Some(t))
  }

  function PrintValue(v: TypedValue): (s: seq<Byte>) {
    [TagOf(v)] + PrintUntagged(v)
  }

  function ParseUntagged<J>(leaves: Leaves<J>, tag: Byte, s: seq<Byte>): (r: Parsed<TypedValue>)
    ensures r.Accept? ==> |r.rest| <= |s| && IsValue(leaves, r.value)
  {
    if tag == TAG_STRING then
      match ParseSomeText(leaves, s)
      case Reject => Reject
      case Accept(t, rest) => Accept(StringValue(t), rest)
    else if tag == TAG_BOOL_TRUE then Accept(TrueValue, s)
    else if tag == TAG_BOOL_FALSE then Accept(FalseValue, s)
    else if tag == TAG_I64 then
      match ParseInt(s, 8)
      case Reject => Reject
      case Accept(i, rest) => Accept(IntValue(i), rest)
    else if tag == TAG_F64 then
      if |s| < 8 then Reject else Accept(FloatValue(s[..8]), s[8..])
    else if tag == TAG_JSON then
      match ParseSomeText(leaves, s)
      case Reject => Reject
      case Accept(t, rest) => if leaves.json(t).None? then Reject else Accept(JsonValue(t), rest)
    else Reject
  }

  function ParseValue<J>(leaves: Leaves<J>, s: seq<Byte>): (r: Parsed<TypedValue>)
    ensures r.Accept? ==> |r.rest| + 1 <= |s| && IsValue(leaves, r.value)
  {
    if s == [] then Reject else ParseUntagged(leaves, s[0], s[1..])
  }

  // ---- Map entries ----

  predicate IsStringEntry<J>(leaves: Leaves<J>, e: StringEntry) {
    IsOptText(leaves, e.key) && IsOptText(leaves, e.value)
  }

  function PrintStringEntry(e: StringEntry): (s: seq<Byte>) {
    PrintText(e.key) + PrintText(e.value)
  }

  function ParseStringEntry<J>(leaves: Leaves<J>, s: seq<Byte>): (r: Parsed<StringEntry>)
    ensures r.Accept? ==> |r.rest| + 8 <= |s| && IsStringEntry(leaves, r.value)
  {
    match ParseText(leaves, s)
    case Reject => Reject
    case Accept(key, afterKey) =>
      match ParseText(leaves, afterKey)
      case Reject => Reject
      case Accept(value, rest) => Accept(StringEntry(key, value), rest)
  }

  predicate IsTypedEntry<J>(leaves: Leaves<J>, e: TypedEntry) {
    IsText(leaves, e.key) && IsValue(leaves, e.value)
  }

  function PrintTypedEntry(e: TypedEntry): (s: seq<Byte>) {
    PrintText(Some(e.key)) + PrintValue(e.value)
  }

  function ParseTypedEntry<J>(leaves: Leaves<J>, s: seq<Byte>): (r: Parsed<TypedEntry>)
    ensures r.Accept? ==> |r.rest| + 5 <= |s| && IsTypedEntry(leaves, r.value)
  {
    match ParseSomeText(leaves, s)
    case Reject => Reject
    case Accept(key, afterKey) =>
      match ParseValue(leaves, afterKey)
      case Reject => Reject
      case Accept(value, rest) => Accept(TypedEntry(key, value), rest)
  }

  function ScalarFormat<J>(leaves: Leaves<J>): (f: Format<Option<Text>>) {
    Format(s => ParseText(leaves, s), PrintText, t => IsOptText(leaves, t))
  }

  function StringEntryFormat<J>(leaves: Leaves<J>): (f: Format<StringEntry>) {
    Format(s => ParseStringEntry(leaves, s), PrintStringEntry, e => IsStringEntry(leaves, e))
  }

  function TypedEntryFormat<J>(leaves: Leaves<J>): (f: Format<TypedEntry>) {
    Format(s => ParseTypedEntry(leaves, s), PrintTypedEntry, e => IsTypedEntry(leaves, e))
  }

  // ---- Repetition: n items, and a counted map that may be absent ----

  predicate AreItems<T>(f: Format<T>, xs: seq<T>) {
    forall i :: 0 <= i < |xs| ==> f.valid(xs[i])
  }

  function PrintItems<T>(f: Format<T>, xs: seq<T>): (s: seq<Byte>) {
    if xs == [] then [] else f.write(xs[0]) + PrintItems(f, xs[1..])
  }

  function ParseItems<T>(f: Format<T>, s: seq<Byte>, n: nat): (r: Parsed<seq<T>>)
    ensures r.Accept? ==> |r.value| == n
    decreases n
  {
    if n == 0 then Accept([], s)
    else
      match f.read(s)
      case Reject => Reject
      case Accept(x, afterFirst) =>
        match ParseItems(f, afterFirst, n - 1)
        case Reject => Reject
        case Accept(xs, rest) => Accept([x] + xs, rest)
  }

  predicate IsCounted<T>(f: Format<T>, m: Option<seq<T>>) {
    m.Some? ==> InRange(|m.value|, 4) && AreItems(f, m.value)
  }

  function PrintCounted<T>(f: Format<T>, m: Option<seq<T>>): (s: seq<Byte>) {
    match m
    case None => ToBeBytes(-1, 4)
    case Some(xs) => ToBeBytes(|xs|, 4) + PrintItems(f, xs)
  }

  function ParseCounted<T>(f: Format<T>, s: seq<Byte>): (r: Parsed<Option<seq<T>>>) {
    match ParseInt(s, 4)
    case Reject => Reject
    case Accept(count, afterCount) =>
      if count == -1 then Accept(None, afterCount)
      else if count < 0 then Reject
      else
        match ParseItems(f, afterCount, count)
        case Reject => Reject
        case Accept(xs, rest) => Accept(Some(xs), rest)
  }

  // ---- Whole payloads ----

  /** The three repeated items a payload is made of. */
  datatype Grammar = Grammar(
    scalar: Format<Option<Text>>,
    stringEntry: Format<StringEntry>,
    typedEntry: Format<TypedEntry>)

  function GrammarOf<J>(leaves: Leaves<J>): (g: Grammar) {
    Grammar(ScalarFormat(leaves), StringEntryFormat(leaves), TypedEntryFormat(leaves))
  }

  predicate IsPayload(g: Grammar, p: Payload) {
    && |p.scalars| == |SCALAR_FIELDS|
    && AreItems(g.scalar, p.scalars)
    && IsCounted(g.stringEntry, p.customIds)
    && IsCounted(g.typedEntry, p.custom)
    && IsCounted(g.typedEntry, p.privateAttributes)
  }

  function PrintBody(g: Grammar, p: Payload): (s: seq<Byte>) {
    PrintItems(g.scalar, p.scalars) + (PrintCounted(g.stringEntry, p.customIds)
      + (PrintCounted(g.typedEntry, p.custom) + PrintCounted(g.typedEntry, p.privateAttributes)))
  }

  function Print(g: Grammar, p: Payload): (s: seq<Byte>) {
    [VERSION] + PrintBody(g, p)
  }

  /** Everything after the version byte; the caller checks that nothing is left. */
  function ParseBody(g: Grammar, s: seq<Byte>): (r: Parsed<Payload>) {
    match ParseItems(g.scalar, s, |SCALAR_FIELDS|)
    case Reject => Reject
    case Accept(scalars, s1) =>
      match ParseCounted(g.stringEntry, s1)
      case Reject => Reject
      case Accept(customIds, s2) =>
        match ParseCounted(g.typedEntry, s2)
        case Reject => Reject
        case Accept(custom, s3) =>
          match ParseCounted(g.typedEntry, s3)
          case Reject => Reject
          case Accept(private, rest) => Accept(Payload(scalars, customIds, custom, private), rest)
  }

  function Parse(g: Grammar, s: seq<Byte>): (r: Option<Payload>) {
    if s == [] || s[0] != VERSION then None
    else
      match ParseBody(g, s[1..])
      case Reject => None
      case Accept(p, rest) => if rest == [] then Some(p) else None
  }
}
