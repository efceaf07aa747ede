/**
  The parser and the printer of the user payload are inverse to each other. A format is exact when
  parsing is sound (what was accepted is a value whose printing is the consumed bytes) and complete
  (a printed value is parsed back whatever bytes follow it). Exactness is proved for the leaves and
  carried through repetition and sequencing; acceptance, uniqueness, prefix-freedom and the work
  bounds are corollaries.
 */
module PayloadBijection {
  import opened Wrappers
  import opened BigEndian
  import opened PayloadGrammar

  ghost predicate Sound<T(!new)>(f: Format<T>) {
    forall s :: f.read(s).Accept? ==>
      f.valid(f.read(s).value) && s == f.write(f.read(s).value) + f.read(s).rest
  }

  ghost predicate Complete<T(!new)>(f: Format<T>) {
    forall x, rest :: f.valid(x) ==> f.read(f.write(x) + rest) == Accept(x, rest)
  }

  ghost predicate Exact<T(!new)>(f: Format<T>) {
    Sound(f) && Complete(f)
  }

  lemma Assoc(a: seq<Byte>, b: seq<Byte>, c: seq<Byte>)
    ensures a + (b + c) == a + b + c
  {
  }

  lemma FirstByte(b: Byte, x: seq<Byte>, rest: seq<Byte>)
    ensures ([b] + x + rest)[0] == b
    ensures ([b] + x + rest)[1..] == x + rest
  {
  }

  // ---- Integers and text ----

  lemma IntSound(s: seq<Byte>, n: nat)
    requires n > 0 && ParseInt(s, n).Accept?
    ensures s == ToBeBytes(ParseInt(s, n).value, n) + ParseInt(s, n).rest
  {
    EncodeDecode(s[..n]);
  }

  lemma IntComplete(v: int, n: nat, rest: seq<Byte>)
    requires n > 0 && InRange(v, n)
    ensures ParseInt(ToBeBytes(v, n) + rest, n) == Accept(v, rest)
  {
    var s := ToBeBytes(v, n) + rest;
    assert s[..n] == ToBeBytes(v, n) && s[n..] == rest;
    DecodeEncode(v, n);
  }

  lemma TextSound<J>(leaves: Leaves<J>, s: seq<Byte>)
    requires ParseText(leaves, s).Accept?
    ensures s == PrintText(ParseText(leaves, s).value) + ParseText(leaves, s).rest
  {
    IntSound(s, 4);
    var Accept(len, rest) := ParseInt(s, 4);
    if len != -1 {
      assert rest == rest[..len] + rest[len..];
      Assoc(ToBeBytes(len, 4), rest[..len], rest[len..]);
    }
  }

  lemma TextComplete<J>(leaves: Leaves<J>, t: Option<Text>, rest: seq<Byte>)
    requires IsOptText(leaves, t)
    ensures ParseText(leaves, PrintText(t) + rest) == Accept(t, rest)
  {
    match t
    case None => IntComplete(-1, 4, rest);
    case Some(x) =>
      IntComplete(|x|, 4, x + rest);
      Assoc(ToBeBytes(|x|, 4), x, rest);
      assert (x + rest)[..|x|] == x && (x + rest)[|x|..] == rest;
  }

  // ---- Tagged values ----

  lemma UntaggedSound<J>(leaves: Leaves<J>, tag: Byte, s: seq<Byte>)
    requires ParseUntagged(leaves, tag, s).Accept?
    ensures tag == TagOf(ParseUntagged(leaves, tag, s).value)
    ensures s == PrintUntagged(ParseUntagged(leaves, tag, s).value) + ParseUntagged(leaves, tag, s).rest
  {
    if tag == TAG_STRING || tag == TAG_JSON {
      TextSound(leaves, s);
    } else if tag == TAG_I64 {
      IntSound(s, 8);
    }
  }

  lemma UntaggedComplete<J>(leaves: Leaves<J>, v: TypedValue, rest: seq<Byte>)
    requires IsValue(leaves, v)
    ensures ParseUntagged(leaves, TagOf(v), PrintUntagged(v) + rest) == Accept(v, rest)
  {
    match v
    case StringValue(t) => TextComplete(leaves, Some(t), rest);
    case TrueValue => assert [] + rest == rest;
    case FalseValue => assert [] + rest == rest;
    case IntValue(i) => IntComplete(i, 8, rest);
    case FloatValue(bits) => assert (bits + rest)[..8] == bits && (bits + rest)[8..] == rest;
    case JsonValue(t) => TextComplete(leaves, Some(t), rest);
  }

  lemma ValueSound<J>(leaves: Leaves<J>, s: seq<Byte>)
    requires ParseValue(leaves, s).Accept?
    ensures s == PrintValue(ParseValue(leaves, s).value) + ParseValue(leaves, s).rest
  {
    hide ParseUntagged, PrintUntagged, TagOf;
    UntaggedSound(leaves, s[0], s[1..]);
    var Accept(v, rest) := ParseValue(leaves, s);
    assert s == [s[0]] + s[1..];
    Assoc([s[0]], PrintUntagged(v), rest);
  }

  lemma ValueComplete<J>(leaves: Leaves<J>, v: TypedValue, rest: seq<Byte>)
    requires IsValue(leaves, v)
    ensures ParseValue(leaves, PrintValue(v) + rest) == Accept(v, rest)
  {
    hide ParseUntagged, PrintUntagged, TagOf;
    UntaggedComplete(leaves, v, rest);
    FirstByte(TagOf(v), PrintUntagged(v), rest);
  }

  // ---- The three repeated items are exact formats ----

  lemma ScalarExact<J(!new)>(leaves: Leaves<J>)
    ensures Exact(ScalarFormat(leaves))
  {
    var f := ScalarFormat(leaves);
    forall s | f.read(s).Accept?
      ensures f.valid(f.read(s).value) && s == f.write(f.read(s).value) + f.read(s).rest
    {
      TextSound(leaves, s);
    }
    forall t, rest | f.valid(t)
      ensures f.read(f.write(t) + rest) == Accept(t, rest)
    {
      TextComplete(leaves, t, rest);
    }
  }

  lemma StringEntryExact<J(!new)>(leaves: Leaves<J>)
    ensures Exact(StringEntryFormat(leaves))
  {
    var f := StringEntryFormat(leaves);
    forall s | f.read(s).Accept?
      ensures f.valid(f.read(s).value) && s == f.write(f.read(s).value) + f.read(s).rest
    {
      StringEntrySound(leaves, s);
    }
    forall e, rest | f.valid(e)
      ensures f.read(f.write(e) + rest) == Accept(e, rest)
    {
      StringEntryComplete(leaves, e, rest);
    }
  }

  lemma StringEntrySound<J>(leaves: Leaves<J>, s: seq<Byte>)
    requires ParseStringEntry(leaves, s).Accept?
    ensures s == PrintStringEntry(ParseStringEntry(leaves, s).value) + ParseStringEntry(leaves, s).rest
  {
    TextSound(leaves, s);
    TextSound(leaves, ParseText(leaves, s).rest);
    var Accept(e, rest) := ParseStringEntry(leaves, s);
    Assoc(PrintText(e.key), PrintText(e.value), rest);
  }

  lemma StringEntryComplete<J>(leaves: Leaves<J>, e: StringEntry, rest: seq<Byte>)
    requires IsStringEntry(leaves, e)
    ensures ParseStringEntry(leaves, PrintStringEntry(e) + rest) == Accept(e, rest)
  {
    Assoc(PrintText(e.key), PrintText(e.value), rest);
    TextComplete(leaves, e.key, PrintText(e.value) + rest);
    TextComplete(leaves, e.value, rest);
  }

  lemma TypedEntryExact<J(!new)>(leaves: Leaves<J>)
    ensures Exact(TypedEntryFormat(leaves))
  {
    var f := TypedEntryFormat(leaves);
    forall s | f.read(s).Accept?
      ensures f.valid(f.read(s).value) && s == f.write(f.read(s).value) + f.read(s).rest
    {
      TypedEntrySound(leaves, s);
    }
    forall e, rest | f.valid(e)
      ensures f.read(f.write(e) + rest) == Accept(e, rest)
    {
      TypedEntryComplete(leaves, e, rest);
    }
  }

  lemma TypedEntrySound<J>(leaves: Leaves<J>, s: seq<Byte>)
    requires ParseTypedEntry(leaves, s).Accept?
    ensures s == PrintTypedEntry(ParseTypedEntry(leaves, s).value) + ParseTypedEntry(leaves, s).rest
  {
    TextSound(leaves, s);
    ValueSound(leaves, ParseText(leaves, s).rest);
    var Accept(e, rest) := ParseTypedEntry(leaves, s);
    Assoc(PrintText(Some(e.key)), PrintValue(e.value), rest);
  }

  lemma TypedEntryComplete<J>(leaves: Leaves<J>, e: TypedEntry, rest: seq<Byte>)
    requires IsTypedEntry(leaves, e)
    ensures ParseTypedEntry(leaves, PrintTypedEntry(e) + rest) == Accept(e, rest)
  {
    Assoc(PrintText(Some(e.key)), PrintValue(e.value), rest);
    TextComplete(leaves, Some(e.key), PrintValue(e.value) + rest);
    ValueComplete(leaves, e.value, rest);
  }

  // ---- Repetition ----

  lemma {:induction false} ItemsSound<T(!new)>(f: Format<T>, s: seq<Byte>, n: nat)
    requires Sound(f) && ParseItems(f, s, n).Accept?
    ensures AreItems(f, ParseItems(f, s, n).value)
    ensures s == PrintItems(f, ParseItems(f, s, n).value) + ParseItems(f, s, n).rest
    decreases n
  {
    if n > 0 {
      var Accept(x, after) := f.read(s);
      ItemsSound(f, after, n - 1);
      var Accept(xs, rest) := ParseItems(f, after, n - 1);
      assert ([x] + xs)[1..] == xs;
      Assoc(f.write(x), PrintItems(f, xs), rest);
    }
  }

  lemma {:induction false} ItemsComplete<T(!new)>(f: Format<T>, xs: seq<T>, rest: seq<Byte>)
    requires Complete(f) && AreItems(f, xs)
    ensures ParseItems(f, PrintItems(f, xs) + rest, |xs|) == Accept(xs, rest)
  {
    if xs == [] {
      assert [] + rest == rest;
    } else {
      var more := PrintItems(f, xs[1..]);
      Assoc(f.write(xs[0]), more, rest);
      assert f.read(f.write(xs[0]) + (more + rest)) == Accept(xs[0], more + rest);
      ItemsComplete(f, xs[1..], rest);
      assert xs == [xs[0]] + xs[1..];
    }
  }

  lemma CountedSound<T(!new)>(f: Format<T>, s: seq<Byte>)
    requires Sound(f) && ParseCounted(f, s).Accept?
    ensures IsCounted(f, ParseCounted(f, s).value)
    ensures s == PrintCounted(f, ParseCounted(f, s).value) + ParseCounted(f, s).rest
  {
    IntSound(s, 4);
    var Accept(count, after) := ParseInt(s, 4);
    if count != -1 {
      ItemsSound(f, after, count);
      var Accept(xs, rest) := ParseItems(f, after, count);
      Assoc(ToBeBytes(count, 4), PrintItems(f, xs), rest);
    }
  }

  lemma CountedComplete<T(!new)>(f: Format<T>, m: Option<seq<T>>, rest: seq<Byte>)
    requires Complete(f) && IsCounted(f, m)
    ensures ParseCounted(f, PrintCounted(f, m) + rest) == Accept(m, rest)
  {
    match m
    case None => IntComplete(-1, 4, rest);
    case Some(xs) =>
      Assoc(ToBeBytes(|xs|, 4), PrintItems(f, xs), rest);
      IntComplete(|xs|, 4, PrintItems(f, xs) + rest);
      ItemsComplete(f, xs, rest);
  }

  // ---- Whole payloads ----

  ghost predicate ExactGrammar(g: Grammar) {
    Exact(g.scalar) && Exact(g.stringEntry) && Exact(g.typedEntry)
  }

  /** The format of user payloads is exact, for every UTF-8 check and JSON parser. */
  lemma UserGrammarExact<J(!new)>(leaves: Leaves<J>)
    ensures ExactGrammar(GrammarOf(leaves))
  {
    ScalarExact(leaves);
    StringEntryExact(leaves);
    TypedEntryExact(leaves);
  }

  lemma BodySound(g: Grammar, s: seq<Byte>)
    requires ExactGrammar(g) && ParseBody(g, s).Accept?
    ensures IsPayload(g, ParseBody(g, s).value)
    ensures s == PrintBody(g, ParseBody(g, s).value) + ParseBody(g, s).rest
  {
    ItemsSound(g.scalar, s, |SCALAR_FIELDS|);
    var s1 := ParseItems(g.scalar, s, |SCALAR_FIELDS|).rest;
    CountedSound(g.stringEntry, s1);
    var s2 := ParseCounted(g.stringEntry, s1).rest;
    CountedSound(g.typedEntry, s2);
    var s3 := ParseCounted(g.typedEntry, s2).rest;
    CountedSound(g.typedEntry, s3);
    var Accept(p, rest) := ParseBody(g, s);
    Assoc4(PrintItems(g.scalar, p.scalars), PrintCounted(g.stringEntry, p.customIds),
           PrintCounted(g.typedEntry, p.custom), PrintCounted(g.typedEntry, p.privateAttributes), rest);
  }

  lemma BodyComplete(g: Grammar, p: Payload, rest: seq<Byte>)
    requires ExactGrammar(g) && IsPayload(g, p)
    ensures ParseBody(g, PrintBody(g, p) + rest) == Accept(p, rest)
  {
    var b := PrintCounted(g.stringEntry, p.customIds);
    var c, d := PrintCounted(g.typedEntry, p.custom), PrintCounted(g.typedEntry, p.privateAttributes);
    Assoc4(PrintItems(g.scalar, p.scalars), b, c, d, rest);
    ItemsComplete(g.scalar, p.scalars, b + (c + (d + rest)));
    CountedComplete(g.stringEntry, p.customIds, c + (d + rest));
    CountedComplete(g.typedEntry, p.custom, d + rest);
    CountedComplete(g.typedEntry, p.privateAttributes, rest);
  }

  lemma Assoc4(a: seq<Byte>, b: seq<Byte>, c: seq<Byte>, d: seq<Byte>, rest: seq<Byte>)
    ensures a + (b + (c + (d + rest))) == a + (b + (c + d)) + rest
  {
    Assoc(c, d, rest);
    Assoc(b, c + d, rest);
    Assoc(a, b + (c + d), rest);
  }

  lemma ParsePrintThenMore(g: Grammar, p: Payload, more: seq<Byte>)
    requires ExactGrammar(g) && IsPayload(g, p)
    ensures Parse(g, Print(g, p) + more) == if more == [] then Some(p) else None
  {
    hide ParseBody, PrintBody, IsPayload;
    BodyComplete(g, p, more);
    FirstByte(VERSION, PrintBody(g, p), more);
  }

  /** A printed tree is decoded to itself. */
  lemma ParsePrint(g: Grammar, p: Payload)
    requires ExactGrammar(g) && IsPayload(g, p)
    ensures Parse(g, Print(g, p)) == Some(p)
  {
    ParsePrintThenMore(g, p, []);
    assert Print(g, p) + [] == Print(g, p);
  }

  /** Whatever is accepted is a tree of the grammar, and printing that tree gives the same bytes back. */
  lemma PrintParse(g: Grammar, s: seq<Byte>)
    requires ExactGrammar(g) && Parse(g, s).Some?
    ensures IsPayload(g, Parse(g, s).value)
    ensures Print(g, Parse(g, s).value) == s
  {
    hide ParseBody, PrintBody, IsPayload;
    BodySound(g, s[1..]);
    var p := Parse(g, s).value;
    assert PrintBody(g, p) + [] == PrintBody(g, p);
    assert s == [s[0]] + s[1..];
  }

  /** Acceptance is membership in the grammar's language. */
  lemma AcceptsExactlyTheLanguage(g: Grammar, s: seq<Byte>)
    requires ExactGrammar(g)
    ensures Parse(g, s).Some? <==> exists p :: IsPayload(g, p) && Print(g, p) == s
  {
    if Parse(g, s).Some? {
      PrintParse(g, s);
    }
    forall p | IsPayload(g, p) && Print(g, p) == s
      ensures Parse(g, s).Some?
    {
      ParsePrint(g, p);
    }
  }

  /** The grammar is unambiguous. */
  lemma TreeIsUnique(g: Grammar, p: Payload, q: Payload)
    requires ExactGrammar(g) && IsPayload(g, p) && IsPayload(g, q)
    requires Print(g, p) == Print(g, q)
    ensures p == q
  {
    ParsePrint(g, p);
    ParsePrint(g, q);
  }

  /** No proper prefix of an accepted payload is accepted, and no proper extension of one. */
  lemma PrefixFree(g: Grammar, s: seq<Byte>, more: seq<Byte>)
    requires ExactGrammar(g) && Parse(g, s).Some? && Parse(g, s + more).Some?
    ensures more == []
  {
    PrintParse(g, s);
    ParsePrintThenMore(g, Parse(g, s).value, more);
  }

  /**
    All of the above for user payloads, with no assumption left: on every byte string the parser and
    the printer are inverse, and acceptance is prefix-free.
   */
  lemma UserPayloadBijection<J(!new)>(leaves: Leaves<J>, s: seq<Byte>, p: Payload)
    ensures var g := GrammarOf(leaves);
            Parse(g, s) == Some(p) <==> IsPayload(g, p) && Print(g, p) == s
    ensures var g := GrammarOf(leaves);
            forall more :: Parse(g, s).Some? && Parse(g, s + more).Some? ==> more == []
  {
    hide Parse, Print, IsPayload, GrammarOf;
    var g := GrammarOf(leaves);
    UserGrammarExact(leaves);
    if Parse(g, s) == Some(p) {
      PrintParse(g, s);
    }
    if IsPayload(g, p) {
      ParsePrint(g, p);
    }
    forall more | Parse(g, s).Some? && Parse(g, s + more).Some?
      ensures more == []
    {
      PrefixFree(g, s, more);
    }
  }

  // ---- Work ----

  /** Every accepted item of the format consumes at least `least` bytes. */
  ghost predicate ConsumesAtLeast<T>(f: Format<T>, least: nat) {
    forall s :: f.read(s).Accept? ==> |f.read(s).rest| + least <= |s|
  }

  lemma {:induction false} ItemsConsume<T>(f: Format<T>, least: nat, s: seq<Byte>, n: nat)
    requires ConsumesAtLeast(f, least) && ParseItems(f, s, n).Accept?
    ensures |ParseItems(f, s, n).rest| + least * n <= |s|
    decreases n
  {
    if n > 0 {
      ItemsConsume(f, least, f.read(s).rest, n - 1);
      assert least * n == least * (n - 1) + least;
    }
  }

  /** A declared count that the bytes ahead cannot carry is rejected, whatever those bytes are. */
  lemma OversizedCountsRejected<J(!new)>(leaves: Leaves<J>, s: seq<Byte>)
    requires |s| >= 4
    ensures 8 * FromBeBytes(s[..4]) > |s| - 4 ==> ParseCounted(StringEntryFormat(leaves), s) == Reject
    ensures 5 * FromBeBytes(s[..4]) > |s| - 4 ==> ParseCounted(TypedEntryFormat(leaves), s) == Reject
  {
    var count := FromBeBytes(s[..4]);
    if count >= 0 {
      var ef, tf := StringEntryFormat(leaves), TypedEntryFormat(leaves);
      if ParseItems(ef, s[4..], count).Accept? {
        ItemsConsume(ef, 8, s[4..], count);
      }
      if ParseItems(tf, s[4..], count).Accept? {
        ItemsConsume(tf, 5, s[4..], count);
      }
    }
  }
}
