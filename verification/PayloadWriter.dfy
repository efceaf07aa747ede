/**
  The Java encoder of the user payload: a growable byte buffer written in one pass, with the count of
  each map reserved up front and patched in afterwards. It is proved to produce exactly the grammar's
  printing of the entries it kept, and to fail only when that printing exceeds the largest array.
 */
module PayloadWriter {
  import opened Wrappers
  import opened BigEndian
  import opened PayloadGrammar
  import opened PayloadBijection
  import opened PayloadMeaning

  const MAX_CAPACITY: nat := 0x7fff_ffff - 8
  const INITIAL_CAPACITY: nat := 256

  /** Map entries as the encoder meets them: null keys, and values that are null or not encodable. */
  datatype JavaEntry<+V> = JavaEntry(key: Option<Text>, value: Option<V>)

  datatype JavaUser = JavaUser(
    scalars: seq<Option<Text>>,
    customIds: Option<seq<JavaEntry<Text>>>,
    custom: Option<seq<JavaEntry<TypedValue>>>,
    privateAttributes: Option<seq<JavaEntry<TypedValue>>>)

  /** What is written for one entry of either kind of map; skipped when a part is missing. */
  function Kept<V, E>(es: seq<JavaEntry<V>>, entry: (Text, V) -> E): (r: seq<E>) {
    if es == [] then []
    else
      var front, last := Kept(es[..|es| - 1], entry), es[|es| - 1];
      if last.key.None? || last.value.None? then front else front + [entry(last.key.value, last.value.value)]
  }

  function StringEntryOf(k: Text, v: Text): (e: StringEntry) {
    StringEntry(Some(k), Some(v))
  }

  function KeptStrings(m: Option<seq<JavaEntry<Text>>>): (r: Option<seq<StringEntry>>) {
    if m.None? then None else Some(Kept(m.value, StringEntryOf))
  }

  function TypedEntryOf(k: Text, v: TypedValue): (e: TypedEntry) {
    TypedEntry(k, v)
  }

  function KeptTyped(m: Option<seq<JavaEntry<TypedValue>>>): (r: Option<seq<TypedEntry>>) {
    if m.None? then None else Some(Kept(m.value, TypedEntryOf))
  }

  /** The parse tree the encoder writes. */
  function TreeOf(u: JavaUser): (p: Payload) {
    Payload(u.scalars, KeptStrings(u.customIds), KeptTyped(u.custom), KeptTyped(u.privateAttributes))
  }

  // ---- Printing grows with each item ----

  lemma {:induction false} PrintItemsSnoc<T>(f: Format<T>, xs: seq<T>, x: T)
    ensures PrintItems(f, xs + [x]) == PrintItems(f, xs) + f.write(x)
  {
    if xs == [] {
      assert [x][1..] == [];
      assert PrintItems(f, [x]) == f.write(x) + [];
      assert [] + [x] == [x];
    } else {
      PrintItemsSnoc(f, xs[1..], x);
      assert (xs + [x])[1..] == xs[1..] + [x];
    }
  }

  lemma {:induction false} PrintItemsGrow<V, E>(f: Format<E>, es: seq<JavaEntry<V>>, entry: (Text, V) -> E, i: nat)
    requires i <= |es|
    ensures |PrintItems(f, Kept(es[..i], entry))| <= |PrintItems(f, Kept(es, entry))|
    decreases |es|
  {
    if i == |es| {
      assert es[..i] == es;
    } else {
      var front, last := es[..|es| - 1], es[|es| - 1];
      assert front[..i] == es[..i];
      PrintItemsGrow(f, front, entry, i);
      if last.key.Some? && last.value.Some? {
        PrintItemsSnoc(f, Kept(front, entry), entry(last.key.value, last.value.value));
      }
    }
  }

  class Writer {
    var buf: array<Byte>
    var pos: nat

    constructor ()
      ensures Valid() && Contents() == [] && fresh(buf) && buf.Length == 256
    {
      buf := new Byte[INITIAL_CAPACITY](_ => 0);
      pos := 0;
    }

    ghost predicate Valid()
      reads this
    {
      pos <= buf.Length <= MAX_CAPACITY
    }

    ghost function Contents(): (s: seq<Byte>)
      requires Valid()
      reads this, buf
      ensures |s| == pos
    {
      buf[..pos]
    }

    /** Makes room for `extra` more bytes, or throws (here: returns false) when no array could hold them. */
    method Ensure(extra: nat) returns (ok: bool)
      requires Valid()
      modifies this`buf
      ensures Valid() && Contents() == old(Contents())
      ensures buf == old(buf) || fresh(buf)
      ensures ok <==> old(pos) + extra <= MAX_CAPACITY
      ensures ok ==> pos + extra <= buf.Length
    {
      var needed := pos + extra;
      if needed <= buf.Length {
        return true;
      }
      if needed > MAX_CAPACITY {
        return false;
      }
      var doubled := if buf.Length * 2 > needed then buf.Length * 2 else needed;
      var newLen := if doubled < MAX_CAPACITY then doubled else MAX_CAPACITY;
      var next := new Byte[newLen](_ => 0);
      forall i | 0 <= i < pos {
        next[i] := buf[i];
      }
      assert next[..pos] == buf[..pos];
      buf := next;
      ok := true;
    }

    method WriteByte(value: Byte) returns (ok: bool)
      requires Valid()
      modifies this, buf
      ensures Valid() && (buf == old(buf) || fresh(buf))
      ensures ok <==> old(pos) + 1 <= MAX_CAPACITY
      ensures ok ==> Contents() == old(Contents()) + [value]
    {
      ok := Ensure(1);
      if ok {
        buf[pos] := value;
        pos := pos + 1;
        assert buf[..pos] == buf[..pos - 1] + [value];
      }
    }

    /** The bytes of a block copied in at once: System.arraycopy and the position moved behind it. */
    method WriteBlock(block: seq<Byte>) returns (ok: bool)
      requires Valid()
      modifies this, buf
      ensures Valid() && (buf == old(buf) || fresh(buf))
      ensures ok <==> old(pos) + |block| <= MAX_CAPACITY
      ensures ok ==> Contents() == old(Contents()) + block
    {
      ok := Ensure(|block|);
      if ok {
        forall i | 0 <= i < |block| {
          buf[pos + i] := block[i];
        }
        pos := pos + |block|;
        assert buf[..pos] == buf[..old(pos)] + block;
        assert buf[..old(pos)] == old(Contents());
      }
    }

    /** writeInt and writeLong: the n low bytes, highest first, each by an unsigned right shift. */
    method WriteInteger(value: int, n: nat) returns (ok: bool)
      requires Valid() && n > 0
      modifies this, buf
      ensures Valid() && (buf == old(buf) || fresh(buf))
      ensures ok <==> old(pos) + n <= MAX_CAPACITY
      ensures ok ==> Contents() == old(Contents()) + ToBeBytes(value, n)
    {
      ok := Ensure(n);
      if !ok {
        return;
      }
      var u := Wrap(value, n);
      ghost var room := buf;
      for i := 0 to n
        invariant Valid() && buf == room && old(pos) + n <= buf.Length
        invariant Contents() == old(Contents()) + ToBeBytes(value, n)[..i]
      {
        DigitAt(u, n, i);
        buf[pos] := ShiftRight(u, n - 1 - i) % 256;
        pos := pos + 1;
        assert buf[..pos] == buf[..pos - 1] + [ToBeBytes(value, n)[i]];
        assert ToBeBytes(value, n)[..i + 1] == ToBeBytes(value, n)[..i] + [ToBeBytes(value, n)[i]];
      }
      assert ToBeBytes(value, n)[..n] == ToBeBytes(value, n);
    }

    /** Overwrites the four reserved bytes at `at`, leaving everything else in place. */
    method PatchInt(at: nat, value: int)
      requires Valid() && at + 4 <= pos
      modifies buf
      ensures Valid()
      ensures Contents() == old(Contents())[..at] + ToBeBytes(value, 4) + old(Contents())[at + 4..]
    {
      var u := Wrap(value, 4);
      ghost var written, digits := Contents(), ToBeBytes(value, 4);
      assert written[..at] + digits[..0] + written[at..] == written;
      for i := 0 to 4
        invariant Valid()
        invariant Contents() == written[..at] + digits[..i] + written[at + i..]
      {
        DigitAt(u, 4, i);
        hide ToBeBytes, Digits, ShiftRight;
        ghost var now := Contents();
        buf[at + i] := ShiftRight(u, 3 - i) % 256;
        assert Contents() == now[at + i := digits[i]];
        BytePatched(written, digits, at, i);
      }
      assert digits[..4] == digits;
    }

    method WriteString(value: Option<Text>) returns (ok: bool)
      requires Valid()
      modifies this, buf
      ensures Valid() && (buf == old(buf) || fresh(buf))
      ensures ok <==> old(pos) + |PrintText(value)| <= MAX_CAPACITY
      ensures ok ==> Contents() == old(Contents()) + PrintText(value)
    {
      if value.None? {
        ok := WriteInteger(-1, 4);
        return;
      }
      ok := WriteInteger(|value.value|, 4);
      if ok {
        ok := WriteBlock(value.value);
      }
    }

    method WriteUntagged(value: TypedValue) returns (ok: bool)
      requires Valid()
      modifies this, buf
      ensures Valid() && (buf == old(buf) || fresh(buf))
      ensures ok <==> old(pos) + |PrintUntagged(value)| <= MAX_CAPACITY
      ensures ok ==> Contents() == old(Contents()) + PrintUntagged(value)
    {
      hide PrintText;
      ok := true;
      match value
      case StringValue(t) => ok := WriteString(Some(t));
      case TrueValue =>
      case FalseValue =>
      case IntValue(i) => ok := WriteInteger(i, 8);
      case FloatValue(bits) => ok := WriteBlock(bits);
      case JsonValue(t) => ok := WriteString(Some(t));
    }

    method WriteTaggedValue(value: TypedValue) returns (ok: bool)
      requires Valid()
      modifies this, buf
      ensures Valid() && (buf == old(buf) || fresh(buf))
      ensures ok <==> old(pos) + |PrintValue(value)| <= MAX_CAPACITY
      ensures ok ==> Contents() == old(Contents()) + PrintValue(value)
    {
      hide PrintUntagged, TagOf;
      ok := WriteByte(TagOf(value));
      if ok {
        ok := WriteUntagged(value);
      }
    }

    method WriteStringEntry(e: StringEntry) returns (ok: bool)
      requires Valid()
      modifies this, buf
      ensures Valid() && (buf == old(buf) || fresh(buf))
      ensures ok <==> old(pos) + |PrintStringEntry(e)| <= MAX_CAPACITY
      ensures ok ==> Contents() == old(Contents()) + PrintStringEntry(e)
    {
      hide PrintText;
      ok := WriteString(e.key);
      if ok {
        ok := WriteString(e.value);
      }
    }

    method WriteTypedEntry(e: TypedEntry) returns (ok: bool)
      requires Valid()
      modifies this, buf
      ensures Valid() && (buf == old(buf) || fresh(buf))
      ensures ok <==> old(pos) + |PrintTypedEntry(e)| <= MAX_CAPACITY
      ensures ok ==> Contents() == old(Contents()) + PrintTypedEntry(e)
    {
      hide PrintText, PrintValue;
      ok := WriteString(Some(e.key));
      if ok {
        ok := WriteTaggedValue(e.value);
      }
    }

    /** The single pass over a string map: incomplete entries are skipped and not counted. */
    method WriteStringEntries<J>(ghost leaves: Leaves<J>, es: seq<JavaEntry<Text>>) returns (ok: bool, count: nat)
      requires Valid()
      modifies this, buf
      ensures Valid() && (buf == old(buf) || fresh(buf))
      ensures ok <==> old(pos) + |PrintItems(StringEntryFormat(leaves), Kept(es, StringEntryOf))| <= MAX_CAPACITY
      ensures ok ==> count == |Kept(es, StringEntryOf)|
      ensures ok ==> Contents() == old(Contents()) + PrintItems(StringEntryFormat(leaves), Kept(es, StringEntryOf))
    {
      hide Kept, PrintItems, PrintStringEntry;
      EntriesStart(StringEntryFormat(leaves), es, StringEntryOf);
      ghost var f := StringEntryFormat(leaves);
      ok, count := true, 0;
      for i := 0 to |es|
        invariant Valid() && (buf == old(buf) || fresh(buf))
        invariant Contents() == old(Contents()) + PrintItems(f, Kept(es[..i], StringEntryOf))
        invariant count == |Kept(es[..i], StringEntryOf)|
      {
        EntriesStep(f, es, StringEntryOf, i);
        if es[i].key.None? || es[i].value.None? {
          continue;
        }
        var e := StringEntryOf(es[i].key.value, es[i].value.value);
        ok := WriteStringEntry(e);
        if !ok {
          PrintItemsGrow(f, es, StringEntryOf, i + 1);
          return;
        }
        count := count + 1;
      }
      assert es[..|es|] == es;
    }

    /** The single pass over a typed map: incomplete entries are skipped and not counted. */
    method WriteTypedEntries<J>(ghost leaves: Leaves<J>, es: seq<JavaEntry<TypedValue>>) returns (ok: bool, count: nat)
      requires Valid()
      modifies this, buf
      ensures Valid() && (buf == old(buf) || fresh(buf))
      ensures ok <==> old(pos) + |PrintItems(TypedEntryFormat(leaves), Kept(es, TypedEntryOf))| <= MAX_CAPACITY
      ensures ok ==> count == |Kept(es, TypedEntryOf)|
      ensures ok ==> Contents() == old(Contents()) + PrintItems(TypedEntryFormat(leaves), Kept(es, TypedEntryOf))
    {
      hide Kept, PrintItems, PrintTypedEntry;
      EntriesStart(TypedEntryFormat(leaves), es, TypedEntryOf);
      ghost var f := TypedEntryFormat(leaves);
      ok, count := true, 0;
      for i := 0 to |es|
        invariant Valid() && (buf == old(buf) || fresh(buf))
        invariant Contents() == old(Contents()) + PrintItems(f, Kept(es[..i], TypedEntryOf))
        invariant count == |Kept(es[..i], TypedEntryOf)|
      {
        EntriesStep(f, es, TypedEntryOf, i);
        if es[i].key.None? || es[i].value.None? {
          continue;
        }
        var e := TypedEntryOf(es[i].key.value, es[i].value.value);
        ok := WriteTypedEntry(e);
        if !ok {
          PrintItemsGrow(f, es, TypedEntryOf, i + 1);
          return;
        }
        count := count + 1;
      }
      assert es[..|es|] == es;
    }

    /** Reserve the count, write the entries, patch the count in. */
    method WriteStringMap<J>(ghost leaves: Leaves<J>, m: Option<seq<JavaEntry<Text>>>) returns (ok: bool)
      requires Valid()
      modifies this, buf
      ensures Valid() && (buf == old(buf) || fresh(buf))
      ensures ok <==> old(pos) + |PrintCounted(StringEntryFormat(leaves), KeptStrings(m))| <= MAX_CAPACITY
      ensures ok ==> Contents() == old(Contents()) + PrintCounted(StringEntryFormat(leaves), KeptStrings(m))
    {
      hide PrintItems, Kept, StringEntryFormat, ToBeBytes;
      if m.None? {
        ok := WriteInteger(-1, 4);
        return;
      }
      var countPos := pos;
      ok := WriteInteger(0, 4);
      if !ok {
        return;
      }
      var count: nat;
      ok, count := WriteStringEntries(leaves, m.value);
      if ok {
        PatchInt(countPos, count);
        ghost var items := PrintItems(StringEntryFormat(leaves), Kept(m.value, StringEntryOf));
        CountPatched(old(Contents()), ToBeBytes(0, 4), ToBeBytes(count, 4), items);
      }
    }

    /** Reserve the count, write the entries, patch the count in. */
    method WriteTypedMap<J>(ghost leaves: Leaves<J>, m: Option<seq<JavaEntry<TypedValue>>>) returns (ok: bool)
      requires Valid()
      modifies this, buf
      ensures Valid() && (buf == old(buf) || fresh(buf))
      ensures ok <==> old(pos) + |PrintCounted(TypedEntryFormat(leaves), KeptTyped(m))| <= MAX_CAPACITY
      ensures ok ==> Contents() == old(Contents()) + PrintCounted(TypedEntryFormat(leaves), KeptTyped(m))
    {
      hide PrintItems, Kept, TypedEntryFormat, ToBeBytes;
      if m.None? {
        ok := WriteInteger(-1, 4);
        return;
      }
      var countPos := pos;
      ok := WriteInteger(0, 4);
      if !ok {
        return;
      }
      var count: nat;
      ok, count := WriteTypedEntries(leaves, m.value);
      if ok {
        PatchInt(countPos, count);
        ghost var items := PrintItems(TypedEntryFormat(leaves), Kept(m.value, TypedEntryOf));
        CountPatched(old(Contents()), ToBeBytes(0, 4), ToBeBytes(count, 4), items);
      }
    }

    method WriteScalars<J>(ghost leaves: Leaves<J>, ts: seq<Option<Text>>) returns (ok: bool)
      requires Valid()
      modifies this, buf
      ensures Valid() && (buf == old(buf) || fresh(buf))
      ensures ok <==> old(pos) + |PrintItems(ScalarFormat(leaves), ts)| <= MAX_CAPACITY
      ensures ok ==> Contents() == old(Contents()) + PrintItems(ScalarFormat(leaves), ts)
    {
      hide PrintText;
      ghost var f := ScalarFormat(leaves);
      assert PrintItems(f, ts[..0]) == [];
      hide PrintItems;
      ok := true;
      for i := 0 to |ts|
        invariant Valid() && (buf == old(buf) || fresh(buf))
        invariant Contents() == old(Contents()) + PrintItems(f, ts[..i])
      {
        assert ts[..i + 1] == ts[..i] + [ts[i]];
        PrintItemsSnoc(f, ts[..i], ts[i]);
        ok := WriteString(ts[i]);
        if !ok {
          PrintPrefix(f, ts, i + 1);
          return;
        }
      }
      assert ts[..|ts|] == ts;
    }
  }

  /** One more byte of a patch. */
  lemma BytePatched(written: seq<Byte>, patch: seq<Byte>, at: nat, i: nat)
    requires i < |patch| && at + |patch| <= |written|
    ensures (written[..at] + patch[..i] + written[at + i..])[at + i := patch[i]]
            == written[..at] + patch[..i + 1] + written[at + i + 1..]
  {
  }

  /** Replacing a reserved count leaves what was written around it. */
  lemma CountPatched(start: seq<Byte>, reserved: seq<Byte>, count: seq<Byte>, items: seq<Byte>)
    requires |reserved| == |count| == 4
    ensures var written := start + reserved + items;
            written[..|start|] + count + written[|start| + 4..] == start + (count + items)
  {
  }

  lemma KeptSnoc<V, E>(es: seq<JavaEntry<V>>, entry: (Text, V) -> E, i: nat)
    requires i < |es|
    ensures Kept(es[..i + 1], entry) ==
            if es[i].key.None? || es[i].value.None? then Kept(es[..i], entry)
            else Kept(es[..i], entry) + [entry(es[i].key.value, es[i].value.value)]
  {
    assert es[..i + 1][..i] == es[..i];
  }

  lemma EntriesStart<V, E>(f: Format<E>, es: seq<JavaEntry<V>>, entry: (Text, V) -> E)
    ensures Kept(es[..0], entry) == [] && PrintItems(f, Kept(es[..0], entry)) == []
  {
  }

  lemma EntriesStep<V, E>(f: Format<E>, es: seq<JavaEntry<V>>, entry: (Text, V) -> E, i: nat)
    requires i < |es|
    ensures if es[i].key.None? || es[i].value.None? then Kept(es[..i + 1], entry) == Kept(es[..i], entry)
            else
              && |Kept(es[..i + 1], entry)| == |Kept(es[..i], entry)| + 1
              && PrintItems(f, Kept(es[..i + 1], entry))
                 == PrintItems(f, Kept(es[..i], entry)) + f.write(entry(es[i].key.value, es[i].value.value))
  {
    KeptSnoc(es, entry, i);
    if es[i].key.Some? && es[i].value.Some? {
      PrintItemsSnoc(f, Kept(es[..i], entry), entry(es[i].key.value, es[i].value.value));
    }
  }

  lemma {:induction false} PrintPrefix<T>(f: Format<T>, xs: seq<T>, i: nat)
    requires i <= |xs|
    ensures |PrintItems(f, xs[..i])| <= |PrintItems(f, xs)|
  {
    if i > 0 {
      assert xs[..i][1..] == xs[1..][..i - 1];
      PrintPrefix(f, xs[1..], i - 1);
    }
  }

  /** StatsigUserPayload.encode: the printing of the kept entries, or nothing when it fits in no array. */
  method Encode<J>(ghost leaves: Leaves<J>, u: JavaUser) returns (r: Option<seq<Byte>>)
    ensures r == if |Print(GrammarOf(leaves), TreeOf(u))| <= 2147483639
                 then Some(Print(GrammarOf(leaves), TreeOf(u))) else None
  {
    hide PrintItems, PrintCounted, KeptStrings, KeptTyped, Print, GrammarOf;
    PrintParts(leaves, TreeOf(u));
    var w := new Writer();
    var ok := w.WriteByte(VERSION);
    assert w.Contents() == [VERSION];
    ok := w.WriteScalars(leaves, u.scalars);
    if !ok {
      return None;
    }
    ok := w.WriteStringMap(leaves, u.customIds);
    if !ok {
      return None;
    }
    ok := w.WriteTypedMap(leaves, u.custom);
    if !ok {
      return None;
    }
    ok := w.WriteTypedMap(leaves, u.privateAttributes);
    if !ok {
      return None;
    }
    r := Some(w.buf[..w.pos]);
  }

  lemma PrintParts<J>(leaves: Leaves<J>, p: Payload)
    ensures Print(GrammarOf(leaves), p) ==
            [VERSION] + PrintItems(ScalarFormat(leaves), p.scalars)
            + PrintCounted(StringEntryFormat(leaves), p.customIds)
            + PrintCounted(TypedEntryFormat(leaves), p.custom)
            + PrintCounted(TypedEntryFormat(leaves), p.privateAttributes)
  {
    hide PrintItems, PrintCounted;
    var a, b := PrintItems(ScalarFormat(leaves), p.scalars), PrintCounted(StringEntryFormat(leaves), p.customIds);
    var f := TypedEntryFormat(leaves);
    var c, d := PrintCounted(f, p.custom), PrintCounted(f, p.privateAttributes);
    Assoc4([VERSION], a, b, c, d);
    assert [VERSION] + (a + (b + c)) + d == [VERSION] + a + b + c + d;
  }

  // ---- End to end ----

  ghost predicate IsComplete<V>(e: JavaEntry<V>) {
    e.key.Some? && e.value.Some?
  }

  /** A Java map's entries, met in any order: one per key, and m holds exactly the complete ones. */
  ghost predicate Holds<V, W>(es: seq<JavaEntry<V>>, valid: V -> bool, value: V -> W, m: map<Text, W>) {
    && InRange(|es|, 4)
    && (forall i, j :: 0 <= i < j < |es| ==> es[i].key != es[j].key)
    && (forall i :: 0 <= i < |es| && IsComplete(es[i]) ==>
          && valid(es[i].value.value)
          && es[i].key.value in m && m[es[i].key.value] == value(es[i].value.value))
    && (forall k :: k in m ==> exists i :: 0 <= i < |es| && IsComplete(es[i]) && es[i].key.value == k)
  }

  ghost predicate KeysAreText<J, V>(leaves: Leaves<J>, es: seq<JavaEntry<V>>) {
    forall i :: 0 <= i < |es| && es[i].key.Some? ==> IsText(leaves, es[i].key.value)
  }

  function Converted<J>(leaves: Leaves<J>, fallback: DynamicValue<J>, v: TypedValue): (d: DynamicValue<J>) {
    if IsValue(leaves, v) then ValueOf(leaves, v) else fallback
  }

  /** The Java-side user j is the user u: equal scalars, and maps with the same content. */
  ghost predicate Denotes<J>(leaves: Leaves<J>, j: JavaUser, u: User<J>) {
    && j.scalars == [u.userId, u.email, u.ip, u.userAgent, u.country, u.locale, u.appVersion]
    && (forall i :: 0 <= i < |j.scalars| ==> IsOptText(leaves, j.scalars[i]))
    && (j.customIds.None? <==> u.customIds.None?)
    && (j.customIds.Some? ==>
          && KeysAreText(leaves, j.customIds.value)
          && Holds(j.customIds.value, t => IsText(leaves, t), t => t, u.customIds.value))
    && DenotesTyped(leaves, j.custom, u.custom)
    && DenotesTyped(leaves, j.privateAttributes, u.privateAttributes)
  }

  ghost predicate DenotesTyped<J>(
    leaves: Leaves<J>, es: Option<seq<JavaEntry<TypedValue>>>, m: Option<map<Text, DynamicValue<J>>>)
  {
    && (es.None? <==> m.None?)
    && (es.Some? ==>
          && KeysAreText(leaves, es.value)
          && Holds(es.value, v => IsValue(leaves, v), v => Converted(leaves, Bool(false), v), m.value))
  }

  /** Where each kept item comes from, and where each complete entry goes. */
  lemma {:induction false} KeptFrom<V, E>(es: seq<JavaEntry<V>>, entry: (Text, V) -> E) returns (from: seq<nat>)
    ensures |from| == |Kept(es, entry)| <= |es|
    ensures forall i :: 0 <= i < |from| ==>
      && from[i] < |es| && IsComplete(es[from[i]])
      && Kept(es, entry)[i] == entry(es[from[i]].key.value, es[from[i]].value.value)
    ensures forall i, j :: 0 <= i < j < |from| ==> from[i] < from[j]
    ensures forall k :: 0 <= k < |es| && IsComplete(es[k]) ==> k in from
  {
    if es == [] {
      from := [];
    } else {
      var n := |es| - 1;
      var front := es[..n];
      var before := KeptFrom(front, entry);
      assert forall i :: 0 <= i < |before| ==> es[before[i]] == front[before[i]];
      assert Kept(es, entry) == Kept(front, entry) + OneKept(es[n], entry);
      hide Kept;
      from := before;
      if IsComplete(es[n]) {
        from := before + [n];
      }
      SourcesKept(es, before, from);
    }
  }

  function OneKept<V, E>(e: JavaEntry<V>, entry: (Text, V) -> E): (r: seq<E>) {
    if e.key.None? || e.value.None? then [] else [entry(e.key.value, e.value.value)]
  }

  lemma SourcesKept<V>(es: seq<JavaEntry<V>>, before: seq<nat>, from: seq<nat>)
    requires es != []
    requires forall k :: 0 <= k < |es| - 1 && IsComplete(es[..|es| - 1][k]) ==> k in before
    requires from == if IsComplete(es[|es| - 1]) then before + [|es| - 1] else before
    ensures forall k :: 0 <= k < |es| && IsComplete(es[k]) ==> k in from
  {
    var n := |es| - 1;
    forall k | 0 <= k < |es| && IsComplete(es[k])
      ensures k in from
    {
      if k < n {
        assert es[..n][k] == es[k];
      } else {
        assert from[|before|] == n;
      }
    }
  }

  lemma KeptStringsListed<J>(leaves: Leaves<J>, es: seq<JavaEntry<Text>>, m: map<Text, Text>)
    requires KeysAreText(leaves, es) && Holds(es, t => IsText(leaves, t), t => t, m)
    ensures IsCounted(StringEntryFormat(leaves), Some(Kept(es, StringEntryOf)))
    ensures Lists(StringPairs(Kept(es, StringEntryOf)), m)
  {
    hide Lists, Kept, StringPairs;
    var from := KeptFrom(es, StringEntryOf);
    var kept := Kept(es, StringEntryOf);
    assert forall i :: 0 <= i < |kept| ==> kept[i] == StringEntryOf(es[from[i]].key.value, es[from[i]].value.value);
    StringPairsOfComplete(kept);
    ListedThrough(es, from, StringPairs(kept), m);
  }

  lemma KeptTypedListed<J>(leaves: Leaves<J>, es: seq<JavaEntry<TypedValue>>, m: map<Text, DynamicValue<J>>)
    requires KeysAreText(leaves, es)
    requires Holds(es, v => IsValue(leaves, v), v => Converted(leaves, Bool(false), v), m)
    ensures IsCounted(TypedEntryFormat(leaves), Some(Kept(es, TypedEntryOf)))
    ensures Lists(TypedPairs(leaves, Kept(es, TypedEntryOf)), m)
  {
    hide Lists, Kept;
    var from := KeptFrom(es, TypedEntryOf);
    var kept := Kept(es, TypedEntryOf);
    assert forall i :: 0 <= i < |kept| ==> kept[i] == TypedEntryOf(es[from[i]].key.value, es[from[i]].value.value);
    ListedThrough(es, from, TypedPairs(leaves, kept), m);
  }

  lemma ListedThrough<V, W>(es: seq<JavaEntry<V>>, from: seq<nat>, ps: seq<(Text, W)>, m: map<Text, W>)
    requires |ps| == |from|
    requires forall i, j :: 0 <= i < j < |es| ==> es[i].key != es[j].key
    requires forall i :: 0 <= i < |from| ==>
      from[i] < |es| && IsComplete(es[from[i]]) && ps[i].0 == es[from[i]].key.value
    requires forall i, j :: 0 <= i < j < |from| ==> from[i] < from[j]
    requires forall k :: 0 <= k < |es| && IsComplete(es[k]) ==> k in from
    requires forall i :: 0 <= i < |ps| ==> ps[i].0 in m && m[ps[i].0] == ps[i].1
    requires forall k :: k in m ==> exists i :: 0 <= i < |es| && IsComplete(es[i]) && es[i].key.value == k
    ensures Lists(ps, m)
  {
    forall i, j | 0 <= i < j < |ps|
      ensures ps[i].0 != ps[j].0
    {
      assert es[from[i]].key != es[from[j]].key;
    }
    forall k | k in m
      ensures exists i :: 0 <= i < |ps| && ps[i].0 == k
    {
      var e :| 0 <= e < |es| && IsComplete(es[e]) && es[e].key.value == k;
      assert e in from;
      var i :| 0 <= i < |from| && from[i] == e;
      assert ps[i].0 == k;
    }
  }

  lemma TreeCarries<J>(leaves: Leaves<J>, j: JavaUser, u: User<J>)
    requires Denotes(leaves, j, u)
    ensures Carries(leaves, TreeOf(j), u)
  {
    hide Holds, Lists, Kept, StringPairs, TypedPairs, KeysAreText;
    if j.customIds.Some? {
      KeptStringsListed(leaves, j.customIds.value, u.customIds.value);
    }
    if j.custom.Some? {
      KeptTypedListed(leaves, j.custom.value, u.custom.value);
    }
    if j.privateAttributes.Some? {
      KeptTypedListed(leaves, j.privateAttributes.value, u.privateAttributes.value);
    }
  }

  /** Java to Rust: the bytes encode returns for a user are decoded to that user. */
  lemma EncodedUserDecodes<J(!new)>(leaves: Leaves<J>, j: JavaUser, u: User<J>)
    requires Denotes(leaves, j, u)
    ensures Decode(leaves, Print(GrammarOf(leaves), TreeOf(j))) == Some(Normal(u))
  {
    hide Denotes, Carries, Decode;
    TreeCarries(leaves, j, u);
    RoundTrip(leaves, TreeOf(j), u);
  }
}
