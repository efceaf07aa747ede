/**
  Data-store cache keys: four fields separated by bars, of which the third names the compression
  format. Keys for other formats are derived by searching for a known format between bars and
  replacing its first occurrence, whatever the key part holds.
 */
module CacheKeys {
  import opened Wrappers
  import opened Strings

  datatype RequestPath = RulesetsV2 | RulesetsV1 | IDListsV1 | IDList

  datatype CompressFormat = PlainText | Gzip | StatsigBr

  datatype KeyVersion = V2Hashed | V3HumanReadable

  datatype DataStoreCacheKeys = DataStoreCacheKeys(plainText: string, statsigBr: string)

  function PathText(path: RequestPath): (s: string) {
    match path
    case IDListsV1 => "/v1/get_id_lists"
    case IDList => "id_list"
    case RulesetsV2 => "/v2/download_config_specs"
    case RulesetsV1 => "/v1/download_config_specs"
  }

  function FormatText(format: CompressFormat): (s: string) {
    match format
    case PlainText => "plain_text"
    case Gzip => "gzip"
    case StatsigBr => "statsig-br"
  }

  /** The format between its two bars, as it is searched for. */
  function Marked(format: CompressFormat): (s: string) {
    "|" + FormatText(format) + "|"
  }

  function CacheKey(path: RequestPath, format: CompressFormat, keyPart: string): (s: string) {
    "statsig|" + PathText(path) + Marked(format) + keyPart
  }

  /** String::truncate(20): panics when byte 20 is inside a character. */
  function TruncateBytes(s: string, n: nat): (r: Option<string>) {
    if ByteLength(s) < n then Some(s)
    else
      match AtByte(s, n)
      case None => None
      case Some(k) => Some(s[..k])
  }

  function KeyPart(version: KeyVersion, sdkKey: string, hash: string -> string): (r: Option<string>) {
    match version
    case V3HumanReadable => TruncateBytes(sdkKey, 20)
    case V2Hashed => Some(hash(sdkKey))
  }

  function GetDataStoreKey(path: RequestPath, version: KeyVersion, sdkKey: string, hash: string -> string):
    (r: Option<string>)
  {
    match KeyPart(version, sdkKey, hash)
    case None => None
    case Some(keyPart) => Some("statsig|" + PathText(path) + "|" + FormatText(PlainText) + "|" + keyPart)
  }

  /** str::replacen(p, q, 1). */
  function ReplaceFirst(s: string, p: string, q: string): (r: string) {
    match IndexOf(s, p)
    case None => s
    case Some(i) => s[..i] + q + s[i + |p|..]
  }

  const SEARCH_ORDER: seq<CompressFormat> := [PlainText, Gzip, StatsigBr]

  /** find_map over the formats in order: the first one the key contains is replaced. */
  function SwitchAmong(key: string, target: CompressFormat, formats: seq<CompressFormat>): (r: string) {
    if formats == [] then key
    else if IndexOf(key, Marked(formats[0])).Some? then ReplaceFirst(key, Marked(formats[0]), Marked(target))
    else SwitchAmong(key, target, formats[1..])
  }

  function WithFormat(key: string, target: CompressFormat): (r: string) {
    SwitchAmong(key, target, SEARCH_ORDER)
  }

  function FromSelectedKey(key: string): (r: DataStoreCacheKeys) {
    DataStoreCacheKeys(WithFormat(key, PlainText), WithFormat(key, StatsigBr))
  }

  // ---- Fields ----

  ghost predicate NoBar(s: string) {
    forall i :: 0 <= i < |s| ==> s[i] != '|'
  }

  lemma PathFacts(path: RequestPath)
    ensures NoBar(PathText(path)) && |PathText(path)| > 1
    ensures PathText(path)[0] == '/' || PathText(path)[0] == 'i'
  {
  }

  lemma FormatFacts(format: CompressFormat)
    ensures NoBar(FormatText(format)) && |FormatText(format)| > 1
    ensures FormatText(format)[0] == match format case PlainText => 'p' case Gzip => 'g' case StatsigBr => 's'
    ensures |Marked(format)| == |FormatText(format)| + 2
    ensures Marked(format)[0] == '|' && Marked(format)[1] == FormatText(format)[0]
  {
  }

  /** Text up to the first bar is determined by the whole. */
  lemma FirstField(a: string, b: string, c: string, d: string)
    requires NoBar(a) && NoBar(c) && a + "|" + b == c + "|" + d
    ensures a == c && b == d
  {
    var s, t := a + "|" + b, c + "|" + d;
    assert s[|a|] == '|' && t[|c|] == '|';
    assert forall i :: 0 <= i < |a| ==> s[i] == a[i];
    assert forall i :: 0 <= i < |c| ==> t[i] == c[i];
    assert s[..|a|] == a && t[..|c|] == c && s[|a| + 1..] == b && t[|c| + 1..] == d;
  }

  lemma PathsDiffer(p: RequestPath, q: RequestPath)
    requires PathText(p) == PathText(q)
    ensures p == q
  {
    assert PathText(RulesetsV2)[2] == '2' && PathText(RulesetsV1)[2] == '1';
  }

  lemma FormatsDiffer(f: CompressFormat, g: CompressFormat)
    ensures FormatText(f) == FormatText(g) ==> f == g
  {
    FormatFacts(f);
    FormatFacts(g);
  }

  /** Cache keys are injective in all three fields, whatever the key part holds. */
  lemma CacheKeyInjective(
    p: RequestPath, f: CompressFormat, k: string, q: RequestPath, g: CompressFormat, l: string)
    requires CacheKey(p, f, k) == CacheKey(q, g, l)
    ensures p == q && f == g && k == l
  {
    hide CacheKey, PathText, FormatText;
    PathFacts(p);
    PathFacts(q);
    FormatFacts(f);
    FormatFacts(g);
    KeyFields(p, f, k);
    KeyFields(q, g, l);
    var x, y := FormatText(f) + "|" + k, FormatText(g) + "|" + l;
    FirstField("statsig", PathText(p) + "|" + x, "statsig", PathText(q) + "|" + y);
    FirstField(PathText(p), x, PathText(q), y);
    FirstField(FormatText(f), k, FormatText(g), l);
    FormatsDiffer(f, g);
    PathsDiffer(p, q);
  }

  lemma KeyFields(p: RequestPath, f: CompressFormat, k: string)
    ensures CacheKey(p, f, k) == "statsig" + "|" + (PathText(p) + "|" + (FormatText(f) + "|" + k))
  {
    hide PathText, FormatText;
  }

  // ---- Where a format is found ----

  /** An occurrence of a marked format in a key is the format field itself or lies in the key part and its bar. */
  lemma OccurrenceInKey(p: RequestPath, f: CompressFormat, k: string, e: CompressFormat, i: int)
    requires At(CacheKey(p, f, k), Marked(e), i)
    ensures var a := |"statsig|" + PathText(p)|;
            (i == a && e == f) || i >= a + 1 + |FormatText(f)|
  {
    hide PathText, FormatText, Marked, CacheKey;
    PathFacts(p);
    FormatFacts(f);
    FormatFacts(e);
    AtChar(CacheKey(p, f, k), Marked(e), i, 0);
    AtChar(CacheKey(p, f, k), Marked(e), i, 1);
    KeyChars(p, f, k, i);
  }

  /** What stands at position i of a key, up to the end of its format field. */
  lemma KeyChars(p: RequestPath, f: CompressFormat, k: string, i: int)
    ensures var key, a := CacheKey(p, f, k), |"statsig|" + PathText(p)|;
            && |key| == a + |Marked(f)| + |k| && a == 8 + |PathText(p)| && a + 1 < |key|
            && (0 <= i < 7 ==> key[i] != '|')
            && key[8] == PathText(p)[0]
            && (8 <= i < a ==> key[i] == PathText(p)[i - 8])
            && key[a + 1] == FormatText(f)[0]
            && (a < i < a + 1 + |FormatText(f)| ==> key[i] == FormatText(f)[i - a - 1])
  {
    hide PathText, FormatText;
    PathFacts(p);
    FormatFacts(f);
    var key := CacheKey(p, f, k);
    assert key == "statsig|" + (PathText(p) + Marked(f) + k);
    if 0 <= i < 7 {
      assert key[i] == "statsig|"[i];
    }
  }

  lemma FieldOccurs(p: RequestPath, f: CompressFormat, k: string)
    ensures IndexOf(CacheKey(p, f, k), Marked(f)) == Some(|"statsig|" + PathText(p)|)
  {
    var key := CacheKey(p, f, k);
    var a := |"statsig|" + PathText(p)|;
    assert At(key, Marked(f), a) by {
      assert key[a..a + |Marked(f)|] == Marked(f);
    }
    forall i | 0 <= i < a
      ensures !At(key, Marked(f), i)
    {
      if At(key, Marked(f), i) {
        OccurrenceInKey(p, f, k, f, i);
      }
    }
    assert !Free(key, Marked(f));
  }

  lemma KeySplits(p: RequestPath, f: CompressFormat, k: string)
    ensures CacheKey(p, f, k) == "statsig|" + PathText(p) + "|" + FormatText(f) + ("|" + k)
  {
    hide PathText, FormatText;
  }

  lemma OtherFormatOccurs(p: RequestPath, f: CompressFormat, k: string, e: CompressFormat)
    requires e != f
    ensures IndexOf(CacheKey(p, f, k), Marked(e)).Some? <==> IndexOf("|" + k, Marked(e)).Some?
    ensures IndexOf(CacheKey(p, f, k), Marked(e)).Some? ==>
      && IndexOf(CacheKey(p, f, k), Marked(e)).value > |"statsig|" + PathText(p)| + 1
      && IndexOf(CacheKey(p, f, k), Marked(e)).value
         == |"statsig|" + PathText(p) + "|" + FormatText(f)| + IndexOf("|" + k, Marked(e)).value
  {
    FormatFacts(f);
    var key := CacheKey(p, f, k);
    var head := "statsig|" + PathText(p) + "|" + FormatText(f);
    KeySplits(p, f, k);
    hide PathText, FormatText, Marked, CacheKey;
    forall i
      ensures At(key, Marked(e), i) ==> At("|" + k, Marked(e), i - |head|)
      ensures At("|" + k, Marked(e), i) ==> At(key, Marked(e), i + |head|)
    {
      if At(key, Marked(e), i) {
        OccurrenceInKey(p, f, k, e, i);
      }
      AtShift(head, "|" + k, Marked(e), i);
      AtShift(head, "|" + k, Marked(e), i + |head|);
    }
    if IndexOf(key, Marked(e)).Some? {
      var i := IndexOf(key, Marked(e)).value;
      OccurrenceInKey(p, f, k, e, i);
      assert At("|" + k, Marked(e), i - |head|);
    }
    if IndexOf("|" + k, Marked(e)).Some? {
      assert At(key, Marked(e), IndexOf("|" + k, Marked(e)).value + |head|);
    }
  }

  // ---- Switching ----

  predicate SearchedBefore(e: CompressFormat, f: CompressFormat) {
    (e == PlainText && f != PlainText) || (e == Gzip && f == StatsigBr)
  }

  /** No format that is searched for before f occurs in the key part, the bar in front of it included. */
  predicate NothingFoundBefore(f: CompressFormat, k: string) {
    && (SearchedBefore(PlainText, f) ==> IndexOf("|" + k, Marked(PlainText)).None?)
    && (SearchedBefore(Gzip, f) ==> IndexOf("|" + k, Marked(Gzip)).None?)
  }

  lemma ReplaceField(p: RequestPath, f: CompressFormat, k: string, g: CompressFormat)
    ensures ReplaceFirst(CacheKey(p, f, k), Marked(f), Marked(g)) == CacheKey(p, g, k)
  {
    FieldOccurs(p, f, k);
    var head := "statsig|" + PathText(p);
    var key := CacheKey(p, f, k);
    assert key[..|head|] == head && key[|head| + |Marked(f)|..] == k;
  }

  lemma ReplaceInKeyPart(p: RequestPath, f: CompressFormat, k: string, e: CompressFormat, g: CompressFormat)
    requires e != f && IndexOf(CacheKey(p, f, k), Marked(e)).Some?
    ensures ReplaceFirst(CacheKey(p, f, k), Marked(e), Marked(g)) != CacheKey(p, g, k)
  {
    hide PathText, FormatText, Marked, CacheKey;
    OtherFormatOccurs(p, f, k, e);
    FormatFacts(e);
    FormatFacts(f);
    FormatFacts(g);
    KeyChars(p, f, k, 0);
    KeyChars(p, g, k, 0);
    var key := CacheKey(p, f, k);
    var i := IndexOf(key, Marked(e)).value;
    var a := |"statsig|" + PathText(p)|;
    var got := ReplaceFirst(key, Marked(e), Marked(g));
    assert got[..i] == key[..i] && got[i + 1] == Marked(g)[1];
    if f == g {
      AtChar(key, Marked(e), i, 1);
    } else {
      assert got[a + 1] == got[..i][a + 1] == key[a + 1];
    }
  }

  lemma SearchUnrolled(key: string, g: CompressFormat)
    ensures WithFormat(key, g) ==
            if IndexOf(key, Marked(PlainText)).Some? then ReplaceFirst(key, Marked(PlainText), Marked(g))
            else if IndexOf(key, Marked(Gzip)).Some? then ReplaceFirst(key, Marked(Gzip), Marked(g))
            else if IndexOf(key, Marked(StatsigBr)).Some? then ReplaceFirst(key, Marked(StatsigBr), Marked(g))
            else key
  {
    hide IndexOf, ReplaceFirst, Marked;
    var others, last, none: seq<CompressFormat> := [Gzip, StatsigBr], [StatsigBr], [];
    assert SEARCH_ORDER[1..] == others && others[1..] == last && last[1..] == none;
    assert SwitchAmong(key, g, none) == key;
    assert SwitchAmong(key, g, last) ==
           if IndexOf(key, Marked(StatsigBr)).Some? then ReplaceFirst(key, Marked(StatsigBr), Marked(g)) else key;
    assert SwitchAmong(key, g, others) ==
           if IndexOf(key, Marked(Gzip)).Some? then ReplaceFirst(key, Marked(Gzip), Marked(g))
           else SwitchAmong(key, g, last);
    assert SEARCH_ORDER[0] == PlainText;
  }

  /** Switching the format hits the format field exactly when no format searched earlier is in the key part. */
  lemma SwitchHitsTheField(p: RequestPath, f: CompressFormat, k: string, g: CompressFormat)
    ensures WithFormat(CacheKey(p, f, k), g) == CacheKey(p, g, k) <==> NothingFoundBefore(f, k)
  {
    hide IndexOf, ReplaceFirst, Marked, CacheKey, WithFormat;
    var key := CacheKey(p, f, k);
    SearchUnrolled(key, g);
    FieldOccurs(p, f, k);
    ReplaceField(p, f, k, g);
    if f != PlainText {
      OtherFormatOccurs(p, f, k, PlainText);
    }
    if f != Gzip {
      OtherFormatOccurs(p, f, k, Gzip);
    }
    if SearchedBefore(PlainText, f) && IndexOf(key, Marked(PlainText)).Some? {
      ReplaceInKeyPart(p, f, k, PlainText, g);
    } else if SearchedBefore(Gzip, f) && IndexOf(key, Marked(Gzip)).Some? {
      ReplaceInKeyPart(p, f, k, Gzip, g);
    }
  }

  /** A key part without bars is always safe: switching is idempotent and the last switch wins. */
  lemma LastSwitchWins(p: RequestPath, f: CompressFormat, k: string, g: CompressFormat, h: CompressFormat)
    requires NoBar(k)
    ensures WithFormat(WithFormat(CacheKey(p, f, k), g), h) == WithFormat(CacheKey(p, f, k), h) == CacheKey(p, h, k)
    ensures WithFormat(WithFormat(CacheKey(p, f, k), g), g) == WithFormat(CacheKey(p, f, k), g)
  {
    hide WithFormat, CacheKey;
    NoBarNothingFound(f, k);
    NoBarNothingFound(g, k);
    SwitchHitsTheField(p, f, k, g);
    SwitchHitsTheField(p, f, k, h);
    SwitchHitsTheField(p, g, k, h);
    SwitchHitsTheField(p, g, k, g);
  }

  lemma NoBarNothingFound(f: CompressFormat, k: string)
    requires NoBar(k)
    ensures NothingFoundBefore(f, k)
  {
    forall e: CompressFormat, i
      ensures !At("|" + k, Marked(e), i)
    {
      if At("|" + k, Marked(e), i) {
        FormatFacts(e);
        var n := |Marked(e)| - 1;
        assert ("|" + k)[1..] == k;
        AtChar("|" + k, Marked(e), i, n);
      }
    }
  }

  /**
    The two derived keys of the data store, for every path and SDK key: they are the selected key with
    only the format field set, they differ, and together they determine the path and the key part.
   */
  lemma DerivedKeys(path: RequestPath, version: KeyVersion, sdkKey: string, hash: string -> string)
    requires GetDataStoreKey(path, version, sdkKey, hash).Some?
    ensures var keys := FromSelectedKey(GetDataStoreKey(path, version, sdkKey, hash).value);
            var keyPart := KeyPart(version, sdkKey, hash).value;
            && keys.plainText == CacheKey(path, PlainText, keyPart)
            && keys.statsigBr == CacheKey(path, StatsigBr, keyPart)
            && keys.plainText != keys.statsigBr
  {
    var keyPart := KeyPart(version, sdkKey, hash).value;
    SelectedKeyIsPlain(path, version, sdkKey, hash);
    SwitchHitsTheField(path, PlainText, keyPart, PlainText);
    SwitchHitsTheField(path, PlainText, keyPart, StatsigBr);
    if CacheKey(path, PlainText, keyPart) == CacheKey(path, StatsigBr, keyPart) {
      CacheKeyInjective(path, PlainText, keyPart, path, StatsigBr, keyPart);
    }
  }

  lemma SelectedKeyIsPlain(path: RequestPath, version: KeyVersion, sdkKey: string, hash: string -> string)
    requires GetDataStoreKey(path, version, sdkKey, hash).Some?
    ensures GetDataStoreKey(path, version, sdkKey, hash).value
            == CacheKey(path, PlainText, KeyPart(version, sdkKey, hash).value)
  {
    var k := KeyPart(version, sdkKey, hash).value;
    assert "statsig|" + PathText(path) + "|" + FormatText(PlainText) + "|" + k
        == "statsig|" + PathText(path) + ("|" + FormatText(PlainText) + "|") + k;
  }

  /** Selected keys determine their path and key part; an ASCII SDK key always has one. */
  lemma SelectedKeysDiffer(
    p: RequestPath, v: KeyVersion, s: string, q: RequestPath, w: KeyVersion, t: string, hash: string -> string)
    requires GetDataStoreKey(p, v, s, hash).Some?
    requires GetDataStoreKey(p, v, s, hash) == GetDataStoreKey(q, w, t, hash)
    ensures p == q && KeyPart(v, s, hash) == KeyPart(w, t, hash)
  {
    SelectedKeyIsPlain(p, v, s, hash);
    SelectedKeyIsPlain(q, w, t, hash);
    CacheKeyInjective(p, PlainText, KeyPart(v, s, hash).value, q, PlainText, KeyPart(w, t, hash).value);
  }

  lemma AsciiKeyPart(sdkKey: string, hash: string -> string)
    requires AllAscii(sdkKey)
    ensures KeyPart(V3HumanReadable, sdkKey, hash) == Some(if |sdkKey| < 20 then sdkKey else sdkKey[..20])
  {
    AsciiLength(sdkKey);
    if |sdkKey| >= 20 {
      AsciiOffsets(sdkKey, 20);
    }
  }

  /** e is the format the search finds first in a key with field f and key part k, and it is not the field. */
  predicate FoundInKeyPart(e: CompressFormat, f: CompressFormat, k: string) {
    && SearchedBefore(e, f) && IndexOf("|" + k, Marked(e)).Some?
    && (e == Gzip ==> IndexOf("|" + k, Marked(PlainText)).None?)
  }

  /** Whenever the search misses the field, the field is kept and the key part is rewritten where e was found. */
  lemma MissRewritesTheKeyPart(p: RequestPath, f: CompressFormat, k: string, e: CompressFormat, g: CompressFormat)
    requires FoundInKeyPart(e, f, k)
    ensures var rewritten := ReplaceFirst("|" + k, Marked(e), Marked(g));
            && rewritten != "" && rewritten[0] == '|'
            && WithFormat(CacheKey(p, f, k), g) == CacheKey(p, f, rewritten[1..])
  {
    hide IndexOf, Marked, CacheKey, WithFormat, PathText, FormatText, ReplaceFirst;
    OtherFormatOccurs(p, f, k, PlainText);
    if e == Gzip {
      OtherFormatOccurs(p, f, k, Gzip);
    }
    SearchUnrolled(CacheKey(p, f, k), g);
    FormatFacts(g);
    KeySplits(p, f, k);
    var head := "statsig|" + PathText(p) + "|" + FormatText(f);
    var rewritten := ReplaceFirst("|" + k, Marked(e), Marked(g));
    ReplaceBehind(head, "|" + k, Marked(e), Marked(g));
    assert "|" + rewritten[1..] == rewritten;
    KeySplits(p, f, rewritten[1..]);
  }

  /** Replacing behind a head in which the text is first found. */
  lemma ReplaceBehind(head: string, s: string, x: string, y: string)
    requires IndexOf(s, x).Some? && s != "" && y != "" && y[0] == s[0]
    requires IndexOf(head + s, x) == Some(|head| + IndexOf(s, x).value)
    ensures ReplaceFirst(head + s, x, y) == head + ReplaceFirst(s, x, y)
    ensures ReplaceFirst(s, x, y) != "" && ReplaceFirst(s, x, y)[0] == s[0]
  {
    hide IndexOf, ReplaceFirst, At;
    var i := IndexOf(s, x).value;
    ReplaceAt(s, x, y, i);
    ReplaceAt(head + s, x, y, |head| + i);
    SlicesBehind(head, s, i, |x|);
    ConcatFour(head, s[..i], y, s[i + |x|..]);
  }

  lemma ReplaceAt(s: string, x: string, y: string, i: nat)
    requires IndexOf(s, x) == Some(i)
    ensures i + |x| <= |s| && ReplaceFirst(s, x, y) == s[..i] + y + s[i + |x|..]
  {
  }

  lemma ConcatFour(a: string, b: string, c: string, d: string)
    ensures a + b + c + d == a + (b + c + d)
  {
  }

  lemma SlicesBehind(head: string, s: string, i: nat, n: nat)
    requires i + n <= |s|
    ensures (head + s)[..|head| + i] == head + s[..i]
    ensures (head + s)[|head| + i + n..] == s[i + n..]
  {
  }

  /** One of the two always applies: the field is hit, or some format is found in the key part before it. */
  lemma HitOrMiss(f: CompressFormat, k: string)
    ensures NothingFoundBefore(f, k) <==> forall e :: !FoundInKeyPart(e, f, k)
  {
    hide IndexOf, Marked;
    assert !NothingFoundBefore(f, k) ==> FoundInKeyPart(PlainText, f, k) || FoundInKeyPart(Gzip, f, k);
  }

  /**
    Switching a statsig-br key back to plain text: with a marked plain_text in the key part nothing
    changes, with a marked gzip there the key part changes instead of the field.
   */
  lemma SwitchingBackCanMiss(p: RequestPath)
    ensures var key := CacheKey(p, StatsigBr, Holding(PlainText));
            && WithFormat(key, PlainText) == key
            && WithFormat(CacheKey(p, StatsigBr, Holding(Gzip)), PlainText) == key
  {
    hide IndexOf, Marked, CacheKey, WithFormat, ReplaceFirst, Holding;
    NoPlainText();
    FoundAt(PlainText, PlainText);
    FoundAt(Gzip, PlainText);
    MissAt(p, PlainText);
    MissAt(p, Gzip);
  }

  /** A key part that holds a marked format: a|plain_text|b, a|gzip|b or a|statsig-br|b. */
  function Holding(e: CompressFormat): (k: string) {
    "a" + Marked(e) + "b"
  }

  lemma MissAt(p: RequestPath, e: CompressFormat)
    requires FoundInKeyPart(e, StatsigBr, Holding(e))
    ensures WithFormat(CacheKey(p, StatsigBr, Holding(e)), PlainText) == CacheKey(p, StatsigBr, Holding(PlainText))
  {
    hide IndexOf, Marked, CacheKey, WithFormat, ReplaceFirst, Holding;
    FoundAt(e, PlainText);
    MissRewritesTheKeyPart(p, StatsigBr, Holding(e), e, PlainText);
    assert ("|" + Holding(PlainText))[1..] == Holding(PlainText);
  }

  /** The format such a key part holds is found there, and replaced there. */
  lemma FoundAt(e: CompressFormat, g: CompressFormat)
    ensures IndexOf("|" + Holding(e), Marked(e)) == Some(2)
    ensures ReplaceFirst("|" + Holding(e), Marked(e), Marked(g)) == "|" + Holding(g)
  {
    FormatFacts(e);
    hide Marked, ReplaceFirst;
    var m := Marked(e);
    var s := "|" + Holding(e);
    Around(m);
    FirstAtTwo(s, m);
    ReplaceAt(s, m, Marked(g), 2);
    assert "|a" + Marked(g) + "b" == "|" + ("a" + Marked(g) + "b");
  }

  lemma Around(m: string)
    ensures var s := "|" + ("a" + m + "b");
            s[1] == 'a' && s[..2] == "|a" && At(s, m, 2) && s[2 + |m|..] == "b"
  {
  }

  lemma FirstAtTwo(s: string, m: string)
    requires |m| > 1 && m[0] == '|' && m[1] != 'a'
    requires At(s, m, 2) && s[1] == 'a'
    ensures IndexOf(s, m) == Some(2)
  {
    assert !Free(s, m);
    if At(s, m, 0) {
      AtChar(s, m, 0, 1);
    }
    if At(s, m, 1) {
      AtChar(s, m, 1, 0);
    }
  }

  lemma NoPlainText()
    ensures IndexOf("|" + Holding(Gzip), Marked(PlainText)).None?
  {
    assert |"|" + Holding(Gzip)| == 9 && |Marked(PlainText)| == 12;
  }

  // ---- The keys in so many words ----

  function PathLiteral(path: RequestPath): (s: string) {
    match path
    case RulesetsV2 => "statsig|" + "/v2/download_config_specs" + "|"
    case RulesetsV1 => "statsig|" + "/v1/download_config_specs" + "|"
    case IDListsV1 => "statsig|" + "/v1/get_id_lists" + "|"
    case IDList => "statsig|" + "id_list" + "|"
  }

  lemma PathLiterals(path: RequestPath)
    ensures PathLiteral(path) == "statsig|" + PathText(path) + "|"
  {
  }

  lemma FormatLiterals()
    ensures Marked(PlainText) == "|" + "plain_text|" && Marked(StatsigBr) == "|" + "statsig-br|"
  {
  }

  lemma ConcatBehind(a: string, b: string, c: string, d: string)
    ensures a + (b + c) + d == a + b + c + d
  {
  }

  lemma CacheKeyText(path: RequestPath, k: string)
    ensures CacheKey(path, PlainText, k) == PathLiteral(path) + "plain_text|" + k
    ensures CacheKey(path, StatsigBr, k) == PathLiteral(path) + "statsig-br|" + k
  {
    hide PathText, PathLiteral, Marked;
    PathLiterals(path);
    FormatLiterals();
    ConcatBehind("statsig|" + PathText(path), "|", "plain_text|", k);
    ConcatBehind("statsig|" + PathText(path), "|", "statsig-br|", k);
  }

  /** Hashed keys hold the hash of the SDK key, never the key. */
  lemma HashedKeys(path: RequestPath, sdkKey: string, hash: string -> string)
    ensures var key := GetDataStoreKey(path, V2Hashed, sdkKey, hash);
            && key == Some(PathLiteral(path) + "plain_text|" + hash(sdkKey))
            && FromSelectedKey(key.value) ==
               DataStoreCacheKeys(PathLiteral(path) + "plain_text|" + hash(sdkKey),
                                  PathLiteral(path) + "statsig-br|" + hash(sdkKey))
  {
    hide CacheKey, FromSelectedKey, PathText, PathLiteral;
    DerivedKeys(path, V2Hashed, sdkKey, hash);
    SelectedKeyIsPlain(path, V2Hashed, sdkKey, hash);
    CacheKeyText(path, hash(sdkKey));
  }

  /** Readable keys hold the first 20 bytes of the SDK key, and there is none when byte 20 is inside a character. */
  lemma ReadableKeys(path: RequestPath, sdkKey: string, hash: string -> string)
    ensures ByteLength(sdkKey) < 20 ==>
      GetDataStoreKey(path, V3HumanReadable, sdkKey, hash) == Some(PathLiteral(path) + "plain_text|" + sdkKey)
    ensures forall j :: 0 <= j <= |sdkKey| && ByteLength(sdkKey[..j]) == 20 ==>
      GetDataStoreKey(path, V3HumanReadable, sdkKey, hash) == Some(PathLiteral(path) + "plain_text|" + sdkKey[..j])
    ensures ByteLength(sdkKey) >= 20 && (forall j :: 0 <= j <= |sdkKey| ==> ByteLength(sdkKey[..j]) != 20) ==>
      GetDataStoreKey(path, V3HumanReadable, sdkKey, hash) == None
    ensures AllAscii(sdkKey) ==>
      GetDataStoreKey(path, V3HumanReadable, sdkKey, hash)
      == Some(PathLiteral(path) + "plain_text|" + if |sdkKey| < 20 then sdkKey else sdkKey[..20])
  {
    hide CacheKey, PathText, PathLiteral, AtByte, ByteLength;
    if GetDataStoreKey(path, V3HumanReadable, sdkKey, hash).Some? {
      SelectedKeyIsPlain(path, V3HumanReadable, sdkKey, hash);
      CacheKeyText(path, KeyPart(V3HumanReadable, sdkKey, hash).value);
    }
    forall j | 0 <= j <= |sdkKey| && ByteLength(sdkKey[..j]) == 20
      ensures AtByte(sdkKey, 20) == Some(j) && ByteLength(sdkKey) >= 20
    {
      OffsetOfPrefix(sdkKey, j);
    }
    if AllAscii(sdkKey) {
      AsciiKeyPart(sdkKey, hash);
    }
  }
}
