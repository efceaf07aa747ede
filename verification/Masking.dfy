/**
  sanitize_secret_key: the text is split on the marker, and of the alphanumeric run that follows each
  marker only the first five characters are kept, with five stars put behind them. The code measures
  the run in characters but cuts in bytes, so it is modelled over all Unicode strings with UTF-8
  widths, and compared with the masking its documentation describes.

  Which non-ASCII characters are alphanumeric is a parameter.
 */
module Masking {
  import opened Wrappers
  import opened Strings

  const MARKER: string := "secret-"
  const STARS: string := "*****"
  const VISIBLE: nat := 5

  predicate IsAsciiAlphanumeric(c: char) {
    '0' <= c <= '9' || 'A' <= c <= 'Z' || 'a' <= c <= 'z'
  }

  /** alnum is a char::is_alphanumeric: fixed on ASCII, arbitrary elsewhere. */
  ghost predicate IsAlphanumericTest(alnum: char -> bool) {
    forall c :: IsAscii(c) ==> (alnum(c) <==> IsAsciiAlphanumeric(c))
  }

  // ---- Splitting on the marker ----

  function Split(s: string): (parts: seq<string>)
    ensures parts != []
    decreases |s|
  {
    match IndexOf(s, MARKER)
    case None => [s]
    case Some(i) => [s[..i]] + Split(s[i + |MARKER|..])
  }

  function Join(parts: seq<string>): (s: string)
    requires parts != []
  {
    if |parts| == 1 then parts[0] else parts[0] + (MARKER + Join(parts[1..]))
  }

  ghost predicate AllFree(parts: seq<string>) {
    forall i :: 0 <= i < |parts| ==> Free(parts[i], MARKER)
  }

  /** The marker has no self-overlap: its first character occurs nowhere else in it. Nor has it a star. */
  lemma MarkerChars(k: nat)
    requires k < |MARKER|
    ensures |MARKER| == 7
    ensures MARKER[k] == 's' <==> k == 0
    ensures MARKER[k] != '*'
  {
  }

  /** Before the marker that ends a marker-free text no other occurrence begins. */
  lemma NoEarlierMarker(p: string, rest: string, i: int)
    requires Free(p, MARKER) && i < |p|
    ensures !At(p + (MARKER + rest), MARKER, i)
  {
    var s := p + (MARKER + rest);
    AtPrefix(p, MARKER + rest, MARKER, i);
    if At(s, MARKER, i) && i + |MARKER| > |p| {
      MarkerChars(0);
      MarkerChars(|p| - i);
      AtChar(s, MARKER, i, |p| - i);
    }
  }

  lemma MarkerHere(p: string, rest: string)
    ensures At(p + (MARKER + rest), MARKER, |p|)
    ensures (p + (MARKER + rest))[..|p|] == p
    ensures (p + (MARKER + rest))[|p| + |MARKER|..] == rest
  {
  }

  /** No occurrence begins inside a marker. */
  lemma NoMarkerInside(p: string, rest: string, i: int)
    requires |p| < i < |p| + |MARKER|
    ensures !At(p + (MARKER + rest), MARKER, i)
  {
    var s := p + (MARKER + rest);
    MarkerChars(0);
    MarkerChars(i - |p|);
    if At(s, MARKER, i) {
      AtChar(s, MARKER, i, 0);
    }
  }

  lemma SplitFirst(p: string, rest: string)
    requires Free(p, MARKER)
    ensures Split(p + (MARKER + rest)) == [p] + Split(rest)
  {
    var s := p + (MARKER + rest);
    MarkerHere(p, rest);
    forall i | 0 <= i < |p|
      ensures !At(s, MARKER, i)
    {
      NoEarlierMarker(p, rest, i);
    }
    assert !Free(s, MARKER);
    assert IndexOf(s, MARKER) == Some(|p|);
  }

  lemma {:induction false} JoinSplit(s: string)
    ensures Join(Split(s)) == s
    ensures AllFree(Split(s))
    decreases |s|
  {
    var first := IndexOf(s, MARKER);
    if first.Some? {
      var i := first.value;
      var rest := s[i + |MARKER|..];
      JoinSplit(rest);
      assert ([s[..i]] + Split(rest))[1..] == Split(rest);
      assert s == s[..i] + (MARKER + rest);
      forall j
        ensures !At(s[..i], MARKER, j)
      {
        AtPrefix(s[..i], MARKER + rest, MARKER, j);
      }
    }
  }

  /** Splitting recovers the segments of any marker-free decomposition. */
  lemma {:induction false} SplitJoin(parts: seq<string>)
    requires parts != [] && AllFree(parts)
    ensures Split(Join(parts)) == parts
  {
    if |parts| > 1 {
      SplitJoin(parts[1..]);
      SplitFirst(parts[0], Join(parts[1..]));
      assert parts == [parts[0]] + parts[1..];
    }
  }

  // ---- The masking the documentation describes ----

  function Run(alnum: char -> bool, part: string): (n: nat)
    ensures n <= |part|
    ensures forall i :: 0 <= i < n ==> alnum(part[i])
    ensures n < |part| ==> !alnum(part[n])
  {
    if part == "" || !alnum(part[0]) then 0 else 1 + Run(alnum, part[1..])
  }

  function Key(alnum: char -> bool, part: string): (k: string) {
    part[..Run(alnum, part)]
  }

  function Outside(alnum: char -> bool, part: string): (r: string) {
    part[Run(alnum, part)..]
  }

  function Shown(key: string): (k: string) {
    if |key| > VISIBLE then key[..VISIBLE] else key
  }

  /** At most the first five characters. */
  function FirstFive(key: string): (k: string) {
    if |key| > 5 then key[..5] else key
  }

  function MaskPart(alnum: char -> bool, part: string): (r: string) {
    Shown(Key(alnum, part)) + STARS + Outside(alnum, part)
  }

  function MaskParts(alnum: char -> bool, parts: seq<string>): (r: seq<string>)
    ensures |r| == |parts|
    ensures forall i :: 0 <= i < |parts| ==> r[i] == if i == 0 then parts[i] else MaskPart(alnum, parts[i])
  {
    seq(|parts|, i requires 0 <= i < |parts| => if i == 0 then parts[i] else MaskPart(alnum, parts[i]))
  }

  function Masked(alnum: char -> bool, s: string): (r: string) {
    Join(MaskParts(alnum, Split(s)))
  }

  lemma RunUnique(alnum: char -> bool, part: string, n: nat)
    requires n <= |part|
    requires forall i :: 0 <= i < n ==> alnum(part[i])
    requires n < |part| ==> !alnum(part[n])
    ensures Run(alnum, part) == n
  {
  }

  /** Text cut from a marker-free part, stars, text cut from the same part: no marker arises. */
  lemma StarsKeepFree(part: string, k: nat, m: nat)
    requires Free(part, MARKER) && k <= |part| && m <= |part|
    ensures Free(part[..k] + STARS + part[m..], MARKER)
  {
    var left, right := part[..k], part[m..];
    assert part == "" + left + part[k..];
    FreePart("", left, part[k..], MARKER);
    assert part == part[..m] + right + "";
    FreePart(part[..m], right, "", MARKER);
    StarsBetweenFree(left, right);
  }

  lemma StarsBetweenFree(left: string, right: string)
    requires Free(left, MARKER) && Free(right, MARKER)
    ensures Free(left + STARS + right, MARKER)
  {
    var s := left + STARS + right;
    assert At(s, STARS, |left|);
    assert s == left + (STARS + right);
    hide At;
    forall i
      ensures !At(s, MARKER, i)
    {
      if At(s, MARKER, i) {
        StarOutside(s, |left|, i);
        if i + 7 <= |left| {
          AtPrefix(left, STARS + right, MARKER, i);
        } else {
          AtShift(left + STARS, right, MARKER, i);
        }
      }
    }
  }

  /** An occurrence of the marker lies wholly before or wholly after five stars. */
  lemma StarOutside(s: string, k: nat, i: int)
    requires At(s, STARS, k) && At(s, MARKER, i)
    ensures i + 7 <= k || k + 5 <= i
  {
    if i <= k < i + 7 {
      MarkerChars(k - i);
      AtChar(s, MARKER, i, k - i);
      AtChar(s, STARS, k, 0);
    } else if k < i < k + 5 {
      MarkerChars(0);
      AtChar(s, MARKER, i, 0);
      AtChar(s, STARS, k, i - k);
    }
  }

  lemma MaskPartFree(alnum: char -> bool, part: string)
    requires Free(part, MARKER)
    ensures Free(MaskPart(alnum, part), MARKER)
  {
    var n := Run(alnum, part);
    var k := if n > VISIBLE then VISIBLE else n;
    assert Shown(Key(alnum, part)) == part[..k];
    StarsKeepFree(part, k, n);
  }

  /** Masking shortens the key to what is shown and puts the stars in front of the text outside it. */
  lemma MaskedPartReads(alnum: char -> bool, part: string)
    requires IsAlphanumericTest(alnum)
    ensures Key(alnum, MaskPart(alnum, part)) == Shown(Key(alnum, part))
    ensures Outside(alnum, MaskPart(alnum, part)) == STARS + Outside(alnum, part)
  {
    var shown := Shown(Key(alnum, part));
    var m := MaskPart(alnum, part);
    assert m[|shown|] == STARS[0] == '*';
    assert IsAscii('*') && !alnum('*');
    RunUnique(alnum, m, |shown|);
    assert m == shown + (STARS + Outside(alnum, part));
  }

  /**
    Masking creates and destroys no marker: the masked text splits into as many segments, each the
    masking of the one it came from.
   */
  lemma MaskedSplits(alnum: char -> bool, s: string)
    ensures Split(Masked(alnum, s)) == MaskParts(alnum, Split(s))
  {
    JoinSplit(s);
    var parts := Split(s);
    forall i | 0 <= i < |parts|
      ensures Free(MaskParts(alnum, parts)[i], MARKER)
    {
      MaskPartFree(alnum, parts[i]);
    }
    SplitJoin(MaskParts(alnum, parts));
  }

  /** Keys and the text around them, segment by segment, before and after masking. */
  lemma MaskedKeepsOutside(alnum: char -> bool, s: string)
    requires IsAlphanumericTest(alnum)
    ensures var before, after := Split(s), Split(Masked(alnum, s));
            && |after| == |before| && after[0] == before[0]
            && forall i :: 0 < i < |before| ==>
                 && Key(alnum, after[i]) == FirstFive(Key(alnum, before[i]))
                 && Outside(alnum, after[i]) == "*****" + Outside(alnum, before[i])
  {
    MaskedSplits(alnum, s);
    forall i | 0 < i < |Split(s)|
      ensures Key(alnum, MaskPart(alnum, Split(s)[i])) == Shown(Key(alnum, Split(s)[i]))
      ensures Outside(alnum, MaskPart(alnum, Split(s)[i])) == STARS + Outside(alnum, Split(s)[i])
    {
      MaskedPartReads(alnum, Split(s)[i]);
    }
  }

  /** s and t agree outside their keys and on the first five characters of each key. */
  ghost predicate AgreeOnShown(alnum: char -> bool, s: string, t: string) {
    && |Split(s)| == |Split(t)| && Split(s)[0] == Split(t)[0]
    && forall i :: 0 < i < |Split(s)| ==>
         && FirstFive(Key(alnum, Split(s)[i])) == FirstFive(Key(alnum, Split(t)[i]))
         && Outside(alnum, Split(s)[i]) == Outside(alnum, Split(t)[i])
  }

  /** The masked text determines, and is determined by, everything but the hidden key characters. */
  lemma MaskedHidesExactlyTheKeys(alnum: char -> bool, s: string, t: string)
    requires IsAlphanumericTest(alnum)
    ensures Masked(alnum, s) == Masked(alnum, t) <==> AgreeOnShown(alnum, s, t)
  {
    hide Split, Masked, Key, Outside, FirstFive;
    MaskedKeepsOutside(alnum, s);
    MaskedKeepsOutside(alnum, t);
    if Masked(alnum, s) == Masked(alnum, t) {
      forall i | 0 < i < |Split(s)|
        ensures Outside(alnum, Split(s)[i]) == Outside(alnum, Split(t)[i])
      {
        StarsCancel(Outside(alnum, Split(s)[i]), Outside(alnum, Split(t)[i]));
      }
    }
    if AgreeOnShown(alnum, s, t) {
      MaskedSame(alnum, s, t);
    }
  }

  lemma StarsCancel(a: string, b: string)
    requires STARS + a == STARS + b
    ensures a == b
  {
    assert (STARS + a)[5..] == a && (STARS + b)[5..] == b;
  }

  lemma MaskedSame(alnum: char -> bool, s: string, t: string)
    requires AgreeOnShown(alnum, s, t)
    ensures Masked(alnum, s) == Masked(alnum, t)
  {
    assert MaskParts(alnum, Split(s)) == MaskParts(alnum, Split(t));
  }

  // ---- Positions in the output ----

  /** At position i of s: k alphanumeric characters and then five stars. */
  ghost predicate ShownThenStars(alnum: char -> bool, s: string, i: int, k: nat) {
    && 0 <= i && At(s, "*****", i + k)
    && forall j :: i <= j < i + k ==> alnum(s[j])
  }

  /** At position i of s: a key cut to at most five characters, and five stars. */
  ghost predicate MaskedAt(alnum: char -> bool, s: string, i: int) {
    exists k: nat :: k <= 5 && ShownThenStars(alnum, s, i, k)
  }

  lemma MaskedAtShift(alnum: char -> bool, a: string, s: string, i: int)
    requires MaskedAt(alnum, s, i)
    ensures MaskedAt(alnum, a + s, |a| + i)
  {
    var k: nat :| k <= 5 && ShownThenStars(alnum, s, i, k);
    AtShift(a, s, STARS, |a| + i + k);
    forall j | |a| + i <= j < |a| + i + k
      ensures alnum((a + s)[j])
    {
      assert (a + s)[j] == s[j - |a|];
    }
    assert ShownThenStars(alnum, a + s, |a| + i, k);
  }

  lemma MaskedAtMore(alnum: char -> bool, s: string, after: string)
    requires MaskedAt(alnum, s, 0)
    ensures MaskedAt(alnum, s + after, 0)
  {
    var k: nat :| k <= 5 && ShownThenStars(alnum, s, 0, k);
    AtPrefix(s, after, STARS, k);
    assert forall j :: 0 <= j < k ==> (s + after)[j] == s[j];
    assert ShownThenStars(alnum, s + after, 0, k);
  }

  /** Some of a part's key, at most five characters, and the stars. */
  lemma StarsInKey(alnum: char -> bool, part: string, j: nat, rest: string)
    requires j <= VISIBLE && j <= Run(alnum, part)
    ensures MaskedAt(alnum, part[..j] + STARS + rest, 0)
  {
    var s := part[..j] + STARS + rest;
    assert s[j..j + 5] == STARS;
    assert forall i :: 0 <= i < j ==> s[i] == part[i];
    assert ShownThenStars(alnum, s, 0, j);
  }

  lemma MaskPartStarts(alnum: char -> bool, part: string)
    ensures MaskedAt(alnum, MaskPart(alnum, part), 0)
  {
    var n := Run(alnum, part);
    var j := if n > VISIBLE then VISIBLE else n;
    assert Shown(Key(alnum, part)) == part[..j];
    StarsInKey(alnum, part, j, Outside(alnum, part));
  }

  /** In a join of a marker-free head and marker-free segments that begin masked, every marker precedes a masked key. */
  lemma {:induction false} JoinMasksEveryMarker(alnum: char -> bool, parts: seq<string>, i: int)
    requires parts != [] && AllFree(parts)
    requires forall j :: 0 < j < |parts| ==> MaskedAt(alnum, parts[j], 0)
    requires At(Join(parts), MARKER, i)
    ensures MaskedAt(alnum, Join(parts), i + |MARKER|)
    decreases |parts|
  {
    hide MaskedAt;
    if |parts| > 1 {
      var p, more := parts[0], Join(parts[1..]);
      if i < |p| {
        NoEarlierMarker(p, more, i);
      } else if |p| < i < |p| + |MARKER| {
        NoMarkerInside(p, more, i);
      }
      assert p + (MARKER + more) == (p + MARKER) + more;
      if i == |p| {
        FirstStartsMasked(alnum, parts[1..]);
        MaskedAtShift(alnum, p + MARKER, more, 0);
      } else {
        AtShift(p + MARKER, more, MARKER, i);
        JoinMasksEveryMarker(alnum, parts[1..], i - |p| - |MARKER|);
        MaskedAtShift(alnum, p + MARKER, more, i - |p|);
      }
    }
  }

  lemma FirstStartsMasked(alnum: char -> bool, parts: seq<string>)
    requires parts != [] && MaskedAt(alnum, parts[0], 0)
    ensures MaskedAt(alnum, Join(parts), 0)
  {
    if |parts| > 1 {
      MaskedAtMore(alnum, parts[0], MARKER + Join(parts[1..]));
    }
  }

  /** Every marker in masked text is followed by at most five alphanumerics and five stars. */
  lemma EveryMarkerIsMasked(alnum: char -> bool, s: string, i: int)
    requires At(Masked(alnum, s), MARKER, i)
    ensures MaskedAt(alnum, Masked(alnum, s), i + |MARKER|)
  {
    JoinSplit(s);
    var parts := Split(s);
    var masked := MaskParts(alnum, parts);
    forall j | 0 <= j < |parts|
      ensures Free(masked[j], MARKER)
      ensures j > 0 ==> MaskedAt(alnum, masked[j], 0)
    {
      MaskPartFree(alnum, parts[j]);
      MaskPartStarts(alnum, parts[j]);
    }
    JoinMasksEveryMarker(alnum, masked, i);
  }

  // ---- The code ----

  /** The closure applied to a segment after a marker; None when a byte slice panics. */
  function SanitizePart(alnum: char -> bool, part: string): (r: Option<string>) {
    match AtByte(part, Run(alnum, part))
    case None => None
    case Some(k) =>
      var key, rest := part[..k], part[k..];
      if ByteLength(key) > VISIBLE then
        match AtByte(key, VISIBLE)
        case None => None
        case Some(j) => Some(key[..j] + STARS + rest)
      else Some(key + STARS + rest)
  }

  function SanitizeParts(alnum: char -> bool, parts: seq<string>): (r: Option<seq<string>>)
    ensures r.Some? ==> |r.value| == |parts|
  {
    if parts == [] then Some([])
    else
      match (SanitizePart(alnum, parts[0]), SanitizeParts(alnum, parts[1..]))
      case (Some(first), Some(others)) => Some([first] + others)
      case _ => None
  }

  function Sanitize(alnum: char -> bool, input: string): (r: Option<string>) {
    var parts := Split(input);
    match SanitizeParts(alnum, parts[1..])
    case None => None
    case Some(masked) => Some(Join([parts[0]] + masked))
  }

  /** A caller can check this: every alphanumeric run behind a marker is ASCII. */
  predicate KeysAreAscii(alnum: char -> bool, s: string) {
    forall i :: 0 < i < |Split(s)| ==> AllAscii(Key(alnum, Split(s)[i]))
  }

  lemma AsciiPartMasked(alnum: char -> bool, part: string)
    requires AllAscii(Key(alnum, part))
    ensures SanitizePart(alnum, part) == Some(MaskPart(alnum, part))
  {
    var n := Run(alnum, part);
    var key := part[..n];
    AsciiOffsets(part, n);
    AsciiLength(key);
    if n > VISIBLE {
      assert forall i :: 0 <= i < VISIBLE ==> key[..VISIBLE][i] == key[i];
      AsciiOffsets(key, VISIBLE);
    }
  }

  /** Shape of what the code makes of a segment: a prefix of at most n and five characters, stars, a suffix. */
  lemma SanitizedPartShape(alnum: char -> bool, part: string) returns (j: nat, k: nat)
    requires SanitizePart(alnum, part).Some?
    ensures j <= k <= |part| && k <= Run(alnum, part) && j <= VISIBLE
    ensures !AllAscii(Key(alnum, part)) ==> k < Run(alnum, part)
    ensures SanitizePart(alnum, part).value == part[..j] + STARS + part[k..]
  {
    var n := Run(alnum, part);
    k := AtByte(part, n).value;
    var key := part[..k];
    if !AllAscii(Key(alnum, part)) {
      OffsetFallsShort(part, n);
    }
    if ByteLength(key) > VISIBLE {
      j := AtByte(key, VISIBLE).value;
      assert key[..j] == part[..j];
    } else {
      j := k;
    }
  }

  lemma NonAsciiPartNotMasked(alnum: char -> bool, part: string)
    requires IsAlphanumericTest(alnum) && !AllAscii(Key(alnum, part))
    ensures SanitizePart(alnum, part) != Some(MaskPart(alnum, part))
  {
    if SanitizePart(alnum, part).Some? {
      var j, k := SanitizedPartShape(alnum, part);
      var n := Run(alnum, part);
      var got, want := part[..j] + STARS + part[k..], MaskPart(alnum, part);
      var m := |Shown(Key(alnum, part))|;
      assert got[j] == '*' && IsAscii('*');
      if j < m {
        assert want[j] == part[j];
      } else {
        assert |got| == j + 5 + |part| - k && |want| == m + 5 + |part| - n;
      }
    }
  }

  lemma {:induction false} SanitizePartsAre(alnum: char -> bool, parts: seq<string>)
    ensures SanitizeParts(alnum, parts).Some? <==>
              forall i :: 0 <= i < |parts| ==> SanitizePart(alnum, parts[i]).Some?
    ensures SanitizeParts(alnum, parts).Some? ==>
              forall i :: 0 <= i < |parts| ==>
                Some(SanitizeParts(alnum, parts).value[i]) == SanitizePart(alnum, parts[i])
  {
    hide SanitizePart;
    if parts != [] {
      SanitizePartsAre(alnum, parts[1..]);
      assert forall i :: 0 < i < |parts| ==> parts[i] == parts[1..][i - 1];
      if SanitizeParts(alnum, parts).None? && SanitizePart(alnum, parts[0]).Some? {
        var i :| 0 <= i < |parts[1..]| && SanitizePart(alnum, parts[1..][i]).None?;
        assert parts[i + 1] == parts[1..][i];
      }
    }
  }

  /** Every segment the code returns is marker-free and, but for the first, begins with a masked key. */
  lemma SanitizedParts(alnum: char -> bool, s: string, masked: seq<string>)
    requires SanitizeParts(alnum, Split(s)[1..]) == Some(masked)
    ensures AllFree([Split(s)[0]] + masked)
    ensures forall i :: 0 <= i < |masked| ==> MaskedAt(alnum, masked[i], 0)
  {
    hide SanitizeParts, SanitizePart, Split, MaskedAt;
    JoinSplit(s);
    var parts := Split(s);
    SanitizePartsAre(alnum, parts[1..]);
    forall i | 0 <= i < |masked|
      ensures Free(masked[i], MARKER) && MaskedAt(alnum, masked[i], 0)
    {
      var part := parts[i + 1];
      assert part == parts[1..][i] && Free(part, MARKER);
      var j, k := SanitizedPartShape(alnum, part);
      StarsKeepFree(part, j, k);
      StarsInKey(alnum, part, j, part[k..]);
    }
  }

  lemma SanitizedSplits(alnum: char -> bool, s: string, masked: seq<string>)
    requires SanitizeParts(alnum, Split(s)[1..]) == Some(masked)
    ensures Split(Join([Split(s)[0]] + masked)) == [Split(s)[0]] + masked
  {
    SanitizedParts(alnum, s, masked);
    SplitJoin([Split(s)[0]] + masked);
  }

  /** Whatever the keys, in what the code returns every marker is followed by at most five alphanumerics and stars. */
  lemma SanitizedMarkersAreMasked(alnum: char -> bool, s: string, i: int)
    requires Sanitize(alnum, s).Some? && At(Sanitize(alnum, s).value, MARKER, i)
    ensures MaskedAt(alnum, Sanitize(alnum, s).value, i + |MARKER|)
  {
    hide SanitizeParts, Split, MaskedAt;
    var parts := Split(s);
    var masked := SanitizeParts(alnum, parts[1..]).value;
    SanitizedParts(alnum, s, masked);
    JoinMasksEveryMarker(alnum, [parts[0]] + masked, i);
  }

  /** The byte offset that is the key's character count, or byte five of a longer key, falls inside a character. */
  predicate Panics(key: string) {
    AtByte(key, |key|).None? || (|key| > 5 && AtByte(key, 5).None?)
  }

  lemma PartPanicsExactly(alnum: char -> bool, part: string)
    ensures SanitizePart(alnum, part) == None <==> Panics(Key(alnum, part))
  {
    var n := Run(alnum, part);
    AtBytePrefix(part, n, n);
    if AtByte(part, n).Some? && n > VISIBLE {
      AtBytePrefix(part, n, VISIBLE);
      AtBytePrefix(part, AtByte(part, n).value, VISIBLE);
    }
  }

  lemma PartsPanicExactly(alnum: char -> bool, parts: seq<string>)
    ensures SanitizeParts(alnum, parts) == None <==>
            exists i :: 0 <= i < |parts| && Panics(Key(alnum, parts[i]))
  {
    hide SanitizeParts, SanitizePart, Panics, Key;
    SanitizePartsAre(alnum, parts);
    forall i | 0 <= i < |parts|
      ensures SanitizePart(alnum, parts[i]).Some? <==> !Panics(Key(alnum, parts[i]))
    {
      PartPanicsExactly(alnum, parts[i]);
    }
  }

  /** The code panics exactly when a cut falls inside a character of some key. */
  lemma SanitizePanicsExactly(alnum: char -> bool, s: string)
    ensures Sanitize(alnum, s) == None <==>
            exists i :: 0 < i < |Split(s)| && Panics(Key(alnum, Split(s)[i]))
  {
    hide SanitizeParts, Split, Panics, Key;
    var parts := Split(s);
    var rest := parts[1..];
    assert Sanitize(alnum, s) == None <==> SanitizeParts(alnum, rest) == None;
    PartsPanicExactly(alnum, rest);
    if i :| 0 <= i < |rest| && Panics(Key(alnum, rest[i])) {
      assert rest[i] == parts[i + 1];
    }
    if i :| 0 < i < |parts| && Panics(Key(alnum, parts[i])) {
      assert rest[i - 1] == parts[i];
    }
  }

  /**
    The code does what its documentation says exactly when every key is ASCII. Otherwise it panics, as
    stated above, or returns a text with key characters behind the stars.
   */
  lemma SanitizeMasksIffKeysAscii(alnum: char -> bool, s: string)
    requires IsAlphanumericTest(alnum)
    ensures Sanitize(alnum, s) == Some(Masked(alnum, s)) <==> KeysAreAscii(alnum, s)
  {
    var parts := Split(s);
    SanitizePartsAre(alnum, parts[1..]);
    if KeysAreAscii(alnum, s) {
      SanitizeAscii(alnum, s);
    }
    if Sanitize(alnum, s) == Some(Masked(alnum, s)) {
      var masked := SanitizeParts(alnum, parts[1..]).value;
      SanitizedSplits(alnum, s, masked);
      MaskedSplits(alnum, s);
      forall i | 0 < i < |parts|
        ensures AllAscii(Key(alnum, parts[i]))
      {
        assert parts[i] == parts[1..][i - 1];
        assert ([parts[0]] + masked)[i] == masked[i - 1];
        if !AllAscii(Key(alnum, parts[i])) {
          NonAsciiPartNotMasked(alnum, parts[i]);
        }
      }
    }
  }

  lemma SanitizeAscii(alnum: char -> bool, s: string)
    requires KeysAreAscii(alnum, s)
    ensures Sanitize(alnum, s) == Some(Masked(alnum, s))
  {
    hide Split, Join, SanitizeParts, SanitizePart, MaskPart, MaskParts, Key;
    var parts := Split(s);
    var rest := parts[1..];
    SanitizePartsAre(alnum, rest);
    forall i | 0 <= i < |rest|
      ensures SanitizePart(alnum, rest[i]) == Some(MaskPart(alnum, parts[i + 1]))
    {
      assert rest[i] == parts[i + 1];
      AsciiPartMasked(alnum, parts[i + 1]);
    }
    var masked := SanitizeParts(alnum, rest).value;
    assert forall i :: 0 <= i < |rest| ==> masked[i] == MaskPart(alnum, parts[i + 1]);
    assert [parts[0]] + masked == MaskParts(alnum, parts);
  }

  predicate IsPlain(c: char) {
    '0' <= c <= '9' || 'A' <= c <= 'Z' || 'a' <= c <= 'z'
  }

  /**
    What comes out, in so many words: of a key of ASCII letters and digits the first five characters stay,
    five stars follow, and the text before and behind is kept.
   */
  lemma SanitizedText(alnum: char -> bool, head: string, key: string, rest: string)
    requires IsAlphanumericTest(alnum) && (forall i :: 0 <= i < |key| ==> IsPlain(key[i]))
    requires rest == "" || !alnum(rest[0])
    requires Free(head, "secret-") && Free(key + rest, "secret-")
    ensures Sanitize(alnum, head + ("secret-" + (key + rest))) ==
            Some(head + ("secret-" + ((if |key| > 5 then key[..5] else key) + "*****" + rest)))
  {
    var part := key + rest;
    var s := head + (MARKER + part);
    hide Split, Sanitize;
    SplitFirst(head, part);
    SplitAlone(part);
    assert Split(s) == [head, part];
    assert part[..|key|] == key && part[|key|..] == rest;
    RunUnique(alnum, part, |key|);
    SanitizeAscii(alnum, s);
    var parts, x := MaskParts(alnum, [head, part]), MaskPart(alnum, part);
    assert Key(alnum, part) == key && Outside(alnum, part) == rest;
    assert x == (if |key| > 5 then key[..5] else key) + "*****" + rest;
    assert parts == [head, x] && parts[1..] == [x];
    assert Join(parts) == head + (MARKER + Join([x])) && Join([x]) == x;
    assert Masked(alnum, s) == Join(parts);
  }

  lemma SplitAlone(s: string)
    requires Free(s, MARKER)
    ensures Split(s) == [s]
  {
  }

  /**
    The two ways it fails, on keys of the letter U+00E9, two bytes in UTF-8: one such letter makes the
    split panic, two of them leave the second one in the output.
   */
  lemma NonAsciiKeysFail(alnum: char -> bool)
    requires IsAlphanumericTest(alnum) && alnum('\U{E9}')
    ensures Sanitize(alnum, "secret-" + "\U{E9}") == None
    ensures Sanitize(alnum, "secret-" + "\U{E9}\U{E9}") == Some("secret-" + "\U{E9}*****\U{E9}")
  {
    hide SanitizePart;
    var one, two := "\U{E9}", "\U{E9}\U{E9}";
    NonAsciiParts(alnum, one, two);
    SanitizeOnePart(alnum, one);
    SanitizeOnePart(alnum, two);
    assert one + STARS + one == "\U{E9}*****\U{E9}";
  }

  lemma NonAsciiParts(alnum: char -> bool, one: string, two: string)
    requires IsAlphanumericTest(alnum) && alnum('\U{E9}') && one == "\U{E9}" && two == one + one
    ensures SanitizePart(alnum, one) == None
    ensures SanitizePart(alnum, two) == Some(one + STARS + one)
  {
    assert Width('\U{E9}') == 2;
    RunUnique(alnum, one, 1);
    RunUnique(alnum, two, 2);
    assert AtByte(one, 1) == None;
    assert two[1..] == one && AtByte(two, 2) == Some(1);
    assert two[..1] == one && one[1..] == "" && ByteLength(one) == 2;
  }

  /** A text that is a marker and one short part. */
  lemma SanitizeOnePart(alnum: char -> bool, part: string)
    requires |part| < |MARKER|
    ensures Sanitize(alnum, MARKER + part) ==
            match SanitizePart(alnum, part) case None => None case Some(m) => Some(MARKER + m)
  {
    hide SanitizePart, Split;
    ShortSplit(part);
    assert ["", part][1..] == [part];
    var rest := [part][1..];
    assert rest == [] && SanitizeParts(alnum, rest) == Some([]);
    if SanitizePart(alnum, part).Some? {
      var m := SanitizePart(alnum, part).value;
      assert SanitizeParts(alnum, [part]) == Some([m] + []);
      assert [m] + [] == [m] && ([""] + [m])[1..] == [m];
      assert Join([m]) == m && Join([""] + [m]) == "" + (MARKER + m);
      assert Sanitize(alnum, MARKER + part) == Some(Join([""] + [m]));
      assert "" + (MARKER + m) == MARKER + m;
    }
  }

  lemma ShortSplit(s: string)
    requires |s| < |MARKER|
    ensures Split(MARKER + s) == ["", s]
  {
    SplitFirst("", s);
    assert "" + (MARKER + s) == MARKER + s;
    assert Free(s, MARKER);
  }
}
