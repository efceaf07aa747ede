/** log_message: a message is truncated and then sanitized, so a cut can fall inside a key or a marker. */
module LogLines {
  import opened Wrappers
  import opened Strings
  import opened Masking

  const MAX_CHARS: nat := 400
  const TRUNCATED_SUFFIX: string := "...[TRUNCATED]"

  function Truncate(msg: string): (r: string)
    ensures |r| <= MAX_CHARS
  {
    if |msg| > MAX_CHARS then msg[..MAX_CHARS - |TRUNCATED_SUFFIX|] + TRUNCATED_SUFFIX else msg
  }

  /** A short message is kept whole; of a longer one the first 386 characters, and the suffix says so. */
  lemma TruncatedTo(msg: string)
    ensures |msg| <= 400 ==> Truncate(msg) == msg
    ensures |msg| > 400 ==> Truncate(msg) == msg[..386] + "...[TRUNCATED]"
  {
    assert |TRUNCATED_SUFFIX| == 14;
  }

  function LogLine(alnum: char -> bool, msg: string): (line: Option<string>) {
    Sanitize(alnum, Truncate(msg))
  }

  // ---- Length ----

  lemma {:induction false} MarkersFit(parts: seq<string>)
    requires parts != []
    ensures |MARKER| * (|parts| - 1) <= |Join(parts)|
  {
    if |parts| > 1 {
      MarkersFit(parts[1..]);
    }
  }

  lemma {:induction false} JoinGrowth(parts: seq<string>, longer: seq<string>, extra: nat)
    requires |longer| == |parts| > 0
    requires forall i :: 0 <= i < |parts| ==> |longer[i]| <= |parts[i]| + extra
    ensures |Join(longer)| <= |Join(parts)| + extra * |parts|
  {
    if |parts| > 1 {
      JoinGrowth(parts[1..], longer[1..], extra);
      assert extra * |parts| == extra * (|parts| - 1) + extra;
    }
  }

  lemma SanitizedLength(alnum: char -> bool, s: string)
    requires Sanitize(alnum, s).Some?
    ensures |Sanitize(alnum, s).value| <= |s| + |STARS| * (|Split(s)| - 1)
  {
    JoinSplit(s);
    var parts := Split(s);
    if |parts| > 1 {
      var masked := SanitizeParts(alnum, parts[1..]).value;
      SanitizePartsAre(alnum, parts[1..]);
      forall i | 0 <= i < |masked|
        ensures |masked[i]| <= |parts[1..][i]| + |STARS|
      {
        var j, k := SanitizedPartShape(alnum, parts[1..][i]);
      }
      JoinGrowth(parts[1..], masked, |STARS|);
      assert ([parts[0]] + masked)[1..] == masked;
    }
  }

  /** No line is longer than 400 characters plus five for each of at most 57 markers. */
  lemma LineLength(alnum: char -> bool, msg: string)
    requires LogLine(alnum, msg).Some?
    ensures |LogLine(alnum, msg).value| <= 685
  {
    var s := Truncate(msg);
    SanitizedLength(alnum, s);
    JoinSplit(s);
    MarkersFit(Split(s));
    assert |MARKER| == 7 && |STARS| == 5;
  }

  // ---- Where the cut falls ----

  /** The text behind the i-th marker of s, to the end of s. */
  function TextAfter(s: string, i: nat): (t: string)
    requires i < |Split(s)|
  {
    Join(Split(s)[i..])
  }

  /** p is a prefix of s: the cut made by truncation. */
  predicate IsPrefix(p: string, s: string) {
    |p| <= |s| && s[..|p|] == p
  }

  lemma PrefixOfJoin(parts: seq<string>)
    requires parts != []
    ensures IsPrefix(parts[0], Join(parts))
  {
  }

  /** Splitting a prefix gives the first segments; the last of them may be cut or run into a cut marker. */
  lemma {:induction false} SplitPrefix(s: string, n: nat)
    requires n <= |s|
    ensures |Split(s[..n])| <= |Split(s)|
    ensures forall i :: 0 <= i < |Split(s[..n])| ==> IsPrefix(Split(s[..n])[i], TextAfter(s, i))
    decreases |s|
  {
    var first := IndexOf(s, MARKER);
    var t := s[..n];
    JoinSplit(s);
    if first.None? || n < first.value + |MARKER| {
      NoMarkerInPrefix(s, n);
      assert Split(s)[0..] == Split(s);
    } else {
      var i := first.value;
      var p, rest := s[..i], s[i + |MARKER|..];
      var m := n - i - |MARKER|;
      JoinSplit(rest);
      assert Free(p, MARKER) by {
        assert Split(s)[0] == p;
      }
      assert t == p + (MARKER + rest[..m]) by {
        assert s == p + (MARKER + rest);
      }
      SplitFirst(p, rest[..m]);
      SplitPrefix(rest, m);
      TextAfterShift(s, p, rest);
      PrefixOfJoin(Split(s)[0..]);
    }
  }

  lemma NoMarkerInPrefix(s: string, n: nat)
    requires n <= |s|
    requires IndexOf(s, MARKER).None? || n < IndexOf(s, MARKER).value + |MARKER|
    ensures Split(s[..n]) == [s[..n]]
  {
    forall j
      ensures !At(s[..n], MARKER, j)
    {
      assert s == s[..n] + s[n..];
      AtPrefix(s[..n], s[n..], MARKER, j);
    }
  }

  lemma TextAfterShift(s: string, p: string, rest: string)
    requires Split(s) == [p] + Split(rest)
    ensures forall i :: 0 <= i < |Split(rest)| ==> TextAfter(s, i + 1) == TextAfter(rest, i)
  {
    forall i | 0 <= i < |Split(rest)|
      ensures TextAfter(s, i + 1) == TextAfter(rest, i)
    {
      assert Split(s)[i + 1..] == Split(rest)[i..];
    }
  }

  /** Appended text without the marker's last character creates no marker: it extends the last segment. */
  lemma SplitAppend(s: string, x: string)
    requires forall i :: 0 <= i < |x| ==> x[i] != '-'
    ensures var parts := Split(s);
            Split(s + x) == parts[..|parts| - 1] + [parts[|parts| - 1] + x]
  {
    JoinSplit(s);
    var parts := Split(s);
    var last := parts[|parts| - 1];
    forall i
      ensures !At(last + x, MARKER, i)
    {
      AtPrefix(last, x, MARKER, i);
      if At(last + x, MARKER, i) && i + |MARKER| > |last| {
        AtChar(last + x, MARKER, i, 6);
      }
    }
    JoinExtend(parts, x);
    SplitJoin(parts[..|parts| - 1] + [last + x]);
  }

  lemma {:induction false} JoinExtend(parts: seq<string>, x: string)
    requires parts != []
    ensures Join(parts[..|parts| - 1] + [parts[|parts| - 1] + x]) == Join(parts) + x
  {
    var n := |parts| - 1;
    var longer := parts[..n] + [parts[n] + x];
    if n > 0 {
      JoinExtend(parts[1..], x);
      assert longer[1..] == parts[1..][..n - 1] + [parts[1..][n - 1] + x];
      assert longer[0] == parts[0];
      assert parts[0] + (MARKER + (Join(parts[1..]) + x)) == parts[0] + (MARKER + Join(parts[1..])) + x;
    }
  }

  lemma SuffixHidesNothing(alnum: char -> bool, part: string)
    requires IsAlphanumericTest(alnum)
    ensures Key(alnum, part + TRUNCATED_SUFFIX) == Key(alnum, part)
  {
    var s := part + TRUNCATED_SUFFIX;
    var n := Run(alnum, part);
    assert TRUNCATED_SUFFIX[0] == '.' && IsAscii('.') && !alnum('.');
    assert forall i :: 0 <= i < |part| ==> s[i] == part[i];
    assert n == |part| ==> s[n] == '.';
    RunUnique(alnum, s, n);
  }

  /** Each key of a truncated message is the start of what followed the same marker in the message. */
  lemma TruncatedKeys(alnum: char -> bool, msg: string)
    requires IsAlphanumericTest(alnum)
    ensures |Split(Truncate(msg))| <= |Split(msg)|
    ensures forall i :: 0 < i < |Split(Truncate(msg))| ==>
      IsPrefix(Key(alnum, Split(Truncate(msg))[i]), TextAfter(msg, i))
  {
    hide Split, Key, TextAfter, IsPrefix;
    var cut := Split(Truncate(msg));
    if |msg| <= MAX_CHARS {
      SplitPrefix(msg, |msg|);
      assert msg[..|msg|] == msg;
      forall i | 0 < i < |cut|
        ensures IsPrefix(Key(alnum, cut[i]), TextAfter(msg, i))
      {
        KeyIsPrefix(alnum, cut[i], TextAfter(msg, i));
      }
    } else {
      var n := MAX_CHARS - |TRUNCATED_SUFFIX|;
      var parts := Split(msg[..n]);
      SplitPrefix(msg, n);
      SplitAppend(msg[..n], TRUNCATED_SUFFIX);
      forall i | 0 < i < |cut|
        ensures IsPrefix(Key(alnum, cut[i]), TextAfter(msg, i))
      {
        SuffixHidesNothing(alnum, parts[i]);
        KeyIsPrefix(alnum, parts[i], TextAfter(msg, i));
      }
    }
  }

  lemma KeyIsPrefix(alnum: char -> bool, part: string, s: string)
    requires IsPrefix(part, s)
    ensures IsPrefix(Key(alnum, part), s)
  {
    var n := Run(alnum, part);
    assert part[..n] == s[..n];
  }

  /**
    Whatever the message: when the keys left in the truncated text are ASCII, every marker in the line
    is followed by at most five alphanumerics and five stars, and what is shown behind the i-th marker
    is the start of what followed the i-th marker of the message.
   */
  lemma LineShowsAtMostFive(alnum: char -> bool, msg: string)
    requires IsAlphanumericTest(alnum) && KeysAreAscii(alnum, Truncate(msg))
    ensures LogLine(alnum, msg) == Some(Masked(alnum, Truncate(msg)))
    ensures var line := Masked(alnum, Truncate(msg));
            && (forall i :: At(line, "secret-", i) ==> MaskedAt(alnum, line, i + 7))
            && |Split(line)| <= |Split(msg)|
            && forall i :: 0 < i < |Split(line)| ==>
                 && |Key(alnum, Split(line)[i])| <= 5
                 && IsPrefix(Key(alnum, Split(line)[i]), TextAfter(msg, i))
  {
    hide Sanitize, Split, Masked, Key, TextAfter;
    var s := Truncate(msg);
    SanitizeMasksIffKeysAscii(alnum, s);
    MaskedKeepsOutside(alnum, s);
    TruncatedKeys(alnum, msg);
    forall i | At(Masked(alnum, s), MARKER, i)
      ensures MaskedAt(alnum, Masked(alnum, s), i + |MARKER|)
    {
      EveryMarkerIsMasked(alnum, s, i);
    }
    forall i | 0 < i < |Split(s)|
      ensures IsPrefix(FirstFive(Key(alnum, Split(s)[i])), TextAfter(msg, i))
    {
      ShownIsPrefix(Key(alnum, Split(s)[i]), TextAfter(msg, i));
    }
  }

  /** Whatever the message and its keys, every marker in a line is followed by at most five alphanumerics and stars. */
  lemma LineMarkersAreMasked(alnum: char -> bool, msg: string, i: int)
    requires LogLine(alnum, msg).Some? && At(LogLine(alnum, msg).value, "secret-", i)
    ensures MaskedAt(alnum, LogLine(alnum, msg).value, i + 7)
  {
    SanitizedMarkersAreMasked(alnum, Truncate(msg), i);
  }

  lemma ShownIsPrefix(key: string, s: string)
    requires IsPrefix(key, s)
    ensures IsPrefix(FirstFive(key), s) && |FirstFive(key)| <= 5
  {
    assert |key| > 5 ==> key[..5] == s[..5];
  }

  /** In particular every ASCII message is logged safely. */
  lemma AsciiMessagesAreSafe(alnum: char -> bool, msg: string)
    requires AllAscii(msg)
    ensures KeysAreAscii(alnum, Truncate(msg))
  {
    var s := Truncate(msg);
    assert AllAscii(s) by {
      assert forall i :: 0 <= i < |TRUNCATED_SUFFIX| ==> IsAscii(TRUNCATED_SUFFIX[i]);
    }
    JoinSplit(s);
    AsciiJoin(Split(s));
  }

  lemma {:induction false} AsciiJoin(parts: seq<string>)
    requires parts != [] && AllAscii(Join(parts))
    ensures forall i :: 0 <= i < |parts| ==> AllAscii(parts[i])
  {
    var s := Join(parts);
    if |parts| > 1 {
      var rest := Join(parts[1..]);
      var n := |parts[0]|;
      forall i | 0 <= i < n
        ensures IsAscii(parts[0][i])
      {
        assert parts[0][i] == s[i];
      }
      forall i | 0 <= i < |rest|
        ensures IsAscii(rest[i])
      {
        assert rest[i] == s[n + |MARKER| + i];
      }
      AsciiJoin(parts[1..]);
    }
  }
}
