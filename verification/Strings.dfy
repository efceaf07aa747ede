/** Substring search, and UTF-8 byte offsets into strings of Unicode scalar values. */
module Strings {
  import opened Wrappers

  /** p occurs in s at position i. */
  predicate At(s: string, p: string, i: int) {
    0 <= i <= |s| - |p| && s[i..i + |p|] == p
  }

  ghost predicate Free(s: string, p: string) {
    forall i :: !At(s, p, i)
  }

  function IndexFrom(s: string, p: string, i: nat): (r: Option<nat>)
    requires i <= |s|
    ensures r.Some? ==> i <= r.value && At(s, p, r.value) && forall j :: i <= j < r.value ==> !At(s, p, j)
    ensures r.None? ==> forall j :: i <= j ==> !At(s, p, j)
    decreases |s| - i
  {
    if At(s, p, i) then Some(i)
    else if i == |s| then None
    else IndexFrom(s, p, i + 1)
  }

  /** The first occurrence: str::find. */
  function IndexOf(s: string, p: string): (r: Option<nat>)
    ensures r.Some? ==> At(s, p, r.value) && forall j :: 0 <= j < r.value ==> !At(s, p, j)
    ensures r.None? <==> Free(s, p)
  {
    IndexFrom(s, p, 0)
  }

  lemma AtChar(s: string, p: string, i: int, k: int)
    requires At(s, p, i) && 0 <= k < |p|
    ensures s[i + k] == p[k]
  {
    assert s[i..i + |p|][k] == s[i + k];
  }

  lemma AtShift(a: string, s: string, p: string, i: int)
    ensures i >= |a| ==> (At(a + s, p, i) <==> At(s, p, i - |a|))
  {
    if |a| <= i <= |a + s| - |p| {
      assert (a + s)[i..i + |p|] == s[i - |a|..i - |a| + |p|];
    }
  }

  lemma AtPrefix(a: string, s: string, p: string, i: int)
    ensures i + |p| <= |a| ==> (At(a + s, p, i) <==> At(a, p, i))
  {
    if 0 <= i <= |a| - |p| {
      assert (a + s)[i..i + |p|] == a[i..i + |p|];
    }
  }

  lemma FreePart(a: string, s: string, b: string, p: string)
    requires Free(a + s + b, p)
    ensures Free(s, p)
  {
    assert a + (s + b) == a + s + b;
    forall i
      ensures !At(s, p, i)
    {
      AtPrefix(s, b, p, i);
      AtShift(a, s + b, p, i + |a|);
      assert !At(a + (s + b), p, i + |a|);
    }
  }

  // ---- Bytes ----

  /** Length of a scalar value in UTF-8 (section 3 of RFC 3629). */
  function Width(c: char): (w: nat)
    ensures w >= 1
    ensures w == 1 <==> IsAscii(c)
    ensures (w <= 2 <==> (c as int) < 0x800) && (w <= 3 <==> (c as int) < 0x1_0000) && w <= 4
  {
    var v := c as int;
    if v < 0x80 then 1 else if v < 0x800 then 2 else if v < 0x1_0000 then 3 else 4
  }

  predicate IsAscii(c: char) {
    (c as int) < 128
  }

  predicate AllAscii(s: string) {
    forall i :: 0 <= i < |s| ==> IsAscii(s[i])
  }

  function ByteLength(s: string): (n: nat)
    ensures n >= |s|
  {
    if s == "" then 0 else Width(s[0]) + ByteLength(s[1..])
  }

  /** The character index at byte offset n, or nothing when n is inside a character or past the end. */
  function AtByte(s: string, n: nat): (k: Option<nat>)
    ensures k.Some? ==> k.value <= |s| && k.value <= n && ByteLength(s[..k.value]) == n
  {
    if n == 0 then Some(0)
    else if s == "" || n < Width(s[0]) then None
    else
      match AtByte(s[1..], n - Width(s[0]))
      case None => None
      case Some(k) =>
        assert s[..k + 1][1..] == s[1..][..k];
        Some(k + 1)
  }

  lemma AtByteCons(s: string, n: nat)
    requires s != "" && n > 0
    ensures ByteLength(s) == Width(s[0]) + ByteLength(s[1..])
    ensures AtByte(s, n) ==
            if n < Width(s[0]) then None
            else
              match AtByte(s[1..], n - Width(s[0]))
              case None => None
              case Some(k) => Some(k + 1)
  {
  }

  lemma AtByteEnds(s: string)
    ensures AtByte(s, 0) == Some(0) && ByteLength("") == 0
  {
  }

  /** A byte offset inside a prefix is the same offset of the whole. */
  lemma {:induction false} AtBytePrefix(s: string, m: nat, n: nat)
    requires m <= |s| && n <= ByteLength(s[..m])
    ensures AtByte(s[..m], n) == AtByte(s, n)
  {
    hide Width, ByteLength, AtByte;
    var t := s[..m];
    AtByteEnds(s);
    AtByteEnds(t);
    if n > 0 {
      assert t == "" || (t[0] == s[0] && t[1..] == s[1..][..m - 1]);
      AtByteCons(t, n);
      AtByteCons(s, n);
      if n >= Width(s[0]) {
        AtBytePrefix(s[1..], m - 1, n - Width(s[0]));
      }
    }
  }

  /** The end of a prefix is where its bytes end. */
  lemma {:induction false} OffsetOfPrefix(s: string, j: nat)
    requires j <= |s|
    ensures AtByte(s, ByteLength(s[..j])) == Some(j) && ByteLength(s[..j]) <= ByteLength(s)
  {
    if j > 0 {
      assert s[..j][0] == s[0] && s[..j][1..] == s[1..][..j - 1];
      OffsetOfPrefix(s[1..], j - 1);
    }
  }

  /** Over ASCII, byte offsets are character offsets. */
  lemma {:induction false} AsciiOffsets(s: string, n: nat)
    requires n <= |s| && AllAscii(s[..n])
    ensures AtByte(s, n) == Some(n)
  {
    if n > 0 {
      assert s[..n][0] == s[0];
      assert s[1..][..n - 1] == s[..n][1..];
      AsciiOffsets(s[1..], n - 1);
    }
  }

  lemma AllAsciiCons(s: string)
    requires s != ""
    ensures AllAscii(s) <==> IsAscii(s[0]) && AllAscii(s[1..])
  {
    assert s == [s[0]] + s[1..];
    if AllAscii(s) {
      forall i | 0 <= i < |s| - 1
        ensures IsAscii(s[1..][i])
      {
        assert IsAscii(s[i + 1]);
      }
    }
  }

  lemma {:induction false} AsciiLength(s: string)
    ensures ByteLength(s) == |s| <==> AllAscii(s)
  {
    if s != "" {
      AsciiLength(s[1..]);
      AllAsciiCons(s);
    }
  }

  /** A byte offset equal to the length of a prefix holding a non-ASCII character falls short of it. */
  lemma {:induction false} OffsetFallsShort(s: string, n: nat)
    requires n <= |s| && !AllAscii(s[..n])
    ensures AtByte(s, n).Some? ==> AtByte(s, n).value < n
  {
    if AtByte(s, n) == Some(n) {
      AsciiLength(s[..n]);
    }
  }
}
