/**
  Big-endian fixed-width integers, as written by java.io.DataOutputStream and read by
  Rust's from_be_bytes: unsigned digits in base 256 and their two's-complement reading.
 */
module BigEndian {
  type Byte = b: int | 0 <= b < 256

  function Pow256(n: nat): (r: nat)
    ensures r > 0
  {
    if n == 0 then 1 else 256 * Pow256(n - 1)
  }

  /** The n base-256 digits of v, most significant first. */
  function Digits(v: nat, n: nat): (s: seq<Byte>)
    requires v < Pow256(n)
    ensures |s| == n
  {
    if n == 0 then [] else Digits(v / 256, n - 1) + [v % 256]
  }

  function Number(s: seq<Byte>): (v: nat)
    ensures v < Pow256(|s|)
  {
    if s == [] then 0
    else
      var front := s[..|s| - 1];
      assert Number(front) + 1 <= Pow256(|s| - 1);
      256 * Number(front) + s[|s| - 1]
  }

  /** Range of an n-byte two's-complement integer. */
  predicate InRange(v: int, n: nat) {
    0 <= 2 * v + Pow256(n) && 2 * v < Pow256(n)
  }

  /** The low n bytes of v: v itself or its two's complement when v is in range, truncated otherwise. */
  function Wrap(v: int, n: nat): (u: nat)
    ensures u < Pow256(n)
  {
    var p := Pow256(n);
    if 0 <= v < p then v else if v < 0 <= v + p then v + p else v % p
  }

  /** i32::to_be_bytes for n = 4 (after an `as i32` cast) and i64::to_be_bytes for n = 8. */
  function ToBeBytes(v: int, n: nat): (s: seq<Byte>)
    ensures |s| == n
  {
    Digits(Wrap(v, n), n)
  }

  function FromBeBytes(s: seq<Byte>): (v: int)
    requires s != []
    ensures InRange(v, |s|)
  {
    Pow256Even(|s|);
    var u := Number(s);
    if 2 * u < Pow256(|s|) then u else u - Pow256(|s|)
  }

  lemma {:induction false} NumberOfDigits(v: nat, n: nat)
    requires v < Pow256(n)
    ensures Number(Digits(v, n)) == v
  {
    if n > 0 {
      NumberOfDigits(v / 256, n - 1);
      assert Digits(v, n)[..n - 1] == Digits(v / 256, n - 1);
    }
  }

  lemma {:induction false} DigitsOfNumber(s: seq<Byte>)
    ensures Digits(Number(s), |s|) == s
  {
    if s != [] {
      var front := s[..|s| - 1];
      DigitsOfNumber(front);
      assert Number(s) / 256 == Number(front);
      assert s == front + [s[|s| - 1]];
    }
  }

  /** Reading back an encoded integer gives the integer, over the whole signed range. */
  lemma DecodeEncode(v: int, n: nat)
    requires n > 0 && InRange(v, n)
    ensures FromBeBytes(ToBeBytes(v, n)) == v
  {
    NumberOfDigits(Wrap(v, n), n);
  }

  /** Every non-empty byte string is the encoding of the integer read from it. */
  lemma EncodeDecode(s: seq<Byte>)
    requires s != []
    ensures ToBeBytes(FromBeBytes(s), |s|) == s
  {
    DigitsOfNumber(s);
  }

  lemma Pow256Even(n: nat)
    requires n > 0
    ensures Pow256(n) % 2 == 0
  {
  }

  /** An unsigned right shift by 8 * k bits. */
  function ShiftRight(v: nat, k: nat): (r: nat) {
    if k == 0 then v else ShiftRight(v / 256, k - 1)
  }

  /** Digit i is the byte a right shift by 8 * (n - 1 - i) bits leaves lowest. */
  lemma {:induction false} DigitAt(v: nat, n: nat, i: nat)
    requires v < Pow256(n) && i < n
    ensures Digits(v, n)[i] == ShiftRight(v, n - 1 - i) % 256
  {
    if i < n - 1 {
      DigitAt(v / 256, n - 1, i);
    }
  }

  // ---- Which integers bytes denote ----

  /** The first byte has the highest weight. */
  lemma {:induction false} NumberCons(x: Byte, s: seq<Byte>)
    ensures Number([x] + s) == x * Pow256(|s|) + Number(s)
  {
    if s == [] {
      assert [x] + s == [x] && [x][..0] == [];
      assert Number([x]) == 256 * Number([]) + x;
    } else {
      var front := s[..|s| - 1];
      assert ([x] + s)[..|s|] == [x] + front;
      NumberCons(x, front);
      Distribute(x, Pow256(|front|), Number(front));
    }
  }

  lemma Distribute(x: int, p: int, n: int)
    ensures 256 * (x * p + n) == x * (256 * p) + 256 * n
  {
  }

  lemma Pow256Values()
    ensures Pow256(0) == 1 && Pow256(1) == 256 && Pow256(2) == 65536 && Pow256(3) == 16777216
    ensures Pow256(4) == 4294967296 && Pow256(7) == 72057594037927936 && Pow256(8) == 18446744073709551616
  {
    assert Pow256(5) == 256 * Pow256(4) && Pow256(6) == 256 * Pow256(5) && Pow256(7) == 256 * Pow256(6);
  }

  lemma NumberOfFour(a: Byte, b: Byte, c: Byte, d: Byte)
    ensures Number([a, b, c, d]) == a * 16777216 + b * 65536 + c * 256 + d
  {
    hide Number, Pow256;
    Pow256Values();
    NumberCons(a, [b, c, d]);
    NumberCons(b, [c, d]);
    NumberCons(c, [d]);
    NumberCons(d, []);
    NumberOfNone();
    assert [a, b, c, d] == [a] + [b, c, d] && [b, c, d] == [b] + [c, d];
    assert [c, d] == [c] + [d] && [d] == [d] + [];
  }

  lemma NumberOfNone()
    ensures Number([]) == 0
  {
  }

  /** Four bytes read as a signed integer: the first is the signed one. */
  lemma FourBytes(a: Byte, b: Byte, c: Byte, d: Byte)
    ensures FromBeBytes([a, b, c, d]) == (if a < 128 then a else a - 256) * 16777216 + b * 65536 + c * 256 + d
  {
    hide Number, Pow256;
    Pow256Values();
    NumberOfFour(a, b, c, d);
  }

  lemma {:induction false} NumberAppend(s: seq<Byte>, t: seq<Byte>)
    ensures Number(s + t) == Number(s) * Pow256(|t|) + Number(t)
  {
    if t == [] {
      assert s + t == s;
    } else {
      var front := t[..|t| - 1];
      assert (s + t)[..|s + t| - 1] == s + front;
      NumberAppend(s, front);
      Distribute(Number(s), Pow256(|front|), Number(front));
    }
  }

  /** Eight bytes read as a signed integer. */
  lemma EightBytes(a: Byte, b: Byte, c: Byte, d: Byte, e: Byte, f: Byte, g: Byte, h: Byte)
    ensures FromBeBytes([a, b, c, d, e, f, g, h]) ==
            (if a < 128 then a else a - 256) * 72057594037927936 + b * 281474976710656 + c * 1099511627776
            + d * 4294967296 + e * 16777216 + f * 65536 + g * 256 + h
  {
    hide Number, Pow256;
    Pow256Values();
    NumberOfFour(a, b, c, d);
    NumberOfFour(e, f, g, h);
    NumberAppend([a, b, c, d], [e, f, g, h]);
    assert [a, b, c, d, e, f, g, h] == [a, b, c, d] + [e, f, g, h];
  }

  /** So these are the bytes written for an integer, the -1 sentinel among them. */
  lemma WrittenAsFour(v: int, a: Byte, b: Byte, c: Byte, d: Byte)
    requires v == (if a < 128 then a else a - 256) * 16777216 + b * 65536 + c * 256 + d
    ensures ToBeBytes(v, 4) == [a, b, c, d]
  {
    hide ToBeBytes, FromBeBytes;
    FourBytes(a, b, c, d);
    EncodeDecode([a, b, c, d]);
  }

  lemma MinusOne()
    ensures ToBeBytes(-1, 4) == [255, 255, 255, 255]
  {
    hide ToBeBytes;
    WrittenAsFour(-1, 255, 255, 255, 255);
  }
}
