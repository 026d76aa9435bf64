/** What b64enc and b64dec compute, stated as functions on values: the
    encoding of RFC 4648, section 4, and its inverse, with the facts the header
    promises about them (lengths, padding, round trip). */
module Base64Spec {
  import opened Base64Alphabet

  /* ---------------------------------------------------------------------- */
  /* One group: 3 bytes <-> 24 bits <-> 4 characters                        */
  /* ---------------------------------------------------------------------- */

  /** Section 4 of RFC 4648 reads a group of three bytes as one 24-bit
      number, the first byte most significant. */
  function GroupValue(b0: byte, b1: byte, b2: byte): nat
  {
    65536 * b0 + 256 * b1 + b2
  }

  /** The last `m` base-64 digits of `x`, most significant first, each written
      as its character of the table. */
  function Chars(x: nat, m: nat): (r: string)
    ensures |r| == m
  {
    if m == 0 then [] else Chars(x / 64, m - 1) + [TableChar(x % 64)]
  }

  /** Every digit Chars writes is a character of the table. */
  lemma {:induction false} CharsInAlphabet(x: nat, m: nat)
    ensures InAlphabet(Chars(x, m))
  {
    if m > 0 {
      CharsInAlphabet(x / 64, m - 1);
      var r := Chars(x, m);
      forall k | 0 <= k < m
        ensures IsBase64Char(r[k])
      {
        if k < m - 1 {
          assert r[k] == Chars(x / 64, m - 1)[k];
        } else {
          assert r[k] == TableChar(x % 64);
        }
      }
    }
  }

  /** The four characters of a full group: its 24 bits as four 6-bit digits
      (RFC 4648, section 4). */
  function EncodeGroup(b0: byte, b1: byte, b2: byte): (q: string)
    ensures |q| == 4
  {
    Chars(GroupValue(b0, b1, b2), 4)
  }

  /** All characters of `t` belong to the alphabet. */
  predicate InAlphabet(t: string)
  {
    AlphabetBefore(t, |t|)
  }

  /** The first `m` characters of `t` are in the alphabet. */
  predicate AlphabetBefore(t: string, m: nat)
    requires m <= |t|
  {
    forall k | 0 <= k < m :: IsBase64Char(t[k])
  }

  /** The characters of a full group are characters of the table. */
  lemma EncodeGroupInAlphabet(b0: byte, b1: byte, b2: byte)
    ensures InAlphabet(EncodeGroup(b0, b1, b2))
  {
    CharsInAlphabet(GroupValue(b0, b1, b2), 4);
  }

  /** Every slice of a range of alphabet characters is in the alphabet. */
  lemma InAlphabetSlice(t: string, i: nat, j: nat)
    requires i <= j <= |t| && forall k | i <= k < j :: IsBase64Char(t[k])
    ensures InAlphabet(t[i..j])
  {
    forall k | 0 <= k < j - i
      ensures IsBase64Char(t[i..j][k])
    {
      assert t[i..j][k] == t[i + k];
    }
  }

  /** The number that a string of alphabet characters spells as base-64
      digits, the first most significant. */
  function Value(t: string): nat
  {
    if |t| == 0 then 0 else 64 * Value(t[..|t| - 1]) + TableIndex(t[|t| - 1])
  }

  /** The last `m` base-256 digits of `y`, most significant first. */
  function ByteDigits(y: nat, m: nat): (r: seq<byte>)
    ensures |r| == m
  {
    if m == 0 then [] else ByteDigits(y / 256, m - 1) + [y % 256]
  }

  /** The three bytes of a group of four alphabet characters: the 24 bits
      they spell, as bytes. */
  function DecodeGroup(g: string): (r: seq<byte>)
    requires |g| == 4
    ensures |r| == 3
  {
    ByteDigits(Value(g), 3)
  }

  /** Division and remainder by 64 of a number given as quotient and
      remainder. */
  lemma DivMod64(x: int, q: int, r: int)
    requires x == 64 * q + r && 0 <= r < 64
    ensures x / 64 == q && x % 64 == r
  {
  }

  /** The same by 256: what an 8-bit `char` keeps of `x` is `r`. */
  lemma DivMod256(x: int, q: int, r: int)
    requires x == 256 * q + r && 0 <= r < 256
    ensures x / 256 == q && x % 256 == r
  {
  }

  /** The last digit of a number given as quotient and remainder by 64. */
  lemma CharsStep(x: nat, m: nat, q: nat, r: nat, n: nat)
    requires x == 64 * q + r && r < 64 && m == n + 1
    ensures Chars(x, m) == Chars(q, n) + [TableChar(r)]
  {
    DivMod64(x, q, r);
  }

  /** The characters of a number given by its four base-64 digits. */
  lemma CharsOfDigits(x: nat, a: sextet, b: sextet, c: sextet, d: sextet)
    requires x == 262144 * a + 4096 * b + 64 * c + d
    ensures Chars(x, 4) == [TableChar(a), TableChar(b), TableChar(c), TableChar(d)]
  {
    var x1, x2, x3 := a, 64 * a + b, 4096 * a + 64 * b + c;
    CharsStep(x1, 1, 0, a, 0);
    assert Chars(x1, 1) == [TableChar(a)];
    CharsStep(x2, 2, x1, b, 1);
    assert Chars(x2, 2) == [TableChar(a), TableChar(b)];
    CharsStep(x3, 3, x2, c, 2);
    assert Chars(x3, 3) == [TableChar(a), TableChar(b), TableChar(c)];
    CharsStep(x, 4, x3, d, 3);
  }

  /** The last byte of a number given as quotient and remainder by 256. */
  lemma ByteDigitsStep(y: nat, m: nat, q: nat, r: byte)
    requires y == 256 * q + r && m > 0
    ensures ByteDigits(y, m) == ByteDigits(q, m - 1) + [r]
  {
    DivMod256(y, q, r);
  }

  /** The bytes of a number given by its three base-256 digits. */
  lemma ByteDigitsOf(y: nat, r0: byte, r1: byte, r2: byte)
    requires y == 65536 * r0 + 256 * r1 + r2
    ensures ByteDigits(y, 3) == [r0, r1, r2]
  {
    var y1, y2 := r0, 256 * r0 + r1;
    ByteDigitsStep(y1, 1, 0, r0);
    assert ByteDigits(y1, 1) == [r0];
    ByteDigitsStep(y2, 2, y1, r1);
    assert ByteDigits(y2, 2) == [r0, r1];
    ByteDigitsStep(y, 3, y2, r2);
  }

  /** The value of four alphabet characters, digit by digit. */
  lemma ValueOfFour(g: string)
    requires |g| == 4
    ensures Value(g) == 262144 * TableIndex(g[0]) + 4096 * TableIndex(g[1]) + 64 * TableIndex(g[2]) + TableIndex(g[3])
  {
    var g3, g2, g1 := g[..3], g[..2], g[..1];
    assert g3[..2] == g2 && g2[..1] == g1 && g1[..0] == [];
    assert Value(g1) == TableIndex(g[0]);
    assert Value(g2) == 64 * Value(g1) + TableIndex(g[1]);
    assert Value(g3) == 64 * Value(g2) + TableIndex(g[2]);
  }

  /** The four 6-bit values of b64.c:59-62, `b0 >> 2`,
      `(b0 & 3) << 4 | b1 >> 4`, `(b1 & 15) << 2 | b2 >> 6` and `b2 & 63`,
      each shift and mask written as a division or remainder by a power of two
      (the OR joins bit fields that do not overlap, so it is a sum). */
  function Sextets(b0: byte, b1: byte, b2: byte): (v: seq<sextet>)
    ensures |v| == 4
  {
    [b0 / 4, (b0 % 4) * 16 + b1 / 16, (b1 % 16) * 4 + b2 / 64, b2 % 64]
  }

  /** The shifts and masks split the 24 bits of the group into four 6-bit
      digits. */
  lemma SextetsSplitBits(b0: byte, b1: byte, b2: byte)
    ensures var v := Sextets(b0, b1, b2);
      262144 * (v[0] as int) + 4096 * (v[1] as int) + 64 * (v[2] as int) + v[3] as int == GroupValue(b0, b1, b2)
  {
    var v := Sextets(b0, b1, b2);
    assert 4 * v[0] + b0 % 4 == b0;
    assert 16 * (b1 / 16) + b1 % 16 == b1;
    assert 64 * (b2 / 64) + v[3] == b2;
  }

  /** So the characters b64enc writes for a group through `b64map` are the
      group's four digits. */
  lemma EncodeGroupShifts(b0: byte, b1: byte, b2: byte)
    ensures var v := Sextets(b0, b1, b2);
      EncodeGroup(b0, b1, b2) == [TableChar(v[0]), TableChar(v[1]), TableChar(v[2]), TableChar(v[3])]
  {
    var v := Sextets(b0, b1, b2);
    SextetsSplitBits(b0, b1, b2);
    CharsOfDigits(GroupValue(b0, b1, b2), v[0], v[1], v[2], v[3]);
  }

  /** The three bytes of b64.c:156-158 from four 6-bit values: `a << 2 | b >> 4`,
      `b << 4 | c >> 2` and `c << 6 | d`, each stored into an 8-bit `char`
      (hence the `% 256`). */
  function Bytes(a: sextet, b: sextet, c: sextet, d: sextet): (r: seq<byte>)
    ensures |r| == 3
  {
    [a * 4 + b / 16, (b * 16 + c / 4) % 256, (c * 64 + d) % 256]
  }

  /** The bytes hold exactly the 24 bits of the four 6-bit values. */
  lemma BytesJoinBits(a: sextet, b: sextet, c: sextet, d: sextet)
    ensures var r := Bytes(a, b, c, d);
      65536 * (r[0] as int) + 256 * (r[1] as int) + r[2] == 262144 * a + 4096 * b + 64 * c + d
  {
    var r := Bytes(a, b, c, d);
    var bHigh, bLow, cHigh, cLow := b / 16, b % 16, c / 4, c % 4;
    assert b == 16 * bHigh + bLow && c == 4 * cHigh + cLow;
    // b << 4 is (b >> 4) << 8 plus (b & 15) << 4; the char keeps the latter.
    // Likewise c << 6 keeps only (c & 3) << 6.
    assert r[1] == bLow * 16 + cHigh by {
      DivMod256(b * 16 + c / 4, bHigh, bLow * 16 + cHigh);
    }
    assert r[2] == cLow * 64 + d by {
      DivMod256(c * 64 + d, cHigh, cLow * 64 + d);
    }
  }

  /** So the bytes b64dec writes for a group are the bytes of its 24 bits. */
  lemma DecodeGroupShifts(g: string)
    requires |g| == 4
    ensures DecodeGroup(g) == Bytes(TableIndex(g[0]), TableIndex(g[1]), TableIndex(g[2]), TableIndex(g[3]))
  {
    var a, b, c, d := TableIndex(g[0]), TableIndex(g[1]), TableIndex(g[2]), TableIndex(g[3]);
    var r := Bytes(a, b, c, d);
    ValueOfFour(g);
    BytesJoinBits(a, b, c, d);
    ByteDigitsOf(Value(g), r[0], r[1], r[2]);
  }

  /** Rebuilding the bytes from the 6-bit values of a group gives the group
      back. */
  lemma BytesOfSextets(b0: byte, b1: byte, b2: byte)
    ensures var v := Sextets(b0, b1, b2); Bytes(v[0], v[1], v[2], v[3]) == [b0, b1, b2]
  {
    var v := Sextets(b0, b1, b2);
    var r := Bytes(v[0], v[1], v[2], v[3]);
    SextetsSplitBits(b0, b1, b2);
    BytesJoinBits(v[0], v[1], v[2], v[3]);
    DigitsUnique(r[0], r[1], r[2], b0, b1, b2);
  }

  /** Base-256 digits are unique. */
  lemma DigitsUnique(x0: byte, x1: byte, x2: byte, y0: byte, y1: byte, y2: byte)
    requires 65536 * (x0 as int) + 256 * (x1 as int) + x2 == 65536 * (y0 as int) + 256 * (y1 as int) + y2
    ensures x0 == y0 && x1 == y1 && x2 == y2
  {
  }

  /** Decoding undoes encoding on one group. */
  lemma DecodeEncodeGroup(g: string, b0: byte, b1: byte, b2: byte)
    requires g == EncodeGroup(b0, b1, b2)
    ensures InAlphabet(g) && DecodeGroup(g) == [b0, b1, b2]
  {
    var v := Sextets(b0, b1, b2);
    EncodeGroupShifts(b0, b1, b2);
    TableIndexChar(v[0]);
    TableIndexChar(v[1]);
    TableIndexChar(v[2]);
    TableIndexChar(v[3]);
    ValueOfFour(g);
    SextetsSplitBits(b0, b1, b2);
    ByteDigitsOf(Value(g), b0, b1, b2);
    EncodeGroupInAlphabet(b0, b1, b2);
  }

  /* ---------------------------------------------------------------------- */
  /* Encoding a byte sequence                                               */
  /* ---------------------------------------------------------------------- */

  /** The characters for the first `n` groups of three bytes of `s`, in
      order: four per group. */
  function EncodePrefix(s: seq<byte>, n: nat): (r: string)
    requires 3 * n <= |s|
    ensures |r| == 4 * n
  {
    if n == 0 then []
    else EncodePrefix(s, n - 1) + GroupChars(s, n - 1)
  }

  /** The characters of group `k` (counting from zero) of `s`. */
  function GroupChars(s: seq<byte>, k: nat): (q: string)
    requires 3 * k + 3 <= |s|
    ensures |q| == 4
  {
    EncodeGroup(s[3 * k], s[3 * k + 1], s[3 * k + 2])
  }

  /** Encoding one more group of three bytes appends its four characters. */
  lemma EncodePrefixSnoc(s: seq<byte>, n: nat)
    requires 3 * n + 3 <= |s|
    ensures EncodePrefix(s, n + 1) == EncodePrefix(s, n) + GroupChars(s, n)
    ensures GroupChars(s, n) == EncodeGroup(s[3 * n], s[3 * n + 1], s[3 * n + 2])
  {
    assert EncodePrefix(s, n + 1) == EncodePrefix(s, n) + GroupChars(s, n);
  }

  /** The full groups are made of alphabet characters only. */
  lemma {:induction false} EncodePrefixInAlphabet(s: seq<byte>, n: nat)
    requires 3 * n <= |s|
    ensures InAlphabet(EncodePrefix(s, n))
  {
    if n > 0 {
      EncodePrefixInAlphabet(s, n - 1);
      EncodeGroupInAlphabet(s[3 * n - 3], s[3 * n - 2], s[3 * n - 1]);
      var a, b := EncodePrefix(s, n - 1), EncodeGroup(s[3 * n - 3], s[3 * n - 2], s[3 * n - 1]);
      forall k | 0 <= k < |a + b|
        ensures IsBase64Char((a + b)[k])
      {
        if k < |a| {
          assert (a + b)[k] == a[k];
        } else {
          assert (a + b)[k] == b[k - |a|];
        }
      }
    }
  }

  /** The first `n` groups depend only on the first `3 * n` bytes. */
  lemma {:induction false} EncodePrefixOnly(s: seq<byte>, u: seq<byte>, n: nat)
    requires 3 * n <= |s| && 3 * n <= |u| && s[..3 * n] == u[..3 * n]
    ensures EncodePrefix(s, n) == EncodePrefix(u, n)
  {
    if n > 0 {
      var k := n - 1;
      assert s[..3 * k] == u[..3 * k] by {
        assert s[..3 * k] == s[..3 * n][..3 * k] && u[..3 * k] == u[..3 * n][..3 * k];
      }
      EncodePrefixOnly(s, u, k);
      assert GroupChars(s, k) == GroupChars(u, k) by {
        forall d | 3 * k <= d < 3 * n
          ensures s[d] == u[d]
        {
          assert s[d] == s[..3 * n][d] && u[d] == u[..3 * n][d];
        }
      }
      EncodePrefixSnoc(s, k);
      EncodePrefixSnoc(u, k);
    }
  }

  /** The last, padded group for the one or two bytes left over after the full
      groups: the group is completed with zero bytes (RFC 4648, section 4),
      and its first two characters and two `=` are written for one byte, its
      first three characters and one `=` for two. b64.c:78 reads a byte past
      the input instead of a zero byte; see B64AsWritten.EncodeTailAsWritten. */
  function EncodeTail(s: seq<byte>): (r: string)
    requires |s| < 3
    ensures |r| == if |s| == 0 then 0 else 4
  {
    if |s| == 0 then []
    else if |s| == 1 then EncodeGroup(s[0], 0, 0)[..2] + [Pad, Pad]
    else EncodeGroup(s[0], s[1], 0)[..3] + [Pad]
  }

  /** The last group of an encoding: two characters of the table and two `=`
      after one byte, three characters of the table and one `=` after two. */
  lemma EncodeTailAlphabet(s: seq<byte>)
    requires 0 < |s| < 3
    ensures AlphabetBefore(EncodeTail(s), |s| + 1)
    ensures |s| == 1 ==> EncodeTail(s)[2] == Pad && EncodeTail(s)[3] == Pad
    ensures |s| == 2 ==> EncodeTail(s)[3] == Pad
  {
    var q := if |s| == 1 then EncodeGroup(s[0], 0, 0) else EncodeGroup(s[0], s[1], 0);
    EncodeGroupInAlphabet(s[0], if |s| == 1 then 0 else s[1], 0);
    forall k | 0 <= k < |s| + 1
      ensures IsBase64Char(EncodeTail(s)[k])
    {
      assert EncodeTail(s)[k] == q[k];
    }
  }

  /** The bits of the last character before the padding that lie beyond the
      input are zero, as section 3.5 of RFC 4648 requires of an encoder: the
      4 low bits after one byte (`(b0 & 3) << 4`), the 2 low bits after two. */
  lemma TailPadBitsZero(s: seq<byte>)
    requires 0 < |s| < 3
    ensures |s| == 1 ==> TableIndex(EncodeTail(s)[1]) == (s[0] % 4) * 16
    ensures |s| == 2 ==> TableIndex(EncodeTail(s)[2]) == (s[1] % 16) * 4
  {
    if |s| == 1 {
      var v := Sextets(s[0], 0, 0);
      EncodeGroupShifts(s[0], 0, 0);
      assert v[1] == (s[0] % 4) * 16;
      TableIndexChar(v[1]);
    } else {
      var v := Sextets(s[0], s[1], 0);
      EncodeGroupShifts(s[0], s[1], 0);
      assert v[2] == (s[1] % 16) * 4;
      TableIndexChar(v[2]);
    }
  }

  /** The base64 text of `s` without the terminator: the full groups, then the
      padded tail. */
  function Encode(s: seq<byte>): (r: string)
  {
    var g := |s| / 3;
    EncodePrefix(s, g) + EncodeTail(s[3 * g..])
  }

  /** `n` bytes make `g` full groups and `rest` bytes left over. */
  lemma Groups(n: nat, g: nat, rest: nat)
    requires n == 3 * g + rest && rest < 3
    ensures n / 3 == g && n % 3 == rest
  {
  }

  /** Encode, with the number of full groups given. */
  lemma EncodeShape(s: seq<byte>, g: nat, rest: nat)
    requires |s| == 3 * g + rest && rest < 3
    ensures Encode(s) == EncodePrefix(s, g) + EncodeTail(s[3 * g..])
    ensures |Encode(s)| == if rest == 0 then 4 * g else 4 * g + 4
  {
    Groups(|s|, g, rest);
  }

  /** Four characters per started group of three bytes (RFC 4648, section 4). */
  lemma EncodeLength(s: seq<byte>)
    ensures |Encode(s)| == 4 * ((|s| + 2) / 3)
  {
    var g, rest := |s| / 3, |s| % 3;
    EncodeShape(s, g, rest);
    if rest == 0 {
      Groups(|s| + 2, g, 2);
    } else {
      Groups(|s| + 2, g + 1, rest - 1);
    }
  }

  /** The encoding of the first `len` bytes of `u`, whose full groups are the
      first `g`, is the encoding of those groups followed by the tail. */
  lemma EncodeSplit(u: seq<byte>, len: nat, g: nat)
    requires len <= |u| && 3 * g <= len < 3 * g + 3
    ensures Encode(u[..len]) == EncodePrefix(u, g) + EncodeTail(u[3 * g..len])
  {
    var s := u[..len];
    EncodeShape(s, g, len - 3 * g);
    assert s[..3 * g] == u[..3 * g];
    EncodePrefixOnly(s, u, g);
    assert s[3 * g..] == u[3 * g..len];
  }

  /** Number of padding characters the encoding of `n` bytes ends with. */
  function PadCount(n: nat): (p: nat)
    ensures p < 3 && (n + p) % 3 == 0
  {
    if n % 3 == 0 then 0 else 3 - n % 3
  }

  /** Padding follows the length of the tail: none when `|s|` is a multiple of
      three, one `=` for two leftover bytes, two for one leftover byte; every
      other character of the encoding is in the alphabet. */
  lemma EncodePadding(s: seq<byte>)
    ensures var r, p := Encode(s), PadCount(|s|);
      p <= |r| &&
      (forall k | 0 <= k < |r| - p :: IsBase64Char(r[k])) &&
      (forall k | |r| - p <= k < |r| :: r[k] == Pad)
  {
    var g, rest := |s| / 3, |s| % 3;
    EncodeShape(s, g, rest);
    EncodePrefixInAlphabet(s, g);
    var tail := EncodeTail(s[3 * g..]);
    var p := PadCount(|s|);
    assert p == if rest == 0 then 0 else 3 - rest;
    if rest > 0 {
      EncodeTailAlphabet(s[3 * g..]);
    }
    assert forall k | |tail| - p <= k < |tail| :: tail[k] == Pad;
    PaddedLayout(Encode(s), EncodePrefix(s, g), tail, p);
  }

  /** The layout of an alphabet part followed by a tail that ends in `p`
      padding characters. */
  lemma PaddedLayout(r: string, head: string, tail: string, p: nat)
    requires r == head + tail && InAlphabet(head) && p <= |tail| && AlphabetBefore(tail, |tail| - p)
    requires forall k | |tail| - p <= k < |tail| :: tail[k] == Pad
    ensures p <= |r|
    ensures forall k | 0 <= k < |r| - p :: IsBase64Char(r[k])
    ensures forall k | |r| - p <= k < |r| :: r[k] == Pad
  {
    forall k | 0 <= k < |r| - p
      ensures IsBase64Char(r[k])
    {
      if k < |head| {
        assert r[k] == head[k];
      } else {
        assert r[k] == tail[k - |head|];
      }
    }
    forall k | |r| - p <= k < |r|
      ensures r[k] == Pad
    {
      assert r[k] == tail[k - |head|];
    }
  }

  /* ---------------------------------------------------------------------- */
  /* Decoding a base64 text                                                 */
  /* ---------------------------------------------------------------------- */

  /** The bytes of the first `n` groups of four characters of `t`: three per
      group. */
  function DecodePrefix(t: string, n: nat): (r: seq<byte>)
    requires 4 * n <= |t|
    ensures |r| == 3 * n
  {
    if n == 0 then [] else DecodePrefix(t, n - 1) + GroupBytes(t, n - 1)
  }

  /** The bytes of group `k` (counting from zero) of `t`. */
  function GroupBytes(t: string, k: nat): (r: seq<byte>)
    requires 4 * k + 4 <= |t|
    ensures |r| == 3
  {
    DecodeGroup(t[4 * k..4 * k + 4])
  }

  /** Decoding one more group of four characters appends its three bytes. */
  lemma DecodePrefixSnoc(t: string, n: nat)
    requires 4 * n + 4 <= |t|
    ensures DecodePrefix(t, n + 1) == DecodePrefix(t, n) + GroupBytes(t, n)
    ensures GroupBytes(t, n) == DecodeGroup(t[4 * n..4 * n + 4])
  {
  }

  /** The first `n` groups depend only on the first `4 * n` characters. */
  lemma {:induction false} DecodePrefixOnly(t: string, u: string, n: nat)
    requires 4 * n <= |t| && 4 * n <= |u| && t[..4 * n] == u[..4 * n]
    ensures DecodePrefix(t, n) == DecodePrefix(u, n)
  {
    if n > 0 {
      var k := n - 1;
      assert t[..4 * k] == u[..4 * k] by {
        assert t[..4 * k] == t[..4 * n][..4 * k] && u[..4 * k] == u[..4 * n][..4 * k];
      }
      DecodePrefixOnly(t, u, k);
      assert GroupBytes(t, k) == GroupBytes(u, k) by {
        assert t[4 * k..4 * n] == t[..4 * n][4 * k..] && u[4 * k..4 * n] == u[..4 * n][4 * k..];
      }
      DecodePrefixSnoc(t, k);
      DecodePrefixSnoc(u, k);
    }
  }

  /** The padding count b64dec and b64declen compute: one for each of the last
      two characters (before the terminator) that is `=`. */
  function Padding(t: string): (p: nat)
    requires |t| >= 2
    ensures p <= 2
    ensures p == 0 <==> t[|t| - 1] != Pad && t[|t| - 2] != Pad
  {
    (if t[|t| - 1] == Pad then 1 else 0) + (if t[|t| - 2] == Pad then 1 else 0)
  }

  /** A text of at least one group and of whole groups only: the texts
      b64declen accepts and b64dec decodes. */
  predicate Grouped(t: string)
  {
    |t| >= 4 && |t| % 4 == 0
  }

  /** A text b64dec decodes meaningfully: whole groups, and every character
      in the alphabet except the padding at the end. (A misplaced `=`, as in
      "AB=C", and characters outside the alphabet are excluded: b64.c
      produces unspecified bytes for them.) */
  predicate WellFormed(t: string)
  {
    Grouped(t) && AlphabetBefore(t, |t| - Padding(t))
  }

  /** The bytes of the final padded group: two for one `=`, one for two. */
  function DecodeTail(g: string, p: nat): (r: seq<byte>)
    requires |g| == 4 && 1 <= p <= 2
    ensures |r| == 3 - p
  {
    var a, b := TableIndex(g[0]), TableIndex(g[1]);
    if p == 1 then Bytes(a, b, TableIndex(g[2]), 0)[..2]
    else Bytes(a, b, 0, 0)[..1]
  }

  /** The bytes of a text of whole groups: all groups when there is no
      padding, otherwise all groups but the last, followed by the padded
      one. */
  function Decode(t: string): (r: seq<byte>)
    requires Grouped(t)
    ensures 0 < |r| <= 3 * (|t| / 4)
  {
    DecodeGroups(t, |t| / 4 - 1, Padding(t))
  }

  /** Decode of a text of `n + 1` groups whose last two characters hold `p`
      padding characters. */
  function DecodeGroups(t: string, n: nat, p: nat): (r: seq<byte>)
    requires |t| == 4 * n + 4 && p <= 2
  {
    if p == 0 then DecodePrefix(t, n + 1) else DecodePrefix(t, n) + DecodeTail(t[4 * n..], p)
  }

  /** Decode, with the number of groups given. */
  lemma DecodeShape(t: string, n: nat)
    requires Grouped(t) && |t| == 4 * n
    ensures n > 0
    ensures Padding(t) == 0 ==> Decode(t) == DecodePrefix(t, n)
    ensures Padding(t) > 0 ==> Decode(t) == DecodePrefix(t, n - 1) + DecodeTail(t[4 * n - 4..], Padding(t))
  {
    assert |t| / 4 == n;
  }

  /** Decode of a padded text of `n + 1` groups. */
  lemma DecodeShapePadded(t: string, n: nat)
    requires Grouped(t) && |t| == 4 * n + 4 && Padding(t) > 0
    ensures Decode(t) == DecodePrefix(t, n) + DecodeTail(t[4 * n..], Padding(t))
  {
    assert |t| / 4 == n + 1;
  }

  /** Three bytes per group of four characters, less one per padding
      character. */
  lemma DecodeLength(t: string)
    requires Grouped(t)
    ensures 4 * (|Decode(t)| + Padding(t)) == 3 * |t|
  {
    DecodeShape(t, |t| / 4);
  }

  /** A well-formed text of `len` characters at the start of `e` decodes as
      its first `n` groups, followed by the padded last group when there is
      padding; `n` counts the groups without padding. */
  lemma DecodeSplit(e: string, len: nat, n: nat, p: nat)
    requires len <= |e| && Grouped(e[..len]) && p == Padding(e[..len])
    requires 4 * n == if p == 0 then len else len - 4
    ensures p == 0 ==> Decode(e[..len]) == DecodePrefix(e, n)
    ensures p > 0 ==> Decode(e[..len]) == DecodePrefix(e, n) + DecodeTail(e[4 * n..4 * n + 4], p)
  {
    var t := e[..len];
    assert t[..4 * n] == e[..4 * n];
    DecodePrefixOnly(t, e, n);
    if p == 0 {
      DecodeShape(t, n);
    } else {
      DecodeShapePadded(t, n);
      assert t[4 * n..] == e[4 * n..4 * n + 4];
    }
  }

  /** In a well-formed text of `len` characters at the start of `e`, the
      groups before the padded one, and the characters of that group before
      its padding, are in the alphabet. */
  lemma WellFormedAlphabet(e: string, len: nat, n: nat, p: nat)
    requires len <= |e| && WellFormed(e[..len]) && p == Padding(e[..len])
    requires 4 * n == if p == 0 then len else len - 4
    ensures AlphabetBefore(e, 4 * n)
    ensures p > 0 ==> AlphabetBefore(e[4 * n..4 * n + 4], 4 - p)
  {
    var t := e[..len];
    forall k | 0 <= k < 4 * n
      ensures IsBase64Char(e[k])
    {
      assert e[k] == t[k];
    }
    if p > 0 {
      var g := e[4 * n..4 * n + 4];
      forall k | 0 <= k < 4 - p
        ensures IsBase64Char(g[k])
      {
        assert g[k] == t[4 * n + k];
      }
    }
  }

  /* ---------------------------------------------------------------------- */
  /* Round trip                                                             */
  /* ---------------------------------------------------------------------- */

  /** The text of `k + 1` full groups splits into that of `k` groups and the
      four characters of the last one. */
  lemma EncodedPrefixStep(s: seq<byte>, k: nat, t: string)
    requires 3 * k + 3 <= |s| && 4 * k + 4 <= |t| && t[..4 * k + 4] == EncodePrefix(s, k + 1)
    ensures t[..4 * k] == EncodePrefix(s, k)
    ensures t[4 * k..4 * k + 4] == EncodeGroup(s[3 * k], s[3 * k + 1], s[3 * k + 2])
  {
    EncodePrefixSnoc(s, k);
    assert t[..4 * k] == t[..4 * k + 4][..4 * k];
    assert t[4 * k..4 * k + 4] == t[..4 * k + 4][4 * k..];
  }

  /** Alphabet characters up to `m`, then a group of them, make alphabet
      characters up to `m + 4`. */
  lemma AlphabetExtend(t: string, m: nat)
    requires m + 4 <= |t| && AlphabetBefore(t, m) && InAlphabet(t[m..m + 4])
    ensures AlphabetBefore(t, m + 4)
  {
    forall k | m <= k < m + 4
      ensures IsBase64Char(t[k])
    {
      assert t[k] == t[m..m + 4][k - m];
    }
  }

  /** Alphabet characters up to `m`, then `k` more, make alphabet characters
      up to `m + k`. */
  lemma AlphabetJoin(t: string, m: nat, k: nat)
    requires m + k <= |t| && AlphabetBefore(t, m) && AlphabetBefore(t[m..], k)
    ensures AlphabetBefore(t, m + k)
  {
    forall i | m <= i < m + k
      ensures IsBase64Char(t[i])
    {
      assert t[i] == t[m..][i - m];
    }
  }

  /** A text whose first `m` characters form a text of the alphabet. */
  lemma AlphabetPrefix(t: string, m: nat)
    requires m <= |t| && InAlphabet(t[..m])
    ensures AlphabetBefore(t, m)
  {
    forall k | 0 <= k < m
      ensures IsBase64Char(t[k])
    {
      assert t[k] == t[..m][k];
    }
  }

  /** Decoding the full groups of an encoding gives their bytes back, whatever
      follows them. */
  lemma {:induction false} DecodeEncodePrefix(s: seq<byte>, n: nat, t: string)
    requires 3 * n <= |s| && 4 * n <= |t| && t[..4 * n] == EncodePrefix(s, n)
    ensures AlphabetBefore(t, 4 * n) && DecodePrefix(t, n) == s[..3 * n]
  {
    EncodePrefixInAlphabet(s, n);
    AlphabetPrefix(t, 4 * n);
    if n > 0 {
      var k := n - 1;
      assert s[..3 * k + 3] == s[..3 * k] + [s[3 * k], s[3 * k + 1], s[3 * k + 2]];
      EncodedPrefixStep(s, k, t);
      DecodeEncodePrefix(s, k, t);
      DecodeEncodeGroup(t[4 * k..4 * k + 4], s[3 * k], s[3 * k + 1], s[3 * k + 2]);
      DecodePrefixSnoc(t, k);
    }
  }

  /** Decoding the padded last group gives back the one or two bytes it was
      made from. */
  lemma DecodeEncodeTail(s: seq<byte>)
    requires 0 < |s| < 3
    ensures Padding(EncodeTail(s)) == 3 - |s|
    ensures DecodeTail(EncodeTail(s), 3 - |s|) == s
  {
    var b0, b1 := s[0], if |s| == 2 then s[1] else 0;
    var v := Sextets(b0, b1, 0);
    var t := EncodeTail(s);
    EncodeGroupShifts(b0, b1, 0);
    assert t[0] == TableChar(v[0]) && t[1] == TableChar(v[1]);
    TableIndexChar(v[0]);
    TableIndexChar(v[1]);
    BytesOfSextets(b0, b1, 0);
    if |s| == 1 {
      assert v[2] == 0;
      assert DecodeTail(t, 2) == Bytes(v[0], v[1], v[2], v[3])[..1];
    } else {
      assert t[2] == TableChar(v[2]);
      TableIndexChar(v[2]);
      assert v[3] == 0;
      assert DecodeTail(t, 1) == Bytes(v[0], v[1], v[2], v[3])[..2];
    }
  }

  /** A text of `g` groups of alphabet characters is well formed, has no
      padding, and decodes group by group. */
  lemma DecodeUnpadded(r: string, g: nat)
    requires |r| == 4 * g && g > 0 && AlphabetBefore(r, 4 * g)
    ensures WellFormed(r) && Padding(r) == 0 && Decode(r) == DecodePrefix(r, g)
  {
    TableDistinct(0, 0);
    assert IsBase64Char(r[|r| - 1]) && IsBase64Char(r[|r| - 2]);
    DecodeShape(r, g);
  }

  /** Round trip for a whole number of groups: no padding. */
  lemma RoundTripGroups(s: seq<byte>, g: nat)
    requires |s| == 3 * g && g > 0
    ensures WellFormed(Encode(s)) && Padding(Encode(s)) == 0 && Decode(Encode(s)) == s
  {
    EncodeShape(s, g, 0);
    var r := Encode(s);
    assert r[..4 * g] == r;
    DecodeEncodePrefix(s, g, r);
    DecodeUnpadded(r, g);
    assert s[..3 * g] == s;
  }

  /** The whole groups of a padded encoding decode back to the bytes they
      were made from. */
  lemma PaddedHead(s: seq<byte>, g: nat, rest: nat)
    requires |s| == 3 * g + rest && 0 < rest < 3
    ensures |Encode(s)| == 4 * g + 4
    ensures AlphabetBefore(Encode(s), 4 * g) && DecodePrefix(Encode(s), g) == s[..3 * g]
  {
    EncodeShape(s, g, rest);
    var r := Encode(s);
    assert r[..4 * g] == EncodePrefix(s, g);
    DecodeEncodePrefix(s, g, r);
  }

  /** The last group of a padded encoding carries `3 - rest` padding
      characters and decodes back to the `rest` bytes left over. */
  lemma PaddedTail(s: seq<byte>, g: nat, rest: nat)
    requires |s| == 3 * g + rest && 0 < rest < 3
    ensures |Encode(s)| == 4 * g + 4 && Padding(Encode(s)) == 3 - rest
    ensures AlphabetBefore(Encode(s)[4 * g..], rest + 1)
    ensures DecodeTail(Encode(s)[4 * g..], 3 - rest) == s[3 * g..]
  {
    EncodeShape(s, g, rest);
    var r, tail := Encode(s), s[3 * g..];
    var last := r[4 * g..];
    assert last == EncodeTail(tail);
    DecodeEncodeTail(tail);
    EncodeTailAlphabet(tail);
    assert r[|r| - 1] == last[3] && r[|r| - 2] == last[2];
  }

  /** A text of `g + 1` groups whose first `g` groups are in the alphabet and
      whose last group holds `p` padding characters after `4 - p` characters
      of the alphabet is well formed, and decodes piecewise. */
  lemma DecodePadded(r: string, g: nat, p: nat)
    requires |r| == 4 * g + 4 && 1 <= p <= 2 && Padding(r) == p
    requires AlphabetBefore(r, 4 * g) && AlphabetBefore(r[4 * g..], 4 - p)
    ensures WellFormed(r) && Decode(r) == DecodePrefix(r, g) + DecodeTail(r[4 * g..], p)
  {
    AlphabetJoin(r, 4 * g, 4 - p);
    assert WellFormed(r);
    DecodeShapePadded(r, g);
  }

  /** A text whose first `g` groups decode to the first `3 * g` bytes of `s`
      and whose padded last group decodes to the rest decodes to `s`. */
  lemma DecodePaddedTo(r: string, s: seq<byte>, g: nat, rest: nat)
    requires |s| == 3 * g + rest && 0 < rest < 3
    requires |r| == 4 * g + 4 && Padding(r) == 3 - rest
    requires AlphabetBefore(r, 4 * g) && DecodePrefix(r, g) == s[..3 * g]
    requires AlphabetBefore(r[4 * g..], rest + 1) && DecodeTail(r[4 * g..], 3 - rest) == s[3 * g..]
    ensures WellFormed(r) && Decode(r) == s
  {
    var p := 3 - rest;
    assert 4 - p == rest + 1;
    DecodePadded(r, g, p);
    assert s == s[..3 * g] + s[3 * g..];
  }

  /** Round trip for `g` whole groups and one or two bytes left over. */
  lemma RoundTripPadded(s: seq<byte>, g: nat, rest: nat)
    requires |s| == 3 * g + rest && 0 < rest < 3
    ensures WellFormed(Encode(s)) && Padding(Encode(s)) == 3 - rest && Decode(Encode(s)) == s
  {
    PaddedHead(s, g, rest);
    PaddedTail(s, g, rest);
    DecodePaddedTo(Encode(s), s, g, rest);
  }

  /** b64dec undoes b64enc: the encoding of every non-empty byte sequence is
      a well-formed text, with the padding PadCount predicts, that decodes
      back to it. */
  lemma RoundTrip(s: seq<byte>)
    requires |s| > 0
    ensures WellFormed(Encode(s)) && Padding(Encode(s)) == PadCount(|s|)
    ensures Decode(Encode(s)) == s
  {
    var g, rest := |s| / 3, |s| % 3;
    if rest == 0 {
      RoundTripGroups(s, g);
    } else {
      RoundTripPadded(s, g, rest);
    }
  }

  /** The encoding of a non-empty byte sequence is made of whole groups and
      decodes to as many bytes as it came from. */
  lemma DecodedLength(s: seq<byte>)
    requires |s| > 0
    ensures Grouped(Encode(s)) && |Decode(Encode(s))| == |s|
  {
    RoundTrip(s);
  }
}
