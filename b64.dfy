/** The four functions of b64.c: b64enclen and b64declen, which size the
    output of a conversion, and b64enc and b64dec, which convert between an
    array of bytes and a NUL-terminated array of base64 characters. Each is
    proved against the specification functions of Base64Spec. */
module B64 {
  import opened Base64Alphabet
  import opened Base64Spec

  /* ---------------------------------------------------------------------- */
  /* b64enclen                                                              */
  /* ---------------------------------------------------------------------- */

  /** b64enclen: characters needed for the encoding of `unencLen` bytes,
      terminator included. Adding 2 before dividing by 3 rounds the number of
      groups up, so the result is four characters per started group of three
      bytes, plus one. */
  function EncLen(unencLen: nat): (r: nat)
    ensures r % 4 == 1
    ensures 3 * (r - 1) - 12 < 4 * unencLen <= 3 * (r - 1)
  {
    (unencLen + 2) / 3 * 4 + 1
  }

  /** The length b64enclen reserves is exactly the encoding plus its
      terminator: neither short nor wasteful. */
  lemma EncLenExact(s: seq<byte>)
    ensures EncLen(|s|) == |Encode(s)| + 1
  {
    EncodeLength(s);
  }

  /** b64enclen never shrinks when the input grows. */
  lemma EncLenMonotone(m: nat, n: nat)
    requires m <= n
    ensures EncLen(m) <= EncLen(n)
  {
    var g, h := EncLen(m) / 4, EncLen(n) / 4;
    assert 3 * g - 3 < m <= n <= 3 * h;
    assert g <= h;
  }

  /* ---------------------------------------------------------------------- */
  /* b64enc                                                                 */
  /* ---------------------------------------------------------------------- */

  /** `w` written over `o` from position `j` on. */
  function Splice<T>(o: seq<T>, j: nat, w: seq<T>): (r: seq<T>)
    requires j + |w| <= |o|
    ensures |r| == |o|
  {
    o[..j] + w + o[j + |w|..]
  }

  /** Four writes at `j`, `j + 1`, `j + 2`, `j + 3` put `w` there. */
  lemma Splice4<T>(o: seq<T>, j: nat, w: seq<T>)
    requires |w| == 4 && j + 4 <= |o|
    ensures o[j := w[0]][j + 1 := w[1]][j + 2 := w[2]][j + 3 := w[3]] == Splice(o, j, w)
  {
  }

  /** Three writes at `j`, `j + 1`, `j + 2` put `w` there. */
  lemma Splice3<T>(o: seq<T>, j: nat, w: seq<T>)
    requires |w| == 3 && j + 3 <= |o|
    ensures o[j := w[0]][j + 1 := w[1]][j + 2 := w[2]] == Splice(o, j, w)
  {
  }

  /** Splicing `w` right after the first `k` elements, which are `p`, of a
      sequence that agrees with `o` after them. */
  lemma SpliceWritten<T>(p: seq<T>, o: seq<T>, e: seq<T>, k: nat, w: seq<T>)
    requires k == |p| && k + |w| <= |o| == |e| && e[..k] == p && e[k..] == o[k..]
    ensures var e' := Splice(e, k, w);
      e'[..k + |w|] == p + w && e'[k + |w|..] == o[k + |w|..]
  {
    var e' := Splice(e, k, w);
    SpliceParts(e, k, w);
    PrefixJoin(e', k, k + |w|);
    DropDrop(e, k, |w|);
    DropDrop(o, k, |w|);
  }

  /** What a splice leaves before `w`, puts at `j`, and leaves after `w`. */
  lemma SpliceParts<T>(o: seq<T>, j: nat, w: seq<T>)
    requires j + |w| <= |o|
    ensures var r := Splice(o, j, w);
      r[..j] == o[..j] && r[j..j + |w|] == w && r[j + |w|..] == o[j + |w|..]
  {
  }

  /** A prefix is the shorter prefix followed by the slice between. */
  lemma PrefixJoin<T>(s: seq<T>, a: nat, b: nat)
    requires a <= b <= |s|
    ensures s[..b] == s[..a] + s[a..b]
  {
  }

  /** Dropping `a` and then `k` elements drops `a + k`. */
  lemma DropDrop<T>(s: seq<T>, a: nat, k: nat)
    requires a + k <= |s|
    ensures s[a..][k..] == s[a + k..]
  {
  }

  /** Two writes at `j`, `j + 1` put `w` there. */
  lemma Splice2<T>(o: seq<T>, j: nat, w: seq<T>)
    requires |w| == 2 && j + 2 <= |o|
    ensures o[j := w[0]][j + 1 := w[1]] == Splice(o, j, w)
  {
  }

  /** One write at `j` puts `w` there. */
  lemma Splice1<T>(o: seq<T>, j: nat, w: seq<T>)
    requires |w| == 1 && j + 1 <= |o|
    ensures o[j := w[0]] == Splice(o, j, w)
  {
  }

  /** One pass of the loop of b64enc: the three bytes of `unenc` at `i`
      become four 6-bit values in `buffer` and then the four characters of
      `enc` at `j`. The other characters of `enc` are left alone.

      The source shifts and masks plain `char` values; here a byte is an
      unsigned number, a right shift by `k` is division by 2^k, a mask keeping
      the low `k` bits is remainder by 2^k, and `<<` / `|` of disjoint bit
      fields is multiplication and addition. */
  method EncodeGroupAt(unenc: seq<byte>, i: nat, enc: array<char>, j: nat, buffer: array<byte>)
    requires i + 3 <= |unenc| && j + 4 <= enc.Length && buffer.Length == 4
    modifies enc, buffer
    ensures var q := EncodeGroup(unenc[i], unenc[i + 1], unenc[i + 2]);
      enc[..] == old(enc[..])[j := q[0]][j + 1 := q[1]][j + 2 := q[2]][j + 3 := q[3]]
  {
    buffer[0] := unenc[i] / 4;
    buffer[1] := (unenc[i] % 4) * 16 + unenc[i + 1] / 16;
    buffer[2] := (unenc[i + 1] % 16) * 4 + unenc[i + 2] / 64;
    buffer[3] := unenc[i + 2] % 64;
    ghost var o := enc[..];
    ghost var q := EncodeGroup(unenc[i], unenc[i + 1], unenc[i + 2]);
    assert buffer[..] == Sextets(unenc[i], unenc[i + 1], unenc[i + 2]);
    EncodeGroupShifts(unenc[i], unenc[i + 1], unenc[i + 2]);
    enc[j] := Alphabet[buffer[0]];
    enc[j + 1] := Alphabet[buffer[1]];
    enc[j + 2] := Alphabet[buffer[2]];
    enc[j + 3] := Alphabet[buffer[3]];
  }

  /** The final switch of b64enc: the one or two bytes of `unenc` at `i` that
      are left over become a padded group of four characters of `enc` at `j`.
      The other characters of `enc` are left alone. */
  method EncodeTailAt(unenc: seq<byte>, i: nat, remainder: nat, enc: array<char>, j: nat, buffer: array<byte>)
    requires 1 <= remainder <= 2 && i + remainder <= |unenc|
    requires j + 4 <= enc.Length && buffer.Length == 4
    modifies enc, buffer
    ensures var q := EncodeTail(unenc[i..i + remainder]);
      enc[..] == old(enc[..])[j := q[0]][j + 1 := q[1]][j + 2 := q[2]][j + 3 := q[3]]
  {
    ghost var s := unenc[i..i + remainder];
    ghost var o := enc[..];
    ghost var q := EncodeTail(s);
    if remainder == 2 {
      // b64.c:78 also reads unenc[i+2], one byte past the input; its two
      // high bits land in the third character. Those bits are meant to be
      // zero, and the model takes them as zero.
      buffer[0] := unenc[i] / 4;
      buffer[1] := (unenc[i] % 4) * 16 + unenc[i + 1] / 16;
      buffer[2] := (unenc[i + 1] % 16) * 4;
      assert buffer[..3] == Sextets(s[0], s[1], 0)[..3];
      EncodeGroupShifts(s[0], s[1], 0);
      enc[j] := Alphabet[buffer[0]];
      enc[j + 1] := Alphabet[buffer[1]];
      enc[j + 2] := Alphabet[buffer[2]];
      enc[j + 3] := Pad;
      assert enc[..] == o[j := q[0]][j + 1 := q[1]][j + 2 := q[2]][j + 3 := q[3]];
    } else {
      buffer[0] := unenc[i] / 4;
      buffer[1] := (unenc[i] % 4) * 16;
      assert buffer[..2] == Sextets(s[0], 0, 0)[..2];
      EncodeGroupShifts(s[0], 0, 0);
      enc[j] := Alphabet[buffer[0]];
      enc[j + 1] := Alphabet[buffer[1]];
      enc[j + 2] := Pad;
      enc[j + 3] := Pad;
      assert enc[..] == o[j := q[0]][j + 1 := q[1]][j + 2 := q[2]][j + 3 := q[3]];
    }
  }

  /** b64enclen counts the full groups and one more for the bytes left over,
      plus the terminator. */
  lemma EncLenGroups(u: nat, groups: nat, remainder: nat)
    requires u == 3 * groups + remainder && remainder < 3
    ensures EncLen(u) == 4 * groups + if remainder == 0 then 1 else 5
  {
  }

  /** A loop stepping by 3 towards a multiple of 3 does not overshoot it. */
  lemma StepBy3(n: nat, count: nat)
    requires 3 * n < 3 * count
    ensures n + 1 <= count
  {
  }

  /** One more group of three bytes written after the first `n` groups
      extends the encoded prefix by that group and leaves what follows it
      alone. */
  lemma EncodeStep(s: seq<byte>, n: nat, i: nat, j: nat, o: string, e: string)
    requires i == 3 * n && j == 4 * n && i + 3 <= |s| && j + 4 <= |o| == |e|
    requires e[..j] == EncodePrefix(s, n) && e[j..] == o[j..]
    ensures var q := EncodeGroup(s[i], s[i + 1], s[i + 2]);
      var e' := e[j := q[0]][j + 1 := q[1]][j + 2 := q[2]][j + 3 := q[3]];
      e'[..j + 4] == EncodePrefix(s, n + 1) && e'[j + 4..] == o[j + 4..]
  {
    var q := EncodeGroup(s[i], s[i + 1], s[i + 2]);
    Splice4(e, j, q);
    SpliceWritten(EncodePrefix(s, n), o, e, j, q);
    EncodePrefixSnoc(s, n);
  }

  /** The padded last group written after the full groups completes the
      encoding of the first `len` bytes. */
  lemma EncodeLastStep(s: seq<byte>, len: nat, g: nat, o: string, e: string)
    requires len <= |s| && 3 * g < len < 3 * g + 3 && 4 * g + 4 <= |o| == |e|
    requires e[..4 * g] == EncodePrefix(s, g) && e[4 * g..] == o[4 * g..]
    ensures var q := EncodeTail(s[3 * g..len]);
      var e' := e[4 * g := q[0]][4 * g + 1 := q[1]][4 * g + 2 := q[2]][4 * g + 3 := q[3]];
      e'[..4 * g + 4] == Encode(s[..len]) && e'[4 * g + 4..] == o[4 * g + 4..]
  {
    var q := EncodeTail(s[3 * g..len]);
    EncodeSplit(s, len, g);
    Splice4(e, 4 * g, q);
    SpliceWritten(EncodePrefix(s, g), o, e, 4 * g, q);
  }

  /** Without bytes left over, the full groups are the whole encoding. */
  lemma EncodeNoTail(s: seq<byte>, len: nat, g: nat)
    requires len <= |s| && len == 3 * g
    ensures EncodePrefix(s, g) == Encode(s[..len])
  {
    EncodeSplit(s, len, g);
    assert EncodeTail(s[3 * g..len]) == [];
  }

  /** Writing `x` right after the first `j` elements, which are `p`, keeps
      them and leaves the elements after `x` alone. */
  lemma WriteAfter<T>(p: seq<T>, o: seq<T>, e: seq<T>, j: nat, x: T)
    requires j == |p| < |o| == |e| && e[..j] == p && e[j..] == o[j..]
    ensures e[j := x][..j] == p && e[j := x][j] == x && e[j := x][j + 1..] == o[j + 1..]
  {
    DropDrop(e, j, 1);
    DropDrop(o, j, 1);
  }

  /** The loop of b64enc over the whole groups: the first `bound` bytes of
      `unenc`, `count` groups of three, become the first `4 * count`
      characters of `enc`, and the rest of `enc` is left alone. */
  method EncodeGroupsAt(unenc: seq<byte>, bound: nat, ghost count: nat, enc: array<char>, buffer: array<byte>)
      returns (i: nat, j: nat)
    requires bound == 3 * count && bound <= |unenc| && 4 * count <= enc.Length && buffer.Length == 4
    modifies enc, buffer
    ensures i == bound && j == 4 * count
    ensures enc[..j] == EncodePrefix(unenc, count) && enc[j..] == old(enc[..])[j..]
  {
    ghost var o := enc[..];
    i, j := 0, 0;
    ghost var n: nat := 0;
    while i < bound
      invariant i == 3 * n && j == 4 * n && n <= count
      invariant enc[..j] == EncodePrefix(unenc, n) && enc[j..] == o[j..]
    {
      StepBy3(n, count);
      EncodeStep(unenc, n, i, j, o, enc[..]);
      EncodeGroupAt(unenc, i, enc, j, buffer);
      i, j, n := i + 3, j + 4, n + 1;
    }
  }

  /** b64enc: writes the base64 text of the first `unencLen` bytes of `unenc`
      into `enc`, followed by the terminator, and returns the number of
      characters written before the terminator. `enc` must hold
      EncLen(unencLen) characters, as b64.h asks of the caller; nothing after
      the terminator is touched. */
  method Enc(unenc: seq<byte>, enc: array<char>, unencLen: nat) returns (j: nat)
    requires unencLen <= |unenc|
    requires EncLen(unencLen) <= enc.Length
    modifies enc
    ensures j + 1 == EncLen(unencLen)
    ensures enc[..j] == Encode(unenc[..unencLen]) && enc[j] == Terminator
    ensures enc[j + 1..] == old(enc[..])[j + 1..]
  {
    ghost var o := enc[..];
    var buffer := new byte[4];
    var remainder := unencLen % 3;
    ghost var groups := unencLen / 3;
    EncLenGroups(unencLen, groups, remainder);

    // Whole groups of three bytes.
    var i;
    i, j := EncodeGroupsAt(unenc, unencLen - remainder, groups, enc, buffer);
    ghost var text := Encode(unenc[..unencLen]);

    // The one or two bytes left over make a padded last group.
    if remainder != 0 {
      ghost var e := enc[..];
      EncodeLastStep(unenc, unencLen, groups, o, e);
      EncodeTailAt(unenc, i, remainder, enc, j, buffer);
      j := j + 4;
    } else {
      EncodeNoTail(unenc, unencLen, groups);
    }

    // The encoded result is a C string.
    EncLenExact(unenc[..unencLen]);
    WriteAfter(text, o, enc[..], j, Terminator);
    enc[j] := Terminator;
  }

  /* ---------------------------------------------------------------------- */
  /* b64declen                                                              */
  /* ---------------------------------------------------------------------- */

  /** The checks b64declen makes before it computes a length: the last of the
      `encLen` characters is the terminator, and the text before it is a
      non-empty run of whole groups of four. */
  predicate Plausible(enc: seq<char>, encLen: nat)
    requires 1 <= encLen <= |enc|
  {
    enc[encLen - 1] == Terminator && encLen >= 4 && (encLen - 1) % 4 == 0
  }

  /** b64declen: the number of bytes the NUL-terminated text of `encLen`
      characters (terminator included) decodes to, or 0 when it fails the
      checks: three bytes per group of four, less one for each of the two
      characters before the terminator that is `=`. b64declen reads
      enc[enc_len - 1] first, so `encLen` must be at least 1. */
  function DecLen(enc: seq<char>, encLen: nat): (r: nat)
    requires 1 <= encLen <= |enc|
    ensures r == 0 <==> !Plausible(enc, encLen)
    ensures r > 0 ==> 3 * (encLen - 1) - 8 <= 4 * r <= 3 * (encLen - 1)
    ensures Plausible(enc, encLen) ==>
              r == |Decode(enc[..encLen - 1])|
  {
    if enc[encLen - 1] != Terminator then 0
    else if encLen < 4 then 0
    else if (encLen - 1) % 4 != 0 then 0
    else
      var decLen := (encLen - 1) / 4 * 3;
      var decLen := if enc[encLen - 2] == Pad then decLen - 1 else decLen;
      var decLen := if enc[encLen - 3] == Pad then decLen - 1 else decLen;
      assert Padding(enc[..encLen - 1]) == (encLen - 1) / 4 * 3 - decLen;
      decLen
  }

  /** b64declen gives back the length of the input of b64enc: zero for the
      empty input, whose encoding is the terminator alone. */
  lemma DecLenOfEncoded(s: seq<byte>)
    ensures var e := Encode(s) + [Terminator]; |e| == EncLen(|s|) && DecLen(e, |e|) == |s|
  {
    var t := Encode(s);
    EncLenExact(s);
    if |s| > 0 {
      DecodedLength(s);
      DecLenOfText(t);
    } else {
      assert |t + [Terminator]| == 1;
    }
  }

  /** On a text of whole groups followed by its terminator, b64declen counts
      the bytes the text decodes to. */
  lemma DecLenOfText(t: string)
    requires Grouped(t)
    ensures var e := t + [Terminator]; DecLen(e, |e|) == |Decode(t)|
  {
    var e := t + [Terminator];
    assert e[..|e| - 1] == t;
    assert Plausible(e, |e|);
  }

  /* ---------------------------------------------------------------------- */
  /* b64dec                                                                 */
  /* ---------------------------------------------------------------------- */

  /** One pass of the loop of b64dec: the four alphabet characters of `enc`
      at `i` become their 6-bit values in `buffer` (looked up as strchr does)
      and then three bytes of `dec` at `j`. The other bytes of `dec` are left
      alone. `a << 2 | b >> 4` is `a * 4 + b / 16` since the two bit fields
      are disjoint, and storing into an 8-bit `char` keeps the value modulo
      256. */
  method DecodeGroupAt(enc: seq<char>, i: nat, dec: array<byte>, j: nat, buffer: array<byte>)
    requires i + 4 <= |enc| && InAlphabet(enc[i..i + 4])
    requires j + 3 <= dec.Length && buffer.Length == 4 && buffer != dec
    modifies dec, buffer
    ensures var r := DecodeGroup(enc[i..i + 4]);
      dec[..] == old(dec[..])[j := r[0]][j + 1 := r[1]][j + 2 := r[2]]
  {
    ghost var g := enc[i..i + 4];
    ghost var o := dec[..];
    assert g[0] == enc[i] && g[1] == enc[i + 1] && g[2] == enc[i + 2] && g[3] == enc[i + 3];
    DecodeGroupShifts(g);
    buffer[0] := IndexOf(enc[i]);
    buffer[1] := IndexOf(enc[i + 1]);
    buffer[2] := IndexOf(enc[i + 2]);
    buffer[3] := IndexOf(enc[i + 3]);
    ghost var r := Bytes(buffer[0], buffer[1], buffer[2], buffer[3]);
    assert r == DecodeGroup(g);
    dec[j] := buffer[0] as int * 4 + buffer[1] as int / 16;
    dec[j + 1] := (buffer[1] as int * 16 + buffer[2] as int / 4) % 256;
    dec[j + 2] := (buffer[2] as int * 64 + buffer[3] as int) % 256;
    assert dec[..] == o[j := r[0]][j + 1 := r[1]][j + 2 := r[2]];
  }

  /** The loop of b64dec over the groups without padding. b64.c runs it while
      `i < enc_len - padded - 4`; `bound` is that value, taken as a signed
      number (see B64AsWritten.LoopBoundAsWritten), and `count` is the number
      of groups it lets through. The first `4 * count` characters of `enc`
      become the first `3 * count` bytes of `dec`, and the rest of `dec` is
      left alone. */
  method DecodeGroupsAt(enc: seq<char>, bound: int, ghost count: nat, dec: array<byte>, buffer: array<byte>)
      returns (i: nat, j: nat)
    requires 4 * count - 4 < bound <= 4 * count
    requires 4 * count <= |enc| && AlphabetBefore(enc, 4 * count)
    requires 3 * count <= dec.Length && buffer.Length == 4 && buffer != dec
    modifies dec, buffer
    ensures i == 4 * count && j == 3 * count
    ensures dec[..j] == DecodePrefix(enc, count) && dec[j..] == old(dec[..])[j..]
  {
    ghost var o := dec[..];
    i, j := 0, 0;
    ghost var n: nat := 0;
    while i < bound
      invariant i == 4 * n && j == 3 * n && n <= count
      invariant dec[..j] == DecodePrefix(enc, n) && dec[j..] == o[j..]
    {
      StepBy4(n, count);
      DecodeStep(enc, 4 * count, n, i, j, o, dec[..]);
      DecodeGroupAt(enc, i, dec, j, buffer);
      i, j, n := i + 4, j + 3, n + 1;
    }
    StepBy4(n, count);
  }

  /** A loop stepping by 4 towards a bound within 4 of a multiple of 4 stops
      exactly at that multiple. */
  lemma StepBy4(n: nat, count: nat)
    ensures 4 * n < 4 * count ==> n + 1 <= count
    ensures 4 * count - 4 < 4 * n ==> count <= n
  {
  }

  /** One more group of four characters decoded after the first `n` groups
      extends the decoded prefix by that group's bytes. */
  lemma DecodeStep(t: string, m: nat, n: nat, i: nat, j: nat, o: seq<byte>, d: seq<byte>)
    requires i == 4 * n && j == 3 * n && i + 4 <= m <= |t| && AlphabetBefore(t, m) && j + 3 <= |o| == |d|
    requires d[..j] == DecodePrefix(t, n) && d[j..] == o[j..]
    ensures InAlphabet(t[i..i + 4])
    ensures var r := DecodeGroup(t[i..i + 4]);
      var d' := d[j := r[0]][j + 1 := r[1]][j + 2 := r[2]];
      d'[..j + 3] == DecodePrefix(t, n + 1) && d'[j + 3..] == o[j + 3..]
  {
    var r := DecodeGroup(t[i..i + 4]);
    DecodePrefixSnoc(t, n);
    InAlphabetSlice(t, i, i + 4);
    Splice3(d, j, r);
    SpliceWritten(DecodePrefix(t, n), o, d, j, r);
  }

  /** The final switch of b64dec: the last group, with `padded` characters
      `=`, becomes its two bytes (one `=`) or its one byte (two `=`) in `dec`
      at `j`. The other bytes of `dec` are left alone. */
  method DecodeTailAt(enc: seq<char>, i: nat, padded: nat, dec: array<byte>, j: nat, buffer: array<byte>)
    requires 1 <= padded <= 2 && i + 4 <= |enc|
    requires AlphabetBefore(enc[i..i + 4], 4 - padded)
    requires j + 3 - padded <= dec.Length && buffer.Length == 4 && buffer != dec
    modifies dec, buffer
    ensures var r := DecodeTail(enc[i..i + 4], padded);
      dec[..] == if padded == 1 then old(dec[..])[j := r[0]][j + 1 := r[1]] else old(dec[..])[j := r[0]]
  {
    ghost var g := enc[i..i + 4];
    assert g[0] == enc[i] && g[1] == enc[i + 1] && g[2] == enc[i + 2];
    if padded == 1 {
      buffer[0] := IndexOf(enc[i]);
      buffer[1] := IndexOf(enc[i + 1]);
      buffer[2] := IndexOf(enc[i + 2]);
      ghost var r := Bytes(buffer[0], buffer[1], buffer[2], 0);
      assert r[..2] == DecodeTail(g, 1);
      dec[j] := buffer[0] as int * 4 + buffer[1] as int / 16;
      dec[j + 1] := (buffer[1] as int * 16 + buffer[2] as int / 4) % 256;
      assert dec[j] == r[0] && dec[j + 1] == r[1];
    } else {
      buffer[0] := IndexOf(enc[i]);
      buffer[1] := IndexOf(enc[i + 1]);
      ghost var r := Bytes(buffer[0], buffer[1], 0, 0);
      assert r[..1] == DecodeTail(g, 2);
      dec[j] := buffer[0] as int * 4 + buffer[1] as int / 16;
      assert dec[j] == r[0];
    }
  }

  /** The padding count of b64dec: one for each of the last two characters
      of the `len`-character text that is `=`. */
  method CountPadding(enc: seq<char>, len: nat) returns (padded: nat)
    requires 2 <= len <= |enc|
    ensures padded == Padding(enc[..len])
  {
    ghost var t := enc[..len];
    assert t[len - 1] == enc[len - 1] && t[len - 2] == enc[len - 2];
    padded := 0;
    if enc[len - 1] == Pad {
      padded := padded + 1;
    }
    if enc[len - 2] == Pad {
      padded := padded + 1;
    }
  }

  /** What b64dec relies on in a well-formed text of `len` characters at the
      start of `enc`, whose last two characters hold `padded` padding
      characters: the number of groups without padding, `count`, is what the
      loop bound `len + 1 - padded - 4` lets through; those groups and the
      characters before the padding are in the alphabet; and `room` bytes
      hold what they decode to. */
  lemma DecodePlan(enc: string, len: nat, padded: nat, room: nat) returns (count: nat)
    requires len <= |enc| && WellFormed(enc[..len]) && |Decode(enc[..len])| <= room
    requires padded == Padding(enc[..len])
    ensures 4 * count == if padded == 0 then len else len - 4
    ensures 4 * count - 4 < len + 1 - padded - 4 <= 4 * count
    ensures AlphabetBefore(enc, 4 * count)
    ensures padded > 0 ==> AlphabetBefore(enc[4 * count..4 * count + 4], 4 - padded)
    ensures 3 * count + (if padded == 0 then 0 else 3 - padded) <= room
  {
    var t := enc[..len];
    count := if padded == 0 then len / 4 else len / 4 - 1;
    WellFormedAlphabet(enc, len, count, padded);
    DecodeLength(t);
  }

  /** The end of b64dec: after the `count` groups without padding are in
      `dec`, the padded last group, when there is one, is decoded after them
      (the final switch); what `dec` then holds up to the returned count is
      the decoding of the whole `len`-character text, and the rest is as it
      was in `o`. */
  method DecodeLastAt(enc: seq<char>, len: nat, padded: nat, ghost count: nat, i: nat, j: nat,
                      dec: array<byte>, buffer: array<byte>, ghost o: seq<byte>)
      returns (k: nat)
    requires len <= |enc| && Grouped(enc[..len]) && padded == Padding(enc[..len])
    requires 4 * count == (if padded == 0 then len else len - 4) && i == 4 * count && j == 3 * count
    requires padded > 0 ==> AlphabetBefore(enc[i..i + 4], 4 - padded)
    requires j + (if padded == 0 then 0 else 3 - padded) <= dec.Length == |o|
    requires buffer.Length == 4 && buffer != dec
    requires dec[..j] == DecodePrefix(enc, count) && dec[j..] == o[j..]
    modifies dec, buffer
    ensures k == |Decode(enc[..len])| && dec[..k] == Decode(enc[..len]) && dec[k..] == o[k..]
  {
    k := j;
    if padded != 0 {
      ghost var mid := dec[..];
      ghost var last := DecodeTail(enc[i..i + 4], padded);
      DecodeTailAt(enc, i, padded, dec, j, buffer);
      TailWritten(DecodePrefix(enc, count), o, mid, dec[..], j, last);
      k := j + 3 - padded;
    }
    DecodeJoin(enc, len, padded, count, o, dec[..], k);
  }

  /** The one or two bytes of the padded group, written at `j` after the
      bytes `p` already there, follow them; the rest is as it was in `o`. */
  lemma TailWritten<T>(p: seq<T>, o: seq<T>, mid: seq<T>, d: seq<T>, j: nat, w: seq<T>)
    requires j == |p| && 1 <= |w| <= 2 && j + |w| <= |o| == |mid|
    requires mid[..j] == p && mid[j..] == o[j..]
    requires d == if |w| == 2 then mid[j := w[0]][j + 1 := w[1]] else mid[j := w[0]]
    ensures d[..j + |w|] == p + w && d[j + |w|..] == o[j + |w|..]
  {
    if |w| == 2 {
      Splice2(mid, j, w);
    } else {
      Splice1(mid, j, w);
    }
    SpliceWritten(p, o, mid, j, w);
  }

  /** What b64dec has written, the `count` groups without padding followed by
      the bytes of the padded last group when there is one, is the decoding
      of the whole `len`-character text. */
  lemma DecodeJoin(enc: string, len: nat, padded: nat, count: nat, o: seq<byte>, d: seq<byte>, k: nat)
    requires len <= |enc| && Grouped(enc[..len]) && padded == Padding(enc[..len])
    requires 4 * count == if padded == 0 then len else len - 4
    requires k == 3 * count + (if padded == 0 then 0 else 3 - padded) && k <= |d| == |o| && d[k..] == o[k..]
    requires padded == 0 ==> d[..k] == DecodePrefix(enc, count)
    requires padded > 0 ==> d[..k] == DecodePrefix(enc, count) + DecodeTail(enc[4 * count..4 * count + 4], padded)
    ensures k == |Decode(enc[..len])| && d[..k] == Decode(enc[..len])
  {
    DecodeSplit(enc, len, count, padded);
  }

  /** The body of b64dec once the length is accepted: the `len` characters
      of `enc` before the terminator are decoded into `dec`, and the count of
      bytes written is returned. */
  method DecodeText(enc: seq<char>, len: nat, dec: array<byte>) returns (j: nat)
    requires len <= |enc| && WellFormed(enc[..len]) && |Decode(enc[..len])| <= dec.Length
    modifies dec
    ensures j == |Decode(enc[..len])| && dec[..j] == Decode(enc[..len]) && dec[j..] == old(dec[..])[j..]
  {
    ghost var o := dec[..];
    var buffer := new byte[4];

    var padded := CountPadding(enc, len);
    ghost var count := DecodePlan(enc, len, padded, dec.Length);

    // Whole groups without padding. b64.c computes the bound in size_t, so
    // for "xx==" (enc_len 5, two `=`) `enc_len - padded - 4` wraps to the
    // largest size_t and the loop runs past the text; the intended bound is
    // the signed one, -1, which ends the loop at once.
    var i;
    i, j := DecodeGroupsAt(enc, (len + 1) - padded - 4, count, dec, buffer);

    // The padded last group.
    j := DecodeLastAt(enc, len, padded, count, i, j, dec, buffer, o);
  }

  /** b64dec: writes the bytes of the first `encLen` characters of `enc`
      (terminator included) into `dec` and returns how many it wrote. A
      length that is not one more than a multiple of four is refused: nothing
      is written and the result is 0. `dec` must hold DecLen(enc, encLen)
      bytes, as b64.h asks of the caller; nothing after the bytes written is
      touched. b64dec does not look at the terminator itself; when it is
      there, the count returned is the one b64declen predicts.

      b64.c decodes characters outside the alphabet and misplaced `=` into
      unspecified bytes (strchr returns NULL for them), and for `encLen` 1 it
      reads before the start of `enc`; such texts are excluded by requiring
      the text before the terminator to be WellFormed when the length is
      accepted. For `encLen` 0, `enc_len - 1` wraps to the largest size_t,
      whose remainder by four is 3, so the length is refused like any other
      bad one. */
  method Dec(enc: seq<char>, dec: array<byte>, encLen: nat) returns (j: nat)
    requires encLen <= |enc|
    requires encLen >= 1 && (encLen - 1) % 4 == 0 ==>
               WellFormed(enc[..encLen - 1]) && |Decode(enc[..encLen - 1])| <= dec.Length
    modifies dec
    ensures encLen == 0 || (encLen - 1) % 4 != 0 ==> j == 0 && dec[..] == old(dec[..])
    ensures encLen >= 1 && (encLen - 1) % 4 == 0 ==>
              j == |Decode(enc[..encLen - 1])| && dec[..j] == Decode(enc[..encLen - 1]) && dec[j..] == old(dec[..])[j..]
    ensures encLen >= 1 && enc[encLen - 1] == Terminator ==> j == DecLen(enc, encLen)
  {
    if encLen == 0 || (encLen - 1) % 4 != 0 {
      return 0;
    }
    j := DecodeText(enc, encLen - 1, dec);
  }
}
