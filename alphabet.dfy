/** The two constants of b64.c, `b64map` and `b64pad`, and the reverse lookup
    `strchr(b64map, c) - b64map` that b64dec uses to turn a character back into
    its 6-bit value. */
module Base64Alphabet {

  /** An 8-bit unsigned value. b64.c handles bytes as plain `char`; the model
      treats every byte as unsigned (see B64AsWritten.FirstSextetAsWritten for
      what a signed `char` does). */
  type byte = b: int | 0 <= b < 256

  /** A 6-bit value, an index into the alphabet. */
  type sextet = v: int | 0 <= v < 64

  /** b64map: the standard alphabet of RFC 4648, section 4 (Table 1): the
      character of every 6-bit value in order. It is defined through the table
      so that the verifier can index it at a symbolic position cheaply;
      AlphabetLiteral shows that it is the 64-character string of the C
      source. */
  const Alphabet: string := seq(64, v requires 0 <= v < 64 => TableChar(v))

  /** b64pad: the padding character. */
  const Pad: char := '='

  /** The NUL character that terminates an encoded C string. */
  const Terminator: char := '\0'

  /** Table 1 of RFC 4648 stated by ranges: values 0-25 are 'A'-'Z', 26-51 are
      'a'-'z', 52-61 are '0'-'9', 62 is '+' and 63 is '/'. The specification
      functions encode through this table, and `b64map` is defined by it. */
  function TableChar(v: sextet): (c: char)
    ensures IsBase64Char(c)
  {
    if v < 26 then (65 + v) as char
    else if v < 52 then (97 + v - 26) as char
    else if v < 62 then (48 + v - 52) as char
    else if v == 62 then '+' else '/'
  }

  /** The characters of the table: letters, digits, '+' and '/'. */
  predicate IsBase64Char(c: char)
  {
    'A' <= c <= 'Z' || 'a' <= c <= 'z' || '0' <= c <= '9' || c == '+' || c == '/'
  }

  /** The table entry of a table character: the inverse of TableChar, by
      ranges. Characters outside the table have no entry; they are given 0
      so that the decoding functions are total, and b64dec is never given
      them. */
  function TableIndex(c: char): (v: sextet)
    ensures IsBase64Char(c) ==> TableChar(v) == c
  {
    if 'A' <= c <= 'Z' then c as int - 65
    else if 'a' <= c <= 'z' then c as int - 97 + 26
    else if '0' <= c <= '9' then c as int - 48 + 52
    else if c == '+' then 62
    else if c == '/' then 63
    else 0
  }

  /** No two table entries are the same character, and neither the padding
      character nor the terminator is one of them. */
  lemma TableDistinct(v: sextet, w: sextet)
    ensures TableChar(v) == TableChar(w) <==> v == w
    ensures !IsBase64Char(Pad) && !IsBase64Char(Terminator)
  {
  }

  /** Looking up the character of a table entry gives the entry back. */
  lemma TableIndexChar(v: sextet)
    ensures TableIndex(TableChar(v)) == v
  {
    TableDistinct(TableIndex(TableChar(v)), v);
  }

  /** `b64map` is the string literal of b64.c, written here as the
      concatenation of its four runs. */
  lemma AlphabetLiteral()
    ensures Alphabet == "ABCDEFGHIJKLMNOPQRSTUVWXYZ" + "abcdefghijklmnopqrstuvwxyz" + "0123456789" + "+/"
  {
  }

  /** `strchr(b64map, c) - b64map`: the value of a table character, found as
      strchr finds it, by scanning `b64map` from its start for the first
      position that holds `c`. For a character outside the table strchr
      returns NULL and b64.c computes a meaningless difference; the model does
      not call the lookup there. The position found is the table entry of
      `c`. */
  method IndexOf(c: char) returns (r: sextet)
    requires IsBase64Char(c)
    ensures Alphabet[r] == c && forall q | 0 <= q < r :: Alphabet[q] != c
    ensures r == TableIndex(c)
  {
    var k := 0;
    while Alphabet[k] != c
      invariant 0 <= k <= TableIndex(c)
      invariant forall q | 0 <= q < k :: Alphabet[q] != c
      decreases TableIndex(c) - k
    {
      k := k + 1;
    }
    TableDistinct(k, TableIndex(c));
    r := k;
  }
}
