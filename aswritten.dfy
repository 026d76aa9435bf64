/** Three places where b64.c does not do what its comments and its other
    branches evidently intend, modelled as written. The rest of the model
    (modules Base64Spec and B64) follows the intended behaviour; each lemma
    here shows the input on which the two part. */
module B64AsWritten {
  import opened Base64Alphabet
  import opened Base64Spec

  /* ---------------------------------------------------------------------- */
  /* b64enc, two bytes left over (b64.c:76-82)                              */
  /* ---------------------------------------------------------------------- */

  /** The last group b64enc writes after two leftover bytes `s`, as b64.c:78
      computes it: the third 6-bit value ORs in `unenc[i+2] >> 6`, the top
      two bits of `next`, the byte that lies after the input in memory. */
  function EncodeTailAsWritten(s: seq<byte>, next: byte): (r: string)
    requires |s| == 2
    ensures |r| == 4 && r[3] == Pad
  {
    var v := Sextets(s[0], s[1], next);
    [TableChar(v[0]), TableChar(v[1]), TableChar(v[2]), Pad]
  }

  /** What b64enc writes agrees with the encoding of the two bytes exactly
      when the byte after the input has its top two bits clear. */
  lemma EncodeTailAsWrittenAgrees(s: seq<byte>, next: byte)
    requires |s| == 2
    ensures EncodeTailAsWritten(s, next) == EncodeTail(s) <==> next < 64
  {
    var v, w := Sextets(s[0], s[1], next), Sextets(s[0], s[1], 0);
    EncodeGroupShifts(s[0], s[1], 0);
    var q := EncodeGroup(s[0], s[1], 0);
    assert EncodeTail(s) == [q[0], q[1], q[2], Pad];
    assert v[0] == w[0] && v[1] == w[1] && v[2] == w[2] + next / 64;
    TableDistinct(v[2], w[2]);
    if EncodeTailAsWritten(s, next) == EncodeTail(s) {
      assert EncodeTailAsWritten(s, next)[2] == EncodeTail(s)[2];
    }
  }

  /** The two zero bytes followed in memory by 0xC0 are written with a 'D'
      where their encoding "AAA=" has an 'A'. */
  lemma EncodeTailAsWrittenCounterexample(s: seq<byte>)
    requires s == [0, 0]
    ensures EncodeTailAsWritten(s, 192) != EncodeTail(s) && EncodeTailAsWritten(s, 192)[2] == 'D'
  {
    assert EncodeTailAsWritten(s, 192)[2] == 'D' by {
      assert s[0] == 0 && s[1] == 0;
      assert Sextets(0, 0, 192)[2] == 3;
    }
    EncodeTailAsWrittenAgrees(s, 192);
  }

  /* ---------------------------------------------------------------------- */
  /* b64enc on a signed `char` (b64.c:42, 59-62)                            */
  /* ---------------------------------------------------------------------- */

  /** The value a plain `char` holding the byte `b` has where `char` is
      signed, as on the AVR boards the library targets: bytes from 128 up
      are negative. */
  function SignedChar(b: byte): (c: int)
    ensures -128 <= c < 128 && c % 256 == b as int
  {
    if b < 128 then b as int else b as int - 256
  }

  /** The first 6-bit value as b64.c:59 computes it from `char *unenc`:
      `unenc[i] >> 2` shifts the signed value arithmetically (a floor
      division by four), and storing it into `unsigned char buffer[0]` keeps
      it modulo 256. Bytes from 128 up thus gain the top two bits of the
      sign extension. */
  function FirstSextetAsWritten(b: byte): (r: byte)
    ensures r as int == if b < 128 then b / 4 else b / 4 + 192
  {
    (SignedChar(b) / 4) % 256
  }

  /** It indexes the 64-character table only for bytes below 128, and there
      it is the first 6-bit value of the encoding; from 128 up it is between
      224 and 255, past the end of `b64map`. */
  lemma FirstSextetAsWrittenInTable(b: byte)
    ensures FirstSextetAsWritten(b) < 64 <==> b < 128
    ensures b < 128 ==> FirstSextetAsWritten(b) == Sextets(b, 0, 0)[0]
    ensures b >= 128 ==> 224 <= FirstSextetAsWritten(b) as int <= 255
  {
    if b >= 128 {
      var c := b as int - 256;
      assert -32 <= c / 4 < 0 by {
        assert 4 * (c / 4) <= c < 4 * (c / 4) + 4;
      }
    }
  }

  /** The byte 0xFF reads as -1 and becomes index 255. */
  lemma FirstSextetAsWrittenCounterexample()
    ensures FirstSextetAsWritten(255) == 255
  {
    FirstSextetAsWrittenInTable(255);
    assert SignedChar(255) == -1;
  }

  /* ---------------------------------------------------------------------- */
  /* The loop bound of b64dec (b64.c:146)                                   */
  /* ---------------------------------------------------------------------- */

  /** The bound `enc_len - padded - 4` of the loop of b64dec as written: the
      arithmetic is done in `size_t`, whose `modulus` values (2^16 on AVR)
      wrap around, so a negative difference becomes `modulus` less its
      magnitude. */
  function LoopBoundAsWritten(encLen: nat, padded: nat, modulus: nat): (r: nat)
    requires encLen < modulus && padded + 4 < modulus
    ensures r < modulus
  {
    if encLen >= padded + 4 then encLen - padded - 4 else modulus - (padded + 4 - encLen)
  }

  /** For every length b64dec accepts and every padding count, the bound as
      written is the intended signed one except for a single group with two
      `=` ("xx==", `enc_len` 5), where it wraps to the largest `size_t` and
      the loop goes on reading past the text. */
  lemma LoopBoundAsWrittenWraps(encLen: nat, padded: nat, modulus: nat)
    requires encLen >= 5 && (encLen - 1) % 4 == 0 && padded <= 2 && encLen < modulus && padded + 4 < modulus
    ensures LoopBoundAsWritten(encLen, padded, modulus) == encLen - padded - 4
            <==> !(encLen == 5 && padded == 2)
    ensures encLen == 5 && padded == 2 ==> LoopBoundAsWritten(encLen, padded, modulus) == modulus - 1
  {
  }

  /** With a 16-bit `size_t`, "xx==" gives the bound 65535 instead of -1: the
      second pass of the loop, at index 4, reads past the five characters. */
  lemma LoopBoundAsWrittenCounterexample()
    ensures LoopBoundAsWritten(5, 2, 65536) == 65535 && 4 < LoopBoundAsWritten(5, 2, 65536)
  {
    LoopBoundAsWrittenWraps(5, 2, 65536);
  }
}
