# b64 in Dafny

A model of `b64.c`, the small base64 library for Arduino by David Horton. It
has four functions:

- `b64enclen` says how many characters the encoding of `n` bytes needs, terminator included.
- `b64enc` writes the base64 text of an array of bytes into a character array and ends it with a NUL.
- `b64declen` checks a NUL-terminated base64 text and says how many bytes it decodes to.
- `b64dec` writes those bytes into a byte array.

The alphabet and padding character are those of RFC 4648, section 4.

The project has five modules:

- `Base64Alphabet` (`alphabet.dfy`): the constants `b64map` and `b64pad`, the
  NUL terminator, and `IndexOf`, the `strchr(b64map, c) - b64map` lookup that
  b64dec performs, written as the scan strchr does.
- `Base64Spec` (`spec.dfy`): what the two conversions compute, as functions
  on values. `Encode` maps a byte sequence to its text; `Decode` maps a text
  of whole groups of four characters to bytes. Also the lemmas about them:
  - group by group, the shifts and masks of b64.c are the 24-bit regrouping of RFC 4648;
  - lengths and padding;
  - the round trip `Decode(Encode(s)) == s`.
- `B64` (`b64.dfy`): the four functions of b64.c.
  - `EncLen` and `DecLen` are functions.
  - `Enc` and `Dec` are methods that fill an `array` through the same loops,
    the same 4-byte `buffer` and the same final `switch` as the C code.
    They are proved against `Encode` and `Decode`.
  - Each loop pass and each `switch` is a method of its own (`EncodeGroupAt`,
    `EncodeTailAt`, `DecodeGroupAt`, `DecodeTailAt`). Each states its writes as
    updates of the old array contents.
  - The loops (`EncodeGroupsAt`, `DecodeGroupsAt`) keep the invariant that
    the array holds the encoding (decoding) of the groups done so far, and
    that it is unchanged after them.
- `B64AsWritten` (`aswritten.dfy`): three places where b64.c does not do
  what it evidently means (see Findings). Each is modelled as written, with
  the input that shows the difference. The other modules model the intended
  behaviour.
- `Base64Vectors` (`vectors.dfy`): a worked example. The 17 bytes of
  "Hello Cleveland!" and a NUL encode to "SGVsbG8gQ2xldmVsYW5kIQA=", and the
  text decodes back to them.

Bytes are the integers 0..255 (`byte`). The C shifts and masks are written as
division and remainder by powers of two. A bitwise OR of disjoint bit fields is
written as an addition, and a store into an 8-bit `char` as `% 256`. The input
of `Enc` and `Dec` is a read-only `seq`; the output is an `array`.

## Model

| member | source | states |
|---|---|---|
| Base64Alphabet.AlphabetLiteral | b64.c:20-22 | `b64map` is the 64-character string "A-Z a-z 0-9 + /" of the source |
| Base64Alphabet.TableChar | b64.c:20-22 | the `b64map` entry of a 6-bit value is a letter, a digit, `+` or `/` |
| Base64Alphabet.TableIndex | b64.c:152-155 | for a table character, the position `strchr` finds in `b64map` holds that character |
| Base64Alphabet.TableDistinct | b64.c:20-25 | the 64 characters of `b64map` are distinct, and neither `b64pad` nor NUL is one of them |
| Base64Alphabet.TableIndexChar | b64.c:152 | looking up the character of a 6-bit value gives back that value |
| Base64Alphabet.IndexOf | b64.c:152-155 | `strchr(b64map, c) - b64map` for a table character: the first position of `b64map` holding `c`, which is its table entry |
| Base64Spec.EncodeGroupShifts | b64.c:59-68 | the four characters b64enc writes for three bytes (`b0 >> 2`, `(b0 & 3) << 4 \| b1 >> 4`, … through `b64map`) are the four base-64 digits of the 24-bit group |
| Base64Spec.DecodeGroupShifts | b64.c:152-158 | the three bytes b64dec writes for four characters (`a << 2 \| b >> 4`, …, each kept to 8 bits) are the base-256 digits of the number the characters spell |
| Base64Spec.Sextets | b64.c:59-62 | the shifts and masks of b64enc give four values, each below 64 (so each indexes `b64map`) |
| Base64Spec.Bytes | b64.c:156-158 | the shifts of b64dec give three values, each kept to 8 bits by the store into `char` |
| Base64Spec.BytesOfSextets | b64.c:59-62 | the decoder's shifts undo the encoder's: the bytes rebuilt from the four 6-bit values of a group are the group |
| Base64Spec.DecodeEncodeGroup | b64.c:152-158 | decoding the four characters of a group gives its three bytes back, and the characters are all in the alphabet |
| Base64Spec.EncodePrefixInAlphabet | b64.c:55-69 | the characters the loop of b64enc writes are all characters of `b64map` |
| Base64Spec.EncodeTailAlphabet | b64.c:74-92 | the last group has two table characters and two `=` after one leftover byte, and three table characters and one `=` after two |
| Base64Spec.TailPadBitsZero | b64.c:77-78 | the bits of the last character that lie beyond the input are zero (RFC 4648, section 3.5): `(b0 & 3) << 4` after one byte, `(b1 & 15) << 2` after two |
| Base64Spec.PadCount | b64.c:48 | the number of `=` is below 3 and brings the input length up to a multiple of three |
| Base64Spec.EncodeTail | b64.c:74-92 | the last group is four characters when one or two bytes are left over, with the missing bytes taken as zero, and nothing when none is |
| Base64Spec.EncodeLength | b64.c:55-92 | the text has four characters for every started group of three bytes |
| Base64Spec.EncodePadding | b64.c:74-92 | the text ends in exactly PadCount `=` characters, and every character before them is in the alphabet |
| Base64Spec.DecodeLength | b64.c:115-120 | a text of whole groups decodes to three bytes per group less one per `=` among its last two characters |
| Base64Spec.Padding | b64.c:119-120 | the `=` among the last two characters, counted as b64declen and b64dec do (b64.c:134-135): at most 2, and 0 exactly when neither is `=` |
| Base64Spec.DecodeTail | b64.c:161-175 | the padded last group gives two bytes for one `=` and one byte for two |
| Base64Spec.Decode | b64.c:125-178 | the bytes b64dec writes for a text of whole groups: at least one, and at most three per group |
| Base64Spec.DecodeEncodePrefix | b64.c:146-159 | the loop of b64dec over the full groups of an encoding gives back the bytes the loop of b64enc took |
| Base64Spec.DecodeEncodeTail | b64.c:161-175 | decoding the padded last group gives back the one or two leftover bytes, and its padding is `3 - |s|` |
| Base64Spec.RoundTrip | b64.c:42-98 | for every non-empty byte sequence, its encoding is well formed (whole groups, alphabet characters before the padding), carries PadCount `=`, and decodes back to the sequence |
| B64.EncLen | b64.c:27-40 | b64enclen is one more than a multiple of four and leaves room for `4 * n / 3` characters, less than one group to spare |
| B64.EncLenExact | b64.c:27-40 | b64enclen is exactly the length of the encoding plus its terminator |
| B64.EncLenMonotone | b64.c:27-40 | b64enclen never decreases as the input grows |
| B64.EncodeGroupAt | b64.c:59-68 | one pass of the loop of b64enc writes the four characters of its group at `j` and changes nothing else in `enc` |
| B64.EncodeTailAt | b64.c:74-92 | the final switch of b64enc writes the padded last group at `j` and changes nothing else |
| B64.EncodeGroupsAt | b64.c:53-69 | after the loop, `enc` starts with the characters of all full groups and is unchanged after them |
| B64.Enc | b64.c:42-98 | b64enc writes the encoding of its input followed by NUL, returns its length (one less than b64enclen), and leaves the rest of `enc` unchanged |
| B64.DecLen | b64.c:100-123 | b64declen is 0 exactly when a check fails: no NUL at `enc_len - 1`, `enc_len < 4`, or `enc_len - 1` not a multiple of four. Otherwise it is the number of bytes the text decodes to, between `3/4` of its length less 2 and `3/4` of its length |
| B64.DecLenOfText | b64.c:100-123 | on a text of whole groups followed by NUL, b64declen counts the bytes the text decodes to |
| B64.DecLenOfEncoded | b64.c:100-123 | b64declen of what b64enc wrote, NUL included, is the length b64enc was given; b64enclen is that text's length |
| B64.CountPadding | b64.c:133-135 | `padded` counts the `=` among the last two characters before the terminator |
| B64.DecodePlan | b64.c:146 | for a well-formed text, the loop bound `enc_len - padded - 4`, taken as a signed number, lets through exactly the groups without padding, and the output has room for the decoded bytes |
| B64.DecodeGroupAt | b64.c:152-158 | one pass of the loop of b64dec writes the three bytes of its group at `j` and changes nothing else in `dec` |
| B64.DecodeGroupsAt | b64.c:140-159 | after the loop, `dec` starts with the bytes of the groups without padding and is unchanged after them |
| B64.DecodeTailAt | b64.c:161-175 | the final switch of b64dec writes the two bytes (one `=`) or one byte (two `=`) of the padded group at `j` and nothing else |
| B64.DecodeLastAt | b64.c:161-177 | after the switch, the bytes written are the decoding of the whole text and their count is returned |
| B64.DecodeText | b64.c:133-177 | once the length is accepted, `dec` receives the decoding of the text before the terminator and nothing after it changes |
| B64.Dec | b64.c:125-178 | b64dec returns 0 and writes nothing when `enc_len - 1` is not a multiple of four. Otherwise it writes the decoding of the text, returns its length (what b64declen predicts when the terminator is there), and leaves the rest of `dec` unchanged |
| Base64Vectors.HelloEncode | b64.c:27-98 | the 17 bytes of "Hello Cleveland!" and a NUL encode to "SGVsbG8gQ2xldmVsYW5kIQA=", and b64enclen asks 25 characters for them |
| Base64Vectors.HelloDecode | b64.c:100-178 | "SGVsbG8gQ2xldmVsYW5kIQA=" decodes to those 17 bytes, and b64declen of the text and its NUL is 17 |
| B64AsWritten.EncodeTailAsWritten | b64.c:76-82 | what b64enc writes for two leftover bytes, reading the byte after the input: three characters and one `=` |
| B64AsWritten.EncodeTailAsWrittenAgrees | b64.c:78 | the group written agrees with the encoding exactly when the byte after the input is below 64 |
| B64AsWritten.EncodeTailAsWrittenCounterexample | b64.c:78 | two zero bytes followed by 0xC0 are written with a 'D' where the encoding has 'A' |
| B64AsWritten.SignedChar | b64.c:42 | a byte read through a signed `char` is a value in -128..127 equal to the byte modulo 256 |
| B64AsWritten.FirstSextetAsWritten | b64.c:59 | `unenc[i] >> 2` on a signed `char`, stored into an `unsigned char`: `b / 4` for a byte below 128, `b / 4 + 192` from 128 up |
| B64AsWritten.FirstSextetAsWrittenInTable | b64.c:59 | that index is inside the 64-character table exactly for bytes below 128, where it is the intended value; from 128 up it is 224..255 |
| B64AsWritten.FirstSextetAsWrittenCounterexample | b64.c:59 | byte 0xFF gives index 255 |
| B64AsWritten.LoopBoundAsWritten | b64.c:146 | `enc_len - padded - 4` in `size_t` arithmetic, wrapping below zero |
| B64AsWritten.LoopBoundAsWrittenWraps | b64.c:146 | for every accepted length and padding, the bound as written is the signed one except for "xx==", where it is the largest `size_t` |
| B64AsWritten.LoopBoundAsWrittenCounterexample | b64.c:146 | with a 16-bit `size_t`, "xx==" gives the bound 65535, so the loop goes past the five characters |

## Findings

| source | as written | input that shows it | evidently intended | confidence | as-written member | corrected member |
|---|---|---|---|---|---|---|
| b64.c:78 | for two leftover bytes, `buffer[2]` ORs in `unenc[i+2] >> 6`, which reads the byte after the input | bytes 00 00, followed in memory by 0xC0: the third character is 'D' instead of 'A' | the missing third byte counts as zero, as in the one-byte case (b64.c:86) and RFC 4648 | high; not executed | B64AsWritten.EncodeTailAsWrittenCounterexample | Base64Spec.DecodeEncodeTail |
| b64.c:42 | `unenc` is `char *`, so with a signed `char` (avr-gcc's default) `unenc[i] >> 2` is negative for bytes from 128 up | byte 0xFF: `buffer[0]` is 255, and `b64map[255]` reads past the 65-byte array | bytes read as `unsigned char` | medium (depends on the signedness of `char`); not executed | B64AsWritten.FirstSextetAsWrittenCounterexample | Base64Spec.EncodeGroupShifts |
| b64.c:146 | the loop bound `enc_len - padded - 4` is computed in `size_t` | "xx==" (`enc_len` 5, two `=`): the bound wraps to the largest `size_t`, and the loop decodes past the text | the signed bound -1, which runs no pass | high; not executed | B64AsWritten.LoopBoundAsWrittenCounterexample | B64.DecodeText |

## Left out

- The Arduino header and the commented-out `Serial` traces in b64dec (b64.c:143-148) are I/O with no effect on the result; they are not modelled.
- B64.Dec: a text holding a character outside `b64map`, or a `=` that is not part of the padding at the end (as in "AB=C"), is excluded by precondition (`WellFormed`). b64.c turns these into unspecified bytes, because `strchr` returns NULL or finds the terminator.
- B64.Dec: `enc_len` 1 (an empty text) is excluded by the same precondition, because b64.c:134-135 then read `enc[-1]` and `enc[-2]`.
- B64.DecLen: `enc_len` 0 is excluded by precondition, because b64.c:105 then reads `enc[-1]`.
- Base64Alphabet.IndexOf: only table characters are looked up; `strchr` of any other character returns NULL (or, for NUL, the position 64) and is not modelled.
- B64.Enc and B64.Dec: the caller's guarantee that `enc` / `dec` are large enough is a precondition. The C code does not check it.
- B64.Enc and B64.Dec: the input is a read-only `seq` distinct from the output array, so aliasing between input and output is not modelled.
- The widths of `int` and `size_t` are not modelled: lengths and indices are unbounded integers. Overflow of `int i`, `int j` or `unenc_len + 2` for inputs near the type limits is out of scope; the one wrap-around that matters for valid inputs is the subject of the third finding.
- Base64Alphabet.TableIndex gives 0 for characters outside the table. That value is never used on the decoding path, which only sees table characters.
