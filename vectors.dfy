/** A worked example of the four functions: the 17 bytes of "Hello Cleveland!"
    and its NUL encode to "SGVsbG8gQ2xldmVsYW5kIQA=", b64enclen asks 25
    characters for them, and b64declen of the text and its NUL gives 17. */
module Base64Vectors {
  import opened Base64Alphabet
  import opened Base64Spec
  import opened B64

  /** The bytes of "Hello Cleveland!" followed by a NUL byte. */
  predicate IsHello(s: seq<byte>)
  {
    s == [72, 101, 108, 108, 111, 32, 67, 108, 101, 118, 101, 108, 97, 110, 100, 33, 0]
  }

  /** The characters of a full group, as the table entries of its four
      6-bit values. */
  lemma GroupVector(s: seq<byte>, k: nat, v0: sextet, v1: sextet, v2: sextet, v3: sextet)
    requires 3 * k + 3 <= |s| && Sextets(s[3 * k], s[3 * k + 1], s[3 * k + 2]) == [v0, v1, v2, v3]
    ensures GroupChars(s, k) == [TableChar(v0), TableChar(v1), TableChar(v2), TableChar(v3)]
  {
    EncodeGroupShifts(s[3 * k], s[3 * k + 1], s[3 * k + 2]);
  }

  /** The first group, "Hel". */
  lemma HelloGroup0(s: seq<byte>)
    requires 3 * 0 + 3 <= |s| && s[0] == 72 && s[1] == 101 && s[2] == 108
    ensures GroupChars(s, 0) == "SGVs"
  {
    GroupVector(s, 0, 18, 6, 21, 44);
  }

  /** The second group, "lo ". */
  lemma HelloGroup1(s: seq<byte>)
    requires 3 * 1 + 3 <= |s| && s[3] == 108 && s[4] == 111 && s[5] == 32
    ensures GroupChars(s, 1) == "bG8g"
  {
    GroupVector(s, 1, 27, 6, 60, 32);
  }

  /** The third group, "Cle". */
  lemma HelloGroup2(s: seq<byte>)
    requires 3 * 2 + 3 <= |s| && s[6] == 67 && s[7] == 108 && s[8] == 101
    ensures GroupChars(s, 2) == "Q2xl"
  {
    GroupVector(s, 2, 16, 54, 49, 37);
  }

  /** The fourth group, "vel". */
  lemma HelloGroup3(s: seq<byte>)
    requires 3 * 3 + 3 <= |s| && s[9] == 118 && s[10] == 101 && s[11] == 108
    ensures GroupChars(s, 3) == "dmVs"
  {
    GroupVector(s, 3, 29, 38, 21, 44);
  }

  /** The fifth group, "and". */
  lemma HelloGroup4(s: seq<byte>)
    requires 3 * 4 + 3 <= |s| && s[12] == 97 && s[13] == 110 && s[14] == 100
    ensures GroupChars(s, 4) == "YW5k"
  {
    GroupVector(s, 4, 24, 22, 57, 36);
  }

  /** The two leftover bytes "!" and NUL, padded with one '='. */
  lemma HelloTail(s: seq<byte>)
    requires |s| == 17 && s[15] == 33 && s[16] == 0
    ensures EncodeTail(s[15..]) == "IQA="
  {
    TailVector(s, 5, 8, 16, 0, 0);
  }

  /** One more group appended to the encoded full groups. */
  lemma PrefixVector(s: seq<byte>, k: nat, p: string, q: string)
    requires 3 * k + 3 <= |s| && EncodePrefix(s, k) == p && GroupChars(s, k) == q
    ensures EncodePrefix(s, k + 1) == p + q
  {
    EncodePrefixSnoc(s, k);
  }

  /** The padded group of the two bytes left over after `g` full groups, as
      the table entries of the first three of its 6-bit values. */
  lemma TailVector(s: seq<byte>, g: nat, v0: sextet, v1: sextet, v2: sextet, v3: sextet)
    requires |s| == 3 * g + 2 && Sextets(s[3 * g], s[3 * g + 1], 0) == [v0, v1, v2, v3]
    ensures EncodeTail(s[3 * g..]) == [TableChar(v0), TableChar(v1), TableChar(v2), Pad]
  {
    var u := s[3 * g..];
    assert u[0] == s[3 * g] && u[1] == s[3 * g + 1];
    EncodeGroupShifts(u[0], u[1], 0);
  }

  /** Five full groups of known characters, chained one after the other. */
  lemma FiveGroups(s: seq<byte>, q0: string, q1: string, q2: string, q3: string, q4: string)
    requires 15 <= |s|
    requires GroupChars(s, 0) == q0 && GroupChars(s, 1) == q1 && GroupChars(s, 2) == q2
    requires GroupChars(s, 3) == q3 && GroupChars(s, 4) == q4
    ensures EncodePrefix(s, 5) == q0 + q1 + q2 + q3 + q4
  {
    PrefixVector(s, 0, [], q0);
    assert [] + q0 == q0;
    PrefixVector(s, 1, q0, q1);
    PrefixVector(s, 2, q0 + q1, q2);
    PrefixVector(s, 3, q0 + q1 + q2, q3);
    PrefixVector(s, 4, q0 + q1 + q2 + q3, q4);
  }

  /** An input whose full groups and leftover bytes have known encodings. */
  lemma EncodeVector(s: seq<byte>, g: nat, p: string, t: string)
    requires 3 * g <= |s| < 3 * g + 3 && EncodePrefix(s, g) == p && EncodeTail(s[3 * g..]) == t
    ensures Encode(s) == p + t
  {
    EncodeShape(s, g, |s| - 3 * g);
  }

  /** The five full groups. */
  lemma HelloGroups(s: seq<byte>)
    requires IsHello(s)
    ensures EncodePrefix(s, 5) == "SGVs" + "bG8g" + "Q2xl" + "dmVs" + "YW5k"
  {
    assert s[0] == 72 && s[1] == 101 && s[2] == 108 && s[3] == 108 && s[4] == 111;
    assert s[5] == 32 && s[6] == 67 && s[7] == 108 && s[8] == 101 && s[9] == 118;
    assert s[10] == 101 && s[11] == 108 && s[12] == 97 && s[13] == 110 && s[14] == 100;
    HelloGroup0(s);
    HelloGroup1(s);
    HelloGroup2(s);
    HelloGroup3(s);
    HelloGroup4(s);
    FiveGroups(s, "SGVs", "bG8g", "Q2xl", "dmVs", "YW5k");
  }

  /** The six groups of four characters spell the expected text. */
  lemma HelloSpelling()
    ensures "SGVs" + "bG8g" + "Q2xl" + "dmVs" + "YW5k" + "IQA=" == "SGVsbG8gQ2xldmVsYW5kIQA="
  {
  }

  /** Seventeen bytes whose five full groups and two leftover bytes encode
      to the expected characters encode to the expected text. */
  lemma HelloText(s: seq<byte>)
    requires |s| == 17
    requires EncodePrefix(s, 5) == "SGVs" + "bG8g" + "Q2xl" + "dmVs" + "YW5k"
    requires EncodeTail(s[15..]) == "IQA="
    ensures Encode(s) == "SGVsbG8gQ2xldmVsYW5kIQA="
  {
    EncodeVector(s, 5, "SGVs" + "bG8g" + "Q2xl" + "dmVs" + "YW5k", "IQA=");
    HelloSpelling();
  }

  /** The encoding of the example, and the length b64enclen asks for it. */
  lemma HelloEncode(s: seq<byte>)
    requires IsHello(s)
    ensures Encode(s) == "SGVsbG8gQ2xldmVsYW5kIQA="
    ensures EncLen(|s|) == 25
  {
    HelloGroups(s);
    assert s[15] == 33 && s[16] == 0;
    HelloTail(s);
    HelloText(s);
  }

  /** The text decodes back to the example, and b64declen of the text and
      its NUL gives its 17 bytes. */
  lemma HelloDecode(s: seq<byte>)
    requires IsHello(s)
    ensures Decode("SGVsbG8gQ2xldmVsYW5kIQA=") == s
    ensures DecLen("SGVsbG8gQ2xldmVsYW5kIQA=\0", 25) == 17
  {
    HelloEncode(s);
    RoundTrip(s);
    DecLenOfEncoded(s);
  }
}
