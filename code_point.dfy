/** The code-point decoder unicode_code_point, and the encoding of section 3
    of RFC 3629 as its reference inverse. */
module CodePoint {
  import opened Utf8Types
  import opened Utf8Spec
  import opened Classifier

  /** The value of a two-, three- or four-byte character: the payload bits
      of the lead byte followed by six bits from each continuation byte, most
      significant first. */
  function Payload2(b0: bv8, b1: bv8): (r: bv32)
    ensures r < 0x800
  {
    ((b0 as bv32 & 0x1F) << 6) | (b1 as bv32 & 0x3F)
  }

  function Payload3(b0: bv8, b1: bv8, b2: bv8): (r: bv32)
    ensures r < 0x10000
  {
    ((b0 as bv32 & 0x0F) << 12) | ((b1 as bv32 & 0x3F) << 6) | (b2 as bv32 & 0x3F)
  }

  function Payload4(b0: bv8, b1: bv8, b2: bv8, b3: bv8): (r: bv32)
    ensures r < 0x200000
  {
    ((b0 as bv32 & 0x07) << 18) | ((b1 as bv32 & 0x3F) << 12) | ((b2 as bv32 & 0x3F) << 6) | (b3 as bv32 & 0x3F)
  }

  /** unicode_code_point: the low seven bits of a one-byte character, the
      payload of a longer one; the NULL character and a character of any
      other length give 0. */
  function UnicodeCodePoint(buf: seq<bv8>, uchar: Utf8Char): (r: bv32)
    ensures r < 0x200000
    ensures uchar.Utf8Char? && uchar.byteLen == 1 ==> r < 0x80
    ensures uchar.Utf8Char? && uchar.byteLen == 2 ==> r < 0x800
    ensures uchar.Utf8Char? && uchar.byteLen == 3 ==> r < 0x10000
    ensures uchar.NullChar? || !(1 <= uchar.byteLen <= 4) ==> r == 0
  {
    if uchar.NullChar? then 0
    else
      var b0 := Byte(buf, uchar.start);
      var b1 := Byte(buf, uchar.start + 1);
      var b2 := Byte(buf, uchar.start + 2);
      var b3 := Byte(buf, uchar.start + 3);
      match uchar.byteLen
      case 1 => b0 as bv32 & 0x7F
      case 2 => Payload2(b0, b1)
      case 3 => Payload3(b0, b1, b2)
      case 4 => Payload4(b0, b1, b2, b3)
      case _ => 0
  }

  /** The shortest encoding of a code point below 0x200000 (RFC 3629
      section 3), with no U+10FFFF ceiling. */
  function Encode(cp: bv32): seq<bv8>
    requires cp < 0x200000
  {
    if cp < 0x80 then
      [cp as bv8]
    else if cp < 0x800 then
      [(0xC0 | (cp >> 6)) as bv8, (0x80 | (cp & 0x3F)) as bv8]
    else if cp < 0x10000 then
      [(0xE0 | (cp >> 12)) as bv8, (0x80 | ((cp >> 6) & 0x3F)) as bv8, (0x80 | (cp & 0x3F)) as bv8]
    else
      [(0xF0 | (cp >> 18)) as bv8, (0x80 | ((cp >> 12) & 0x3F)) as bv8,
       (0x80 | ((cp >> 6) & 0x3F)) as bv8, (0x80 | (cp & 0x3F)) as bv8]
  }

  /** Decoding a character reads exactly its own bytes. */
  lemma DecodeBytes(buf: seq<bv8>, offset: nat, k: nat)
    requires offset + k <= |buf| && 1 <= k <= 4
    ensures var c := buf[offset..offset + k];
      var cp := UnicodeCodePoint(buf, Utf8Char(offset, k));
      && (k == 1 ==> cp == c[0] as bv32 & 0x7F)
      && (k == 2 ==> cp == Payload2(c[0], c[1]))
      && (k == 3 ==> cp == Payload3(c[0], c[1], c[2]))
      && (k == 4 ==> cp == Payload4(c[0], c[1], c[2], c[3]))
  {
    var c := buf[offset..offset + k];
    assert forall j :: 0 <= j < k ==> c[j] == Byte(buf, offset + j);
  }

  /** Byte-level facts of the three- and four-byte rows: the payload of
      such bytes lies in the row's range and its encoding bytes are the
      bytes again; conversely the payload of the encoding bytes of a code
      point in range is the code point. */
  lemma Bits3(b0: bv8, b1: bv8, b2: bv8)
    requires 0xE0 <= b0 <= 0xEF && IsContinuation(b1) && IsContinuation(b2)
    requires b0 == 0xE0 ==> 0xA0 <= b1
    requires b0 == 0xED ==> b1 <= 0x9F
    ensures 0x800 <= Payload3(b0, b1, b2) && !(0xD800 <= Payload3(b0, b1, b2) <= 0xDFFF)
    ensures (0xE0 | (Payload3(b0, b1, b2) >> 12)) as bv8 == b0
    ensures (0x80 | ((Payload3(b0, b1, b2) >> 6) & 0x3F)) as bv8 == b1
    ensures (0x80 | (Payload3(b0, b1, b2) & 0x3F)) as bv8 == b2
  {
  }

  lemma Bits4(b0: bv8, b1: bv8, b2: bv8, b3: bv8)
    requires 0xF0 <= b0 <= 0xF7 && IsContinuation(b1) && IsContinuation(b2) && IsContinuation(b3)
    requires b0 == 0xF0 ==> 0x90 <= b1
    ensures 0x10000 <= Payload4(b0, b1, b2, b3)
    ensures (0xF0 | (Payload4(b0, b1, b2, b3) >> 18)) as bv8 == b0
    ensures (0x80 | ((Payload4(b0, b1, b2, b3) >> 12) & 0x3F)) as bv8 == b1
    ensures (0x80 | ((Payload4(b0, b1, b2, b3) >> 6) & 0x3F)) as bv8 == b2
    ensures (0x80 | (Payload4(b0, b1, b2, b3) & 0x3F)) as bv8 == b3
  {
  }

  lemma EncodeBits3(cp: bv32)
    requires 0x800 <= cp < 0x10000 && !(0xD800 <= cp <= 0xDFFF)
    ensures var b0, b1 := (0xE0 | (cp >> 12)) as bv8, (0x80 | ((cp >> 6) & 0x3F)) as bv8;
      && 0xE0 <= b0 <= 0xEF && IsContinuation(b1)
      && (b0 == 0xE0 ==> 0xA0 <= b1) && (b0 == 0xED ==> b1 <= 0x9F)
      && Payload3(b0, b1, (0x80 | (cp & 0x3F)) as bv8) == cp
  {
  }

  lemma EncodeBits4(cp: bv32)
    requires 0x10000 <= cp < 0x200000
    ensures 0xF0 <= (0xF0 | (cp >> 18)) as bv8 <= 0xF7
    ensures IsContinuation((0x80 | ((cp >> 12) & 0x3F)) as bv8)
    ensures (0xF0 | (cp >> 18)) as bv8 == 0xF0 ==> 0x90 <= (0x80 | ((cp >> 12) & 0x3F)) as bv8
  {
  }

  lemma EncodePayload4(cp: bv32)
    requires 0x10000 <= cp < 0x200000
    ensures Payload4((0xF0 | (cp >> 18)) as bv8, (0x80 | ((cp >> 12) & 0x3F)) as bv8,
                     (0x80 | ((cp >> 6) & 0x3F)) as bv8, (0x80 | (cp & 0x3F)) as bv8) == cp
  {
  }

  /** Two-byte rows: the value is at least 0x80 and encodes back to the
      same bytes. */
  lemma RoundTrip2(b0: bv8, b1: bv8)
    requires WellFormedChar([b0, b1])
    ensures 0x80 <= Payload2(b0, b1) && Encode(Payload2(b0, b1)) == [b0, b1]
  {
    var cp := Payload2(b0, b1);
    assert 0x80 <= cp;
    var e := Encode(cp);
    assert e[0] == b0 && e[1] == b1;
  }

  /** Three-byte rows: the value is at least 0x800, no surrogate, and
      encodes back to the same bytes. */
  lemma RoundTrip3(b0: bv8, b1: bv8, b2: bv8)
    requires WellFormedChar([b0, b1, b2])
    ensures 0x800 <= Payload3(b0, b1, b2)
    ensures !(0xD800 <= Payload3(b0, b1, b2) <= 0xDFFF)
    ensures Encode(Payload3(b0, b1, b2)) == [b0, b1, b2]
  {
    var c := [b0, b1, b2];
    assert c[0] == b0 && c[1] == b1 && c[2] == b2;
    Bits3(b0, b1, b2);
  }

  /** Four-byte rows: the value is at least 0x10000 and encodes back to the
      same bytes. */
  lemma RoundTrip4(b0: bv8, b1: bv8, b2: bv8, b3: bv8)
    requires WellFormedChar([b0, b1, b2, b3])
    ensures 0x10000 <= Payload4(b0, b1, b2, b3)
    ensures Encode(Payload4(b0, b1, b2, b3)) == [b0, b1, b2, b3]
  {
    var c := [b0, b1, b2, b3];
    assert c[0] == b0 && c[1] == b1 && c[2] == b2 && c[3] == b3;
    Bits4(b0, b1, b2, b3);
  }

  /** The encoding of a code point of each range is a well-formed character
      of the matching length whose payload is the code point. */
  lemma EncodeRange2(cp: bv32)
    requires 0x80 <= cp < 0x800
    ensures var e := Encode(cp); |e| == 2 && WellFormedChar(e) && Payload2(e[0], e[1]) == cp
  {
  }

  lemma EncodeRange3(cp: bv32)
    requires 0x800 <= cp < 0x10000 && !(0xD800 <= cp <= 0xDFFF)
    ensures var e := Encode(cp); |e| == 3 && WellFormedChar(e) && Payload3(e[0], e[1], e[2]) == cp
  {
    EncodeBits3(cp);
  }

  lemma EncodeRange4(cp: bv32)
    requires 0x10000 <= cp < 0x200000
    ensures var e := Encode(cp); |e| == 4 && WellFormedChar(e) && Payload4(e[0], e[1], e[2], e[3]) == cp
  {
    EncodeBits4(cp);
    EncodePayload4(cp);
  }

  /** Every code point below 0x200000 other than a surrogate has a
      well-formed encoding, the classifier accepts it whole, and decoding it
      gives the code point back. */
  lemma EncodeThenDecode(cp: bv32)
    requires cp < 0x200000 && !(0xD800 <= cp <= 0xDFFF)
    ensures WellFormedChar(Encode(cp))
    ensures ValidateUtf8Char(Encode(cp), 0) == CharValidity(true, |Encode(cp)|)
    ensures UnicodeCodePoint(Encode(cp), Utf8Char(0, |Encode(cp)|)) == cp
  {
    var e := Encode(cp);
    if cp < 0x80 {
    } else if cp < 0x800 {
      EncodeRange2(cp);
    } else if cp < 0x10000 {
      EncodeRange3(cp);
    } else {
      EncodeRange4(cp);
    }
    WellFormedShape(e);
    assert e[0..|e|] == e;
    DecodeBytes(e, 0, |e|);
    ClassifierMatchesTable(e, 0);
  }

  /** Every character the classifier accepts decodes to a code point that is
      neither a surrogate nor encodable in fewer bytes, and it is exactly the
      encoding of that code point: the classifier admits no overlong form. */
  lemma DecodeThenEncode(buf: seq<bv8>, offset: nat)
    requires offset < |buf| && ValidateUtf8Char(buf, offset).valid
    ensures
      var k := ValidateUtf8Char(buf, offset).nextOffset - offset;
      var cp := UnicodeCodePoint(buf, Utf8Char(offset, k));
      && !(0xD800 <= cp <= 0xDFFF)
      && (k >= 2 ==> cp >= 0x80)
      && (k >= 3 ==> cp >= 0x800)
      && (k == 4 ==> cp >= 0x10000)
      && Encode(cp) == buf[offset..offset + k]
  {
    var k := ValidateUtf8Char(buf, offset).nextOffset - offset;
    ClassifierMatchesTable(buf, offset);
    DecodeBytes(buf, offset, k);
    var c := buf[offset..offset + k];
    if k == 1 {
      assert c == [c[0]];
    } else if k == 2 {
      assert c == [c[0], c[1]];
      RoundTrip2(c[0], c[1]);
    } else if k == 3 {
      assert c == [c[0], c[1], c[2]];
      RoundTrip3(c[0], c[1], c[2]);
    } else {
      assert c == [c[0], c[1], c[2], c[3]];
      RoundTrip4(c[0], c[1], c[2], c[3]);
    }
  }
}
