/** The per-character classifier, validate_utf8_char: does a well-formed
    character start at a given offset, and where does it end? */
module Classifier {
  import opened Utf8Types
  import opened Utf8Spec

  /** utf8_char_validity: the verdict for one character and the offset just
      after it (the offset itself when invalid). */
  datatype CharValidity = CharValidity(valid: bool, nextOffset: nat)

  /** Classifies the character starting at offset by its lead byte and up to
      three continuation bytes, rejecting overlong forms and UTF-16
      surrogates. A failure consumes nothing. */
  function ValidateUtf8Char(s: seq<bv8>, offset: nat): (r: CharValidity)
    ensures !r.valid ==> r.nextOffset == offset
    ensures r.valid ==> offset + 1 <= r.nextOffset <= offset + 4
    ensures r.valid ==> forall i :: offset < i < r.nextOffset ==> IsContinuation(Byte(s, i))
    ensures r.valid && offset < |s| ==> r.nextOffset <= |s|
  {
    var b0, b1, b2, b3 := Byte(s, offset), Byte(s, offset + 1), Byte(s, offset + 2), Byte(s, offset + 3);
    // 0xxxxxxx
    if b0 & 0x80 == 0x00 then CharValidity(true, offset + 1)
    // 110xxxxx 10xxxxxx
    else if b0 & 0xE0 == 0xC0 && b1 & 0xC0 == 0x80 then
      // overlong: the payload fits in 7 bits
      if b0 & 0x1F < 0x02 then CharValidity(false, offset)
      else CharValidity(true, offset + 2)
    // 1110xxxx 10xxxxxx 10xxxxxx
    else if b0 & 0xF0 == 0xE0 && b1 & 0xC0 == 0x80 && b2 & 0xC0 == 0x80 then
      // overlong: the payload fits in 11 bits
      if b0 & 0x0F == 0x00 && b1 & 0x3F < 0x20 then CharValidity(false, offset)
      // UTF-16 surrogates U+D800..U+DFFF: ED A0..BF xx
      else if b0 == 0xED && b1 >= 0xA0 && b1 <= 0xBF then CharValidity(false, offset)
      else CharValidity(true, offset + 3)
    // 11110xxx 10xxxxxx 10xxxxxx 10xxxxxx
    else if b0 & 0xF8 == 0xF0 && b1 & 0xC0 == 0x80 && b2 & 0xC0 == 0x80 && b3 & 0xC0 == 0x80 then
      // overlong: the payload fits in 16 bits
      if b0 & 0x07 == 0x00 && b1 & 0x3F < 0x10 then CharValidity(false, offset)
      else CharValidity(true, offset + 4)
    else CharValidity(false, offset)
  }

  /** The classifier accepts exactly the well-formed characters of the
      reference table: at an offset inside s it succeeds iff a well-formed
      character as long as the lead byte announces starts there, and then it
      steps over exactly that character. */
  lemma ClassifierMatchesTable(s: seq<bv8>, offset: nat)
    requires offset < |s|
    ensures var k := LeadLen(s[offset]);
      ValidateUtf8Char(s, offset).valid <==>
        (offset + k <= |s| && WellFormedChar(s[offset..offset + k]))
    ensures ValidateUtf8Char(s, offset).valid ==>
      ValidateUtf8Char(s, offset).nextOffset == offset + LeadLen(s[offset])
  {
    var k := LeadLen(s[offset]);
    var r := ValidateUtf8Char(s, offset);
    if offset + k <= |s| {
      var c := s[offset..offset + k];
      assert c[0] == Byte(s, offset);
      if k == 2 {
        assert c[1] == Byte(s, offset + 1);
      } else if k == 3 {
        assert c[1] == Byte(s, offset + 1) && c[2] == Byte(s, offset + 2);
      } else if k == 4 {
        assert c[1] == Byte(s, offset + 1) && c[2] == Byte(s, offset + 2) && c[3] == Byte(s, offset + 3);
      }
    } else {
      // the character would run into the terminator, which is no
      // continuation byte
      assert Byte(s, |s|) == 0;
      assert !r.valid;
    }
  }

  /** Overlong forms are rejected: C0 and C1 never lead, E0 needs a second
      byte of at least A0 and F0 one of at least 90. */
  lemma RejectsOverlong(s: seq<bv8>, offset: nat)
    requires
      || Byte(s, offset) == 0xC0 || Byte(s, offset) == 0xC1
      || (Byte(s, offset) == 0xE0 && Byte(s, offset + 1) < 0xA0)
      || (Byte(s, offset) == 0xF0 && Byte(s, offset + 1) < 0x90)
    ensures ValidateUtf8Char(s, offset) == CharValidity(false, offset)
  {
  }

  /** Every three-byte sequence ED A0..BF xx (a UTF-16 surrogate) is
      rejected. */
  lemma RejectsSurrogates(s: seq<bv8>, offset: nat)
    requires Byte(s, offset) == 0xED && 0xA0 <= Byte(s, offset + 1) <= 0xBF
    ensures ValidateUtf8Char(s, offset) == CharValidity(false, offset)
  {
  }
}
