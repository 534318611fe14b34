/** Concrete instances of the engine on the repository's own test strings,
    proved from the contracts of the model. */
module Scenarios {
  import opened Utf8Types
  import opened Utf8Spec
  import opened Classifier
  import opened Validator
  import opened Lossy
  import opened Boundary
  import opened CharIter
  import opened CodePoint

  /** "Hдこ😁": one character of each length, 1 + 2 + 3 + 4 bytes. */
  const Hdko: seq<bv8> := [0x48, 0xD0, 0xB4, 0xE3, 0x81, 0x93, 0xF0, 0x9F, 0x98, 0x81]

  /** The view make_utf8_string gives for Hdko. */
  const HdkoView: Utf8String := Utf8String(0, 10)

  /** Hdko is valid UTF-8, and its character boundaries are 0, 1, 3, 6 and
      the terminator at 10. */
  lemma HdkoIsValid()
    ensures CString(Hdko) && ValidUtf8(Hdko) && ViewOf(Hdko, HdkoView)
    ensures IsCharStart(Hdko, 1) && IsCharStart(Hdko, 3) && IsCharStart(Hdko, 6)
  {
    assert Steps(Hdko, 10, 10);
    assert Hdko[6..10] == [0xF0, 0x9F, 0x98, 0x81];
    assert Steps(Hdko, 6, 10);
    assert Hdko[3..6] == [0xE3, 0x81, 0x93];
    assert Steps(Hdko, 3, 10);
    assert Hdko[1..3] == [0xD0, 0xB4];
    assert Steps(Hdko, 1, 10);
    assert Hdko[0..1] == [0x48];
    assert Steps(Hdko, 0, 10);
    StepOne(Hdko, 0);
    StepOne(Hdko, 1);
    StepsTrans(Hdko, 0, 1, 3);
    StepOne(Hdko, 3);
    StepsTrans(Hdko, 0, 3, 6);
  }

  /** is_utf8_char_boundary over Hdko: true on the lead bytes and the
      terminator, false on every continuation byte. */
  lemma HdkoBoundaries()
    ensures forall i :: 0 <= i <= 10 ==> (IsUtf8CharBoundary(Hdko, i) <==> i in {0, 1, 3, 6, 10})
  {
  }

  /** unicode_code_point on the four characters of Hdko gives U+0048,
      U+0434, U+3053 and U+1F601. */
  lemma HdkoCodePoints()
    ensures UnicodeCodePoint(Hdko, Utf8Char(0, 1)) == 72
    ensures UnicodeCodePoint(Hdko, Utf8Char(1, 2)) == 1076
    ensures UnicodeCodePoint(Hdko, Utf8Char(3, 3)) == 12371
    ensures UnicodeCodePoint(Hdko, Utf8Char(6, 4)) == 128513
  {
  }

  /** The characters of Hdko in order. */
  lemma HdkoChars()
    ensures CharsFrom(Hdko, 0) == [Utf8Char(0, 1), Utf8Char(1, 2), Utf8Char(3, 3), Utf8Char(6, 4)]
    ensures CharsFrom(Hdko, 1) == [Utf8Char(1, 2), Utf8Char(3, 3), Utf8Char(6, 4)]
    ensures CharsFrom(Hdko, 3) == [Utf8Char(3, 3), Utf8Char(6, 4)]
    ensures CharsFrom(Hdko, 6) == [Utf8Char(6, 4)]
  {
    assert CharsFrom(Hdko, 10) == [];
    assert CharsFrom(Hdko, 6) == [Utf8Char(6, 4)];
    assert CharsFrom(Hdko, 3) == [Utf8Char(3, 3), Utf8Char(6, 4)];
    assert CharsFrom(Hdko, 1) == [Utf8Char(1, 2), Utf8Char(3, 3), Utf8Char(6, 4)];
  }

  /** Iterating Hdko yields its four characters, then the zero-length
      character at the terminator on every further call. */
  method IterateHdko() returns (chars: seq<Utf8Char>)
    ensures chars == [Utf8Char(0, 1), Utf8Char(1, 2), Utf8Char(3, 3), Utf8Char(6, 4), Utf8Char(10, 0), Utf8Char(10, 0)]
  {
    HdkoIsValid();
    HdkoChars();
    var iter := new Utf8CharIter(Hdko, HdkoView);
    var c0 := iter.Next();
    assert c0 == Utf8Char(0, 1) && iter.str == 1;
    var c1 := iter.Next();
    assert c1 == Utf8Char(1, 2) && iter.str == 3;
    var c2 := iter.Next();
    assert c2 == Utf8Char(3, 3) && iter.str == 6;
    var c3 := iter.Next();
    assert c3 == Utf8Char(6, 4) && iter.str == 10;
    var c4 := iter.Next();
    var c5 := iter.Next();
    chars := [c0, c1, c2, c3, c4, c5];
  }

  /** nth_utf8_char and utf8_char_count on Hdko, on an index past the end,
      and on the empty string. */
  method CountAndIndex() returns (count: nat, last: Utf8Char, past: Utf8Char, emptyCount: nat, emptyFirst: Utf8Char)
    ensures count == 4 && last == Utf8Char(6, 4) && past == NullChar
    ensures emptyCount == 0 && emptyFirst == NullChar
  {
    HdkoIsValid();
    HdkoChars();
    count := Utf8CharCount(Hdko, HdkoView);
    last := NthUtf8Char(Hdko, HdkoView, 3);
    past := NthUtf8Char(Hdko, HdkoView, 100);
    var empty := MakeUtf8String(Some([]));
    emptyCount := Utf8CharCount([], empty);
    emptyFirst := NthUtf8Char([], empty, 0);
  }

  /** slice_utf8_string on Hdko: "д" alone; a start or an end inside a
      character gives the NULL view; a start past the end gives the empty
      view at the terminator. */
  lemma HdkoSlices()
    ensures SliceUtf8String(Hdko, HdkoView, 1, 2) == Utf8String(1, 2)
    ensures SliceUtf8String(Hdko, HdkoView, 2, 3) == NullString
    ensures SliceUtf8String(Hdko, HdkoView, 1, 1) == NullString
    ensures SliceUtf8String(Hdko, HdkoView, 1000, 1) == Utf8String(10, 0)
    ensures SliceUtf8String(Hdko, HdkoView, 1, 1000) == Utf8String(1, 9)
  {
  }

  /** A run of ASCII bytes is stepped over one byte at a time. */
  lemma {:induction false} AsciiSteps(s: seq<bv8>, j: nat, i: nat)
    requires j <= i <= |s|
    requires forall x :: j <= x < i ==> s[x] <= 0x7F
    ensures Steps(s, j, i)
    decreases i - j
  {
    if j < i {
      assert s[j..j + 1] == [s[j]];
      AsciiSteps(s, j + 1, i);
    }
  }

  /** "hello world". */
  const HelloWorld: seq<bv8> := [0x68, 0x65, 0x6C, 0x6C, 0x6F, 0x20, 0x77, 0x6F, 0x72, 0x6C, 0x64]

  /** "hello" followed by the two invalid bytes C0 C0. */
  const HelloBroken: seq<bv8> := [0x68, 0x65, 0x6C, 0x6C, 0x6F, 0xC0, 0xC0]

  /** In "hello" C0 C0 the valid prefix is "hello": offset 5 is a character
      boundary the classifier rejects, and offset 6 is no boundary. */
  lemma HelloBrokenPrefix()
    ensures IsCharStart(HelloBroken, 5) && ValidUtf8(HelloBroken[..5])
    ensures !ValidateUtf8Char(HelloBroken, 5).valid
    ensures !ValidUtf8(HelloBroken) && !IsCharStart(HelloBroken, 6)
  {
    var b := HelloBroken;
    AsciiSteps(b, 0, 5);
    CharStartIffValidPrefix(b, 5);
    assert !ValidateUtf8Char(b, 5).valid;
    RejectedCharEndsLongestPrefix(b, 5);
    assert b[..7] == b;
    if IsCharStart(b, 6) {
      CharBetweenBoundaries(b, 5, 6);
      assert false;
    }
  }

  /** The documented validate_utf8 example "hello world": valid up to its
      length 11. */
  method ValidateHelloWorld() returns (v: Utf8Validity)
    ensures v == Utf8Validity(true, 11)
  {
    AsciiSteps(HelloWorld, 0, 11);
    v := ValidateUtf8(Some(HelloWorld));
  }

  /** The documented validate_utf8 example "hello" C0 C0: valid up to 5. */
  method ValidateHelloBroken() returns (v: Utf8Validity)
    ensures v == Utf8Validity(false, 5)
  {
    HelloBrokenPrefix();
    v := ValidateUtf8(Some(HelloBroken));
    assert v.validUpto >= 5 by {
      if v.validUpto < 5 {
        assert false;
      }
    }
  }

  /** validate_utf8 on the repository's boundary, surrogate and overlong
      cases: the largest four-byte form F7 BF BF BF is accepted; ED A0 80
      (U+D800), C1 88 (an overlong "H") and E0 9F BF are rejected at 0. */
  method ValidateExamples() returns (top: Utf8Validity, surrogate: Utf8Validity, overlong2: Utf8Validity,
                                     overlong3: Utf8Validity)
    ensures top == Utf8Validity(true, 4)
    ensures surrogate == Utf8Validity(false, 0)
    ensures overlong2 == Utf8Validity(false, 0)
    ensures overlong3 == Utf8Validity(false, 0)
  {
    var s := [0xF7, 0xBF, 0xBF, 0xBF];
    assert ValidateUtf8Char(s, 0).valid;
    assert s[0..4] == s;
    top := ValidateUtf8(Some(s));
    surrogate := ValidateUtf8(Some([0xED, 0xA0, 0x80]));
    overlong2 := ValidateUtf8(Some([0xC1, 0x88]));
    overlong3 := ValidateUtf8(Some([0xE0, 0x9F, 0xBF]));
  }

  /** make_utf8_string_lossy on valid bytes mixed with rejected ones: each
      rejected byte becomes one U+FFFD and scanning resumes at the next byte,
      so C0 "H" C0 "e" becomes U+FFFD "H" U+FFFD "e", and the truncated
      character E3 81 before "A" becomes two U+FFFD before "A". */
  method LossyMixed() returns (mixed: OwnedUtf8String, truncated: OwnedUtf8String)
    ensures mixed.OwnedUtf8String? && mixed.byteLen < mixed.str.Length
    ensures mixed.str[..mixed.byteLen] == Replacement + [0x48] + Replacement + [0x65]
    ensures truncated.OwnedUtf8String? && truncated.byteLen < truncated.str.Length
    ensures truncated.str[..truncated.byteLen] == Replacement + Replacement + [0x41]
  {
    var m: seq<bv8> := [0xC0, 0x48, 0xC0, 0x65];
    assert Repaired(m, 4) == [];
    assert Repaired(m, 3) == [0x65];
    assert Repaired(m, 2) == Replacement + [0x65];
    assert Repaired(m, 1) == [0x48] + Replacement + [0x65];
    assert Repaired(m, 0) == Replacement + [0x48] + Replacement + [0x65];
    mixed := MakeUtf8StringLossy(Some(m));
    var c: seq<bv8> := [0xE3, 0x81, 0x41];
    assert Repaired(c, 3) == [];
    assert Repaired(c, 2) == [0x41];
    assert Repaired(c, 1) == Replacement + [0x41];
    assert Repaired(c, 0) == Replacement + Replacement + [0x41];
    truncated := MakeUtf8StringLossy(Some(c));
  }

  /** make_utf8_string_lossy on C0 C0 C0 C0: four U+FFFD, twelve bytes. */
  method LossyAllInvalid() returns (owned: OwnedUtf8String)
    ensures owned.OwnedUtf8String? && owned.byteLen == 12 && owned.byteLen < owned.str.Length
    ensures owned.str[..owned.byteLen] == Replacement + Replacement + Replacement + Replacement
  {
    var s: seq<bv8> := [0xC0, 0xC0, 0xC0, 0xC0];
    RepairedAllRejected(s, 0);
    owned := MakeUtf8StringLossy(Some(s));
    assert Replacements(4) == Replacement + Replacement + Replacement + Replacement;
  }

  /** The slice "д" of Hdko, as slice_utf8_string gives it. */
  const SliceD: Utf8String := Utf8String(1, 2)

  /** The slice "д" is a view of Hdko holding one character, while the
      characters from its start to the terminator of Hdko are three. */
  lemma SliceDChars()
    ensures ViewOf(Hdko, SliceD)
    ensures CharsFrom(Hdko, 1) == [Utf8Char(1, 2), Utf8Char(3, 3), Utf8Char(6, 4)]
    ensures CharsFrom(Hdko[..3], 1) == [Utf8Char(1, 2)]
  {
    HdkoIsValid();
    HdkoChars();
    var cut := Hdko[..3];
    assert CharsFrom(cut, 3) == [];
  }

  /** utf8_char_count and nth_utf8_char as written, on the slice "д": the
      cursor runs on past the slice's end to the terminator of Hdko, so the
      count is 3 and index 1 gives "こ", which lies outside the slice. */
  method SliceCountAsWritten() returns (count: nat, second: Utf8Char)
    ensures count == 3 && second == Utf8Char(3, 3)
    ensures second.start >= SliceD.start + SliceD.byteLen
  {
    SliceDChars();
    count := Utf8CharCount(Hdko, SliceD);
    second := NthUtf8Char(Hdko, SliceD, 1);
  }

  /** The same calls bounded by the view: one character, and no character
      at index 1. */
  method SliceCountInView() returns (count: nat, second: Utf8Char)
    ensures count == 1 && second == NullChar
  {
    SliceDChars();
    count := Utf8CharCountInView(Hdko, SliceD);
    second := NthUtf8CharInView(Hdko, SliceD, 1);
  }
}
