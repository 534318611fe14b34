/** The whole-string validator validate_utf8 and the strict view
    constructor make_utf8_string built on it. */
module Validator {
  import opened Utf8Types
  import opened Utf8Spec
  import opened Classifier

  /** A step of the scan: a character the classifier accepts at a character
      boundary ends at the next boundary. */
  lemma AcceptedCharExtendsPrefix(s: seq<bv8>, offset: nat)
    requires offset < |s| && IsCharStart(s, offset)
    requires ValidateUtf8Char(s, offset).valid
    ensures IsCharStart(s, ValidateUtf8Char(s, offset).nextOffset)
  {
    ClassifierMatchesTable(s, offset);
    StepOne(s, offset);
    StepsTrans(s, 0, offset, offset + LeadLen(s[offset]));
  }

  /** Where the classifier fails at a boundary, no longer prefix is valid:
      the prefix before it is the longest valid one. */
  lemma RejectedCharEndsLongestPrefix(s: seq<bv8>, offset: nat)
    requires offset < |s| && IsCharStart(s, offset)
    requires !ValidateUtf8Char(s, offset).valid
    ensures forall p :: offset < p <= |s| ==> !ValidUtf8(s[..p])
  {
    ClassifierMatchesTable(s, offset);
    forall p | offset < p <= |s|
      ensures !ValidUtf8(s[..p])
    {
      CharStartIffValidPrefix(s, p);
      if IsCharStart(s, p) {
        CharBetweenBoundaries(s, offset, p);
        assert false;
      }
    }
  }

  /** validate_utf8: scans whole characters from offset 0 until the
      terminator or the first byte the classifier rejects. A NULL string is
      invalid with nothing valid. Otherwise valid_upto is the length of the
      longest valid prefix: the whole string when it is valid, else the
      offset of the first character the classifier rejects. */
  method ValidateUtf8(str: Option<seq<bv8>>) returns (v: Utf8Validity)
    requires str.Some? ==> CString(str.value)
    ensures str.None? ==> v == Utf8Validity(false, 0)
    ensures str.Some? ==> v.valid == ValidUtf8(str.value)
    ensures str.Some? ==> IsCharStart(str.value, v.validUpto)
    ensures str.Some? && v.valid ==> v.validUpto == |str.value|
    ensures str.Some? && !v.valid ==>
      v.validUpto < |str.value| && !ValidateUtf8Char(str.value, v.validUpto).valid
    ensures str.Some? ==> forall p :: v.validUpto < p <= |str.value| ==> !ValidUtf8(str.value[..p])
  {
    if str.None? {
      return Utf8Validity(false, 0);
    }
    var s := str.value;
    var offset: nat := 0;
    while Byte(s, offset) != 0
      invariant offset <= |s|
      invariant IsCharStart(s, offset)
      decreases |s| - offset
    {
      var charValidity := ValidateUtf8Char(s, offset);
      if charValidity.valid {
        AcceptedCharExtendsPrefix(s, offset);
        offset := charValidity.nextOffset;
      } else {
        RejectedCharEndsLongestPrefix(s, offset);
        assert s[..|s|] == s;
        return Utf8Validity(false, offset);
      }
    }
    assert offset == |s|;
    return Utf8Validity(true, offset);
  }

  /** make_utf8_string: all or nothing. A valid string is wrapped whole as a
      view; NULL or any invalid string gives the NULL view. */
  method MakeUtf8String(str: Option<seq<bv8>>) returns (u: Utf8String)
    requires str.Some? ==> CString(str.value)
    ensures str.None? ==> u == NullString
    ensures str.Some? ==>
      u == if ValidUtf8(str.value) then Utf8String(0, |str.value|) else NullString
    ensures u.Utf8String? ==> str.Some? && ViewOf(str.value, u)
  {
    var validity := ValidateUtf8(str);
    if validity.valid {
      return Utf8String(0, validity.validUpto);
    }
    return NullString;
  }
}
