/** Lossy repair, make_utf8_string_lossy: copy every character the
    classifier accepts and write U+FFFD for every byte it rejects. */
module Lossy {
  import opened Utf8Types
  import opened Utf8Spec
  import opened Classifier

  /** The repaired form of s from offset on: an accepted character is kept,
      a rejected byte becomes EF BF BD and scanning resumes at the next byte.
      It is at most three times as long as what it repairs. */
  function Repaired(s: seq<bv8>, offset: nat): (r: seq<bv8>)
    requires offset <= |s|
    ensures |r| <= 3 * (|s| - offset)
    decreases |s| - offset
  {
    if offset == |s| then []
    else
      var charValidity := ValidateUtf8Char(s, offset);
      if charValidity.valid then s[offset..charValidity.nextOffset] + Repaired(s, charValidity.nextOffset)
      else Replacement + Repaired(s, offset + 1)
  }

  /** Whatever the input, the repaired string is valid UTF-8. */
  lemma {:induction false} RepairedIsValid(s: seq<bv8>, offset: nat)
    requires offset <= |s|
    ensures ValidUtf8(Repaired(s, offset))
    decreases |s| - offset
  {
    if offset < |s| {
      var charValidity := ValidateUtf8Char(s, offset);
      if charValidity.valid {
        RepairedIsValid(s, charValidity.nextOffset);
        ClassifierMatchesTable(s, offset);
        SingleCharValid(s[offset..charValidity.nextOffset]);
        ValidConcat(s[offset..charValidity.nextOffset], Repaired(s, charValidity.nextOffset));
      } else {
        RepairedIsValid(s, offset + 1);
        SingleCharValid(Replacement);
        ValidConcat(Replacement, Repaired(s, offset + 1));
      }
    }
  }

  /** One step of the repair: the piece for the character or byte at offset,
      then the repair of the rest. */
  lemma RepairedStep(s: seq<bv8>, offset: nat)
    requires offset < |s|
    ensures var charValidity := ValidateUtf8Char(s, offset);
      Repaired(s, offset) ==
        if charValidity.valid then s[offset..charValidity.nextOffset] + Repaired(s, charValidity.nextOffset)
        else Replacement + Repaired(s, offset + 1)
  {
  }

  /** Repair leaves unchanged a tail that is valid from offset on. */
  lemma {:induction false} RepairedKeepsValidFrom(s: seq<bv8>, offset: nat)
    requires Steps(s, offset, |s|)
    ensures Repaired(s, offset) == s[offset..]
    decreases |s| - offset
  {
    if offset < |s| {
      var k := LeadLen(s[offset]);
      assert offset + k <= |s| && WellFormedChar(s[offset..offset + k]) && Steps(s, offset + k, |s|);
      ClassifierMatchesTable(s, offset);
      assert ValidateUtf8Char(s, offset) == CharValidity(true, offset + k);
      RepairedKeepsValidFrom(s, offset + k);
      RepairedStep(s, offset);
      assert s[offset..offset + k] + s[offset + k..] == s[offset..];
    }
  }

  /** Repair leaves a valid string unchanged. */
  lemma RepairedKeepsValid(s: seq<bv8>)
    requires ValidUtf8(s)
    ensures Repaired(s, 0) == s
  {
    RepairedKeepsValidFrom(s, 0);
  }

  /** n copies of U+FFFD. */
  function Replacements(n: nat): seq<bv8> {
    if n == 0 then [] else Replacement + Replacements(n - 1)
  }

  /** When the classifier rejects every byte, each one turns into exactly one
      U+FFFD. */
  lemma {:induction false} RepairedAllRejected(s: seq<bv8>, offset: nat)
    requires offset <= |s|
    requires forall i :: offset <= i < |s| ==> !ValidateUtf8Char(s, i).valid
    ensures Repaired(s, offset) == Replacements(|s| - offset)
    decreases |s| - offset
  {
    if offset < |s| {
      RepairedAllRejected(s, offset + 1);
    }
  }

  /** Moving a piece from the front of what is left to repair to the end of
      what is written keeps their concatenation. */
  lemma AppendPiece(written: seq<bv8>, piece: seq<bv8>, restAfter: seq<bv8>, rest: seq<bv8>, writtenAfter: seq<bv8>)
    requires rest == piece + restAfter && writtenAfter == written + piece
    ensures writtenAfter + restAfter == written + rest
  {
  }

  /** memcpy of n bytes of s at offset into buffer at at. */
  method CopyBytes(buffer: array<bv8>, at: nat, s: seq<bv8>, offset: nat, n: nat)
    requires at + n <= buffer.Length && offset + n <= |s|
    modifies buffer
    ensures buffer[..at + n] == old(buffer[..at]) + s[offset..offset + n]
    ensures buffer[at + n..] == old(buffer[at + n..])
  {
    forall i | 0 <= i < n {
      buffer[at + i] := s[offset + i];
    }
    assert buffer[at..at + n] == s[offset..offset + n];
  }

  /** Writes EF BF BD, the encoding of U+FFFD, into buffer at at. */
  method PutReplacement(buffer: array<bv8>, at: nat)
    requires at + 3 <= buffer.Length
    modifies buffer
    ensures buffer[..at + 3] == old(buffer[..at]) + Replacement
    ensures buffer[at + 3..] == old(buffer[at + 3..])
  {
    buffer[at] := 0xEF;
    buffer[at + 1] := 0xBF;
    buffer[at + 2] := 0xBD;
  }

  /** make_utf8_string_lossy: NULL gives the NULL owned string; otherwise a
      fresh buffer sized for the worst case (three bytes per input byte plus
      the terminator) holds the repaired string followed by 0x00. */
  method MakeUtf8StringLossy(str: Option<seq<bv8>>) returns (owned: OwnedUtf8String)
    requires str.Some? ==> CString(str.value)
    ensures str.None? ==> owned == NullOwned
    ensures str.Some? ==> owned.OwnedUtf8String? && fresh(owned.str)
    ensures str.Some? ==> owned.str.Length == 3 * |str.value| + 1
    ensures str.Some? ==> owned.byteLen < owned.str.Length && owned.str[owned.byteLen] == 0
    ensures str.Some? ==> owned.str[..owned.byteLen] == Repaired(str.value, 0)
  {
    if str.None? {
      return NullOwned;
    }
    var s := str.value;
    var len := |s|;
    var buffer := new bv8[len * 3 + 1];
    var bufferOffset: nat := 0;
    var offset: nat := 0;
    while offset < len
      invariant offset <= len && buffer.Length == 3 * len + 1
      invariant bufferOffset <= 3 * offset
      invariant buffer[..bufferOffset] + Repaired(s, offset) == Repaired(s, 0)
    {
      var charValidity := ValidateUtf8Char(s, offset);
      ghost var before := buffer[..bufferOffset];
      ghost var rest := Repaired(s, offset);
      RepairedStep(s, offset);
      if charValidity.valid {
        var charLen := charValidity.nextOffset - offset;
        assert offset + charLen <= len;
        ghost var piece := s[offset..charValidity.nextOffset];
        CopyBytes(buffer, bufferOffset, s, offset, charLen);
        bufferOffset := bufferOffset + charLen;
        offset := charValidity.nextOffset;
        AppendPiece(before, piece, Repaired(s, offset), rest, buffer[..bufferOffset]);
      } else {
        PutReplacement(buffer, bufferOffset);
        bufferOffset := bufferOffset + 3;
        offset := offset + 1;
        AppendPiece(before, Replacement, Repaired(s, offset), rest, buffer[..bufferOffset]);
      }
    }
    buffer[bufferOffset] := 0;
    assert buffer[..bufferOffset] == Repaired(s, 0);
    return OwnedUtf8String(buffer, bufferOffset);
  }
}
