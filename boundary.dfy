/** The boundary predicate is_utf8_char_boundary and the boundary-checked
    byte slicing slice_utf8_string built on it. */
module Boundary {
  import opened Utf8Types
  import opened Utf8Spec

  /** is_utf8_char_boundary: the byte at offset i is not a continuation
      byte. The terminator, read at or past the end, is a boundary. */
  function IsUtf8CharBoundary(s: seq<bv8>, i: nat): (r: bool)
    ensures i >= |s| ==> r
    ensures r <==> !IsContinuation(Byte(s, i))
  {
    Byte(s, i) <= 0x7F || Byte(s, i) >= 0xC0
  }

  /** Walking whole characters from a character start j, every later
      non-continuation byte of a valid string is reached. */
  lemma {:induction false} BoundaryReachedFrom(s: seq<bv8>, j: nat, i: nat)
    requires ValidUtf8(s) && IsCharStart(s, j) && j <= i <= |s| && IsUtf8CharBoundary(s, i)
    ensures IsCharStart(s, i)
    decreases i - j
  {
    if j < i {
      CharAtBoundary(s, j);
      var k := LeadLen(s[j]);
      if i < j + k {
        WellFormedShape(s[j..j + k]);
        assert false;
      }
      BoundaryReachedFrom(s, j + k, i);
    }
  }

  /** Every non-continuation byte of a valid string starts a character. */
  lemma BoundaryIsCharStart(s: seq<bv8>, i: nat)
    requires ValidUtf8(s) && i <= |s| && IsUtf8CharBoundary(s, i)
    ensures IsCharStart(s, i)
  {
    assert s[..0] == [];
    BoundaryReachedFrom(s, 0, i);
  }

  /** In a valid string the boundary predicate holds exactly at the offsets
      reached by whole characters, the end included. */
  lemma BoundaryIffCharStart(s: seq<bv8>, i: nat)
    requires ValidUtf8(s) && i <= |s|
    ensures IsUtf8CharBoundary(s, i) <==> IsCharStart(s, i)
  {
    if IsUtf8CharBoundary(s, i) {
      BoundaryIsCharStart(s, i);
    }
    if IsCharStart(s, i) && i < |s| {
      CharAtBoundary(s, i);
      var c := s[i..i + LeadLen(s[i])];
      WellFormedShape(c);
      assert c[0] == s[i];
    }
  }

  /** slice_utf8_string: clamps the start to the view's length and the end
      (start + byteLen) to it too, and returns the bytes in between only when
      both ends are character boundaries; otherwise the NULL view. */
  function SliceUtf8String(buf: seq<bv8>, ustr: Utf8String, startByteIndex: nat, byteLen: nat): (r: Utf8String)
    requires ustr.Utf8String?
    ensures r.Utf8String? ==> ustr.start <= r.start && r.start + r.byteLen <= ustr.start + ustr.byteLen
    ensures r.Utf8String? ==> r.byteLen <= byteLen
    ensures r.Utf8String? ==> IsUtf8CharBoundary(buf, r.start) && IsUtf8CharBoundary(buf, r.start + r.byteLen)
  {
    var start := if startByteIndex > ustr.byteLen then ustr.byteLen else startByteIndex;
    var exclEnd := if start + byteLen > ustr.byteLen then ustr.byteLen else start + byteLen;
    if IsUtf8CharBoundary(buf, ustr.start + start) && IsUtf8CharBoundary(buf, ustr.start + exclEnd) then
      Utf8String(ustr.start + start, exclEnd - start)
    else
      NullString
  }

  /** Slicing a view: with the start and end clamped to the view, the slice
      exists iff both ends lie on character boundaries, and then it is the
      view of exactly the bytes in between. */
  lemma SliceOfView(buf: seq<bv8>, ustr: Utf8String, startByteIndex: nat, byteLen: nat)
    requires ViewOf(buf, ustr)
    ensures
      var start := if startByteIndex > ustr.byteLen then ustr.byteLen else startByteIndex;
      var exclEnd := if start + byteLen > ustr.byteLen then ustr.byteLen else start + byteLen;
      var r := SliceUtf8String(buf, ustr, startByteIndex, byteLen);
      && (r.Utf8String? <==> IsCharStart(buf, ustr.start + start) && IsCharStart(buf, ustr.start + exclEnd))
      && (r.Utf8String? ==> r == Utf8String(ustr.start + start, exclEnd - start))
  {
    var start := if startByteIndex > ustr.byteLen then ustr.byteLen else startByteIndex;
    var exclEnd := if start + byteLen > ustr.byteLen then ustr.byteLen else start + byteLen;
    BoundaryIffCharStart(buf, ustr.start + start);
    BoundaryIffCharStart(buf, ustr.start + exclEnd);
  }

  /** A slice of a view is a view of the same buffer, and the bytes it covers
      are valid UTF-8. */
  lemma SliceIsView(buf: seq<bv8>, ustr: Utf8String, startByteIndex: nat, byteLen: nat)
    requires ViewOf(buf, ustr)
    ensures SliceUtf8String(buf, ustr, startByteIndex, byteLen).Utf8String? ==>
      && ViewOf(buf, SliceUtf8String(buf, ustr, startByteIndex, byteLen))
      && ValidUtf8(buf[SliceUtf8String(buf, ustr, startByteIndex, byteLen).start..
                       SliceUtf8String(buf, ustr, startByteIndex, byteLen).start + SliceUtf8String(buf, ustr, startByteIndex, byteLen).byteLen])
  {
    var r := SliceUtf8String(buf, ustr, startByteIndex, byteLen);
    if r.Utf8String? {
      BoundaryIffCharStart(buf, r.start);
      BoundaryIffCharStart(buf, r.start + r.byteLen);
      ViewBytesValid(buf, r);
    }
  }

  /** Slicing a whole view from 0 gives the view back. */
  lemma SliceWholeView(buf: seq<bv8>, ustr: Utf8String)
    requires ViewOf(buf, ustr)
    ensures SliceUtf8String(buf, ustr, 0, ustr.byteLen) == ustr
  {
    BoundaryIffCharStart(buf, ustr.start);
    BoundaryIffCharStart(buf, ustr.start + ustr.byteLen);
  }

  /** A start at or past the view's length gives the empty slice at the
      view's end. */
  lemma SliceStartPastEnd(buf: seq<bv8>, ustr: Utf8String, startByteIndex: nat, byteLen: nat)
    requires ViewOf(buf, ustr) && startByteIndex >= ustr.byteLen
    ensures SliceUtf8String(buf, ustr, startByteIndex, byteLen) == Utf8String(ustr.start + ustr.byteLen, 0)
  {
    BoundaryIffCharStart(buf, ustr.start + ustr.byteLen);
  }
}
