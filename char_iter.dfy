/** The forward character iterator (make_utf8_char_iter, next_utf8_char)
    and the indexed access and counting built on it (nth_utf8_char,
    utf8_char_count). */
module CharIter {
  import opened Utf8Types
  import opened Utf8Spec
  import opened Boundary

  /** The characters of buf from offset pos up to the terminator, in order,
      each as long as its lead byte announces. */
  function CharsFrom(buf: seq<bv8>, pos: nat): (r: seq<Utf8Char>)
    ensures forall j :: 0 <= j < |r| ==> r[j].Utf8Char? && pos <= r[j].start && 1 <= r[j].byteLen <= 4
    decreases |buf| - pos
  {
    if pos >= |buf| then []
    else [Utf8Char(pos, LeadLen(buf[pos]))] + CharsFrom(buf, pos + LeadLen(buf[pos]))
  }

  /** The j-th character the iteration yields lies before the terminator
      and is as long as its lead byte announces. */
  lemma {:induction false} CharsFromElementShape(buf: seq<bv8>, pos: nat, j: nat)
    requires j < |CharsFrom(buf, pos)|
    ensures CharsFrom(buf, pos)[j].start < |buf|
    ensures CharsFrom(buf, pos)[j].byteLen == LeadLen(buf[CharsFrom(buf, pos)[j].start])
    decreases j
  {
    var k := LeadLen(buf[pos]);
    if j > 0 {
      assert CharsFrom(buf, pos)[j] == CharsFrom(buf, pos + k)[j - 1];
      CharsFromElementShape(buf, pos + k, j - 1);
    }
  }

  /** Past the first, the characters from pos are those from the end of the
      first one. */
  lemma CharsFromTail(buf: seq<bv8>, pos: nat, j: nat)
    requires 0 < j < |CharsFrom(buf, pos)|
    ensures pos < |buf|
    ensures CharsFrom(buf, pos)[j] == CharsFrom(buf, pos + LeadLen(buf[pos]))[j - 1]
  {
  }

  /** From a boundary of a valid string, the j-th character the iteration
      yields starts on a boundary. */
  lemma {:induction false} CharsFromElementStart(buf: seq<bv8>, pos: nat, j: nat)
    requires ValidUtf8(buf) && IsCharStart(buf, pos) && j < |CharsFrom(buf, pos)|
    ensures IsCharStart(buf, CharsFrom(buf, pos)[j].start)
    decreases j
  {
    if j > 0 {
      var k := LeadLen(buf[pos]);
      assert IsCharStart(buf, pos + k) by {
        CharAtBoundary(buf, pos);
      }
      CharsFromTail(buf, pos, j);
      CharsFromElementStart(buf, pos + k, j - 1);
    }
  }

  /** Hence every character the iteration yields is one. */
  lemma CharsFromAreChars(buf: seq<bv8>, pos: nat)
    requires ValidUtf8(buf) && IsCharStart(buf, pos)
    ensures forall c :: c in CharsFrom(buf, pos) ==>
        && IsCharStart(buf, c.start)
        && c.start + c.byteLen <= |buf|
        && WellFormedChar(buf[c.start..c.start + c.byteLen])
  {
    forall c | c in CharsFrom(buf, pos)
      ensures IsCharStart(buf, c.start) && c.start + c.byteLen <= |buf|
      ensures WellFormedChar(buf[c.start..c.start + c.byteLen])
    {
      var j :| 0 <= j < |CharsFrom(buf, pos)| && CharsFrom(buf, pos)[j] == c;
      CharsFromElementShape(buf, pos, j);
      CharsFromElementStart(buf, pos, j);
      CharAtBoundary(buf, c.start);
    }
  }

  /** The characters the iteration yields are consecutive: the first starts
      at pos and each starts where the previous one ends. */
  lemma {:induction false} CharsFromContiguous(buf: seq<bv8>, pos: nat)
    ensures pos < |buf| ==> CharsFrom(buf, pos)[0] == Utf8Char(pos, LeadLen(buf[pos]))
    ensures forall j :: 0 <= j < |CharsFrom(buf, pos)| - 1 ==>
      CharsFrom(buf, pos)[j + 1].start == CharsFrom(buf, pos)[j].start + CharsFrom(buf, pos)[j].byteLen
    decreases |buf| - pos
  {
    if pos < |buf| {
      var k := LeadLen(buf[pos]);
      CharsFromContiguous(buf, pos + k);
      var rest := CharsFrom(buf, pos + k);
      var cs := CharsFrom(buf, pos);
      assert cs == [Utf8Char(pos, k)] + rest;
      forall j | 0 <= j < |cs| - 1
        ensures cs[j + 1].start == cs[j].start + cs[j].byteLen
      {
        assert cs[j + 1] == rest[j];
        if j > 0 {
          assert cs[j] == rest[j - 1];
        }
      }
    }
  }

  /** In a valid string the last character the iteration yields ends
      exactly at the terminator. */
  lemma {:induction false} CharsFromEndAtTerminator(buf: seq<bv8>, pos: nat)
    requires ValidUtf8(buf) && IsCharStart(buf, pos) && pos < |buf|
    ensures var last := CharsFrom(buf, pos)[|CharsFrom(buf, pos)| - 1];
      last.start + last.byteLen == |buf|
    decreases |buf| - pos
  {
    var k := LeadLen(buf[pos]);
    assert pos + k <= |buf| && IsCharStart(buf, pos + k) by {
      CharAtBoundary(buf, pos);
    }
    var rest := CharsFrom(buf, pos + k);
    var cs := CharsFrom(buf, pos);
    assert cs == [Utf8Char(pos, k)] + rest;
    if pos + k < |buf| {
      CharsFromEndAtTerminator(buf, pos + k);
      assert cs[|cs| - 1] == rest[|rest| - 1];
    }
  }

  /** The number of offsets in [lo, |buf|) at which the boundary predicate
      holds. */
  function BoundaryCount(buf: seq<bv8>, lo: nat): nat
    decreases |buf| - lo
  {
    if lo >= |buf| then 0
    else (if IsUtf8CharBoundary(buf, lo) then 1 else 0) + BoundaryCount(buf, lo + 1)
  }

  /** Skipping offsets that are not boundaries does not change the count. */
  lemma {:induction false} BoundaryCountSkip(buf: seq<bv8>, lo: nat, hi: nat)
    requires lo <= hi <= |buf|
    requires forall i :: lo <= i < hi ==> !IsUtf8CharBoundary(buf, i)
    ensures BoundaryCount(buf, lo) == BoundaryCount(buf, hi)
    decreases hi - lo
  {
    if lo < hi {
      BoundaryCountSkip(buf, lo + 1, hi);
    }
  }

  /** From a boundary of a valid string there are exactly as many characters
      as boundary offsets before the end. */
  lemma {:induction false} CharCountIsBoundaryCount(buf: seq<bv8>, pos: nat)
    requires ValidUtf8(buf) && IsCharStart(buf, pos)
    ensures |CharsFrom(buf, pos)| == BoundaryCount(buf, pos)
    decreases |buf| - pos
  {
    if pos < |buf| {
      var k := LeadLen(buf[pos]);
      CharAtBoundary(buf, pos);
      var c := buf[pos..pos + k];
      WellFormedShape(c);
      assert forall i :: pos + 1 <= i < pos + k ==> c[i - pos] == buf[i];
      BoundaryIffCharStart(buf, pos);
      BoundaryCountSkip(buf, pos + 1, pos + k);
      CharCountIsBoundaryCount(buf, pos + k);
    }
  }

  /** At a boundary before the terminator of a valid string, the next
      character is the lead byte and the continuation bytes after it, and
      the offset after it is a boundary again. */
  lemma CharAtCursor(buf: seq<bv8>, pos: nat)
    requires ValidUtf8(buf) && IsCharStart(buf, pos) && pos < |buf|
    ensures 1 <= LeadLen(buf[pos]) <= 4 && pos + LeadLen(buf[pos]) <= |buf|
    ensures WellFormedChar(buf[pos..pos + LeadLen(buf[pos])])
    ensures IsCharStart(buf, pos + LeadLen(buf[pos]))
    ensures forall i :: pos < i < pos + LeadLen(buf[pos]) ==> !IsUtf8CharBoundary(buf, i)
    ensures IsUtf8CharBoundary(buf, pos + LeadLen(buf[pos]))
    ensures CharsFrom(buf, pos) == [Utf8Char(pos, LeadLen(buf[pos]))] + CharsFrom(buf, pos + LeadLen(buf[pos]))
  {
    var k := LeadLen(buf[pos]);
    CharAtBoundary(buf, pos);
    var c := buf[pos..pos + k];
    WellFormedShape(c);
    assert forall i :: pos < i < pos + k ==> buf[i] == c[i - pos];
    BoundaryIffCharStart(buf, pos + k);
  }

  /** utf8_char_iter: a cursor over the bytes of buf; str is the offset of
      the next character, or of the terminator once exhausted. */
  class Utf8CharIter {
    const buf: seq<bv8>
    var str: nat

    /** The cursor sits on a character boundary of a valid C string. */
    ghost predicate Valid()
      reads this
    {
      CString(buf) && ValidUtf8(buf) && IsCharStart(buf, str)
    }

    /** make_utf8_char_iter: a cursor at the start of the view. */
    constructor (buf: seq<bv8>, ustr: Utf8String)
      requires ustr.Utf8String?
      ensures this.buf == buf && str == ustr.start
      ensures ViewOf(buf, ustr) ==> Valid()
    {
      this.buf := buf;
      str := ustr.start;
    }

    /** next_utf8_char: at the terminator, the zero-length character there
        and no move, as often as it is called; otherwise the character at the
        cursor, found by stepping to the next boundary, with the cursor moved
        past it. */
    method Next() returns (ch: Utf8Char)
      requires Valid()
      modifies this
      ensures Valid() && ch.Utf8Char?
      ensures old(str) == |buf| ==> ch == Utf8Char(str, 0) && str == old(str)
      ensures old(str) < |buf| ==>
        && old(str) < str
        && ch == Utf8Char(old(str), str - old(str))
        && 1 <= ch.byteLen <= 4
        && WellFormedChar(buf[old(str)..str])
        && CharsFrom(buf, old(str)) == [ch] + CharsFrom(buf, str)
    {
      if Byte(buf, str) == 0 {
        return Utf8Char(str, 0);
      }
      var currBoundary := str;
      ghost var k := LeadLen(buf[currBoundary]);
      CharAtCursor(buf, currBoundary);
      str := str + 1;
      var byteLen := 1;
      while !IsUtf8CharBoundary(buf, str)
        invariant currBoundary < str <= currBoundary + k
        invariant byteLen == str - currBoundary
        decreases currBoundary + k - str
      {
        str := str + 1;
        byteLen := byteLen + 1;
      }
      assert str == currBoundary + k;
      return Utf8Char(currBoundary, byteLen);
    }
  }

  /** Taking one character off the front of a suffix of all leaves the next
      suffix. */
  lemma DropOne(all: seq<Utf8Char>, m: nat, ch: Utf8Char, rest: seq<Utf8Char>)
    requires m <= |all| && all[m..] == [ch] + rest
    ensures m < |all| && all[m] == ch && rest == all[m + 1..]
  {
    assert all[m..][0] == ch;
    assert all[m..][1..] == all[m + 1..];
  }

  /** nth_utf8_char: the zero-based charIndex-th character from the start of
      the view, or the NULL character when there are not that many. */
  method NthUtf8Char(buf: seq<bv8>, ustr: Utf8String, charIndex: nat) returns (ch: Utf8Char)
    requires ViewOf(buf, ustr)
    ensures ch == if charIndex < |CharsFrom(buf, ustr.start)| then CharsFrom(buf, ustr.start)[charIndex] else NullChar
  {
    ghost var all := CharsFrom(buf, ustr.start);
    var iter := new Utf8CharIter(buf, ustr);
    var index: nat := charIndex;
    ch := iter.Next();
    if ch.byteLen != 0 {
      DropOne(all, 0, ch, CharsFrom(buf, iter.str));
    }
    while ch.byteLen != 0 && index != 0
      invariant iter.Valid() && iter.buf == buf && ch.Utf8Char?
      invariant index <= charIndex
      invariant ch.byteLen != 0 ==>
        charIndex - index < |all| && ch == all[charIndex - index] &&
        CharsFrom(buf, iter.str) == all[charIndex - index + 1..]
      invariant ch.byteLen == 0 ==> charIndex - index == |all|
      decreases index
    {
      index := index - 1;
      ch := iter.Next();
      if ch.byteLen != 0 {
        DropOne(all, charIndex - index, ch, CharsFrom(buf, iter.str));
      }
    }
    if ch.byteLen == 0 {
      return NullChar;
    }
    return ch;
  }

  /** utf8_char_count: drains a fresh cursor and counts the characters it
      returns before the zero-length one. */
  method Utf8CharCount(buf: seq<bv8>, ustr: Utf8String) returns (count: nat)
    requires ViewOf(buf, ustr)
    ensures count == |CharsFrom(buf, ustr.start)|
  {
    ghost var all := CharsFrom(buf, ustr.start);
    var iter := new Utf8CharIter(buf, ustr);
    count := 0;
    var ch := iter.Next();
    while ch.byteLen > 0
      invariant iter.Valid() && iter.buf == buf && ch.Utf8Char?
      invariant ch.byteLen > 0 ==> count + 1 + |CharsFrom(buf, iter.str)| == |all|
      invariant ch.byteLen == 0 ==> count == |all|
      decreases |buf| - iter.str + (if ch.byteLen > 0 then 1 else 0)
    {
      count := count + 1;
      ch := iter.Next();
    }
  }

  /** Counting only the characters of the view: the cursor runs over the
      view's bytes alone, with the view's end as terminator. It counts the
      character boundaries inside the view. */
  method Utf8CharCountInView(buf: seq<bv8>, ustr: Utf8String) returns (count: nat)
    requires ViewOf(buf, ustr)
    ensures ustr.start + ustr.byteLen <= |buf|
    ensures count == |CharsFrom(buf[..ustr.start + ustr.byteLen], ustr.start)|
    ensures count == BoundaryCount(buf[..ustr.start + ustr.byteLen], ustr.start)
  {
    ViewCutAtEnd(buf, ustr);
    var cut := buf[..ustr.start + ustr.byteLen];
    count := Utf8CharCount(cut, ustr);
    CharCountIsBoundaryCount(cut, ustr.start);
  }

  /** Indexing only the characters of the view: the charIndex-th character
      of the view, which lies inside it, or the NULL character when the view
      has fewer characters. */
  method NthUtf8CharInView(buf: seq<bv8>, ustr: Utf8String, charIndex: nat) returns (ch: Utf8Char)
    requires ViewOf(buf, ustr)
    ensures ustr.start + ustr.byteLen <= |buf|
    ensures var cs := CharsFrom(buf[..ustr.start + ustr.byteLen], ustr.start);
      ch == if charIndex < |cs| then cs[charIndex] else NullChar
    ensures ch.Utf8Char? ==> ustr.start <= ch.start && ch.start + ch.byteLen <= ustr.start + ustr.byteLen
  {
    ViewCutAtEnd(buf, ustr);
    var cut := buf[..ustr.start + ustr.byteLen];
    ch := NthUtf8Char(cut, ustr, charIndex);
    if ch.Utf8Char? {
      CharsFromAreChars(cut, ustr.start);
      assert ch in CharsFrom(cut, ustr.start);
    }
  }
}
