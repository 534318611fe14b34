/** What "valid UTF-8" means, defined independently of the byte classifier:
    the well-formed byte sequences of section 4 of RFC 3629, except that the
    four-byte rows are widened to every lead F1..F7 with any continuation
    bytes, as the engine accepts them (it puts no upper bound of U+10FFFF on
    code points). */
module Utf8Spec {
  import opened Utf8Types

  /** A continuation byte, 10xxxxxx. */
  predicate IsContinuation(b: bv8) {
    0x80 <= b <= 0xBF
  }

  /** The number of bytes a character starting with lead byte b spans.
      Bytes that cannot lead a character are given a length too; no
      well-formed character starts with them. */
  function LeadLen(b: bv8): nat {
    if b < 0x80 then 1 else if b < 0xE0 then 2 else if b < 0xF0 then 3 else 4
  }

  /** c is exactly one well-formed character (RFC 3629 section 4 rows). */
  predicate WellFormedChar(c: seq<bv8>) {
    || (|c| == 1 && c[0] <= 0x7F)
    || (|c| == 2 && 0xC2 <= c[0] <= 0xDF && IsContinuation(c[1]))
    || (|c| == 3 && IsContinuation(c[2]) &&
        (|| (c[0] == 0xE0 && 0xA0 <= c[1] <= 0xBF)
         || (0xE1 <= c[0] <= 0xEC && IsContinuation(c[1]))
         || (c[0] == 0xED && 0x80 <= c[1] <= 0x9F)
         || (0xEE <= c[0] <= 0xEF && IsContinuation(c[1]))))
    || (|c| == 4 && IsContinuation(c[2]) && IsContinuation(c[3]) &&
        (|| (c[0] == 0xF0 && 0x90 <= c[1] <= 0xBF)
         || (0xF1 <= c[0] <= 0xF7 && IsContinuation(c[1]))))
  }

  /** Stepping from offset j of s over whole well-formed characters, each as
      long as its lead byte announces, lands exactly on offset i. */
  predicate Steps(s: seq<bv8>, j: nat, i: nat)
    decreases i - j
  {
    && i <= |s|
    && (|| j == i
        || (&& j < i
            && j + LeadLen(s[j]) <= i
            && WellFormedChar(s[j..j + LeadLen(s[j])])
            && Steps(s, j + LeadLen(s[j]), i)))
  }

  /** s is a concatenation of well-formed characters. */
  predicate ValidUtf8(s: seq<bv8>) {
    Steps(s, 0, |s|)
  }

  /** Offset i of s is reached from 0 by whole characters (equivalently, the
      prefix before i is valid: CharStartIffValidPrefix). */
  predicate IsCharStart(s: seq<bv8>, i: nat) {
    Steps(s, 0, i)
  }

  /** u is a view produced by the engine over buf: buf is a valid C string
      and both ends of u lie on character boundaries of buf. */
  predicate ViewOf(buf: seq<bv8>, u: Utf8String) {
    && CString(buf) && ValidUtf8(buf)
    && u.Utf8String?
    && IsCharStart(buf, u.start)
    && IsCharStart(buf, u.start + u.byteLen)
  }

  /** U+FFFD REPLACEMENT CHARACTER. */
  const Replacement: seq<bv8> := [0xEF, 0xBF, 0xBD]

  /** A well-formed character is as long as its lead announces, its lead is
      not a continuation byte and every other byte is one. */
  lemma WellFormedShape(c: seq<bv8>)
    requires WellFormedChar(c)
    ensures 1 <= |c| <= 4 && |c| == LeadLen(c[0])
    ensures !IsContinuation(c[0])
    ensures forall j :: 1 <= j < |c| ==> IsContinuation(c[j])
  {
  }

  /** One well-formed character is one step. */
  lemma StepOne(s: seq<bv8>, j: nat)
    requires j < |s| && j + LeadLen(s[j]) <= |s| && WellFormedChar(s[j..j + LeadLen(s[j])])
    ensures Steps(s, j, j + LeadLen(s[j]))
  {
    assert Steps(s, j + LeadLen(s[j]), j + LeadLen(s[j]));
  }

  /** Steps compose. */
  lemma {:induction false} StepsTrans(s: seq<bv8>, a: nat, b: nat, c: nat)
    requires Steps(s, a, b) && Steps(s, b, c)
    ensures Steps(s, a, c)
    decreases b - a
  {
    if a != b {
      StepsTrans(s, a + LeadLen(s[a]), b, c);
    }
  }

  /** Stepping is deterministic: an offset reached from a on the way to a
      later offset c is one from which c is reached. */
  lemma {:induction false} StepsSplit(s: seq<bv8>, a: nat, b: nat, c: nat)
    requires Steps(s, a, b) && Steps(s, a, c) && b <= c
    ensures Steps(s, b, c)
    decreases b - a
  {
    if a != b {
      StepsSplit(s, a + LeadLen(s[a]), b, c);
    }
  }

  /** A window of s steps as s does. */
  lemma {:induction false} StepsWindow(s: seq<bv8>, lo: nat, hi: nat, j: nat, i: nat)
    requires lo <= j <= i <= hi <= |s|
    ensures Steps(s, j, i) <==> Steps(s[lo..hi], j - lo, i - lo)
    decreases i - j
  {
    if j < i {
      var w := s[lo..hi];
      var k := LeadLen(s[j]);
      assert w[j - lo] == s[j];
      if j + k <= i {
        var c, d := w[j - lo..j - lo + k], s[j..j + k];
        forall x | 0 <= x < k
          ensures c[x] == d[x]
        {
          assert c[x] == w[j - lo + x];
        }
        assert c == d;
        StepsWindow(s, lo, hi, j + k, i);
      }
    }
  }

  /** Stepping gets from a to b exactly when the bytes between them are
      valid UTF-8. */
  lemma StepsIffValidBetween(s: seq<bv8>, a: nat, b: nat)
    requires a <= b <= |s|
    ensures Steps(s, a, b) <==> ValidUtf8(s[a..b])
  {
    StepsWindow(s, a, b, a, b);
  }

  /** The character starts are exactly the ends of the valid prefixes. */
  lemma CharStartIffValidPrefix(s: seq<bv8>, i: nat)
    requires i <= |s|
    ensures IsCharStart(s, i) <==> ValidUtf8(s[..i])
  {
    StepsIffValidBetween(s, 0, i);
    assert s[0..i] == s[..i];
  }

  /** One well-formed character is a valid string. */
  lemma SingleCharValid(c: seq<bv8>)
    requires WellFormedChar(c)
    ensures ValidUtf8(c)
  {
    WellFormedShape(c);
    assert c[0..|c|] == c;
    StepOne(c, 0);
  }

  /** A valid part of s is stepped over whole. */
  lemma StepsOverPart(s: seq<bv8>, lo: nat, hi: nat)
    requires lo <= hi <= |s| && ValidUtf8(s[lo..hi])
    ensures Steps(s, lo, hi)
  {
    StepsIffValidBetween(s, lo, hi);
  }

  /** Valid strings are closed under concatenation. */
  lemma ValidConcat(a: seq<bv8>, b: seq<bv8>)
    requires ValidUtf8(a) && ValidUtf8(b)
    ensures ValidUtf8(a + b)
  {
    assert (a + b)[0..|a|] == a;
    assert (a + b)[|a|..|a| + |b|] == b;
    StepsOverPart(a + b, 0, |a|);
    StepsOverPart(a + b, |a|, |a| + |b|);
    StepsTrans(a + b, 0, |a|, |a| + |b|);
  }

  /** In a valid string, a well-formed character starts at every boundary
      before the end, and the offset after it is a boundary again. */
  lemma CharAtBoundary(s: seq<bv8>, i: nat)
    requires ValidUtf8(s) && IsCharStart(s, i) && i < |s|
    ensures i + LeadLen(s[i]) <= |s|
    ensures WellFormedChar(s[i..i + LeadLen(s[i])])
    ensures IsCharStart(s, i + LeadLen(s[i]))
  {
    StepsSplit(s, 0, i, |s|);
    StepOne(s, i);
    StepsTrans(s, 0, i, i + LeadLen(s[i]));
  }

  /** Between two character boundaries o < p, a whole well-formed character
      starts at o and ends no later than p: character boundaries do not
      depend on how far one looks. */
  lemma CharBetweenBoundaries(s: seq<bv8>, o: nat, p: nat)
    requires o < p && IsCharStart(s, o) && IsCharStart(s, p)
    ensures o + LeadLen(s[o]) <= p
    ensures WellFormedChar(s[o..o + LeadLen(s[o])])
  {
    StepsSplit(s, 0, o, p);
  }

  /** The bytes between two character boundaries are valid UTF-8. */
  lemma ValidBetween(s: seq<bv8>, i: nat, j: nat)
    requires i <= j && IsCharStart(s, i) && IsCharStart(s, j)
    ensures ValidUtf8(s[i..j])
  {
    StepsSplit(s, 0, i, j);
    StepsIffValidBetween(s, i, j);
  }

  /** Cutting the buffer at the end of a view leaves the view a view of the
      shorter buffer, whose terminator is now the view's end. */
  lemma ViewCutAtEnd(buf: seq<bv8>, u: Utf8String)
    requires ViewOf(buf, u)
    ensures u.start + u.byteLen <= |buf|
    ensures ViewOf(buf[..u.start + u.byteLen], u)
  {
    var end := u.start + u.byteLen;
    var cut := buf[..end];
    CharStartIffValidPrefix(buf, end);
    StepsWindow(buf, 0, end, 0, u.start);
    assert buf[0..end] == cut;
  }

  /** The bytes a view covers are valid UTF-8. */
  lemma ViewBytesValid(buf: seq<bv8>, u: Utf8String)
    requires ViewOf(buf, u)
    ensures ValidUtf8(buf[u.start..u.start + u.byteLen])
  {
    ValidBetween(buf, u.start, u.start + u.byteLen);
  }
}
