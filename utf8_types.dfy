/** The record types of the UTF-8 engine (utf8.h) and the conventions every
    operation shares about the byte buffer it works on.

    A C string is modelled as the sequence of its bytes before the
    terminating 0x00; positions in it are offsets.  Reading at or past the
    end yields the terminator 0x00, exactly what the C code sees there. */
module Utf8Types {

  /** A possibly-NULL `const char*` argument. */
  datatype Option<T> = None | Some(value: T)

  /** The byte at offset i of a NUL-terminated buffer; at or past the end it
      is the terminator 0x00. */
  function Byte(s: seq<bv8>, i: nat): bv8 {
    if i < |s| then s[i] else 0
  }

  /** s can stand for a C string: no byte before the terminator is 0x00. */
  predicate CString(s: seq<bv8>) {
    forall i :: 0 <= i < |s| ==> s[i] != 0
  }

  /** utf8_validity: whether a string is UTF-8 and how far it is. */
  datatype Utf8Validity = Utf8Validity(valid: bool, validUpto: nat)

  /** utf8_string: NULL, or the byteLen bytes starting at offset start of
      the underlying buffer (the terminator not counted). */
  datatype Utf8String = NullString | Utf8String(start: nat, byteLen: nat)

  /** utf8_char: NULL, or the byteLen bytes starting at offset start. */
  datatype Utf8Char = NullChar | Utf8Char(start: nat, byteLen: nat)

  /** owned_utf8_string: NULL, or an allocated buffer whose first byteLen
      bytes are the string. */
  datatype OwnedUtf8String = NullOwned | OwnedUtf8String(str: array<bv8>, byteLen: nat)
}
