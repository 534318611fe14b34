# UTF-8 engine of utf8.c, modelled in Dafny

This project models the byte-level UTF-8 engine of `utf8.c` and the records and documented contracts of `utf8.h`. The engine has these parts:

- a per-character classifier, `validate_utf8_char`, which rejects overlong forms and UTF-16 surrogates;
- a whole-string validator, `validate_utf8`, which reports validity and the longest valid prefix;
- the all-or-nothing view constructor `make_utf8_string`;
- the lossy repair `make_utf8_string_lossy`, which writes U+FFFD (EF BF BD) for every rejected byte;
- the boundary predicate `is_utf8_char_boundary` and the boundary-checked slicing `slice_utf8_string`;
- a forward character iterator, `make_utf8_char_iter` and `next_utf8_char`, with `nth_utf8_char` and `utf8_char_count` built on it;
- the code-point decoder `unicode_code_point`.

Conventions of the model:

- A C string is the sequence of its bytes (`seq<bv8>`) before the terminator, with no 0x00 byte inside (`CString`).
- Reading at or past the end yields 0x00 (`Utf8Types.Byte`), which is what the C code sees at the terminator.
- Positions in a string (a `const char*` into it) are offsets. A `utf8_string` or `utf8_char` is `(start, byteLen)` or its own NULL constructor. A NULL `const char*` argument is `None`.

What "valid UTF-8" means is stated apart from the classifier. In `Utf8Spec`:

- `WellFormedChar` is the table of well-formed byte sequences of section 4 of RFC 3629, with the four-byte rows widened to every lead F1..F7.
- `Steps`/`ValidUtf8` says a string is a concatenation of such characters.
- `IsCharStart` marks the offsets reached from 0 by whole characters.

The classifier, the validator, the repair and the iterator are then proved against that table.

Modules, one per part of the engine:

- `Utf8Types`: the records.
- `Utf8Spec`: the reference definition.
- `Classifier`, `Validator`, `Lossy`, `Boundary`, `CharIter`, `CodePoint`: the operations.
- `Scenarios`: the concrete strings of `test.c` and the examples of `utf8.h`.

The code is followed where it goes beyond section 3 of RFC 3629. Leads F5..F7 and F4 with any continuation bytes are accepted, so code points up to 0x1FFFFF decode (`F7 BF BF BF` is valid). The model follows the code rather than the RFC's ceiling of U+10FFFF.

## Model

| member | source | states |
|---|---|---|
| Classifier.ValidateUtf8Char | utf8.c:11-78 | Either fails with next_offset equal to offset (no partial consumption), or succeeds with next_offset − offset in 1..4. Every byte after the lead is a continuation byte 10xxxxxx. A character accepted before the terminator ends before it. |
| Classifier.ClassifierMatchesTable | utf8.c:11-78 | The classifier accepts at offset exactly when the LeadLen(lead) bytes there fit and form one well-formed character of the RFC 3629 table (four-byte rows widened to F1..F7). It then moves exactly LeadLen(lead) bytes. |
| Classifier.RejectsOverlong | utf8.c:26-27 | Overlong forms are rejected with the offset unchanged: lead C0/C1, E0 followed by a byte below A0, and F0 followed by a byte below 90 (the conditions at utf8.c:43-45 and 70-72). |
| Classifier.RejectsSurrogates | utf8.c:50-53 | Every ED A0..BF xx (a UTF-16 surrogate U+D800..U+DFFF) is rejected with the offset unchanged. |
| Validator.AcceptedCharExtendsPrefix | utf8.c:86-88 | One loop step of validate_utf8: a character the classifier accepts at a character boundary ends on the next boundary. |
| Validator.RejectedCharEndsLongestPrefix | utf8.c:89 | Where the classifier rejects at a boundary, no longer prefix of the string is valid UTF-8. |
| Validator.ValidateUtf8 | utf8.c:80-93 | NULL gives {false, 0}. Otherwise valid holds iff the string is valid UTF-8, and valid_upto is always a character boundary. When valid, valid_upto is the length. When not, the classifier fails at valid_upto and no longer prefix is valid, so valid_upto is the longest valid prefix. |
| Validator.MakeUtf8String | utf8.c:95-99 | NULL or an invalid string gives the NULL view. A valid string gives the view (0, length), whose length excludes the terminator (utf8.h:29). Any non-NULL result is a view of valid UTF-8 between boundaries. |
| Lossy.Repaired | utf8.c:117-137 | The repaired string is at most three times as long as the input (the worst case the buffer is sized for, utf8.c:106-107). |
| Lossy.RepairedIsValid | utf8.c:101-142 | The repair of any input is valid UTF-8. |
| Lossy.RepairedKeepsValid | utf8.c:101-142 | A valid input is repaired to itself. |
| Lossy.RepairedKeepsValidFrom | utf8.c:117-137 | A tail that is valid from offset on is copied unchanged. |
| Lossy.RepairedAllRejected | utf8.c:126-136 | If the classifier rejects every byte, the output is one U+FFFD per input byte. |
| Lossy.CopyBytes | utf8.c:123 | The memcpy of a character: the buffer's prefix becomes the old prefix followed by the copied bytes, and every byte after them is unchanged. |
| Lossy.PutReplacement | utf8.c:132-134 | Writing U+FFFD: the buffer's prefix becomes the old prefix followed by EF BF BD, and every byte after them is unchanged. |
| Lossy.MakeUtf8StringLossy | utf8.c:101-142 | NULL gives the NULL owned string. Otherwise a fresh buffer of 3·len+1 bytes holds the repaired string and then a terminator at byte_len; the repair's properties are the Repaired lemmas. |
| Boundary.IsUtf8CharBoundary | utf8.c:160-162 | True exactly on a byte that is not a continuation byte. The terminator, at or past the end, is a boundary (utf8.h:132). |
| Boundary.BoundaryIsCharStart | utf8.c:160-162 | In a valid string every offset the predicate accepts is reached from 0 by whole characters. |
| Boundary.BoundaryIffCharStart | utf8.h:131-137 | In a valid string the boundary predicate holds exactly at the character starts, the end included. |
| Boundary.SliceUtf8String | utf8.c:164-174 | A non-NULL slice lies inside the view, is no longer than asked, and both its ends are boundaries. |
| Boundary.SliceOfView | utf8.c:164-174 | The start is clamped to the view's length, and so is the end start + byte_len. The slice is non-NULL iff both clamped ends are character starts, and it is then exactly (start, end − start) (utf8.h:86-87). |
| Boundary.SliceIsView | utf8.h:86-87 | A non-NULL slice of a view is itself a view of the buffer, and the bytes it covers are valid UTF-8. |
| Boundary.SliceWholeView | utf8.c:164-174 | Slicing a view from 0 over its whole length gives the view back. |
| Boundary.SliceStartPastEnd | utf8.h:89-90 | A start at or past the view's length gives the empty slice at the view's end. |
| CharIter.CharsFrom | utf8.c:176-192 | The characters the iteration yields from an offset lie at or after it and are 1 to 4 bytes long. |
| CharIter.CharAtCursor | utf8.c:176-192 | At a boundary before the terminator of a valid string there is a character of LeadLen(lead) bytes, 1 to 4. It is well-formed and no byte inside it is a boundary, so next_utf8_char's scan stops exactly at its end. The iteration continues from there. |
| CharIter.CharsFromAreChars | utf8.c:176-192 | Every character the iteration yields starts on a boundary, fits in the string and is a well-formed character. |
| CharIter.CharsFromContiguous | utf8.c:180-191 | The first character starts at the cursor and each next one starts where the previous ended. |
| CharIter.CharsFromEndAtTerminator | utf8.c:177 | In a valid string the last character yielded ends exactly at the terminator. |
| CharIter.CharCountIsBoundaryCount | utf8.c:204-210 | The number of characters the iteration yields from a boundary equals the number of boundary offsets between it and the terminator. |
| CharIter.Utf8CharIter.constructor | utf8.c:156-158 | make_utf8_char_iter puts the cursor at the view's start, a character boundary of the buffer when the view is one. |
| CharIter.Utf8CharIter.Next | utf8.c:176-192 | At the terminator it returns the zero-length character there and leaves the cursor unchanged, however often it is called (utf8.h:107). Otherwise it returns the 1..4-byte well-formed character at the old cursor and moves the cursor exactly past it, onto the next boundary. That is the first of the remaining characters. |
| CharIter.NthUtf8Char | utf8.c:194-202 | The zero-based char_index-th character yielded from the view's start, or {NULL, 0} when fewer are yielded (utf8.h:112-117). |
| CharIter.Utf8CharCount | utf8.c:204-210 | The number of characters yielded from the view's start before the zero-length one. |
| CharIter.Utf8CharCountInView | utf8.c:204-210 | Corrected count: only the characters inside the view, that is the number of boundaries inside it. |
| CharIter.NthUtf8CharInView | utf8.c:194-202 | Corrected index: the char_index-th character of the view, lying inside it, or NULL when the view has fewer. |
| CodePoint.Payload2 | utf8.c:215-217 | The two-byte payload is below 0x800. |
| CodePoint.Payload3 | utf8.c:218-221 | The three-byte payload is below 0x10000. |
| CodePoint.Payload4 | utf8.c:222-226 | The four-byte payload is below 0x200000. |
| CodePoint.UnicodeCodePoint | utf8.c:212-230 | The result is below 0x200000 for every character, and below 0x80, 0x800 or 0x10000 for lengths 1, 2 and 3. A NULL character or a character of any other length gives 0. |
| CodePoint.RoundTrip2 | utf8.c:215-217 | A well-formed two-byte character decodes to a code point of at least 0x80, whose encoding is the same two bytes. |
| CodePoint.RoundTrip3 | utf8.c:218-221 | A well-formed three-byte character decodes to a non-surrogate of at least 0x800, whose encoding is the same three bytes. |
| CodePoint.RoundTrip4 | utf8.c:222-226 | A well-formed four-byte character decodes to a code point of at least 0x10000, whose encoding is the same four bytes. |
| CodePoint.EncodeThenDecode | utf8.c:212-230 | For every code point below 0x200000 that is not a surrogate: its shortest encoding is well-formed, the classifier accepts it whole, and unicode_code_point decodes it back. |
| CodePoint.DecodeThenEncode | utf8.c:212-230 | Every character the classifier accepts decodes to a non-surrogate whose value needs exactly that many bytes, so no overlong form is admitted. Encoding that value gives the character's bytes back. |
| Scenarios.HdkoIsValid | test.c:192 | "Hдこ😁" is valid UTF-8 and a C string. Its character starts include 1, 3 and 6. |
| Scenarios.HdkoBoundaries | test.c:235-252 | The boundary predicate on "Hдこ😁" holds at 0, 1, 3, 6 and at the terminator 10, and nowhere else. |
| Scenarios.HdkoChars | test.c:191-221 | The characters of "Hдこ😁" are (0,1), (1,2), (3,3) and (6,4). |
| Scenarios.IterateHdko | test.c:191-221 | The iterator yields H, д, こ, 😁 and then the zero-length character at the terminator twice. |
| Scenarios.HdkoCodePoints | test.c:289-297 | The four characters decode to 72, 1076, 12371 and 128513. |
| Scenarios.CountAndIndex | test.c:223-287 | The count is 4 and index 3 is 😁. Index 100 is NULL. The empty string counts 0 and its index 0 is NULL. |
| Scenarios.HdkoSlices | test.c:156-189 | The slice (1,2) is д. Slices starting or ending inside a character are NULL. A start of 1000 gives the empty slice at the terminator, and an end of 1000 is cut to the length. |
| Scenarios.ValidateHelloWorld | utf8.h:15 | "hello world" gives {true, 11}. |
| Scenarios.ValidateHelloBroken | utf8.h:14 | "hello\xC0\xC0" gives {false, 5}. |
| Scenarios.HelloBrokenPrefix | utf8.h:14 | In "hello\xC0\xC0", offset 5 is a boundary where the classifier fails, and the string is not valid. |
| Scenarios.ValidateExamples | test.c:51-111 | F7 BF BF BF is valid with valid_upto 4. ED A0 80, C1 88 and E0 9F BF are invalid with valid_upto 0. |
| Scenarios.LossyMixed | test.c:134-143 | C0 "H" C0 "e" is repaired to U+FFFD "H" U+FFFD "e": each rejected byte gives one U+FFFD and scanning resumes at the next byte. The truncated E3 81 before "A" gives two U+FFFD before "A". |
| Scenarios.LossyAllInvalid | test.c:145-154 | C0 C0 C0 C0 is repaired to four U+FFFD, twelve bytes. |
| Scenarios.SliceCountAsWritten | utf8.c:204-210 | On the slice "д" of "Hдこ😁", the count as written is 3 and index 1 gives こ, a character outside the slice. |
| Scenarios.SliceCountInView | utf8.c:204-210 | On the same slice, the view-bounded count is 1 and index 1 is NULL. |

## Left out

- free_owned_utf8_string (utf8.c:148-154): deallocation has no counterpart in Dafny. Clearing the fields leaves the NULL owned string `NullOwned`, which needs no operation of its own.
- The allocation-failure branch of make_utf8_string_lossy (utf8.c:111): allocation is assumed to succeed.
- as_utf8_string (utf8.c:144-146): a field copy between two records.
- `strlen` and the NUL-terminator plumbing: the length is explicit, and reads at or past the end yield 0x00.
- The `size_t` wrap-around of start + byte_len in slice_utf8_string (utf8.c:167): offsets are unbounded naturals.
- The `uint8_t` width of utf8_char.byte_len: it never exceeds 4 here, so it cannot wrap.
- Signed `char` promotion in unicode_code_point: every byte is masked before it is shifted, so the sign bits never reach the result, and the model works on unsigned bytes.
- CharIter.Utf8CharIter.Next: requires a cursor on a character boundary of a valid C string, as the views the engine hands out guarantee. On arbitrary bytes the C still steps to the next non-continuation byte; that case is not modelled.
- Boundary.SliceUtf8String: the NULL view is not accepted. The C would read through a NULL pointer at utf8.c:170, so slicing a NULL view is not modelled.
- CharIter.Utf8CharIter.constructor: the iterator over a NULL view (a NULL cursor, which next_utf8_char would dereference) is not modelled; the view must be non-NULL.
- CharIter.NthUtf8Char and CharIter.Utf8CharCount: require a view of a valid C string, the only strings the engine's constructors produce. Over a NULL view the C dereferences NULL.
- The test driver (`main`, the `TEST` macro and its `printf`, test.c:299-331): only the asserts are kept, as the scenario members. The long mixed-script test strings are represented by "Hдこ😁" and short byte sequences of the same kinds.
- No upper bound of U+10FFFF, and no rejection of F5..F7 leads: the model follows the code.

## Findings

| source | as written | input that shows it | evidently intended | confidence | as-written member | corrected member |
|---|---|---|---|---|---|---|
| utf8.c:204-210 | utf8_char_count drives an iterator that stops only at the NUL of the underlying buffer and never looks at the view's byte_len. On a slice it therefore counts every character up to the end of the whole string. | the slice "д" = slice_utf8_string("Hдこ😁", 1, 2): the count is 3 | the number of characters in the view (1), as for a view that ends at the terminator | medium, not executed | Scenarios.SliceCountAsWritten | CharIter.Utf8CharCountInView |
| utf8.c:194-202 | nth_utf8_char uses the same unbounded iterator, so an index past the slice's last character returns a character beyond the slice instead of {NULL, 0}. | the same slice "д", index 1: returns こ at offset 3, outside the view | {NULL, 0}, since the view has only one character (utf8.h:116-117) | medium, not executed | Scenarios.SliceCountAsWritten | CharIter.NthUtf8CharInView |
