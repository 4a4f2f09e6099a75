# Verification of the NLU worker service

This project models the parts of the service whose correctness is not obvious from reading one function,
and proves what they promise. `dafny verify dfyconfig.toml` checks all of it.

**JSON** (`Json*.dfy`, `Utf8.dfy`, `Chars.dfy`). Requests carry JSON text that `Json::Reader` parses.
`JsonValue` is the value type, with objects as lists of members in key order and arrays dense.
`JsonGrammar` says as functions what the reader makes of a document, byte by byte and with its
peculiarities; `JsonReader` is the class with its cursor, node stack, error list and depth counter, and
every method is proved to do what the grammar says. `JsonText` and `JsonStyledWriter` are the two
writers. `JsonSyntax` gives the syntax trees of section 2 to 7 of RFC 8259 with their white space, and
what text and value they stand for. `JsonDialect` does the same for what the reader accepts on top:
comments, numbers that lack digits, a brace behind an empty name and, behind a comment, any token for a
comma. On top of them stand the results that span several of these parts: the reader accepts exactly the
texts of that language, each with the value of its tree, in which every object is in key order and the
last member of a name counts, and throws on one nested more than 1000 deep; every text of a JSON syntax
tree is among them, with the same value; hence parsing what either writer wrote gives the value back, up
to integer tags, for FastWriter always and for StyledWriter exactly when no key holds a null byte; the
same condition says when the two texts mean the same; string literals, escapes, surrogate pairs and
64-bit integers invert, and the literals printed are the shortest; StyledWriter gives every document a
layout that `JsonLayout` defines on values, indented by three blanks per open container; values are
ordered by type, size and first difference, strictly and totally exactly below 2^31 entries; paths find
every node whose names can be spelled, and no path spells any other name. A double is represented by its
printed text, and the conversion from text to double is a parameter (`Config.scanDouble`).

**The work queue** (`LinkedRing.dfy`, `WaitList.dfy`, `WorkerProtocol.dfy`). The intrusive ring of
pointers refines a sequence, the list under the mutex refines a queue, and the worker threads are a
machine over the program points of producers, consumers and stops, with signals that may wake any number
of sleepers and wake-ups without a signal. Over every interleaving: no wake-up is lost, no worker is
lost or duplicated, a queued worker is never stuck, every worker taken is retrieved before the next one
is taken, once a stop waits in join each worker thread is at most six moves from its end, and when it
has come back all of them have ended.

**Chunked bodies** (`ChunkedBody.dfy`). The decoder is called again whenever more input arrives. Calling
it piece by piece is the same as calling it once exactly on the buffers on which no size wraps around
2^64; coded bodies come back whole, however they are split, and no proper prefix of one is taken for
complete.

**The section tree** (`ConfigPaths.dfy`, `ConfigMap.dfy`). The left-child/right-sibling tree is built
with the pointers of the source; a ghost shape says which tree the pointers form, and it refines a map
from path and key to value. `get_value` returns what was set last under any spelling of the path, and
the destructor deletes every node once.

**Base64** (`Base64.dfy`). The loops with their masks and shifts are proved against the 24-bit groups of
section 4 of RFC 4648. Decoding inverts encoding for every byte string. The decoder reads from the front
(`in_` is the index, `in_len` only counts), so this holds of the plain text and not of a reversed one.

Bytes are characters below 256 where text is meant (nothing depends on larger ones being absent), and
8-bit vectors in `Base64`. A null pointer result is `None` or `null`. Where the code departs from what
one would expect, the model follows the code:

- behind a comment that follows a member, any token is taken for the comma;
- a closing brace is accepted behind a comma when the last member has the empty name;
- a number may lack its digits: `-` is 0, `1.` and `1e` go to the double conversion;
- text behind the parsed value is ignored; in strict mode a failed parse may record a second error;
- the difference of two container sizes is cut to 32 bits before it is compared;
- StyledWriter cuts member names at a null byte, FastWriter does not;
- a chunk size that wraps around 2^64 is accepted, and one such size makes the decoder loop for ever;
- makePath does not pass a null byte at the start of a name;
- `set_section` moves the iterator only when it enters a segment.

## Model

| member | source | states |
|---|---|---|
| `JsonValue.KeyLessIsDictionaryOrder` | src/common/json/json.cpp:2439-2450 | map keys, compared by memcmp over the common length and then by length, are in dictionary order of their bytes: one is a proper prefix of the other or smaller at the first difference |
| `JsonValue.KeyTrichotomy` | src/common/json/json.cpp:2439-2461 | for two keys exactly one of less, equal and greater holds, and equal keys are identical, embedded null bytes included |
| `JsonValue.KeyTransitive` | src/common/json/json.cpp:2439-2450 | the order of keys is transitive |
| `JsonOrder.EqualIsIdentity` | src/common/json/json.cpp:2719-2761 | operator== holds of two values without doubles exactly when they are the same type, payload, elements and members, recursively |
| `JsonOrder.Trichotomy` | src/common/json/json.cpp:2667-2711 | operator< is asymmetric, and two values of which neither is less are identical, for every pair of values without doubles and with containers below 2^31 entries |
| `JsonOrder.Transitive` | src/common/json/json.cpp:2667-2711 | operator< is transitive on the same values, across types, sizes, elements and key/value pairs |
| `JsonOrder.CompareAgreesWithEqual` | src/common/json/json.cpp:2659-2665 | compare is 0 exactly when operator== holds, and swapping its arguments changes its sign |
| `JsonOrder.LessExactly` | src/common/json/json.cpp:2667-2711 | operator< is the order by type (null, int, uint, real, string, bool, array, object) and then by size of the number, by dictionary with a null string first, false before true, fewer entries first, and for equally many by the first entry that differs, name before value |
| `JsonOrder.CompareExactly` | src/common/json/json.cpp:2659-2665 | compare is -1 when the first comes before the second in that order, 1 when the second does and 0 when they are identical |
| `JsonOrder.HugeArraysAreNotOrdered` | src/common/json/json.cpp:2700-2705 | the difference of sizes is truncated to 32 bits: the empty array and an array of 2^31 nulls are each less than the other |
| `JsonOrder.OrderedExactlyBelowTwo31` | src/common/json/json.cpp:2667-2711 | operator< is a strict total order on the values without doubles whose containers hold fewer than n entries exactly when n is at most 2^31 |
| `JsonNumbers.DigitsDenote` | src/common/json/json.cpp:149-155 | the decimal text of a number is never empty, consists of digits and denotes the number |
| `JsonNumbers.PrintedExactly` | src/common/json/json.cpp:149-155 | the text of an integer is a minus sign for a negative one and the digits 0 to 9 that spell its magnitude, without leading zeros |
| `JsonNumbers.UInt64HasTwentyDigits` | src/common/json/json.cpp:135-142 | a 64-bit number has at most 20 digits, so 25 bytes hold digits, sign and terminator |
| `JsonNumbers.UintToString` | src/common/json/json.cpp:149-155 | the loop fills the buffer backwards from its end with exactly the digits and a terminating null, and returns where they begin |
| `JsonNumbers.UnsignedToString` | src/common/json/json.cpp:3797-3805 | the C string returned is the decimal text of the number; at least four bytes of the buffer stay unused |
| `JsonNumbers.NegatedWord` | src/common/json/json.cpp:3787-3789 | the word left by negating a negative integer is its magnitude, also for -2^63 |
| `JsonNumbers.SignedToString` | src/common/json/json.cpp:3784-3795 | the C string returned is the signed decimal text for every 64-bit integer, -2^63 included, without overrunning the buffer |
| `JsonNumbers.DecodeNumberToken` | src/common/json/json.cpp:697-735 | the 64-bit accumulator never overflows and the result is the mathematical one: an optional minus and digits whose value lies in [-2^63, 2^64-1] become that integer, with the int tag when negative or at most 2^31-1 and the uint tag above; every other token goes to the double path; a lone minus is 0 |
| `JsonNumbers.DecodeExactly` | src/common/json/json.cpp:697-735 | an optional minus and digits, leading zeros or none at all included, are read as the number they spell: signed when negative or at most 2147483647, unsigned up to 18446744073709551615, and left to the double conversion beyond |
| `JsonNumbers.IntegersAreSpelled` | src/common/json/json.cpp:697-735 | nothing else is read as an integer |
| `JsonNumbers.PrintedIntegerDecodes` | src/common/json/json.cpp:697-735 | decoding the printed text of any 64-bit integer gives it back |
| `Utf8.EncodingIsExact` | src/common/json/json.cpp:104-130 | every code point up to 0x10FFFF becomes 1 to 4 bytes that carry exactly its bits; they are well formed and shortest (section 3 of RFC 3629) exactly when it is no surrogate |
| `Utf8.EveryWellFormedSequenceIsAnEncoding` | src/common/json/json.cpp:104-130 | conversely every well-formed byte sequence is what codePointToUTF8 makes of the code point it carries |
| `Utf8.EncodingIsInjective` | src/common/json/json.cpp:104-130 | different code points have different encodings |
| `JsonStrings.IsPlain` | src/common/json/json.cpp:3919-3938 | the search for characters to escape, with the embedded null among them, finds none exactly when the escaped text is the text itself |
| `JsonStrings.ValueToQuotedStringN` | src/common/json/json.cpp:3933-3994 | the result is the quoted literal of all bytes of the string, on the short cut as well as in the loop |
| `JsonStrings.ValueToQuotedString` | src/common/json/json.cpp:3856-3917 | the result is the quoted literal of the C string, that is of the bytes before the first null |
| `JsonStrings.DecodeUnicodeEscapeSequence` | src/common/json/json.cpp:848-874 | four hexadecimal digits give their number and are consumed; anything else is an error |
| `JsonStrings.DecodeUnicodeCodePoint` | src/common/json/json.cpp:819-846 | a high surrogate needs a second escape behind it, and the pair gives its code point; the cursor ends behind what was used |
| `JsonStrings.DecodeString` | src/common/json/json.cpp:766-817 | the loop returns the unescaped bytes of a literal, or fails exactly at a bad escape |
| `JsonStrings.EscapeDecodes` | src/common/json/json.cpp:766-817 | unescaping the escaped text of any byte string, embedded nulls and bytes above 0x7F included, returns the string |
| `JsonStrings.StringEndOfEscape` | src/common/json/json.cpp:590-600 | scanning an escaped text stops at the closing quote and nowhere before |
| `JsonStrings.LiteralInverts` | src/common/json/json.cpp:590-600 | readString consumes exactly the literal that was printed, whatever follows it, and what it consumed decodes to the string |
| `JsonStrings.CodePointInverts` | src/common/json/json.cpp:819-846 | the escape of a code point in digits of either case, or its surrogate pair of section 2.2 of RFC 2781, is read as that code point and consumed exactly |
| `JsonStrings.AcceptedEscapeIsInRange` | src/common/json/json.cpp:819-846 | no accepted escape leaves the Unicode range, so each decodes to 1 to 4 bytes |
| `JsonStrings.PairDecodes` | src/common/json/json.cpp:819-846 | behind a high surrogate any four digits count as the low one, and only their last ten bits are used |
| `JsonLiterals.ShortEscapesExactly` | src/common/json/json.cpp:775-805 | the letter behind a backslash stands for the byte in the table of section 7 of RFC 8259, and no other letter is accepted |
| `JsonLiterals.UnescapeExactly` | src/common/json/json.cpp:766-817 | the text between the quotes denotes a string exactly when it is a sequence of plain bytes, escapes of that table and one or two escapes of four digits whose bytes make up the string |
| `JsonLiterals.EscapeIsShortest` | src/common/json/json.cpp:3856-3994 | what is printed between the quotes is as short as any text without control characters that is read as the string |
| `JsonLiterals.EscapeHasNoControls` | src/common/json/json.cpp:3856-3994 | no byte below 0x20 is printed in a literal |
| `JsonLiterals.LongEscapesAreUpper` | src/common/json/json.cpp:3979-3984 | an escape of more than two characters has four digits, the letters among them capital, that spell the byte |
| `JsonGrammar.ReadToken` | src/common/json/json.cpp:397-466 | every token but the end of the stream is non-empty, begins at or behind the cursor and ends inside the document |
| `JsonGrammar.SkipComments` | src/common/json/json.cpp:387-395 | skipping comments ends at a token that lies at or behind the cursor and inside the document |
| `JsonGrammar.ReadValue` | src/common/json/json.cpp:325-385 | reading a value terminates on every document and ends at or behind where it began, inside the document |
| `JsonObjects.SetMemberExactly` | src/common/json/json.cpp:628-631 | assigning a member keeps the members in strict key order, gives the name the new value, whether it was there or not, and leaves every other name as it was |
| `JsonObjects.LastMemberCounts` | src/common/json/json.cpp:602-650 | the members of an object are read to those with the value of the last member of each name |
| `JsonObjects.DenotedExactly` | src/common/json/json.cpp:602-687 | the value read is the only one that has the elements in turn and, in strict key order, the names of the members with the value of the last member of each |
| `JsonReader.Reader.GetNextChar` | src/common/json/json.cpp:908-912 | the cursor moves by one and stops at the end of the document |
| `JsonReader.Reader.SkipBlanks` | src/common/json/json.cpp:468-476 | the cursor stops at the first character that is not white space |
| `JsonReader.Reader.Match` | src/common/json/json.cpp:478-487 | a keyword is consumed as a whole or not at all |
| `JsonReader.Reader.ReadComment` | src/common/json/json.cpp:489-510 | a comment is consumed to where the grammar ends it, and is an error when it is not closed |
| `JsonReader.Reader.ReadCStyleComment` | src/common/json/json.cpp:543-550 | stops behind the first closing mark or at the end of the document |
| `JsonReader.Reader.ReadCppStyleComment` | src/common/json/json.cpp:552-566 | stops behind the line end, in any of its three spellings |
| `JsonReader.Reader.ReadNumber` | src/common/json/json.cpp:568-588 | the cursor stops behind the longest number the grammar finds |
| `JsonReader.Reader.ReadString` | src/common/json/json.cpp:590-600 | the cursor stops behind the first quote that is not escaped |
| `JsonReader.Reader.ReadToken` | src/common/json/json.cpp:397-466 | the token and the new cursor are those of the grammar, in all branches of the switch |
| `JsonReader.Reader.SkipCommentTokens` | src/common/json/json.cpp:387-395 | comments are skipped when the features allow them, and otherwise the next token is returned whatever it is |
| `JsonReader.Reader.RecoverFromError` | src/common/json/json.cpp:886-897 | stops on every document, never moves the cursor back, and forgets the errors met while skipping |
| `JsonReader.Reader.AddErrorAndRecover` | src/common/json/json.cpp:899-904 | records exactly one error, whatever is skipped |
| `JsonReader.Reader.DecodeNumber` | src/common/json/json.cpp:689-695 | the top of the node stack becomes the number, or one error is recorded |
| `JsonReader.Reader.DecodeStringValue` | src/common/json/json.cpp:757-764 | the top of the node stack becomes the string, or one error is recorded |
| `JsonReader.Reader.ReadValue` | src/common/json/json.cpp:325-385 | the outcome, value and cursor are those of the grammar; exactly one error on failure and none on success; unless it throws, the node stack is as it was except for its top; exceeding depth 1000 throws |
| `JsonReader.Reader.ReadChild` | src/common/json/json.cpp:632-634 | pushing a node, reading over it and popping it leaves the stack exactly as it was, on failure too |
| `JsonReader.Reader.ReadArray` | src/common/json/json.cpp:652-687 | an array is read as the grammar says, the empty one included |
| `JsonReader.Reader.ReadElements` | src/common/json/json.cpp:662-685 | the loop over the elements gives the array of the grammar or one error |
| `JsonReader.Reader.ReadMemberName` | src/common/json/json.cpp:607-629 | the name of a member and its colon are read, or one error is recorded |
| `JsonReader.Reader.ReadComma` | src/common/json/json.cpp:638-648 | what follows a member is read as the grammar says: behind a comment any token but the brace counts as the comma |
| `JsonReader.Reader.ReadMember` | src/common/json/json.cpp:620-648 | one member is read as the grammar says and the node stack is unchanged |
| `JsonReader.Reader.ReadObject` | src/common/json/json.cpp:602-650 | an object is read as the grammar says, with later members replacing earlier ones of the same name and a comma tolerated behind a member with the empty name |
| `JsonReader.Reader.Parse` | src/common/json/json.cpp:283-323 | for every document: the value of the grammar and no error, or a failure with exactly one error, or an exception at depth 1000; text behind the value is ignored |
| `JsonText.FastWriter.Write` | src/common/json/json.cpp:4008-4013 | the document is the compact text of the value and a line feed |
| `JsonText.FastWriter.WriteValue` | src/common/json/json.cpp:4015-4066 | exactly the compact text of the value is appended, with the YAML spelling of the colon when that is enabled |
| `JsonText.FastWriter.WriteArray` | src/common/json/json.cpp:4040-4048 | the loop appends the elements separated by commas between brackets |
| `JsonText.FastWriter.WriteObject` | src/common/json/json.cpp:4049-4064 | the loop appends the members in key order separated by commas between braces |
| `JsonRoundTrip.ReadsBack` | src/common/json/json.cpp:325-385 | wherever the compact text of a value stands in a document, readValue at any depth returns the value with its integers re-tagged and stops right behind it, or throws exactly when depth plus nesting exceed 1000 |
| `JsonTokens.BlanksExactly` | src/common/json/json.cpp:468-476 | white space is the blank, the tabulator, the line feed and the carriage return |
| `JsonTokens.NumeralExactly` | src/common/json/json.cpp:568-588 | readNumber takes a text as a whole exactly when it is a minus or a digit, digits, a fraction and an exponent, each of which may lack its digits |
| `JsonTokens.WordExactly` | src/common/json/json.cpp:351-374 | a token is read as a value exactly when its text is a name, a string or a number that denotes the value and cannot be a longer number with the character behind it |
| `JsonTokens.FillerSkipped` | src/common/json/json.cpp:387-395 | white space and comments in any mix are skipped, and the first token met is a comment unless there is only white space |
| `JsonTokens.SkippedIsFiller` | src/common/json/json.cpp:387-395 | conversely what is skipped in front of a token is white space and closed comments |
| `JsonTokens.SeparatorRead` | src/common/json/json.cpp:638-648 | the token taken for a comma is a name, a string, a number, a slash with the character behind it, or one other character, but no closing brace |
| `JsonReading.PhraseReads` | src/common/json/json.cpp:325-385 | wherever a text of the language of the reader stands, comments and loose numbers included, readValue at any depth returns the value of its tree and stops right behind it, or throws exactly when depth plus nesting exceed 1000 |
| `JsonReading.ElementsRead` | src/common/json/json.cpp:652-687 | the same for the rest of an array, with the elements read before it |
| `JsonReading.EntriesRead` | src/common/json/json.cpp:602-650 | the same for the rest of an object: members are set one after the other, so the last of a name counts; a brace behind an empty name and any token for a comma behind a comment included |
| `JsonExactness.ValueIsPhrase` | src/common/json/json.cpp:325-385 | conversely whatever readValue returns is the value of a tree whose text, behind what may precede a value, is exactly what it consumed, and whose nesting fits the depth |
| `JsonExactness.ItemsAreElements` | src/common/json/json.cpp:652-687 | conversely for the rest of an array |
| `JsonExactness.MembersAreEntries` | src/common/json/json.cpp:602-650 | conversely for the rest of an object |
| `JsonExactness.ParseAcceptsExactly` | src/common/json/json.cpp:283-323 | for every document, parse succeeds with a value exactly when a text of the language that stands for it, with the last member of every name, and is nested at most 1000 deep begins the document, and in strict mode the value is a container |
| `JsonExactness.ParsedKeysAreInOrder` | src/common/json/json.cpp:602-650 | every object in a parsed value has its members in strict key order, so no name twice |
| `JsonExactness.DeepTextsThrow` | src/common/json/json.cpp:325-330 | a document that begins with a text of the language nested more than 1000 deep makes parse throw |
| `JsonExactness.LanguageIsUnambiguous` | src/common/json/json.cpp:283-323 | all trees whose texts begin the same document end at the same place and denote the same value, unless all are nested too deep |
| `JsonAcceptance.PhraseSpells` | src/common/json/json.cpp:325-385 | a syntax tree of JSON is a tree of the language of the reader with the same text |
| `JsonAcceptance.PhraseDenotes` | src/common/json/json.cpp:325-385 | and with the same value and depth |
| `JsonAcceptance.SpellingReads` | src/common/json/json.cpp:325-385 | wherever a JSON text stands, with any white space between its tokens, any escapes and any order of members, readValue at any depth returns the value of its syntax tree and stops right behind it, or throws exactly when depth plus nesting exceed 1000 |
| `JsonAcceptance.EveryTextIsRead` | src/common/json/json.cpp:283-323 | every text of the grammar of RFC 8259 whose escapes and numbers can be decoded, with white space around it, is parsed as the value of its syntax tree; it throws exactly when nested more than 1000 deep, and strict mode fails exactly for a root that is no container |
| `JsonTree.TreeSpells` | src/common/json/json.cpp:4015-4066 | the text FastWriter writes is the text of the syntax tree of the value |
| `JsonTree.TreeDenotes` | src/common/json/json.cpp:4015-4066 | that tree is well formed, denotes the value with its integers re-tagged and its members set in turn, and has its depth |
| `JsonTree.GapsMeanNothing` | src/common/json/json.cpp:468-476 | white space between tokens changes neither the value a text denotes nor its depth |
| `JsonRoundTrip.ParseInvertsWrite` | src/common/json/json.cpp:283-323 | parsing what FastWriter wrote, in either spelling of the colon, returns the value up to integer tags when it is nested at most 1000 deep, throws when deeper, and in strict mode fails exactly for a root that is no container |
| `JsonRoundTrip.RetagKeepsNumbers` | src/common/json/json.cpp:729-734 | re-tagging is idempotent and changes neither the printed text nor the depth |
| `JsonStyled.StyledAgreesWithCompact` | src/common/json/json.cpp:4085-4142 | what StyledWriter wrote equals the compact text when white space outside literals is removed from both, exactly when no key contains a null byte |
| `JsonStyled.CompactTextMeansItself` | src/common/json/json.cpp:4015-4066 | removing white space outside literals from the compact text, in either spelling of the colon, gives the compact text with the plain colon |
| `JsonStyled.BareIsSqueezed` | src/common/json/json.cpp:4074-4243 | removing white space outside literals from the text of a syntax tree gives the text of the tree without white space |
| `JsonStyled.StyledMeans` | src/common/json/json.cpp:4074-4083 | what StyledWriter wrote, without white space outside literals, is the compact text of the value with keys cut at null bytes |
| `JsonStyled.StyledReadsBack` | src/common/json/json.cpp:4074-4083 | parsing what StyledWriter wrote gives the value with keys cut at null bytes, which is the value itself up to integer tags exactly when no key holds a null byte; it throws exactly when nested more than 1000 deep |
| `JsonStyled.TruncationShortens` | src/common/json/json.cpp:4127 | cutting keys at null bytes makes the text strictly shorter unless no key has one |
| `JsonLayout.LayoutLays` | src/common/json/json.cpp:4085-4185 | the layout of a value is the text of a syntax tree of the value with keys cut at null bytes, with white space between its tokens |
| `JsonLayout.LineLength` | src/common/json/json.cpp:4200-4211 | the line length the writer counts is the number of characters of the one-line form |
| `JsonIndentation.StyledIsIndented` | src/common/json/json.cpp:4222-4243 | in the document of a value without null string pointers every line outside literals begins with exactly three blanks per open container, not counting the one its first character closes, and at the end none is open |
| `JsonIndentation.OneLineExactly` | src/common/json/json.cpp:4187-4213 | an array stands on one line exactly when no element is a filled container, there are fewer than 25 elements and the line has fewer than 74 characters |
| `JsonStyledWriter.StyledWriter.Write` | src/common/json/json.cpp:4074-4083 | the document is the layout of the value and a line feed; hence white space and a syntax tree of the value with keys cut at null bytes, and without white space outside literals the compact text of that value; the indentation ends empty |
| `JsonStyledWriter.StyledWriter.WriteValue` | src/common/json/json.cpp:4085-4142 | in child mode exactly one entry, the compact text, is pushed and the document is untouched; otherwise the document grows by exactly the layout of the value at the current depth; the indentation is restored |
| `JsonStyledWriter.StyledWriter.PushValue` | src/common/json/json.cpp:4215-4220 | an entry goes to the child values or to the document, never to both |
| `JsonStyledWriter.StyledWriter.WriteObjectValue` | src/common/json/json.cpp:4114-4140 | exactly the layout of the object at the current depth is added; the indentation is balanced |
| `JsonStyledWriter.StyledWriter.WriteMember` | src/common/json/json.cpp:4124-4131 | a line feed, the margin, the name up to a null byte, a colon between blanks and the layout of the value are added |
| `JsonStyledWriter.StyledWriter.WriteArrayValue` | src/common/json/json.cpp:4144-4185 | exactly the layout of the array at the current depth is added, on one line or on several |
| `JsonStyledWriter.StyledWriter.WriteLines` | src/common/json/json.cpp:4150-4172 | the several-line layout of the array is added; the indentation is balanced |
| `JsonStyledWriter.StyledWriter.WriteElement` | src/common/json/json.cpp:4158-4163 | a line feed, the margin and the layout of the element are added, from its child value or from itself |
| `JsonStyledWriter.StyledWriter.WriteOneLine` | src/common/json/json.cpp:4173-4183 | the one-line layout of the array is added; the assertion on the number of child values holds |
| `JsonStyledWriter.StyledWriter.IsMultilineArray` | src/common/json/json.cpp:4187-4213 | the result is true exactly when the array does not fit on one line; afterwards there is no child value or exactly one per element, each the text of its element, and one per element whenever the array goes on one line; the document is untouched |
| `JsonStyledWriter.StyledWriter.WriteIndent` | src/common/json/json.cpp:4222-4231 | nothing is added behind a blank, and otherwise a line feed, unless one is there or the document is empty, and the indentation |
| `JsonStyledWriter.StyledWriter.WriteWithIndent` | src/common/json/json.cpp:4233-4236 | the text is added behind what writeIndent adds |
| `JsonStyledWriter.StyledWriter.Unindent` | src/common/json/json.cpp:4240-4243 | takes back one level of three blanks; its assertion is the precondition every caller meets |
| `JsonStyledWriter.StyledWriter.Indent` | src/common/json/json.cpp:4238 | one more level of three blanks |
| `JsonPath.MakePath` | src/common/json/json.cpp:3590-3619 | the loop gives the arguments of the path, for every path on which it ends; indices are taken modulo 2^32 |
| `JsonPath.ParseIndex` | src/common/json/json.cpp:3598-3607 | one bracket: an index, or an argument marker without meaning, and the cursor behind it |
| `JsonPath.ParseName` | src/common/json/json.cpp:3612-3617 | one name, up to a dot, a bracket or a null byte |
| `JsonPath.NulFreePathTerminates` | src/common/json/json.cpp:3590-3619 | makePath terminates on every string without null bytes |
| `JsonPath.LoopsExactlyWhenHanging` | src/common/json/json.cpp:3590-3619 | makePath fails to end exactly on the paths with a null byte where a name could begin, found by one scan that passes the digits of an index and the character that closes it |
| `JsonPath.NulInNameLoops` | src/common/json/json.cpp:3612-3617 | such a path: a dot and a null byte, whatever follows |
| `JsonPath.RenderedPathParses` | src/common/json/json.cpp:3590-3619 | the dotted rendering of any list of 32-bit indices and spellable names parses back to that list |
| `JsonPath.IndexParses` | src/common/json/json.cpp:3598-3607 | digits behind a bracket are the number they spell modulo 4294967296, leading zeros or none at all included, and the character behind them is passed whatever it is |
| `JsonPath.MarkersParse` | src/common/json/json.cpp:3598-3613 | a dot and a format argument that is not supplied do nothing |
| `JsonPath.PathsSpellExactly` | src/common/json/json.cpp:3590-3619 | some path parses to a list of arguments exactly when its indices are below 2^32 and no name is empty, begins with a percent sign or holds a dot, a bracket or a null byte; no path leads past any other name |
| `JsonPath.Find` | src/common/json/json.cpp:3182-3194 | the member with the name is found exactly when there is one |
| `JsonPath.Resolve` | src/common/json/json.cpp:3661-3678 | the result is the node that member and index steps lead to, and the default exactly when there is no such node: a wrong kind, a missing key or an index out of range |
| `JsonPath.TrailIsUnique` | src/common/json/json.cpp:3661-3678 | the arguments lead to at most one node |
| `JsonPath.FindByPath` | src/common/json/json.cpp:3638-3678 | every node of every tree is found by its rendered path when a path can spell the names on the way: no name is empty, begins with a percent sign or holds a dot, a bracket or a null byte |
| `LinkedRing.LinkedList.constructor` | src/Worker/linked_list.hpp:16 | an empty ring: the sentinel is linked to itself both ways |
| `LinkedRing.LinkedList.IsEmpty` | src/Worker/linked_list.hpp:18 | true exactly when nothing is linked in |
| `LinkedRing.LinkedList.Add` | src/Worker/linked_list.hpp:23-29 | the four pointer writes put the element first; next and prev stay mutually inverse and the nodes distinct all around the ring |
| `LinkedRing.LinkedList.AddPrev` | src/Worker/linked_list.hpp:31-37 | the element is inserted right before the other one, all else keeps its order |
| `LinkedRing.LinkedList.AddNext` | src/Worker/linked_list.hpp:39-45 | the element is inserted right behind the other one, all else keeps its order |
| `LinkedRing.LinkedList.Del` | src/Worker/linked_list.hpp:47-51 | exactly that element leaves the ring, which stays linked both ways |
| `LinkedRing.LinkedList.Next` | src/Worker/linked_list.hpp:53-56 | the following element, or null at the end |
| `LinkedRing.LinkedList.Prev` | src/Worker/linked_list.hpp:58-61 | the preceding element, or null at the start |
| `LinkedRing.InsertionLinks` | src/Worker/linked_list.hpp:23-45 | joining a node into one open link of a ring gives a ring with that node inserted there |
| `LinkedRing.RemovalLinks` | src/Worker/linked_list.hpp:47-51 | joining the neighbours of a node gives a ring without it |
| `WaitList.WaitList.constructor` | src/Worker/wait_list.hpp:11-15 | alive and empty |
| `WaitList.WaitList.Len` | src/Worker/wait_list.hpp:23-26 | the counter always equals the length of the ring |
| `WaitList.WaitList.Put` | src/Worker/wait_list.hpp:28-38 | a live list gains the element in front and its counter follows; a dead one is unchanged and so is the element |
| `WaitList.WaitList.Get` | src/Worker/wait_list.hpp:40-58 | the element at the back is returned and unlinked; null exactly from a dead list |
| `WaitList.WaitList.GetFromHead` | src/Worker/wait_list.hpp:86-104 | the element at the front is returned and unlinked; null exactly from a dead list |
| `WaitList.WaitList.Flush` | src/Worker/wait_list.hpp:106-112 | the list is dead; its elements stay |
| `WaitList.FirstInFirstOut` | src/Worker/wait_list.hpp:28-58 | over any run of put, get and flush, what was returned followed by what is queued, oldest first, is what was put before the flush, in order |
| `WaitList.LastInFirstOut` | src/Worker/wait_list.hpp:86-104 | as many get_from_head as puts return the new elements newest first and leave the list as it was |
| `WaitList.DeadListStands` | src/Worker/wait_list.hpp:28-58 | no operation changes a dead list |
| `WorkerProtocol.InvStep` | src/Worker/wait_list.hpp:28-112 | every move of every thread, spurious wake-ups included, keeps mutual exclusion, the wake-up bound, conservation, the worker discipline and the order of the queue |
| `WorkerProtocol.InvHolds` | src/Worker/worker_loader.cpp:25-39 | the invariants hold in every state of every run of producers, worker threads and stops |
| `WorkerProtocol.SleepersMissNothing` | src/Worker/wait_list.hpp:28-58 | no lost wake-up: while someone sleeps on a live queue its length is at most the puts not yet signalled plus the woken threads not yet run; a sleeper with nothing pending means an empty queue; a sleeper on a dead queue means the first broadcast is about to come, and from that broadcast on nobody sleeps, whatever other stops do |
| `WorkerProtocol.WakeupStep` | src/Worker/wait_list.hpp:28-112 | each step keeps the bound on queued elements while someone sleeps |
| `WorkerProtocol.MutexStep` | src/Worker/wait_list.hpp:28-112 | exactly the owner of the mutex is between lock and unlock, and waiting gives the mutex up |
| `WorkerProtocol.ConservedStep` | src/Worker/worker_loader.cpp:25-29 | no step duplicates or loses a worker that is queued or in someone's hands |
| `WorkerProtocol.WorkersAreConserved` | src/Worker/worker_loader.cpp:25-39 | a worker submitted once is at every moment in exactly one of four places: queued, held by exactly one thread, retrieved exactly once, or dropped by a put behind a flush |
| `WorkerProtocol.ConductStep` | src/Worker/worker_loader.cpp:129-169 | whichever way a turn of the loop ends, the worker taken is retrieved before the thread gets the next; an exception out of parse_worker, which nothing catches, ends the process with the worker still held |
| `WorkerProtocol.TakesAreAnsweredInOrder` | src/Worker/worker_loader.cpp:129-169 | between two takes of one thread lies the retrieval of the first worker and no other event of that thread; workers are taken in the order of the puts |
| `WorkerProtocol.InOrderStep` | src/Worker/wait_list.hpp:28-58 | each step keeps: the workers returned and then the queue, oldest first, are what the puts linked in |
| `WorkerProtocol.FlushStep` | src/Worker/wait_list.hpp:106-112 | each step keeps: a stop about to broadcast has killed the list, a stop behind its broadcast has given it, and from the first broadcast on the list is dead and nobody sleeps |
| `WorkerProtocol.JoiningMeansShutDown` | src/Worker/worker_loader.cpp:35-39 | in every run, once a stop waits in join the list is dead and nobody sleeps |
| `WorkerProtocol.StopEndsWorkers` | src/Worker/worker_loader.cpp:35-39 | in every run in which a stop waits in join, and however it goes on, each worker thread makes at most six more moves and never sleeps again; after six it has returned, unless an exception out of it ended the process |
| `WorkerProtocol.StopOutlivesWorkers` | src/Worker/worker_loader.cpp:35-39 | when a stop has come back from join every worker thread has ended, for good |
| `WorkerProtocol.QueueNeverStuck` | src/Worker/wait_list.hpp:28-58 | in every run in which the process goes on and a live queue with worker threads holds a worker, some thread can move without a spurious wake-up, so a queued worker is never stuck |
| `WorkerProtocol.StopNeverBlocks` | src/Worker/worker_loader.cpp:35-39 | in every run in which a stop waits in join, unless an exception has ended the process: each worker thread has returned, or it or the owner of the mutex can move; so the join can return or a move is possible |
| `ChunkedBody.ParseHttpContentChunk` | src/Worker/http.cpp:283-318 | status, appended bytes and remaining buffer are those of the decoder on the whole buffer, for every buffer on which it ends |
| `ChunkedBody.UnwrappedResumes` | src/Worker/http.cpp:283-318 | if a call needs more, calling again on what it left and any further input gives what one call on everything gives; if it is done, further input changes neither status nor output |
| `ChunkedBody.ResumableExactlyWhenUnwrapped` | src/Worker/http.cpp:301-308 | that holds for all further input exactly when no pass on the buffer wraps around 2^64 into the buffer |
| `ChunkedBody.WrappedDoesNotResume` | src/Worker/http.cpp:301-308 | after a pass that wraps one more byte already shows a difference |
| `ChunkedBody.AnySplitDecodesTheSame` | src/Worker/http.cpp:283-318 | however a stream without wrapping sizes is split, the calls together give the status, output and rest of one call |
| `ChunkedBody.PassShortens` | src/Worker/http.cpp:301-308 | a pass that does not wrap shortens the buffer by at least six bytes |
| `ChunkedBody.OutputGrows` | src/Worker/http.cpp:283-318 | more input never shortens the output, wrapping sizes included |
| `ChunkedBody.SizeReads` | src/Worker/http.cpp:292-296 | the digits of a size, in either case and with leading zeros, behind any white space, a sign and a 0x prefix, are read as the number they spell: the largest 64-bit number when it does not fit, modulo 2^64 when negative, 0 without digits, whatever follows |
| `ChunkedBody.SizeTextReads` | src/Worker/http.cpp:292-296 | the hexadecimal text of any number below 2^64, in small or in capital letters, is read as the number |
| `ChunkedBody.FindExactly` | src/Worker/http.cpp:286-312 | the place found is the first at which the pattern occurs, and nothing is found exactly when it does not occur |
| `ChunkedBody.IncompleteNeedsMore` | src/Worker/http.cpp:283-318 | no proper prefix of a coded body is taken for a complete one: the decoder asks for more |
| `ChunkedBody.EncodedBodyDecodes` | src/Worker/http.cpp:283-318 | every list of non-empty chunks coded as in section 4.1 of RFC 7230, with the sizes in hexadecimal digits of either case and any extensions and trailers, is decoded to done and the concatenation of the chunks |
| `ChunkedBody.EncodedBodyDecodesInPieces` | src/Worker/http.cpp:283-318 | the same when it arrives in any pieces |
| `ChunkedBody.DivergesExactlyWhenStuck` | src/Worker/http.cpp:301-309 | the loop does not end exactly on the buffers in which some size line the decoder comes to announces a chunk that ends where the buffer starts, modulo 2^64 |
| `ChunkedBody.StandsStillAtTwo64` | src/Worker/http.cpp:292-301 | on every string that can exist, that is a size line of length p that reads as 2^64 - 4 - p |
| `ChunkedBody.WrappedPassMayDiverge` | src/Worker/http.cpp:301-309 | such a buffer: the size -6 is read as 2^64-6, the pass leaves the buffer as it is, and the loop does not end |
| `Chars.SpacesExactly` | src/Worker/config_map.hpp:202-211 | white space is the blank and the five characters from the tabulator to the carriage return |
| `ConfigPaths.StripString` | src/Worker/config_map.hpp:202-211 | the two loops return the string without the white space around it, empty for a blank string |
| `ConfigPaths.StripRemovesPadding` | src/Worker/config_map.hpp:202-211 | blank padding on either side of a trimmed text is removed and nothing else |
| `ConfigPaths.NextPiece` | src/Worker/config_map.hpp:128-132 | one turn of the loop yields the next stripped piece and the pieces behind it |
| `ConfigPaths.SpellingPieces` | src/Worker/config_map.hpp:119-149 | backslashes, repeated slashes, blank pieces and padding do not matter: every spelling of a list of segments selects those segments |
| `ConfigMap.ConfigMap.constructor` | src/Worker/config_map.hpp:42-45 | an empty map with the root section current |
| `ConfigMap.ConfigMap.FindChild` | src/Worker/config_map.hpp:134-135 | the loop over the siblings finds the child of the kind and key, and when it finds none the path or key is not taken anywhere in the tree |
| `ConfigMap.ConfigMap.AddChild` | src/Worker/config_map.hpp:136-141 | a new first child is one new section or value of the map, and the tree stays a tree |
| `ConfigMap.ConfigMap.Attach` | src/Worker/config_map.hpp:139-140 | the two pointer writes make the node the first child and change no other link |
| `ConfigMap.ConfigMap.Descend` | src/Worker/config_map.hpp:132-145 | one segment enters the section of that path, creating it when it is missing |
| `ConfigMap.ConfigMap.SetSection` | src/Worker/config_map.hpp:119-149 | the tree then stands for the map with the selected section current and every section on the way present; no value changes; the iterator moves to its first child if the key has a segment, and else stays |
| `ConfigMap.ConfigMap.SetValue` | src/Worker/config_map.hpp:151-167 | the tree then stands for the map with that key of the current section set, and nothing else changed |
| `ConfigMap.ConfigMap.GetValue` | src/Worker/config_map.hpp:169-183 | the value of the map at the current path and key, and a failure exactly when there is none |
| `ConfigMap.ConfigMap.EnumValue` | src/Worker/config_map.hpp:185-200 | the first value among the siblings from the iterator on, which then stands behind it; a failure exactly when no value is left |
| `ConfigMap.ConfigMap.EnumRest` | src/Worker/config_map.hpp:185-200 | calling it until it fails yields the values from the iterator on, each once and in order |
| `ConfigMap.ConfigMap.EnumSection` | src/Worker/config_map.hpp:185-200 | behind a set_section that entered a segment, calling it until it fails yields each key of the section with its value exactly once, and nothing else |
| `ConfigMap.ConfigMap.Destroy` | src/Worker/config_map.hpp:47-61 | the queue deletes every node ever added exactly once, and never the root |
| `ConfigMap.Shape.Grows` | src/Worker/config_map.hpp:136-141 | adding a child whose path or key is free keeps the tree without sharing and the paths and keys distinct |
| `ConfigMap.Shape.NotAmongSiblings` | src/Worker/config_map.hpp:134-135 | a key missing from one sibling list is missing at that path altogether |
| `ConfigMap.Shape.SiblingsDiffer` | src/Worker/config_map.hpp:119-167 | no sibling list holds two sections or two values with the same key |
| `ConfigMap.Shape.EveryNodeReached` | src/Worker/config_map.hpp:47-61 | whatever contains the links of the root and of its own nodes contains every node |
| `ConfigMap.Shape.FrontierMoves` | src/Worker/config_map.hpp:53-59 | each turn keeps: deleted and queued nodes are those that the root and the deleted nodes link to, each once |
| `ConfigMap.LastSetWins` | src/Worker/config_map.hpp:119-183 | after any sequence of set_section and set_value a path and key have a value exactly when some operation set it, and it is the one set last |
| `ConfigMap.GetReturnsLastSet` | src/Worker/config_map.hpp:169-183 | get_value after any such sequence returns the last value set under the current path and that key, and fails exactly when there is none |
| `ConfigMap.RunSelects` | src/Worker/config_map.hpp:119-149 | the current path is the one of the section key used last |
| `Base64.CharsAreLetters` | src/Worker/base64.cpp:2-5 | the table is the alphabet of Table 1 of RFC 4648 |
| `Base64.ValuesHaveLetters` | src/Worker/base64.cpp:7-10 | the characters is_base64 accepts are exactly those with a six-bit value, and it is their place in the table |
| `Base64.MasksSplit` | src/Worker/base64.cpp:24-27 | the masks and shifts take a 24-bit group apart into its four sextets |
| `Base64.MasksJoin` | src/Worker/base64.cpp:73-75 | the masks and shifts put the octets of a group together from sextets, and the octets of a short group do not depend on the 255 that stands in its unused places |
| `Base64.Base64Encode` | src/Worker/base64.cpp:13-54 | the result is the encoding of section 4 of RFC 4648: zero bits fill the last group and '=' fills the text |
| `Base64.Base64Decode` | src/Worker/base64.cpp:56-97 | the result is what the letters before the first other character decode to, whole groups and a last group of two or three letters; a single last letter is ignored |
| `Base64.EncodedLength` | src/Worker/base64.cpp:13-54 | the text has 4 * ceil(n / 3) characters |
| `Base64.DecodeInvertsEncode` | src/Worker/base64.cpp:56-97 | decoding the encoding of any byte string returns it |
| `Base64.EncodeInvertsDecode` | src/Worker/base64.cpp:13-97 | a text is the encoding of what it decodes to exactly when it is canonical: whole groups, padding only at the end and no stray bits |
| `Base64.EncodedIsCanonical` | src/Worker/base64.cpp:13-54 | every encoding is canonical |

## Left out

- Doubles: `decodeDouble`, `valueToString(double)`, `asDouble` and the range tests; a double is its text, and neither order nor equality of doubles is modelled.
- Comments: they are skipped where the reader skips them, but not collected, placed or written.
- JsonReader.Reader.ReadValue: of a partially read value only the kind is stated when the parse fails, not its contents; error positions and messages are not stated either.
- `OurReader`, `StyledStreamWriter`, `BuiltStyledStreamWriter`: near copies of what is modelled.
- The node stack holds the open values themselves and not pointers into the tree, so aliasing between the stack and the tree is not captured.
- JsonReader.Reader.Parse: `stackDepth_g` is one static variable shared by all readers and threads; here each reader has its own, so parallel parses that disturb each other's depth are not covered.
- JsonRoundTrip.ParseInvertsWrite: values with doubles, with null string pointers or with keys out of order are not covered; FastWriter prints the first as text the double parser would have to read back, and the second as nothing.
- JsonExactness.ParseAcceptsExactly: of the documents that are not accepted it is not stated which fail and which throw, beyond that a text of the language nested too deep throws.
- JsonIndentation.StyledIsIndented: values with null string pointers are excluded, because nothing is written for one and the closing bracket behind it stays on its line; the layout says so. Doubles are taken to be printed as words without brackets.
- JsonOrder.Trichotomy: sparse arrays are excluded, and containers of 2^31 entries or more, on which OrderedExactlyBelowTwo31 shows that the order fails.
- Key lengths of 2^30 and more, which are cut to 30 bits, and strings of 2^31 bytes and more, which throw.
- `CZString` ownership, prefixed strings, `malloc` and `free`, iterators, and the conversions between value types.
- The int overflow of `size * 3` in `isMultineArray` for arrays beyond 7 * 10^8 elements.
- JsonPath.ParseIndex: a format argument `%` is treated as never supplied; with arguments the code does not match the closing bracket properly.
- JsonPath.Resolve: `make` and the variant of `resolve` without a default are not modelled.
- LinkedRing.LinkedList.Add: the element must not be linked in already, which the code leaves to its callers.
- LinkedRing.LinkedList.Del: `entry` computes the element from the address of its embedded node; here an element and its node are one object, so the pointer offset is not captured.
- WaitList.WaitList.Get: the waiting is modelled in WorkerProtocol, where lock, wait and unlock are steps of their own; the timed `get` is not modelled.
- WorkerProtocol.WorkersAreConserved: what `retrieve_worker` does with a worker is outside (the http server is not part of this model); `parse_worker` may succeed, fail or throw; nothing in it or in `svc` catches, so a throw is taken to end the process (`task_base` is not part of this model). A worker is submitted again only after its last submission has ended: linking a node in twice would break the ring, and the code leaves that to the caller.
- WorkerProtocol.StopNeverBlocks: no scheduler is modelled, so that `join` returns is stated as: every move of a worker thread counts down to its exit, and some move is always possible.
- Thread creation and signals of the process (`task_base` is not part of this model).
- ChunkedBody.ParseHttpContentChunk: it is stated for buffers on which the loop ends; DivergesExactlyWhenStuck says which those are.
- `readHttpResponse`, `readHttpIs_Chunk`, `readHttpConten_Length`, `ParseHttpHeader`: sockets, timeouts and header fields.
- `URLEncode`, `URLDecode`: they would only add easy members.
- ConfigMap.ConfigMap.EnumValue: the list of siblings that the iterator stands in is a ghost argument, for every place it can stand; that values inserted later in front of it are not enumerated follows from `AddChild` and is not stated on its own.
- `config_map::import`: file reading and its line grammar; `strip` uses the white space of the C locale.
- Configuration, logging, output packages and request types: settings and lookup tables.
