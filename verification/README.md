# A model of the JSON engine and the RTT matching of Tcppass

Two parts of the repository are modelled here and proved correct.

**The JSON engine (`common/json`).** Its scanner is a byte-driven pushdown machine with a one-byte undo and
sticky errors. Its language is section 2 of RFC 4627 with any value at top level, plus `//` comments. `Grammar`
gives that language as syntax trees; `Scanner` gives the machine as a transition function, `ScannerState` as the
object with its mutable fields. The language of the machine is proved to be that of the grammar, and its opcodes
to announce the tree (`Recognition`, `Soundness`, `Unambiguous`, `Rejection`); its errors appear exactly where
no continuation is a text (`Viability`, `Diagnoses`). Everything that runs on the opcodes is built on that: the
recursive decoder (`DecodeText`, `Decoding`), `compact` and `HTMLEscape` (`Escaping`, `Trees`, `Compacting`,
`CompactResults`, `CompactLoops`), `Indent` (`Indenting`, `IndentLoops`), and the stream decoder (`Cuts`,
`Streams`). `Utf8`, `Quote` and `QuoteLoops` hold the string printer and parser over raw bytes. Some modules say
in plain characters what all this amounts to for a reader of the texts: `Spellings` for the grammar, `Meanings`
for what texts decode to, `QuoteSpellings` for strings, `EscapeSafety` and `Density` for what is escaped and
dropped, and `Layouts` for lines and indents. Two separate algorithms of the package are field selection
(`FieldOrder`, `Fields`) and the case-folding comparators (`Fold`).

**RTT matching and streams (`common/cache`, `tcpassembly`).** `LinkedLists` is the linked ring, `RttModel` the
sequence the cache keeps, `RttCaches` the cache itself. `TcpModel` gives the life of a stream as values,
`TcpSamples` its round-trip samples, `TcpMatching` which packet an acknowledgement finds, `TcpStreams` the
connection and stream objects, `TcpLedger` and `TcpPool` the pool, the assembler and the account of all
lifetimes, `TcpRuns`, `TcpLifetimes` and `TcpHistory` whole histories. Packets, timer ticks and flushes are
atomic steps.

The classes keep the mutable fields of the source. Each method is proved against a function of the old state;
the lemmas are about those functions.

## Findings

The model follows the code where the code and its comments disagree.

- A comment before a value leads to the state after `[`. So an array may end in a comma, a comment and a bracket.
  The comment in `arrayInterface` that the bracket "can only happen on first iteration" does not hold there; the
  look-ahead handles it all the same.
- Such an array loses its comment in `compact` and `Indent`, and what they print is not accepted
  (`Comments.HoleBreaksPrinters`). `CompactAccepted` and `IndentAccepted` say exactly when output is accepted.
- `compact` tests for U+2028 and U+2029 before it asks the scanner whether to skip, and without looking at the
  escape flag. A separator in a comment is printed as an escape (`Comments.LeakBreaksCompact`).
- A comment before a stray `]` is returned as a value by `nextValue` and by the stream decoder, whose `Decode` then
  reports the out-of-phase error (`Comments.StrayCommentIsCut`, `Streams.Means`); `Comments.CutIsText` gives the
  exact condition.
- `SyntaxError.Offset` is documented as the number of bytes read. `compact` and `nextValue` count none, so their
  errors have offset 0, or -1 for a slash that opens no comment, which is right only for the empty text
  (`Diagnoses.CountingMatters`). The stream decoder counts the byte behind a value again with the next one, unless
  the value closes itself or the stream ends (`Streams.LookAheads`, `Streams.CallsReturnPieces`).
- The stream of a key that is its own reverse is never closed by packets (`TcpModel.SelfReverseStaysOpen`,
  `TcpModel.ClosesExactly`, `TcpRuns.SelfReverseInPool`).
- The cache forgets by position, not by number: the acknowledgement of a packet that came out of order takes away the
  samples of packets sent before it (`TcpMatching.BelatedLosesSample`), and an acknowledgement one short of a packet
  takes its sample (`TcpMatching.OneShortTakesSample`). `PullLeaves` says exactly what stays, and `AckAcross` when a
  sample is found.
- A negative sample is counted but not summed, and can push the average below the minimum
  (`TcpSamples.LateStampBreaksAverage`, `TcpRuns.LateStampInPool`); `AverageExact` says exactly when it does not.

## Model

| member | source | states |
|---|---|---|
| Soundness.Language | common/json/scanner.go:20-32 | the stack machine accepts a byte string exactly when the grammar derives it: any value at top level, comments before a value, before a key and after a member or element, and the array ending comma, comment, bracket |
| Spellings.OneByteTexts | common/json/scanner.go:200-240 | the texts of one byte are the ten digits |
| Spellings.BeforeZero | common/json/scanner.go:200-240 | a zero may be preceded by one byte: the four characters of white space, a minus sign, or a digit other than zero |
| Spellings.PlainCharacter | common/json/scanner.go:410-423 | inside quotes stands any byte but a control character, a quote or a backslash |
| Spellings.EscapeLetter | common/json/scanner.go:426-437 | the eight letters of an escape, in their own characters |
| Spellings.HexDigits | common/json/scanner.go:470-477 | the digits of a hexadecimal escape, in either case |
| Spellings.TrueThen | common/json/scanner.go:401-407 | behind a value at top level stands white space and nothing else |
| Soundness.ParseDocument | common/json/scanner.go:189-407 | soundness: every accepted byte string is the yield of a well-formed syntax tree |
| Recognition.DocumentReads | common/json/scanner.go:189-407 | completeness: the yield of every well-formed tree is accepted, and its opcodes announce exactly the tree |
| Unambiguous.OneTree | common/json/scanner.go:189-407 | a text has only one tree, so what it means is unique |
| Rejection.JsonIffWf | common/json/scanner.go:410-662 | a tree whose gaps and literals are merely sane yields an accepted text only if it is well formed |
| Scanning.FitsStep | common/json/scanner.go:189-407 | every transition keeps the top of the stack in step with the state, moves the depth with the begin and end codes, and reports an error exactly when it enters the error state |
| Scanning.RunFits | common/json/scanner.go:166-182 | in every run the stack depth is begin codes minus end codes, the top entry fits the state and a finished top-level value leaves the stack empty |
| Scanning.DeadForever | common/json/scanner.go:664-675 | errors are sticky |
| ScannerState.Scanner.PopParseState | common/json/scanner.go:172-182 | a pop never meets an empty stack, and a pop to the empty stack ends the top-level value |
| ScannerState.Scanner.StateBeginValue | common/json/scanner.go:200-240 | the state function takes exactly the specified transition, with its opcode, error and byte count |
| ScannerState.Scanner.StateEndValue | common/json/scanner.go:344-397 | as above, for the end of a value in each of the three contexts |
| ScannerState.Scanner.StateMaybeComment | common/json/scanner.go:272-280 | a missing second slash is rejected and takes back the byte count of the first |
| ScannerState.Scanner.Feed | common/json/scanner.go:189-709 | a call of the current state function takes one specified transition, or replays an undone opcode without moving |
| ScannerState.Scanner.Eof | common/json/scanner.go:148-163 | the end is accepted exactly in a finished value or one that a space would finish; otherwise an error is set |
| ScannerState.Scanner.Undo | common/json/scanner.go:694-702 | the next call returns the given code again; a second undo in a row, where the source panics, is excluded (BackUp never needs it) |
| ScannerState.CheckValid | common/json/scanner.go:20-32 | no error exactly when the text is in the language; otherwise the error, its offset included, of the first mistake or of the end |
| Viability.ViablePrefix | common/json/scanner.go:189-407 | the scanner has met an error exactly when no continuation of what it has read is a text |
| Diagnoses.DiagnosisExact | common/json/scanner.go:664-675 | an error is reported exactly for a text that is rejected, and points behind the first byte after which no continuation is a text, or at the end; a slash that opens no comment takes it back to itself; a caller that counts no bytes leaves it where the count stood |
| Diagnoses.CountingMatters | common/json/scanner.go:60-60 | uncounted bytes put the error in the wrong place for every rejected text but the empty one: it is that of the start, or one before it |
| Diagnoses.DiagnosisNames | common/json/scanner.go:664-691 | the error names the first byte without a continuation, or the slash that opens no comment; at the end the imaginary space, if that is a mistake, or nothing |
| ScannerState.NextValue | common/json/scanner.go:37-54 | value and rest are the text split at the specified cut; there is none exactly when an error is returned, which is that of the first mistake, its place that of the start since no byte is counted |
| Utf8.DecodeOfEncode | common/json/encode.go:783-853 | decoding the encoding of a scalar value gives it back, whatever follows (section 4 of RFC 3629) |
| Utf8.EncodeOfDecode | common/json/decode.go:958-966 | a well-formed start decodes to the scalar value it encodes |
| Utf8.CoerceKeeps | common/json/encode.go:783-853 | replacing malformed bytes by U+FFFD changes a string exactly when it is not well-formed UTF-8 |
| Utf8.CoerceWellFormed | common/json/decode.go:938-1050 | the replaced string is well formed |
| QuoteLoops.EncodeString | common/json/encode.go:783-853 | the loop over start and i writes the quoted string and returns its length |
| QuoteLoops.UnquoteBytes | common/json/decode.go:938-1050 | the loop over r and w, in a buffer that grows and is never written outside, computes the unquoted string or fails where the specification does |
| QuoteLoops.UnquoteEscapeU | common/json/decode.go:999-1023 | one escape of four digits or a surrogate pair; a lone surrogate becomes U+FFFD |
| QuoteSpellings.LetterEscapes | common/json/decode.go:986-1010 | what each letter escape stands for, in numbers: backspace, form feed, newline, return, tab, and four characters that stand for themselves |
| QuoteSpellings.LettersAreUnits | common/json/decode.go:986-1010 | each letter escape may be put for the four digits of its character, in either case, before anything |
| QuoteSpellings.UnitEscape | common/json/decode.go:1011-1033 | four digits, each in either case, stand for the character of that number, unless it is half of a pair |
| QuoteSpellings.PairEscape | common/json/decode.go:1011-1033 | every character beyond U+FFFF, written as its two UTF-16 units (section 2.1 of RFC 2781), stands for its UTF-8 form |
| QuoteSpellings.LoneHalf | common/json/decode.go:1016-1031 | half of a pair without the other stands for U+FFFD, and what follows is read as it is |
| QuoteSpellings.NoOtherEscape | common/json/decode.go:984-989 | no other letter is an escape |
| QuoteSpellings.PlainStandsFor | common/json/decode.go:1033-1041 | any other ASCII character stands for itself; a bare quote or control character makes the string invalid |
| QuoteSpellings.BeyondStandsFor | common/json/decode.go:1042-1047 | a well-formed character beyond ASCII stands for itself, and each malformed byte for U+FFFD |
| QuoteSpellings.Utf8Spelled | common/json/encode.go:783-853 | the examples of section 7 of RFC 3629, and the first and last character of each length |
| Quote.RoundTrip | common/json/encode.go:783-853 | unquoting a quoted string gives it with malformed bytes replaced, and gives it unchanged exactly when it is well-formed UTF-8 |
| Quote.UnquotedWellFormed | common/json/decode.go:938-1050 | strings mean exactly the well-formed UTF-8 strings, lone surrogates and malformed bytes included, and printing such a meaning keeps it |
| Quote.StringUnquotes | common/json/decode.go:938-1050 | every string of the grammar can be unquoted |
| Quote.QuotedIsString | common/json/encode.go:783-853 | what the encoder writes is a string of the grammar |
| QuoteSpellings.PrintsAscii | common/json/encode.go:786-821 | what is written for each ASCII character, in its own characters |
| QuoteSpellings.PrintsBeyondAscii | common/json/encode.go:822-847 | malformed bytes are written as `\ufffd` and the two separators as `\u2028` and `\u2029`; all else beyond ASCII is copied |
| EscapeSafety.QuotedSafe | common/json/encode.go:803-846 | what is written holds no `<`, `>` or `&` and neither separator |
| DecodeText.QuotedMeans | common/json/encode.go:783-853 | a quoted string is an accepted text, and it means the string with malformed bytes replaced |
| Decoding.DecodeState.ScanWhile | common/json/decode.go:230-246 | takes exactly the bytes that return the opcode and one more, or the end of the data |
| Decoding.DecodeState.BackUp | common/json/decode.go:815-818 | stepping back leaves the decoder logically before the byte it has looked at; the undo slot is free |
| Decoding.DecodeState.ValueInterface | common/json/decode.go:792-804 | a gap and a value decode to the meaning of the value, and the decoder stands right behind it |
| Decoding.DecodeState.ArrayInterface | common/json/decode.go:807-832 | the elements, in order; the look-ahead for the bracket also serves the ending after a comment |
| Decoding.DecodeState.ObjectInterface | common/json/decode.go:835-878 | the members entered in order, the last of equal keys winning |
| Decoding.DecodeState.LiteralInterface | common/json/decode.go:881-915 | the literal in its own bytes, although the scanner has read one byte too far |
| Decoding.DecodeState.Decode | common/json/decode.go:131-150 | an accepted text decodes to its meaning, never out of phase; comments alone put the decoder out of phase |
| Decoding.Unmarshal | common/json/decode.go:67-82 | with numbers kept as text: succeeds exactly on accepted texts, and returns exactly what the text denotes; otherwise the error is that of the first mistake |
| Meanings.LiteralMeans | common/json/decode.go:881-915 | `null`, `true`, `false`, a number and a string each have a meaning of their own, and no two literals share one except strings |
| Meanings.DenotesLiteral | common/json/decode.go:881-915 | a text denotes null, true, false, a number or a string exactly when it is spelled so, between a gap and white space |
| Meanings.ElementStands | common/json/decode.go:807-832 | the elements stand in the text one after another, with one comma between two of them |
| Meanings.DenotesArray | common/json/decode.go:807-832 | a text denotes an array exactly when it is the text of one, and item i is what the text of its element i denotes |
| Meanings.DenotesObject | common/json/decode.go:835-878 | a text denotes an object exactly when it is the text of one; a key is in it exactly when a member has it, with what the last such member denotes |
| CompactLoops.CompactInto | common/json/indent.go:15-58 | appends the compacted text exactly when the input is accepted, and otherwise leaves the buffer as it was and returns the error of the first mistake, with no byte counted |
| CompactLoops.HTMLEscape | common/json/encode.go:160-187 | appends the escaped text |
| CompactResults.CompactYields | common/json/indent.go:15-58 | the output is the yield of the tree without its gaps, but with the escapes that comments leak |
| CompactResults.CompactAccepted | common/json/indent.go:15-58 | the output is accepted exactly when no comment leaks an escape and no array ends in a comma and a comment |
| Trees.NeatIff | common/json/indent.go:15-58 | that condition, split into its two causes |
| CompactResults.CompactMeans | common/json/indent.go:15-58 | then the output means the same, and compacting again changes nothing |
| CompactResults.HtmlEscapeMeans | common/json/encode.go:160-187 | an escaped text is always accepted and means the same |
| CompactResults.EscapeThenCompact | common/json/encode.go:160-187 | escaping and then compacting equals compacting with escapes, exactly when no comment leaks |
| Escaping.EscapedBody | common/json/encode.go:160-187 | escaping inside a string keeps it a string of the same meaning |
| Escaping.EscapedTwice | common/json/indent.go:20-38 | escaping an escaped text changes nothing |
| EscapeSafety.EscapedSafe | common/json/encode.go:160-187 | escaping changes exactly the texts that hold one of the characters, and leaves none of them |
| EscapeSafety.EscapesSpelled | common/json/encode.go:160-187 | the five escapes in their own characters; every other byte stays |
| EscapeSafety.CompactSafe | common/json/indent.go:15-58 | what is printed for an accepted text holds no separator and, with escapes, no `<`, `>` or `&` |
| Density.CompactDense | common/json/indent.go:15-58 | for a neat text every byte printed belongs to a token: no white space and no comment is left |
| IndentLoops.IndentInto | common/json/indent.go:75-137 | appends the indented text exactly when the input is accepted, and otherwise leaves the buffer as it was and returns the error of the first mistake, with its place |
| IndentLoops.DepthIsStackDepth | common/json/indent.go:79-125 | in every run that meets no error, depth plus the pending flag is the depth of the stack |
| Indenting.IndentYields | common/json/indent.go:75-137 | the output is the yield of the tree with its gaps laid out by depth |
| Layouts.NewlineBreaks | common/json/indent.go:60-66 | a line break of depth n is a newline, the prefix and n copies of the indent, byte by byte |
| Layouts.IndentLaidOut | common/json/indent.go:75-137 | the output byte by byte: gaps go, every other byte stays, a line starts after a comma, after an opening bracket and before the closing one unless nothing is between them, and carries one indent for each bracket then on the stack of the scanner; a space follows a colon |
| Indenting.IndentAccepted | common/json/indent.go:75-137 | with blank prefix and indent the output means the same, and is accepted exactly when no array ends in a comma and a comment |
| Indenting.IndentThenCompact | common/json/indent.go:75-137 | with blank prefix and indent, when no array ends in a comma and a comment, so that the indented text is accepted: compacting it equals compacting the original, exactly when no comment leaks |
| Comments.PrintersKeepMeaning | common/json/indent.go:15-137 | without comments every printer prints an accepted text of the same meaning |
| Comments.PrintersCommute | common/json/indent.go:15-137 | without comments compacting is idempotent, ignores a previous indentation, and commutes with escaping |
| Comments.HoleBreaksPrinters | common/json/scanner.go:272-287 | an array ending in a comma and a comment is accepted, but its compacted and indented forms are not |
| Comments.LeakBreaksCompact | common/json/indent.go:29-38 | a separator inside a comment is printed as an escape, even when no escapes are asked for, and spoils the output |
| Comments.StrayCommentIsCut | common/json/scanner.go:37-54 | a comment before a stray bracket is cut off as a value although it is none |
| Cuts.CutText | common/json/scanner.go:37-54 | what is cut off is never empty, and is an accepted text or comments before a stray bracket |
| Cuts.CutDocument | common/json/stream.go:83-96 | a text without white space at its end is cut off whole exactly when it does not end in a number that the next byte makes longer (`0` before `1` is cut, `1` before `1` is not) |
| Cuts.CutWhole | common/json/stream.go:83-96 | any text before any bytes is cut off whole exactly when it does not end in white space, and the next byte is white space or makes it a start of no text |
| Comments.CutIsText | common/json/scanner.go:37-54 | what is cut off is a text exactly when the input does not begin with comments before a stray bracket |
| Cuts.FirstCutIsCut | common/json/stream.go:108-118 | a stream that breaks off yields the same first cut, unless only the end would have finished the value |
| Cuts.StrayCut | common/json/scanner.go:189-197 | comments before a stray bracket are always cut off |
| Cuts.PiecesConserve | common/json/scanner.go:37-54 | the pieces of repeated cuts and what they leave concatenate to the input |
| Cuts.PieceOfDocument | common/json/stream.go:70-128 | the first piece is the text in front, and the others are those of the rest, exactly when no number at its end goes on |
| Cuts.PiecesOfTexts | common/json/stream.go:70-128 | any number of texts one after another, before any bytes, are cut into those texts exactly when each is parted from what follows it; the remainder is then that of the bytes behind them |
| Streams.Reader.Read | common/json/stream.go:120-123 | a read of any size, with the end of the stream, or the error in which it breaks off, reported with or after the last bytes |
| Streams.Decoder.ReadValue | common/json/stream.go:70-128 | for any chunking, the length of the first cut of everything ahead, no byte lost; at a failure the error tells malformed, with its mistake and place, from empty, unfinished and broken streams, and stays; the byte looked at behind a value stays counted |
| Streams.Decoder.LookAt | common/json/stream.go:83-105 | one byte: an end may be seen one byte late, or provoked by an invented space that changes nothing |
| Streams.Decoder.AtEof | common/json/stream.go:108-118 | at the end a space decides like the end of a whole text |
| Streams.Decoder.Slide | common/json/stream.go:55-57 | the overlapping copy in place leaves exactly the rest of the buffer |
| Streams.Decoder.Decode | common/json/stream.go:39-60 | returns the meaning of the first cut and leaves exactly the bytes behind it; a recorded error is returned again |
| Streams.StopsMeans | common/json/stream.go:98-111 | a stream is called malformed exactly when no continuation of what is ahead is a text |
| Streams.StopsTells | common/json/stream.go:98-118 | the end is reported exactly when what is ahead could stand behind a finished text, an unexpected end exactly when it is the beginning of something, an error of the reader exactly when nothing was wrong before it |
| Streams.CallsReturnPieces | common/json/stream.go:39-60 | in any history of calls the results are those of the pieces of the whole stream, one by one, and returned and remaining bytes concatenate to the stream; a stream that breaks off may leave one piece that its end would have finished; the byte count runs ahead by one for every piece that ended only in the byte behind it |
| Streams.StreamOfTexts | common/json/stream.go:39-60 | a stream that starts with texts, each parted from what follows, decodes call by call to their meanings, and after the last of them stands at the bytes behind it |
| FieldOrder.StrictWeakOrder | common/json/encode.go:956-986 | both comparisons are strict weak orders, and only fields alike in all that is compared are incomparable |
| FieldOrder.LexByFirst | common/json/encode.go:976-986 | the first difference decides, and what ends first comes first |
| FieldOrder.ByIndexLess | common/json/encode.go:976-986 | the loop decides lexicographic order |
| FieldOrder.ByNameLess | common/json/encode.go:956-967 | name, then depth, then tag, then index |
| Fields.DominantField | common/json/encode.go:1115-1145 | the one survivor of a name: the unique tagged field at least depth, or the unique field there |
| Fields.Filter | common/json/encode.go:1081-1101 | the filter in place keeps the survivors of each name and never overwrites an unread field |
| Fields.Select | common/json/encode.go:1073-1106 | from any list of fields: exactly the survivors, one of each name, in index order |
| Fields.SurvivesPermuted | common/json/encode.go:1073-1073 | which fields survive does not depend on the order of the list |
| Fold.FoldFunc | common/json/fold.go:33-55 | the comparator chosen is the cheapest whose assumptions the name meets |
| Fold.EqualFoldRight | common/json/fold.go:61-103 | agrees with equality under folding, rune by rune, against any bytes |
| Fold.AsciiEqualFold | common/json/fold.go:109-127 | the same, for names without special letters |
| Fold.SimpleLetterEqualFold | common/json/fold.go:133-143 | the same, for names of ordinary letters alone |
| Fold.MatchName | common/json/fold.go:33-143 | the comparator picked for an ASCII name decides equality under folding, malformed bytes included |
| Fold.BeyondAscii | common/json/fold.go:61-103 | of all that lies beyond ASCII, `k` matches the Kelvin sign and `s` the long s, in their UTF-8 bytes; no other letter matches any |
| Fold.EqualFoldSymmetric | common/json/fold.go:33-143 | among ASCII names folding is reflexive and symmetric |
| LinkedLists.LinkedList.Remove | common/cache/cache.go:211-217 | unlinks one element of the ring and keeps the rest linked both ways |
| LinkedLists.LinkedList.MoveToFront | common/cache/cache.go:91-96 | the element comes first, the others keep their order |
| LinkedLists.LinkedList.PushBack | common/cache/cache.go:97-98 | a new element comes last |
| RttCaches.AgreeDistinct | common/cache/cache.go:28-34 | list and map in bijection have distinct keys and the same size |
| RttCaches.RttCache.RemoveElement | common/cache/cache.go:211-217 | one entry leaves list and map together |
| RttCaches.RttCache.Push | common/cache/cache.go:82-100 | refines the sequence model: a new key joins at the back, a known one moves to the front with the new time; fails only when closed |
| RttCaches.RttCache.Pull | common/cache/cache.go:103-148 | refines the sequence model: a hit leaves the strict suffix after it, a miss sweeps; fails only when closed |
| RttCaches.RttCache.SweepFlow | common/cache/cache.go:126-139 | the loop of a miss computes the sweep of the sequence model |
| RttCaches.RttCache.Purge | common/cache/cache.go:150-166 | with a clock read again for every entry, terminates and leaves the purged sequence |
| RttCaches.RttCache.Remove | common/cache/cache.go:169-176 | only the entry of the key is gone |
| RttCaches.RttCache.RemoveAll | common/cache/cache.go:178-186 | empty and closed |
| RttCaches.RttCache.RemoveOldest | common/cache/cache.go:194-209 | the entry at the back is gone |
| RttCaches.RttCache.Len | common/cache/cache.go:220-227 | the length of the list is the size of the map |
| RttModel.SweepExact | common/cache/cache.go:126-139 | a miss removes exactly the entries of the flow before the first that is too new, and reports the last of them |
| RttModel.PushedOrder | common/cache/cache.go:82-100 | a push sets the time of its key, which comes first if it was known and last if not; all other entries stay in order |
| RttModel.PulledExact | common/cache/cache.go:103-148 | a pull returns the entry of its key and leaves what is behind it; where there is none, it returns the last entry that the sweep removes, exactly if that is a neighbour |
| RttModel.OwnAndOthers | common/cache/cache.go:126-139 | removed and kept entries are together all there were |
| RttModel.PurgeExact | common/cache/cache.go:150-166 | a purge removes the entries that have expired when they are looked at, up to the first that has not |
| RttModel.PurgeFixed | common/cache/cache.go:150-166 | at a fixed time, exactly the longest expired prefix |
| RttModel.PurgedAges | common/cache/cache.go:150-166 | in times: exactly the longest prefix of entries last seen before now less the duration, and nothing without a duration |
| RttModel.PushedKeeps | common/cache/cache.go:82-100 | keys stay distinct, and a push adds at most one entry |
| RttModel.PulledShrinks | common/cache/cache.go:103-148 | a pull that finds something removes at least one entry, of the same flow and within one of the key |
| RttModel.PulledSorted | common/cache/cache.go:103-148 | on a sorted list of one flow a pull leaves only entries above the acknowledged number, on hit and miss |
| RttModel.RunSorted | common/cache/cache.go:82-148 | in a run on one flow with increasing pushes the list stays sorted |
| RttModel.RunAcked | common/cache/cache.go:82-148 | in such a run whatever is left was pushed since, or lies above every acknowledged number |
| TcpModel.HandledHealthy | tcpassembly/conn.go:74-169 | every packet keeps samples plus remembered packets within the client packets, the cache open while the stream is, one flow in the cache, and not both directions ended |
| TcpModel.ClosesOnSecondEnd | tcpassembly/conn.go:74-109 | for a key other than its reverse, packets close a stream exactly when both directions have seen FIN or RST, and until then every packet is counted |
| TcpModel.ClosingPacketCounts | tcpassembly/conn.go:83-108 | the closing packet is still counted, both connections are closed, and nothing later changes either |
| TcpModel.SelfReverseStaysOpen | tcpassembly/stream.go:79-80 | a key that is its own reverse leads to the server side only, and packets never close its stream |
| TcpModel.ClosesExactly | tcpassembly/stream.go:79-80 | packets close a stream exactly when its key is not its own reverse and both directions have ended; closing when both have ended holds exactly for such a key, or while there was no end |
| TcpSamples.RunAggregates | tcpassembly/conn.go:149-167 | the aggregates of a run are those of its samples, in order |
| TcpSamples.AggregateIs | tcpassembly/conn.go:149-167 | every sample is counted, those that are not negative are summed and bounded, and the first is the SYN sample unless it is negative |
| TcpSamples.AverageExact | tcpassembly/conn.go:149-167 | in a lifetime the average lies between the extremes exactly when there are no samples, or some are not negative and the least of those, taken for every sample, does not exceed their total |
| TcpSamples.RunAverages | tcpassembly/conn.go:149-167 | so it does in every run without negative samples |
| TcpSamples.LateStampBreaksAverage | tcpassembly/conn.go:150-155 | a SYN and three more packets, the last stamped too early: samples 5 and -1, and an average below 5 |
| TcpSamples.QuotTruncates | tcpassembly/conn.go:149-152 | a sample is the time in whole microseconds, rounded toward zero |
| TcpMatching.AckOfLast | tcpassembly/conn.go:120-152 | the acknowledgement of the packet just sent yields the time in between as its sample, whatever the payload |
| TcpMatching.AckAcross | tcpassembly/conn.go:120-152 | so it does across any packets that neither repeat it nor acknowledge it (or something sent since, or one short of it) |
| TcpMatching.PullLeaves | common/cache/cache.go:103-148 | exactly which entries an acknowledgement leaves |
| TcpMatching.BelatedLosesSample | common/cache/cache.go:108-123 | a packet out of order, once acknowledged, takes the samples of those before it away |
| TcpMatching.OneShortTakesSample | common/cache/cache.go:141-147 | an acknowledgement one short of a packet takes its sample |
| TcpStreams.Conn.Reset | tcpassembly/conn.go:53-65 | a reset connection is like a new one, the reported counters and the traffic type included |
| TcpStreams.Conn.Stat | tcpassembly/conn.go:111-169 | counters, cache, samples and interface totals move as specified |
| TcpStreams.Conn.Handle | tcpassembly/conn.go:74-109 | one packet of one direction, as specified |
| TcpStreams.Conn.Close | tcpassembly/conn.go:67-72 | both connections and the stream are closed |
| TcpStreams.Stream.Reset | tcpassembly/stream.go:53-113 | fresh or recycled, the stream is in the same initial state: empty open cache, zero counters, both keys mapped, connections linked to each other |
| TcpStreams.Stream.Close | tcpassembly/stream.go:176-186 | the stream is empty and can be opened again; closing twice changes nothing |
| TcpStreams.Stream.Deliver | tcpassembly/stream.go:149-160 | one queued packet, as specified; a packet of another key changes nothing |
| TcpLedger.SumCredit | stat/stat.go:67-81 | crediting a packet to one lifetime changes the sum for its interface alone |
| TcpLedger.CountsHandled | tcpassembly/conn.go:111-147 | a stream counts exactly what its interface is credited with |
| TcpPool.StreamPool.Grow | tcpassembly/streampool.go:31-40 | one growth makes as many streams as come next and doubles that number: after g growths 8192 (2^g - 1) streams exist and 8192 2^g come next |
| TcpPool.StreamPool.NewStream | tcpassembly/streampool.go:52-70 | a free stream is opened and filed, with one new page that is empty; the partition, every other page and every other stream are kept |
| TcpPool.StreamPool.GetStream | tcpassembly/streampool.go:72-88 | the stream of the key or its reverse, and no page changed; only a first SYN opens one, with a new page |
| TcpPool.StreamPool.CloseStream | tcpassembly/stream.go:176-186 | a closed stream is free again and filed nowhere |
| TcpPool.StreamPool.Dispatch | tcpassembly/stream.go:141-174 | a packet moves its stream as specified and removes it when it closes; only the page of the stream changes, to what the stream has counted, and only the counters of its interface, by the packet |
| TcpPool.StreamPool.Tick | tcpassembly/stream.go:162-165 | a stream not seen for two minutes is closed |
| TcpPool.StreamPool.FlushOlderThan | tcpassembly/assembler.go:42-51 | exactly the streams not seen since are closed |
| TcpPool.StreamPool.AddUser | tcpassembly/assembler.go:16-21 | a new interface starts at zero and nothing else changes |
| TcpPool.Assembler.Assemble | tcpassembly/assembler.go:28-40 | one captured packet, located or opened, then dispatched: streams in use, pages and the counters of every interface afterwards are those specified |
| TcpPool.RecordsHandled | stat/stat.go:67-81 | writing a packet on the page of its stream keeps every lifetime on its own page and adds the packet to the sum of its interface alone |
| TcpHistory.HistoryTracks | tcpassembly/assembler.go:28-51 | the lifetimes of a history are those of the pool: at every time those not ended are the streams in use |
| TcpHistory.HistoryKeepsEnded | tcpassembly/stream.go:176-186 | nothing touches a lifetime that has ended |
| TcpHistory.LedgerFollows | tcpassembly/conn.go:111-147 | the pages that the pool keeps, step by step, are those of the lifetimes |
| TcpHistory.CountersAreSums | tcpassembly/conn.go:116-147 | from any state of the pool on, whatever happens, counters that equal the sums over all lifetimes go on to do so |
| TcpHistory.TotalsConserved | tcpassembly/conn.go:116-147 | after any history of packets, ticks and flushes from an empty pool, each counter of an interface is the sum over the ended lifetimes of its streams and those still open |
| TcpRuns.RunOrderly | tcpassembly/assembler.go:28-51 | in every history of packets, ticks and flushes each stream in use is open, healthy and filed under its key, and none under the reverse of another |
| TcpRuns.SamplesCovered | tcpassembly/conn.go:111-169 | in every history samples plus remembered packets never exceed the client packets, and an open stream has an open cache |
| TcpRuns.ArrivalsRun | tcpassembly/assembler.go:28-40 | as long as it stays open, a stream has in the pool the state that its packets alone give it |
| TcpRuns.LateStampInPool | tcpassembly/conn.go:150-155 | from the empty pool and a first SYN, four packets lead to an average below the least sample |
| TcpRuns.SelfReverseInPool | tcpassembly/stream.go:79-80 | a SYN and a FIN of a flow that is its own reverse: both directions have ended and the stream is still in use |
| TcpLifetimes.LastSeen | tcpassembly/stream.go:156-158 | a stream was last seen at the latest of its packets, in whatever order they are stamped |
| TcpLifetimes.LifetimeOf | tcpassembly/assembler.go:28-51 | every stream in use, after any history, is what its own packets have made of it since the first SYN that opened it |
| TcpLifetimes.FirstSynOpens | tcpassembly/streampool.go:72-88 | a first SYN of a flow that is not in use opens a stream |
| TcpLifetimes.StaysWhenSeen | tcpassembly/assembler.go:42-51 | a flush, or a tick two minutes later, keeps a stream exactly when one of its packets, the opening SYN included, is stamped at or after the time |
| TcpLifetimes.LifetimeCounts | tcpassembly/conn.go:111-147 | what a stream in use has added to its interface: sent, the packets and bytes of the client since it was opened; received, those of the server |

## Left out

- Decoding into typed Go values and encoding from them by reflection: calls into the reflect package. Decoding
  is modelled into the generic value only.
- Decoding.Unmarshal: keeps the text of a number, as `UseNumber` does. The source's `Unmarshal` cannot set that;
  it converts to floating point and reports a range error for an accepted text such as `1e999`, which is not
  modelled.
- The walk over the graph of struct types that collects fields, and the parsing of struct tags: selection starts
  from any list of fields. `sort.Sort` is represented by an insertion sort, of which only the sorted permutation
  is used.
- `bytes.EqualFold` for names that are not ASCII: a library function.
- `stringBytes`, which is `string` again over a byte slice; the texts of error messages; `Marshal`, `Encoder`,
  `RawMessage`.
- Flows are compared as values, while the cache and `key.Equal` compare their printed forms.
- Widths: counters, times and sequence numbers are unbounded integers. Sequence numbers are not wrapped, as in
  `conn.go`.
- TcpPool.StreamPool.GetStream: is one step. The window between the lookup and the creation, in which another
  goroutine may create the same stream, is not modelled; it could break the partition proved here.
- TcpPool.StreamPool.Dispatch: drains the queue between `handle` and `dump` at once, so that a packet is one
  step. A `dump` loop that outlives the recycling of its stream is not modelled; it could break the invariants
  of a stream.
- TcpStreams.Stream.Close: does not itself return the stream to the pool, as the source does as the last act of
  closing; the pool does that in the same step (`StreamPool.Remove`).
- TcpPool.StreamPool.Grow: the pool keeps all streams in one list, while the source keeps the chunks they were
  made in.
- Traffic classification, HTTP parsing, capture, statistics formatting, configuration, logging and file
  rotation.
- `Difference` and `Add` of sequence numbers, which nothing calls.
