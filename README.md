# Neon compiler front end — a Dafny model

This project models the lexical front end of the Neon compiler and proves
properties of that model. It covers:

- **Character cursor** (`reading/char_reader.cpp`). A peek/consume reader over a
  byte stream. It keeps a lookahead buffer and turns `\r\n` and a lone `\r` into
  `\n`. Each buffered character carries its source position: offset in the file,
  newline count and offset in the line. The stream is a `seq<char>` with a cursor.
  `CharReader` is a class with the source's fields. Its ghost `Remaining()` is
  the sequence of characters still to be consumed.
- **Lexer** (`neon_compiler/lexer/lexer.cpp`). The `Lexer` class drives a
  `CharReader` and appends tokens and non-fatal errors to two sequences. Each
  method is proved against functions on the remaining characters, found in module
  `LexicalRules`: `WordStep`, `NumberStep`, `StringStep`, `CharStep`, `SymbolStep`,
  `NextStep` and `LexAll`. The properties of the lexer are proved about those
  functions.
- **Keyword table** (`neon_compiler/token.cpp`). It holds the 40 spellings with
  their token types.
- **Token cursor** (`neon_compiler/token_reader.cpp`). Bounded lookahead with a
  32-bit index that clamps reads to the last token.
- **Parser entry** (`neon_compiler/parser/parser.cpp`). It checks for the
  package keyword and hands over the errors.
- **Identifiers** (`neon_compiler/ast/identifiers.hpp`). `to_string` joins the
  parts with `::`.
- **Console reporter** (`neon_compiler/analysis/impl/console_analysis_reporter.cpp`).
  It writes one line per analysis entry. The output stream is the sequence of
  characters written to it.

Behaviour of the code as written that the model keeps:

- `peek` past the end of input answers `' '`. `consume` on an empty buffer does
  nothing.
- `eof_reached` is never set. Every read past the end still advances
  `offset_in_file` and `offset_in_line` (`ReadNextByte`).
- Because of the two points above, `skip_whitespace` never returns once it is
  entered with only whitespace left (`SkipWhitespaceAsWrittenNeverEnds`). So
  `run` never returns when a complete token is followed only by whitespace.
  Trailing whitespace that a literal takes as its own characters (`"ab ` or
  `' `) leaves nothing behind, and `run` then ends. `SkipWhitespace` models the
  loop as written, on the inputs where it returns. `Lexer.Run` uses the corrected
  `SkipWhitespaceToEnd`, which also stops at the end of input (see Findings).
- The string loop tests `!escape_sequence && c != '"'`. That makes the escape
  branch and the merge branch dead code. A backslash ends a string literal, and
  adjacent string literals are never merged.
- The lexer calls `get_line_number()` and `get_column_number()`, which the reader
  does not declare. The model reads them from `get_source_position()`, as
  `newlines_count` and `offset_in_line`.
- A string or character token's length is `get_column_number() - column` on
  `uint32_t` (`Util.Uint32Diff`). It wraps exactly when the column read at the
  end is smaller than the token's column, which needs a later line. It always
  wraps for an unterminated `'a`, or a string stopped by `\`, with a newline
  buffered after it. When the opening quote is at column 2 or later, it also
  wraps for a character literal whose character is a raw newline (`'⏎'`, `'⏎`,
  `'\⏎`), and for an unterminated string whose last character is its only raw
  newline. A closed literal followed by a newline does not wrap: nothing peeks
  past its closing quote.
- The token type enumeration of `token.hpp` lacks `LITERAL_CHARACTER` and
  `END_OF_FILE`. The lexer and the token reader use both, so the model adds them.

Where the code and the design description disagree, the model follows the code:

- The lexer does not append an `END_OF_FILE` token (`LexAllHasNoEndOfFile`).
- Number literals keep `_` and get no validation errors.
- Adjacent string literals are not merged.
- `'ab'` gives unterminated-literal errors, not a "too long" error.

## Model

| member | source | states |
|---|---|---|
| `Reading.NormalizeHasNoCarriageReturn` | reading/char_reader.cpp:18-26 | no `\r` survives newline normalisation |
| `Reading.NormalizeIdentity` | reading/char_reader.cpp:18-26 | input without `\r` is delivered unchanged |
| `Reading.NormalizeIdempotent` | reading/char_reader.cpp:18-26 | normalising twice equals normalising once |
| `Reading.Normalize` | reading/char_reader.cpp:18-26 | the normalised text is never longer than the input, and is empty only for empty input |
| `Reading.CharReader.constructor` | reading/char_reader.cpp:7-8 | a new reader has an empty buffer, position (0, 0, 0), and the normalised input remaining |
| `Reading.CharReader.ReadNextByte` | reading/char_reader.cpp:38-47 | gives the next byte or `None` at the end; both offsets advance by one either way, because `eof_reached` is never set |
| `Reading.CharReader.StreamPeek` | reading/char_reader.cpp:21 | the stream's next byte without taking it, `None` at its end |
| `Reading.CharReader.ReadNext` | reading/char_reader.cpp:10-36 | a `\r\n` pair or a lone `\r` is delivered as one `\n`, and the pair advances the file offset by 2; a delivered `\n` increments the newline count and gets line offset 0; any other character advances the line offset; the character is tagged with the new position |
| `Reading.CharReader.Peek` | reading/char_reader.cpp:58-78 | answers the k-th remaining character, or `' '` when fewer than k+1 remain; the remaining characters are unchanged and the reader's position never moves back |
| `Reading.CharReader.ReadAhead` | reading/char_reader.cpp:62-70 | one turn of the loop of `peek`: one more character buffered, or the end of the stream with everything that remains already buffered; the position never moves back |
| `Reading.CharReader.ConsumeFromBuffer` | reading/char_reader.cpp:90-96 | drops the oldest buffered character; does nothing on an empty buffer; the position never moves back, because buffered characters carry increasing file offsets |
| `Reading.CharReader.Consume` | reading/char_reader.cpp:80-88 | answers what `peek(k)` answers and removes min(k+1, remaining) characters from the front; the position never moves back |
| `Reading.CharReader.EndOfFileReached` | reading/char_reader.cpp:98-102 | true iff no character remains in buffer or stream; nothing is consumed and the position never moves back |
| `Reading.CharReader.GetSourcePosition` | reading/char_reader.cpp:104-111 | the position of the oldest buffered character, else the stream's own counters |
| `Reading.CharReader.ConsumeIfMatches` | reading/char_reader.cpp:113-121 | removes one character iff the peeked character equals `m`; otherwise the remaining input is unchanged; the position never moves back |
| `Reading.CharReader.ConsumeAllIfNext` | reading/char_reader.cpp:123-137 | for non-empty `s`: removes \|s\| characters iff the next \|s\| peeked characters spell `s`, and nothing otherwise; the position never moves back |
| `Tokens.KeywordLookupInTable` | neon_compiler/token.cpp:39-82 | a lookup answers only for a spelling of the 40-entry table, and with the type the table pairs with it |
| `Tokens.KeywordToTokenType` | neon_compiler/token.cpp:39-82 | the lookup itself, one exact comparison per spelling; its properties are the rows `KeywordLookupInTable` to `KeywordsAreOnlyKeywordTypes` |
| `Tokens.KeywordEntries1To5` | neon_compiler/token.cpp:41-45 | "pkg" … "inner" map to their types |
| `Tokens.KeywordEntries6To10` | neon_compiler/token.cpp:46-50 | "static" … "mut" map to their types |
| `Tokens.KeywordEntries11To15` | neon_compiler/token.cpp:51-55 | "own" … "constructor" map to their types |
| `Tokens.KeywordEntries16To20` | neon_compiler/token.cpp:56-60 | "super" … "extendable" map to their types |
| `Tokens.KeywordEntries21To25` | neon_compiler/token.cpp:61-65 | "final" … "true" map to their types |
| `Tokens.KeywordEntries26To30` | neon_compiler/token.cpp:66-70 | "false" … "void" map to their types |
| `Tokens.KeywordEntries31To35` | neon_compiler/token.cpp:71-75 | "if" … "while" map to their types |
| `Tokens.KeywordEntries36To40` | neon_compiler/token.cpp:76-80 | "serialising" … "copy" map to their types |
| `Tokens.KeywordTypeSpelling1To10` | neon_compiler/token.cpp:41-50 | each of these ten types is the answer for one spelling only |
| `Tokens.KeywordTypeSpelling11To20` | neon_compiler/token.cpp:51-60 | each of these ten types is the answer for one spelling only |
| `Tokens.KeywordTypeSpelling21To30` | neon_compiler/token.cpp:61-70 | each of these ten types is the answer for one spelling only |
| `Tokens.KeywordTypeSpelling31To40` | neon_compiler/token.cpp:71-80 | each of these ten types is the answer for one spelling only |
| `Tokens.KeywordTableInjective` | neon_compiler/token.cpp:41-80 | no two spellings share a token type |
| `Tokens.MutSpellingsDiffer` | neon_compiler/token.cpp:49-50 | "mut:" is MUTABLE_REFERENCE and "mut" is MUTABLE_DECLARATION |
| `Tokens.KeywordMatchingIsExact` | neon_compiler/token.cpp:41-82 | matching is exact and case-sensitive: "Pkg", "pkg:" and "" map to nothing |
| `Tokens.ColonKeywords` | neon_compiler/token.cpp:49-67 | the only spellings ending in `:` are "mut:" and "auto:" |
| `Tokens.KeywordsAreOnlyKeywordTypes` | neon_compiler/token.cpp:39-82 | literal, identifier, symbol and end-of-file types are never the answer of the lookup |
| `LexicalRules.IsAlpha` | neon_compiler/lexer/lexer.cpp:342-345 | an ASCII letter, never a digit, a space or a quote, so the branches of `tokenise_next` do not overlap |
| `LexicalRules.IsDigit` | neon_compiler/lexer/lexer.cpp:347-350 | an ASCII digit, never a space or a quote |
| `LexicalRules.IsSpace` | neon_compiler/lexer/lexer.cpp:352-355 | a blank, a tab or a newline |
| `LexicalRules.ConvertEscaped` | neon_compiler/lexer/lexer.cpp:357-370 | answers exactly for the seven escape letters `n r t 0 " ' \` |
| `LexicalRules.ConvertSingleCharToken` | neon_compiler/lexer/lexer.cpp:372-386 | answers exactly for `{ } ( ) < > ; ,`, never with STATIC_ACCESSOR or CUSTOM_TOKEN |
| `LexicalRules.ConvertEscapedDomain` | neon_compiler/lexer/lexer.cpp:357-370 | each known escape letter stands for a different character |
| `LexicalRules.ConvertSingleCharTokenDomain` | neon_compiler/lexer/lexer.cpp:372-386 | no two of the eight mapped characters share a type |
| `LexicalRules.WordRunEnd` | neon_compiler/lexer/lexer.cpp:84-91 | a letter followed by the maximal run of letters, digits and `_` |
| `LexicalRules.WordText` | neon_compiler/lexer/lexer.cpp:78-96 | the word is the run plus one trailing `:` exactly when a `:` follows it |
| `LexicalRules.WordToken` | neon_compiler/lexer/lexer.cpp:101-132 | a keyword gives its type with no lexeme, any other word IDENTIFIER with the word verbatim; the length is the word's length |
| `LexicalRules.WordStep` | neon_compiler/lexer/lexer.cpp:78-132 | the word branch: the token of `WordToken` for the word of `WordText`, which it takes whole, with no error |
| `LexicalRules.WordTokenLexeme` | neon_compiler/lexer/lexer.cpp:101-131 | a word token has a lexeme iff it is an identifier |
| `LexicalRules.NumberStep` | neon_compiler/lexer/lexer.cpp:134-174 | the lexeme is exactly the consumed characters: the maximal run over `[0-9A-Za-z._]`, which includes a `0x`/`0b` prefix; no error |
| `LexicalRules.NewlineErrorsAreNewlines` | neon_compiler/lexer/lexer.cpp:219-224 | string newline errors are NEWLINE_IN_STRING_LITERAL only, and none for text without a newline |
| `LexicalRules.StringEnd` | neon_compiler/lexer/lexer.cpp:186-235 | the string loop stops at the first `"`, the first `\`, or the last available character |
| `LexicalRules.StringEndUnique` | neon_compiler/lexer/lexer.cpp:186-235 | the loop stops at that first stopping index and nowhere else |
| `LexicalRules.StringStep` | neon_compiler/lexer/lexer.cpp:176-248 | the string branch: the lexeme up to the stop of `StringEnd`, its newline errors, then unterminated when the stop is the last character and not `"`; its properties are `StringStepProperties` |
| `LexicalRules.StringStepStopsAt` | neon_compiler/lexer/lexer.cpp:186-235 | knowing where the loop stops gives the lexeme, the characters taken and the messages of `StringStep` |
| `LexicalRules.StringStepProperties` | neon_compiler/lexer/lexer.cpp:176-248 | a string lexeme holds no `"` and no `\`; one NEWLINE_IN_STRING_LITERAL per raw newline kept; UNTERMINATED_STRING_LITERAL iff input ran out before a closing `"` |
| `LexicalRules.CharLexeme` | neon_compiler/lexer/lexer.cpp:294 | the intended one-character lexeme |
| `LexicalRules.CharLexemeAsWrittenDiffers` | neon_compiler/lexer/lexer.cpp:294 | `"" + c` as written does not give the one-character string |
| `LexicalRules.CharStepProperties` | neon_compiler/lexer/lexer.cpp:250-297 | exactly one LITERAL_CHARACTER token with a one-character lexeme; at most one of unknown-escape, newline and empty, then possibly unterminated; never "too long" |
| `LexicalRules.CharStep` | neon_compiler/lexer/lexer.cpp:250-297 | the character branch: one LITERAL_CHARACTER token, the characters taken and the messages; its properties are `CharStepProperties` |
| `LexicalRules.SymbolStep` | neon_compiler/lexer/lexer.cpp:299-340 | no error; STATIC_ACCESSOR iff the input starts with `::` (2 characters taken, length 1 as written), else one character taken; CUSTOM_TOKEN with the character as lexeme iff it is none of `{ } ( ) < > ; ,`; otherwise the type `convert_single_char_token` maps it to and no lexeme |
| `LexicalRules.NextStep` | neon_compiler/lexer/lexer.cpp:43-76 | on non-empty input one token, at least one character taken, never END_OF_FILE |
| `LexicalRules.SkipSpaces` | neon_compiler/lexer/lexer.cpp:27-41 | drops exactly the leading blanks, tabs and newlines |
| `LexicalRules.SkipSpacesIdempotent` | neon_compiler/lexer/lexer.cpp:27-41 | skipping whitespace twice equals skipping it once |
| `LexicalRules.LexAllStep` | neon_compiler/lexer/lexer.cpp:8-15 | one turn of `run` is the token of `NextStep` followed by `run` on what it leaves |
| `LexicalRules.LexAll` | neon_compiler/lexer/lexer.cpp:8-15 | what `run` produces: skip whitespace, one `NextStep`, again until nothing remains (the source never returns when `skip_whitespace` is entered with only whitespace left, as after a complete token followed only by whitespace; see Findings); its properties are the rows around it |
| `LexicalRules.LexAllHasNoEndOfFile` | neon_compiler/lexer/lexer.cpp:8-15 | the lexer never produces END_OF_FILE |
| `LexicalRules.LexAllOfWhitespace` | neon_compiler/lexer/lexer.cpp:27-41 | input made only of whitespace gives no token (the source's `skip_whitespace` never returns when entered with such non-empty input left; `LexAll` describes the corrected loop) |
| `LexicalRules.SkipWhitespaceAsWrittenNeverEnds` | neon_compiler/lexer/lexer.cpp:27-41 | on input made only of whitespace, every number of turns of the do-while still leaves a peeked character that is whitespace, and after \|s\| turns nothing is left: the loop never ends |
| `Lexing.Lexer.constructor` | neon_compiler/lexer/lexer.cpp:5-6 | a new lexer has no tokens and no errors |
| `Lexing.ViewsAt` | neon_compiler/lexer/lexer.cpp:8-15 | the i-th view is the type and lexeme of the i-th token |
| `Lexing.MessagesAt` | neon_compiler/lexer/lexer.cpp:8-15 | the i-th message is that of the i-th error |
| `Lexing.Lexer.Run` | neon_compiler/lexer/lexer.cpp:8-15 | on any input: consumes it all; the tokens' types and lexemes and the errors' messages appended are those of `LexAll` (with the corrected whitespace skip) |
| `Lexing.Lexer.SkipWhitespace` | neon_compiler/lexer/lexer.cpp:27-41 | as written, on input where it returns (a non-blank remains after the leading whitespace): consumes exactly the leading whitespace |
| `Lexing.Lexer.SkipWhitespaceToEnd` | neon_compiler/lexer/lexer.cpp:27-41 | the corrected loop, which also stops at the end of input: consumes exactly the leading whitespace, on any input |
| `Lexing.Lexer.TokeniseNext` | neon_compiler/lexer/lexer.cpp:43-76 | nothing at the end of input; otherwise exactly one token appended and the characters of `NextStep` consumed (at least one), in agreement with `LexAll` |
| `Lexing.Lexer.ReadAndTokeniseWord` | neon_compiler/lexer/lexer.cpp:78-99 | consumes the word of `WordText` and appends its `WordToken` at the word's start |
| `Lexing.Lexer.ScanWord` | neon_compiler/lexer/lexer.cpp:84-91 | reads the letter and the maximal run of word characters after it |
| `Lexing.Lexer.TokeniseWord` | neon_compiler/lexer/lexer.cpp:101-132 | appends the keyword or identifier token of the word |
| `Lexing.Lexer.ReadAndTokeniseNumber` | neon_compiler/lexer/lexer.cpp:134-174 | appends LITERAL_NUMBER whose lexeme and length are the consumed characters; no error |
| `Lexing.Lexer.ScanNumber` | neon_compiler/lexer/lexer.cpp:149-161 | extends the prefix with the maximal run of number characters |
| `Lexing.Lexer.ReadAndTokeniseString` | neon_compiler/lexer/lexer.cpp:176-248 | appends one LITERAL_STRING with the lexeme and errors of `StringStep`; the token stands where the literal starts, or, after a raw newline, where the last newline error stands; an unterminated error is on the token's line; the length is the uint32 difference of columns |
| `Lexing.Lexer.ReadStringContent` | neon_compiler/lexer/lexer.cpp:182-235 | takes the quote and the literal's text, appending the errors of `StringStep`; the position it returns is that of the last newline error, and an unterminated error is on its line |
| `Lexing.Lexer.ScanString` | neon_compiler/lexer/lexer.cpp:184-235 | takes characters up to the first `"`, `\` or the last one; one newline error per raw newline, the last at the returned position, then unterminated at the end of input on the returned line |
| `Lexing.Lexer.TakeStringCharacter` | neon_compiler/lexer/lexer.cpp:219-234 | keeps one character; a raw newline adds one error at the reader's position when the step starts (that of the character after the newline, already peeked), and the token position moves there; any other character changes no position and adds no error |
| `Lexing.Lexer.ReadAndTokeniseCharacter` | neon_compiler/lexer/lexer.cpp:250-297 | appends one LITERAL_CHARACTER with the lexeme of `CharStep`, and its errors, all at the literal's start |
| `Lexing.Lexer.ReadCharacterContent` | neon_compiler/lexer/lexer.cpp:252-279 | takes the quote and the (escaped) character, reporting unknown escape, newline or empty literal |
| `Lexing.Lexer.ReadAndTokeniseSymbol` | neon_compiler/lexer/lexer.cpp:299-322 | appends the token of `SymbolStep` with length 1 and consumes its characters |
| `Lexing.Lexer.TokeniseCustomChar` | neon_compiler/lexer/lexer.cpp:324-340 | appends CUSTOM_TOKEN whose lexeme is the character |
| `LexingExamples.KeywordsExample` | tests/neon_compiler/lexer/lexer_test.cpp:18-37 | "pkg interface mut:" lexes to PACKAGE, TYPE_INTERFACE, MUTABLE_REFERENCE with no errors |
| `LexingExamples.CharactersExample` | tests/neon_compiler/lexer/lexer_test.cpp:62-84 | `'c' '\'' '\n'` lexes to three LITERAL_CHARACTER tokens `c`, `'` and newline, with no errors |
| `TokenReading.PeekIndex` | neon_compiler/token_reader.cpp:16-26 | the read index is min(i+k, n-1) when i+k does not wrap |
| `TokenReading.TokenReader.constructor` | neon_compiler/token_reader.cpp:5-6 | a new cursor starts at index 0 over the given tokens |
| `TokenReading.TokenReader.Peek` | neon_compiler/token_reader.cpp:16-26 | returns tokens[min(i+k, n-1)] and changes nothing |
| `TokenReading.TokenReader.Consume` | neon_compiler/token_reader.cpp:8-14 | returns what `peek(k)` returns and sets the index to i+k+1 (mod 2^32) |
| `TokenReading.TokenReader.ConsumeIfMatches` | neon_compiler/token_reader.cpp:33-41 | advances by exactly one iff the front token has the given type, otherwise changes nothing |
| `TokenReading.TokenReader.EndOfFileReached` | neon_compiler/token_reader.cpp:28-31 | the token in front is END_OF_FILE; `EndOfFileReachedAtLastToken` says when that holds |
| `TokenReading.EndOfFileReachedAtLastToken` | neon_compiler/token_reader.cpp:28-31 | on tokens ending in one END_OF_FILE, the end is reached iff the index is at the last token, and every peek from there answers END_OF_FILE |
| `TokenReading.TokenReaderScenario` | tests/neon_compiler/token_reader/token_reader_test.cpp:18-38 | the test's peek/consume sequence gives the asserted types, including END_OF_FILE for `peek(9)` and for consumes past the end |
| `Parsing.PackageCheck` | neon_compiler/parser/parser.cpp:10-13 | no error for the package keyword, else exactly one MISSING_PACKAGE_DECLARATION error carrying the front token |
| `Parsing.Parser.constructor` | neon_compiler/parser/parser.cpp:5-6 | a new parser has a fresh cursor at index 0 and no errors |
| `Parsing.Parser.Run` | neon_compiler/parser/parser.cpp:8-14 | PACKAGE in front: no error and one token consumed; otherwise one error about the front token and the index unchanged; only the front token decides |
| `Parsing.Parser.TakeErrors` | neon_compiler/parser/parser.cpp:16-19 | returns the errors in emission order |
| `Parsing.ParseOnce` | neon_compiler/parser/parser.cpp:8-19 | a fresh parse reports nothing and consumes one token iff the first token is PACKAGE, else exactly the one error about the first token |
| `Identifiers.Identifier.ToString` | neon_compiler/ast/identifiers.hpp:21-38 | the parts joined by `::`; "" for no parts; a single part verbatim |
| `Identifiers.JoinSnoc` | neon_compiler/ast/identifiers.hpp:25-36 | each further part adds exactly one `::` and the part |
| `Identifiers.JoinLength` | neon_compiler/ast/identifiers.hpp:21-38 | for n ≥ 1 parts the length is the sum of part lengths plus 2·(n−1) |
| `Identifiers.JoinEnds` | neon_compiler/ast/identifiers.hpp:25-36 | the text opens with the first part and closes with the last: no leading or trailing separator |
| `Identifiers.JoinExample` | neon_compiler/ast/identifiers.hpp:15-16 | `["main","subpkg"]` gives `"main::subpkg"` |
| `Identifiers.SplitJoin` | neon_compiler/ast/identifiers.hpp:12-18 | splitting the text on `::` recovers the parts when there is one or more and none contains `:` |
| `ConsoleReporting.SeverityName` | neon_compiler/analysis/impl/console_analysis_reporter.cpp:47-56 | every severity name is a non-empty word of capitals and `_` |
| `ConsoleReporting.EntryTypeName` | neon_compiler/analysis/impl/console_analysis_reporter.cpp:58-72 | every entry type name is a non-empty word of capitals and `_` |
| `ConsoleReporting.SeverityNamesDistinct` | neon_compiler/analysis/impl/console_analysis_reporter.cpp:47-56 | ERROR, WARNING and INFO get distinct names, none of them "UNKNOWN" |
| `ConsoleReporting.EntryTypeNamesDistinct` | neon_compiler/analysis/impl/console_analysis_reporter.cpp:58-72 | the nine listed kinds get distinct names, and "UNKNOWN" is given exactly to the other values |
| `ConsoleReporting.DecimalString` | neon_compiler/analysis/impl/console_analysis_reporter.cpp:18-24 | `std::to_string` gives decimal digits without a leading zero that read back as the number |
| `ConsoleReporting.Escaped` | neon_compiler/analysis/impl/console_analysis_reporter.cpp:33-45 | escaped text holds no newline |
| `ConsoleReporting.EscapedProperties` | neon_compiler/analysis/impl/console_analysis_reporter.cpp:33-45 | \|escape(s)\| = \|s\| + newlines in s, and escape is the identity on newline-free text |
| `ConsoleReporting.EscapedAppend` | neon_compiler/analysis/impl/console_analysis_reporter.cpp:36-43 | escaping works character by character: escaping a concatenation is concatenating the escapes |
| `ConsoleReporting.ReportFields` | neon_compiler/analysis/impl/console_analysis_reporter.cpp:13-29 | the fields between "[A] " and the closing newline hold no newline, whatever the info text holds |
| `ConsoleReporting.ReportLine` | neon_compiler/analysis/impl/console_analysis_reporter.cpp:11-31 | a report line starts with "[A] " and its only newline is its last character |
| `ConsoleReporting.ConsoleAnalysisReporter.constructor` | neon_compiler/analysis/impl/console_analysis_reporter.cpp:5-9 | writes the header line |
| `ConsoleReporting.ConsoleAnalysisReporter.Report` | neon_compiler/analysis/impl/console_analysis_reporter.cpp:11-31 | appends exactly the one line `ReportLine` describes |
| `ConsoleReporting.ConsoleAnalysisReporter.Escape` | neon_compiler/analysis/impl/console_analysis_reporter.cpp:33-45 | replaces every newline with two blanks and copies every other character |

## Left out

- The byte stream is a `seq<char>`; an I/O failure (the `ReadException` path at reading/char_reader.cpp:74-77) cannot arise in that model.
- Reader offsets, token lines and columns, and analysis positions are unbounded naturals. Their 32-bit wrap-around after 4 GiB of input is not modelled. The token reader index and the string/character token lengths do wrap.
- Lexing.Lexer.Run: uses the corrected `SkipWhitespaceToEnd`. When `skip_whitespace` is entered with only whitespace left, for example after a complete token followed only by whitespace, the source never returns (see Findings). The contract describes the evidently intended behaviour there.
- Lexing.Lexer.Run: its contract relates token types, lexemes and error messages to `LexAll`. Positions and lengths are stated per branch method only.
- Lexing.Lexer.ReadAndTokeniseString, Lexing.Lexer.ReadStringContent, Lexing.Lexer.ScanString, Lexing.Lexer.TakeStringCharacter: error positions are stated relative to the reader's position (the token's start, or the reader position after a newline), not computed from the text; the column of an unterminated error is not stated.
- Reading.CharReader.GetSourcePosition: the position answered is tied to the reader state and never moves back while reading, but it is not computed from the text consumed (offset, newline count and line offset as functions of the input).
- Reading.CharReader.Consume: excludes the offset 2^32 − 1. At that offset the source's `uint` loop counter never exceeds the offset, and the loop does not end.
- Reading.CharReader.ConsumeAllIfNext: requires a non-empty string shorter than 2^31, as the `int` casts of `size() - 1` demand. The lexer passes only `"0x"`, `"0b"` and `"::"`.
- TokenReading.TokenReader.Peek: requires a non-empty token sequence. On an empty one the source indexes at `size() - 1`.
- Parsing.Parser.TakeErrors: the source moves the vector out. The model leaves the parser's list empty, which is what a moved-from vector usually is.
- The text of MISSING_PACKAGE_DECLARATION: the header that defines it is not part of this model, so the message is an enumeration constant.
- `Parser::print_token` and the logger, file reading, the compiler driver and `main`: these are logging and I/O.
- The escape and merge branches of `read_and_tokenise_string` (lexer.cpp:197-211, 226-230) are dead code as written, so they are not modelled.
- The number-validation messages and `parse_text_literal`, `is_digit(NumberNotation, char)` and `take_tokens` in lexer.hpp have no body in lexer.cpp, so they are not modelled.
- The earlier tokeniser revisions (neon_compiler/tokeniser.cpp, neon_compiler/tokenisation/) and their error records repeat the lexer's algorithm, so they are not modelled.
- The AST node headers, the visitor and the AST printer hold declarations and console printing, with no behaviour to model.
- Test expectations that the code does not meet are not proved. These are string merging (lexer_test.cpp:53-59), the "too long" character literal (lexer_test.cpp:87-101), and END_OF_FILE on a token list that lacks one (tests/neon_compiler/parser/token_reader/token_reader_test.cpp:28).
- The analysis entry enumerations follow the reporter's switches, not analysis_entry.hpp, whose enumeration and struct (it has no severity) disagree with them. The header line's `file` field is stored but never written.
- Token getters are the datatype's destructors. `get_lexeme` is `None` exactly when the token was built without a lexeme.

## Findings

| source | as written | input that shows it | evidently intended | confidence | as-written member | corrected member |
|---|---|---|---|---|---|---|
| neon_compiler/lexer/lexer.cpp:294 | `std::optional<std::string>("" + c)` adds the character's code to a pointer to the literal `""` | the character literal `'c'` reads past the one-byte array (undefined behaviour); `'\0'` gives the empty string | a one-character lexeme `[c]`, as lexer_test.cpp:79-83 expects | high, not executed | `LexicalRules.CharLexemeAsWrittenDiffers` | `LexicalRules.CharStepProperties` |
| neon_compiler/lexer/lexer.cpp:27-41 | the do-while of `skip_whitespace` repeats while the peeked character is whitespace; `peek` answers `' '` at the end of input (reading/char_reader.cpp:68) and `consume` then removes nothing | `pkg` followed by a newline: after the newline `run` calls `skip_whitespace`, which never returns | stop skipping at the end of input, so that `run` returns after the last token | high, not executed | `LexicalRules.SkipWhitespaceAsWrittenNeverEnds` | `Lexing.Lexer.SkipWhitespaceToEnd` |
