/** The lexical rules of neon_compiler/lexer/lexer.cpp, stated on the sequence of
    characters the reader still holds: the character classes, the two switch
    tables, the error messages, and for each branch of `tokenise_next` what it
    produces and how many characters it takes. The `Lexer` class of lexer.dfy
    is proved against these functions. */
module LexicalRules {
  import opened Util
  import opened Tokens
  import opened Reading

  // ---------------------------------------------------------------------------
  // Character classes (lexer.cpp:342-355)

  /** `is_alpha`: an ASCII letter; never a digit or a space, so the branches
      of `tokenise_next` do not overlap. */
  predicate IsAlpha(ch: char)
    ensures IsAlpha(ch) ==> !IsDigit(ch) && !IsSpace(ch) && ch != '"' && ch != '\''
  {
    ('A' <= ch <= 'Z') || ('a' <= ch <= 'z')
  }

  /** `is_digit`: an ASCII digit; never a space or a quote. */
  predicate IsDigit(ch: char)
    ensures IsDigit(ch) ==> !IsSpace(ch) && ch != '"' && ch != '\''
  {
    '0' <= ch <= '9'
  }

  /** `is_space`: a blank, a tab or a newline; '\r' never reaches the lexer. */
  predicate IsSpace(ch: char)
  {
    ch == ' ' || ch == '\t' || ch == '\n'
  }

  /** A character that continues a word (lexer.cpp:91). */
  predicate IsWordChar(ch: char)
  {
    IsAlpha(ch) || IsDigit(ch) || ch == '_'
  }

  /** A character of a number literal (lexer.cpp:156). */
  predicate IsNumberChar(ch: char)
  {
    IsDigit(ch) || IsAlpha(ch) || ch == '.' || ch == '_'
  }

  /** The three classes of characters the lexer runs over. */
  datatype CharClass = Whitespace | WordTail | NumberBody

  predicate InClass(ch: char, k: CharClass)
  {
    match k
    case Whitespace => IsSpace(ch)
    case WordTail => IsWordChar(ch)
    case NumberBody => IsNumberChar(ch)
  }

  /** The length of the longest prefix of `s` whose characters are all in class `k`. */
  function Run(s: seq<char>, k: CharClass): (n: nat)
    ensures n <= |s|
    ensures forall j :: 0 <= j < n ==> InClass(s[j], k)
    ensures n < |s| ==> !InClass(s[n], k)
  {
    if s == [] || !InClass(s[0], k) then 0 else 1 + Run(s[1..], k)
  }

  /** A prefix of in-class characters followed by the end or an out-of-class
      character is the run. */
  lemma RunUnique(s: seq<char>, k: CharClass, n: nat)
    requires n <= |s|
    requires forall j :: 0 <= j < n ==> InClass(s[j], k)
    requires n < |s| ==> !InClass(s[n], k)
    ensures Run(s, k) == n
  {
  }

  // ---------------------------------------------------------------------------
  // The switch tables (lexer.cpp:357-386)

  /** `convert_escaped`: the character an escape letter stands for. */
  function ConvertEscaped(ch: char): (r: Option<char>)
    ensures r.Some? <==> ch in "nrt0\"'\\"
  {
    match ch
    case 'n' => Some('\n')
    case 'r' => Some('\r')
    case 't' => Some('\t')
    case '0' => Some('\0')
    case '"' => Some('"')
    case '\'' => Some('\'')
    case '\\' => Some('\\')
    case _ => None
  }

  /** `convert_single_char_token`: the token type of a one-character symbol. */
  function ConvertSingleCharToken(ch: char): (r: Option<TokenType>)
    ensures r.Some? <==> ch in "{}()<>;,"
    ensures r.Some? ==> r.value != StaticAccessor && r.value != CustomToken
  {
    match ch
    case '{' => Some(BracketCurlyOpen)
    case '}' => Some(BracketCurlyClose)
    case '(' => Some(BracketRoundOpen)
    case ')' => Some(BracketRoundClose)
    case '<' => Some(SmallerThan)
    case '>' => Some(GreaterThan)
    case ';' => Some(EndStatement)
    case ',' => Some(Comma)
    case _ => None
  }

  /** Each known escape letter stands for a different character. */
  lemma ConvertEscapedDomain(ch: char)
    ensures forall d :: ConvertEscaped(ch).Some? && ConvertEscaped(ch) == ConvertEscaped(d) ==> ch == d
  {
  }

  /** No two of the eight bracket and punctuation characters share a type. */
  lemma ConvertSingleCharTokenDomain(ch: char)
    ensures forall d :: ConvertSingleCharToken(ch).Some? && ConvertSingleCharToken(ch) == ConvertSingleCharToken(d) ==> ch == d
  {
  }

  // ---------------------------------------------------------------------------
  // Error messages (lexer.hpp:15-31)

  /** The messages of lexer.hpp the lexer uses, plus the one the tests expect for
      `'ab'`; the number-validation messages have no user in lexer.cpp. */
  datatype LexMessage =
    | UnknownEscapeSequence
    | UnterminatedStringLiteral
    | UnterminatedCharacterLiteral
    | NewlineInStringLiteral
    | NewlineInCharacterLiteral
    | EmptyCharacterLiteral
    | CharacterLiteralTooLong

  function MessageText(m: LexMessage): string
  {
    match m
    case UnknownEscapeSequence =>
      "Unknown escape sequence. Valid ones are `\\n`, `\\r`, `\\t`, `\\0`, `\\\"`, `\\\'`, and `\\\\`."
    case UnterminatedStringLiteral =>
      "Unterminated string literal. Use double quotes (`\"`) to start and end string literals."
    case UnterminatedCharacterLiteral =>
      "Unterminated character literal. Use `'` to start and end character literals."
    case NewlineInStringLiteral =>
      "Newlines in string literals are not allowed. Use `\\n` for newline characters in strings. "
      + "If the literal needs splitting across multiple lines, terminate the string literal and start a new one on the next line."
    case NewlineInCharacterLiteral =>
      "Newline in character literal is not allowed. Use `\\n` for newline characters."
    case EmptyCharacterLiteral =>
      "Empty character literals are not allowed. A character literal must contain exactly one character."
    case CharacterLiteralTooLong =>
      "Character literal too long. A character literal must contain exactly one character."
  }

  // ---------------------------------------------------------------------------
  // One token: what a branch of `tokenise_next` produces

  /** The outcome of one branch of `tokenise_next` on the remaining characters:
      the token's type and lexeme, how many characters it takes, and the messages
      of the errors it appends, in order. */
  datatype Lexed = Lexed(kind: TokenType, lexeme: Option<string>, consumed: nat, messages: seq<LexMessage>)

  // Words (lexer.cpp:78-132)

  /** Where the run of word characters that starts with the letter `s[0]` ends. */
  function WordRunEnd(s: seq<char>): (n: nat)
    requires s != [] && IsAlpha(s[0])
    ensures 1 <= n <= |s|
    ensures forall j :: 0 <= j < n ==> IsWordChar(s[j])
    ensures n < |s| ==> !IsWordChar(s[n])
  {
    1 + Run(s[1..], WordTail)
  }

  /** The word `read_and_tokenise_word` reads: the run of word characters and,
      when the character after it is ':', that ':' too. */
  function WordText(s: seq<char>): (w: string)
    requires s != [] && IsAlpha(s[0])
    ensures |w| <= |s| && w == s[..|w|]
    ensures |w| == WordRunEnd(s) || (|w| == WordRunEnd(s) + 1 && s[|w| - 1] == ':')
    ensures WordRunEnd(s) < |s| && s[WordRunEnd(s)] == ':' ==> |w| == WordRunEnd(s) + 1
  {
    var n := WordRunEnd(s);
    if PeekAt(s, n) == ':' then s[..n + 1] else s[..n]
  }

  /** `tokenise_word`: a keyword becomes its own type with no lexeme, any other
      word an identifier that keeps the word. */
  function WordToken(line: nat, column: nat, word: string): (t: Token)
    ensures t.line == line && t.column == column && t.length == |word|
    ensures KeywordToTokenType(word).Some? ==> t.tokenType == KeywordToTokenType(word).value && t.lexeme.None?
    ensures KeywordToTokenType(word).None? ==> t.tokenType == Identifier && t.lexeme == Some(word)
  {
    var kind := KeywordToTokenType(word);
    if kind.Some? then Token(kind.value, line, column, |word|, None)
    else Token(Identifier, line, column, |word|, Some(word))
  }

  /** A word token carries a lexeme exactly when it is an identifier, and then the
      lexeme is the word. */
  lemma WordTokenLexeme(line: nat, column: nat, word: string)
    ensures WordToken(line, column, word).lexeme.Some? <==> WordToken(line, column, word).tokenType == Identifier
  {
    KeywordsAreOnlyKeywordTypes(word);
  }

  function WordStep(s: seq<char>): (l: Lexed)
    requires s != [] && IsAlpha(s[0])
  {
    var w := WordText(s);
    var t := WordToken(0, 0, w);
    Lexed(t.tokenType, t.lexeme, |w|, [])
  }

  // Numbers (lexer.cpp:134-174)

  /** `read_and_tokenise_number`: the lexeme is exactly the characters taken, the
      maximal run of number characters; the `0x`/`0b` prefix is part of that run
      and no error is ever appended. */
  function NumberStep(s: seq<char>): (l: Lexed)
    requires s != [] && IsDigit(s[0])
    ensures l.kind == LiteralNumber && l.messages == []
    ensures 1 <= l.consumed <= |s| && l.lexeme == Some(s[..l.consumed])
    ensures forall j :: 0 <= j < l.consumed ==> IsNumberChar(s[j])
    ensures l.consumed < |s| ==> !IsNumberChar(s[l.consumed])
  {
    var n := Run(s, NumberBody);
    Lexed(LiteralNumber, Some(s[..n]), n, [])
  }

  // Strings (lexer.cpp:176-248)

  /** One `NewlineInStringLiteral` per raw newline of `text`, in order. */
  function NewlineErrors(text: string): seq<LexMessage>
  {
    if text == [] then []
    else NewlineErrors(text[..|text| - 1]) + (if text[|text| - 1] == '\n' then [NewlineInStringLiteral] else [])
  }

  /** Newline errors are all `NewlineInStringLiteral`, and text without a raw
      newline has none. */
  lemma {:induction false} NewlineErrorsAreNewlines(text: string)
    ensures forall j :: 0 <= j < |NewlineErrors(text)| ==> NewlineErrors(text)[j] == NewlineInStringLiteral
    ensures '\n' !in text ==> NewlineErrors(text) == []
    decreases |text|
  {
    if text != [] {
      var init := text[..|text| - 1];
      NewlineErrorsAreNewlines(init);
      assert '\n' !in text ==> '\n' !in init by {
        if '\n' in init {
          var j :| 0 <= j < |init| && init[j] == '\n';
          assert text[j] == '\n';
        }
      }
    }
  }

  /** The characters after the opening quote as `consume` delivers them: the
      rest of the input, or the lone ' ' that `peek` answers at its end. */
  function StringTail(s: seq<char>): (t: seq<char>)
    requires s != []
    ensures t != []
  {
    if |s| == 1 then [' '] else s[1..]
  }

  /** Where the loop of `read_and_tokenise_string`, started at index `k` of `t`,
      stops: at the first '"', at the first '\\' (the escape branch can never
      run, because the loop condition tests the flag it sets), or at the last
      character, which is then never added. */
  function StringEnd(t: seq<char>, k: nat): (n: nat)
    requires k < |t|
    ensures k <= n < |t|
    ensures forall j :: k <= j < n ==> t[j] != '"' && t[j] != '\\'
    ensures t[n] == '"' || t[n] == '\\' || n == |t| - 1
    decreases |t| - k
  {
    if t[k] == '"' || t[k] == '\\' || k == |t| - 1 then k else StringEnd(t, k + 1)
  }

  /** The loop stops at the first stopping index and nowhere else. */
  lemma {:induction false} StringEndUnique(t: seq<char>, k: nat, n: nat)
    requires k <= n < |t|
    requires forall j :: k <= j < n ==> t[j] != '"' && t[j] != '\\'
    requires t[n] == '"' || t[n] == '\\' || n == |t| - 1
    ensures StringEnd(t, k) == n
    decreases n - k
  {
    if k < n {
      StringEndUnique(t, k + 1, n);
    }
  }

  /** `read_and_tokenise_string`: the lexeme is the characters before the stop,
      one newline error per raw newline in it, then "unterminated" when the stop
      is the last character and not a closing '"'. */
  function StringStep(s: seq<char>): (l: Lexed)
    requires s != [] && s[0] == '"'
  {
    var t := StringTail(s);
    var n := StringEnd(t, 0);
    var unterminated := n == |t| - 1 && t[n] != '"';
    Lexed(LiteralString, Some(t[..n]), |s| - |t| + n + 1,
          NewlineErrors(t[..n]) + (if unterminated then [UnterminatedStringLiteral] else []))
  }

  /** The string step when the loop is known to stop at index `k` of the tail. */
  lemma StringStepStopsAt(s: seq<char>, k: nat)
    requires s != [] && s[0] == '"' && k < |StringTail(s)|
    requires forall j :: 0 <= j < k ==> StringTail(s)[j] != '"' && StringTail(s)[j] != '\\'
    requires StringTail(s)[k] == '"' || StringTail(s)[k] == '\\' || k == |StringTail(s)| - 1
    ensures var t, l := StringTail(s), StringStep(s);
      && l.lexeme == Some(t[..k]) && s[l.consumed..] == t[k + 1..]
      && l.messages == NewlineErrors(t[..k]) + (if k == |t| - 1 && t[k] != '"' then [UnterminatedStringLiteral] else [])
  {
    StringEndUnique(StringTail(s), 0, k);
  }

  /** A string lexeme never holds '"' or '\\'; the messages are one per raw
      newline kept in the lexeme, then "unterminated" exactly when the input ran
      out before a closing '"' or a '\\'. */
  lemma StringStepProperties(s: seq<char>)
    requires s != [] && s[0] == '"'
    ensures var l := StringStep(s);
      && 1 <= l.consumed <= |s|
      && l.lexeme.Some? && '"' !in l.lexeme.value && '\\' !in l.lexeme.value
      && l.lexeme.value == s[1..1 + |l.lexeme.value|]
      && (UnterminatedStringLiteral in l.messages <==> l.consumed == |s| && (|s| == 1 || s[|s| - 1] != '"'))
      && (forall j :: 0 <= j < |l.messages| ==> l.messages[j] in {NewlineInStringLiteral, UnterminatedStringLiteral})
      && |l.messages| == |NewlineErrors(l.lexeme.value)| + (if UnterminatedStringLiteral in l.messages then 1 else 0)
  {
    var t := StringTail(s);
    var n := StringEnd(t, 0);
    NewlineErrorsAreNewlines(t[..n]);
    assert UnterminatedStringLiteral !in NewlineErrors(t[..n]);
  }

  // Character literals (lexer.cpp:250-297)

  /** The lexeme of a character literal. lexer.cpp:294 writes `"" + c`, which is
      pointer arithmetic on a string literal; the one-character string is what it
      evidently means (see `CharLexemeAsWritten`). */
  function CharLexeme(c: char): (s: string)
    ensures |s| == 1 && s[0] == c
  {
    [c]
  }

  /** What `std::string("" + c)` denotes: `""` is a one-element array, so only
      `c == '\0'` stays inside it (giving the empty string); every other value
      reads out of bounds, which is undefined (`None`). */
  function CharLexemeAsWritten(c: char): (r: Option<string>)
  {
    if c == '\0' then Some("") else None
  }

  /** The source's `"" + c` does not give the character: for 'c' it is undefined
      behaviour and even for '\0' it is the empty string. */
  lemma CharLexemeAsWrittenDiffers()
    ensures CharLexemeAsWritten('c') == None
    ensures CharLexemeAsWritten('\0') == Some("") != Some(CharLexeme('\0'))
  {
  }

  /** The character a literal denotes: the one after the quote, or the result
      of its escape (an unknown escape keeps the escaped character). */
  function CharValue(s: seq<char>): char
  {
    var c0 := PeekAt(s, 1);
    var c1 := PeekAt(s, 2);
    if c0 != '\\' then c0
    else if ConvertEscaped(c1).Some? then ConvertEscaped(c1).value
    else c1
  }

  /** How many characters the quote, the character and its escape take. */
  function CharOpenLength(s: seq<char>): nat
  {
    if PeekAt(s, 1) == '\\' then Min(3, |s|) else Min(2, |s|)
  }

  /** The error the character itself raises, if any. */
  function CharOpenMessages(s: seq<char>): seq<LexMessage>
  {
    var c0 := PeekAt(s, 1);
    if c0 == '\\' then (if ConvertEscaped(PeekAt(s, 2)).Some? then [] else [UnknownEscapeSequence])
    else if c0 == '\n' then [NewlineInCharacterLiteral]
    else if c0 == '\'' then [EmptyCharacterLiteral]
    else []
  }

  /** `read_and_tokenise_character` on the remaining characters `s`: the
      character after the quote, or the one after a '\\' with its escape applied
      (an unknown escape letter stands for itself), then a closing quote if one
      follows. Past the end `peek` answers ' ', which is what `PeekAt` gives. */
  function CharStep(s: seq<char>): (l: Lexed)
    requires s != [] && s[0] == '\''
  {
    var p := CharOpenLength(s);
    var closed := PeekAt(s, p) == '\'';
    Lexed(LiteralCharacter, Some(CharLexeme(CharValue(s))), if closed then p + 1 else p,
          CharOpenMessages(s) + (if closed then [] else [UnterminatedCharacterLiteral]))
  }

  /** A character literal always gives one `LiteralCharacter` token with a
      one-character lexeme, and at most two errors: at most one of unknown
      escape, newline and empty, and then possibly unterminated. */
  lemma CharStepProperties(s: seq<char>)
    requires s != [] && s[0] == '\''
    ensures var l := CharStep(s);
      && l.kind == LiteralCharacter && 1 <= l.consumed <= |s|
      && l.lexeme.Some? && |l.lexeme.value| == 1
      && |l.messages| <= 2
      && (forall j :: 0 <= j < |l.messages| ==>
            l.messages[j] in {UnknownEscapeSequence, NewlineInCharacterLiteral, EmptyCharacterLiteral, UnterminatedCharacterLiteral})
      && (|l.messages| == 2 ==> l.messages[1] == UnterminatedCharacterLiteral && l.messages[0] != UnterminatedCharacterLiteral)
      && CharacterLiteralTooLong !in l.messages
  {
  }

  // Symbols (lexer.cpp:299-340)

  /** `read_and_tokenise_symbol`: "::" is the static accessor (given length 1),
      a bracket or punctuation character its mapped type, anything else a custom
      token of that one character. */
  function SymbolStep(s: seq<char>): (l: Lexed)
    requires s != []
    ensures l.messages == [] && l.consumed == (if l.kind == StaticAccessor then 2 else 1) <= |s|
    ensures l.kind == StaticAccessor <==> |s| >= 2 && s[..2] == "::"
    ensures l.kind == CustomToken <==> (l.kind != StaticAccessor && s[0] !in "{}()<>;,")
    ensures l.lexeme == (if l.kind == CustomToken then Some([s[0]]) else None)
    ensures l.kind != StaticAccessor && l.kind != CustomToken ==> ConvertSingleCharToken(s[0]) == Some(l.kind)
  {
    if PeekAt(s, 0) == ':' && PeekAt(s, 1) == ':' then Lexed(StaticAccessor, None, 2, [])
    else
      match ConvertSingleCharToken(PeekAt(s, 0))
      case Some(kind) => Lexed(kind, None, 1, [])
      case None => Lexed(CustomToken, Some([PeekAt(s, 0)]), 1, [])
  }

  // ---------------------------------------------------------------------------
  // Dispatch and the whole input (lexer.cpp:8-15, 43-76)

  /** `tokenise_next` on non-empty remaining input. */
  function NextStep(s: seq<char>): (l: Lexed)
    requires s != []
    ensures 1 <= l.consumed <= |s|
    ensures l.kind != EndOfFile
  {
    if IsAlpha(s[0]) then (KeywordsAreOnlyKeywordTypes(WordText(s)); WordStep(s))
    else if IsDigit(s[0]) then NumberStep(s)
    else if s[0] == '"' then (StringStepProperties(s); StringStep(s))
    else if s[0] == '\'' then (CharStepProperties(s); CharStep(s))
    else SymbolStep(s)
  }

  /** The characters left once leading whitespace is skipped. */
  function SkipSpaces(s: seq<char>): (r: seq<char>)
    ensures |r| <= |s| && r == s[|s| - |r|..]
    ensures r == [] || !IsSpace(r[0])
    ensures forall j :: 0 <= j < |s| - |r| ==> IsSpace(s[j])
  {
    s[Run(s, Whitespace)..]
  }

  /** `run` on the remaining characters `s`: skip whitespace, take one token, and
      again until the input is exhausted. */
  function LexAll(s: seq<char>): seq<Lexed>
    decreases |s|, 1
  {
    var r := SkipSpaces(s);
    if r == [] then [] else LexFrom(r)
  }

  /** `run` from a character that is not whitespace. */
  function LexFrom(r: seq<char>): seq<Lexed>
    requires r != []
    decreases |r|, 0
  {
    var l := NextStep(r);
    [l] + LexAll(r[l.consumed..])
  }

  /** Skipping whitespace twice is skipping it once. */
  lemma SkipSpacesIdempotent(s: seq<char>)
    ensures SkipSpaces(SkipSpaces(s)) == SkipSpaces(s)
  {
    var r := SkipSpaces(s);
    RunUnique(r, Whitespace, 0);
    assert r[0..] == r;
  }

  /** One turn of `run` from a non-whitespace character: the token `NextStep`
      describes, then `run` on what it leaves. */
  lemma LexAllStep(r: seq<char>)
    requires r != [] && !IsSpace(r[0])
    ensures LexAll(r) == [NextStep(r)] + LexAll(r[NextStep(r).consumed..])
  {
    RunUnique(r, Whitespace, 0);
    assert r[0..] == r;
  }

  /** The lexer never produces an end-of-file token. */
  lemma {:induction false} LexAllHasNoEndOfFile(s: seq<char>)
    ensures forall l :: l in LexAll(s) ==> l.kind != EndOfFile
    decreases |s|
  {
    var r := SkipSpaces(s);
    if r != [] {
      var l := NextStep(r);
      LexAllHasNoEndOfFile(r[l.consumed..]);
      assert LexAll(s) == [l] + LexAll(r[l.consumed..]);
    }
  }

  /** Whitespace between tokens produces nothing: input that is only whitespace
      lexes to no token at all. */
  lemma LexAllOfWhitespace(s: seq<char>)
    requires forall j :: 0 <= j < |s| ==> IsSpace(s[j])
    ensures LexAll(s) == []
  {
    RunUnique(s, Whitespace, |s|);
  }

  // ---------------------------------------------------------------------------
  // `skip_whitespace` as written (lexer.cpp:27-41)

  /** One turn of the do-while of `skip_whitespace` on the remaining characters
      `s`: peek, and consume when the peeked character is whitespace. */
  function SkipWhitespaceTurn(s: seq<char>): (r: seq<char>)
  {
    if IsSpace(PeekAt(s, 0)) then s[Min(1, |s|)..] else s
  }

  /** `n` turns of that do-while from `s`. */
  function SkipWhitespaceTurns(s: seq<char>, n: nat): seq<char>
    decreases n
  {
    if n == 0 then s else SkipWhitespaceTurns(SkipWhitespaceTurn(s), n - 1)
  }

  /** At the end of input `peek` answers ' ', so the loop condition of
      `skip_whitespace` holds while `consume` has nothing to take: once only
      whitespace is left (after "pkg\n", say), the peeked character is still
      whitespace after any number of turns, and the loop never ends. */
  lemma {:induction false} SkipWhitespaceAsWrittenNeverEnds(s: seq<char>, n: nat)
    requires forall j :: 0 <= j < |s| ==> IsSpace(s[j])
    ensures IsSpace(PeekAt(SkipWhitespaceTurns(s, n), 0))
    ensures |s| <= n ==> SkipWhitespaceTurns(s, n) == []
    decreases n
  {
    if n > 0 {
      var s' := SkipWhitespaceTurn(s);
      assert s' == s[Min(1, |s|)..];
      SkipWhitespaceAsWrittenNeverEnds(s', n - 1);
    }
  }
}
