/** The lexer of neon_compiler/lexer/lexer.cpp: a loop that skips whitespace
    and dispatches on the next character, appending tokens and non-fatal errors
    while it consumes a `CharReader`. Each method is proved against the
    functions of `LexicalRules` on the reader's remaining characters. */
module Lexing {
  import opened Util
  import opened Tokens
  import opened Reading
  import opened LexicalRules

  /** neon_compiler/lexer/tokenisation_error.hpp: where an error was found and
      which message it carries. */
  datatype TokenisationError = TokenisationError(line: nat, column: nat, message: LexMessage)

  /** What the lexer's rules fix about a token: its type and its lexeme. */
  function View(t: Token): (TokenType, Option<string>)
  {
    (t.tokenType, t.lexeme)
  }

  /** The types and lexemes of a sequence of tokens, in order. */
  function Views(ts: seq<Token>): (vs: seq<(TokenType, Option<string>)>)
    ensures |vs| == |ts|
  {
    if ts == [] then [] else Views(ts[..|ts| - 1]) + [View(ts[|ts| - 1])]
  }

  /** The messages of a sequence of errors, in order. */
  function Messages(es: seq<TokenisationError>): (ms: seq<LexMessage>)
    ensures |ms| == |es|
  {
    if es == [] then [] else Messages(es[..|es| - 1]) + [es[|es| - 1].message]
  }

  /** `Views` keeps each token's type and lexeme at the token's own index. */
  lemma {:induction false} ViewsAt(ts: seq<Token>)
    ensures forall i :: 0 <= i < |ts| ==> Views(ts)[i] == View(ts[i])
    decreases |ts|
  {
    if ts != [] {
      ViewsAt(ts[..|ts| - 1]);
    }
  }

  /** `Messages` keeps each error's message at the error's own index. */
  lemma {:induction false} MessagesAt(es: seq<TokenisationError>)
    ensures forall i :: 0 <= i < |es| ==> Messages(es)[i] == es[i].message
    decreases |es|
  {
    if es != [] {
      MessagesAt(es[..|es| - 1]);
    }
  }

  /** The errors one literal appends, all at the literal's start. */
  function ErrorsAt(line: nat, column: nat, ms: seq<LexMessage>): (es: seq<TokenisationError>)
  {
    seq(|ms|, i requires 0 <= i < |ms| => TokenisationError(line, column, ms[i]))
  }

  /** The types and lexemes of a sequence of lexed tokens. */
  function LexedViews(ls: seq<Lexed>): seq<(TokenType, Option<string>)>
  {
    if ls == [] then [] else [(ls[0].kind, ls[0].lexeme)] + LexedViews(ls[1..])
  }

  /** The messages of a sequence of lexed tokens, in order. */
  function LexedMessages(ls: seq<Lexed>): seq<LexMessage>
  {
    if ls == [] then [] else ls[0].messages + LexedMessages(ls[1..])
  }

  lemma {:induction false} MessagesOfErrorsAt(line: nat, column: nat, ms: seq<LexMessage>)
    ensures Messages(ErrorsAt(line, column, ms)) == ms
    decreases |ms|
  {
    if ms != [] {
      var es := ErrorsAt(line, column, ms);
      MessagesOfErrorsAt(line, column, ms[..|ms| - 1]);
      assert es[..|es| - 1] == ErrorsAt(line, column, ms[..|ms| - 1]);
    }
  }

  /** The types, lexemes and messages of a token `NextStep` describes, followed
      by those of `run` on what it leaves, are those of `run`. */
  lemma TokenTurn(r: seq<char>, ts: seq<Token>, t: Token, es: seq<TokenisationError>, fs: seq<TokenisationError>)
    requires r != [] && !IsSpace(r[0])
    requires View(t) == (NextStep(r).kind, NextStep(r).lexeme) && Messages(fs) == NextStep(r).messages
    ensures Views(ts + [t]) + LexedViews(LexAll(r[NextStep(r).consumed..])) == Views(ts) + LexedViews(LexAll(r))
    ensures Messages(es + fs) + LexedMessages(LexAll(r[NextStep(r).consumed..])) == Messages(es) + LexedMessages(LexAll(r))
  {
    LexAllStep(r);
    AppendTurn(NextStep(r), LexAll(r[NextStep(r).consumed..]), ts, t, es, fs);
  }

  /** `TokenTurn` for each branch of `tokenise_next`, stated on the lists and
      the input the branch's method leaves, with the branch's own step so that
      callers need not unfold `NextStep`. */
  lemma WordTurn(r: seq<char>, rest: seq<char>, ts: seq<Token>, ts': seq<Token>, es: seq<TokenisationError>, es': seq<TokenisationError>, line: nat, column: nat)
    requires r != [] && IsAlpha(r[0]) && rest == r[|WordText(r)|..]
    requires ts' == ts + [WordToken(line, column, WordText(r))] && es' == es
    ensures |rest| < |r|
    ensures Views(ts') + LexedViews(LexAll(rest)) == Views(ts) + LexedViews(LexAll(r))
    ensures Messages(es') + LexedMessages(LexAll(rest)) == Messages(es) + LexedMessages(LexAll(r))
  {
    TokenTurn(r, ts, WordToken(line, column, WordText(r)), es, []);
    assert es + [] == es;
  }

  lemma NumberTurn(r: seq<char>, rest: seq<char>, ts: seq<Token>, ts': seq<Token>, es: seq<TokenisationError>, es': seq<TokenisationError>, line: nat, column: nat)
    requires r != [] && IsDigit(r[0]) && rest == r[NumberStep(r).consumed..]
    requires ts' == ts + [Token(LiteralNumber, line, column, NumberStep(r).consumed, NumberStep(r).lexeme)]
    requires es' == es
    ensures |rest| < |r|
    ensures Views(ts') + LexedViews(LexAll(rest)) == Views(ts) + LexedViews(LexAll(r))
    ensures Messages(es') + LexedMessages(LexAll(rest)) == Messages(es) + LexedMessages(LexAll(r))
  {
    TokenTurn(r, ts, Token(LiteralNumber, line, column, NumberStep(r).consumed, NumberStep(r).lexeme), es, []);
    assert es + [] == es;
  }

  lemma StringTurn(r: seq<char>, rest: seq<char>, ts: seq<Token>, t: Token, es: seq<TokenisationError>, fs: seq<TokenisationError>)
    requires r != [] && r[0] == '"' && rest == r[StringStep(r).consumed..]
    requires t.tokenType == LiteralString && t.lexeme == StringStep(r).lexeme
    requires Messages(fs) == StringStep(r).messages
    ensures |rest| < |r|
    ensures Views(ts + [t]) + LexedViews(LexAll(rest)) == Views(ts) + LexedViews(LexAll(r))
    ensures Messages(es + fs) + LexedMessages(LexAll(rest)) == Messages(es) + LexedMessages(LexAll(r))
  {
    StringStepProperties(r);
    assert !IsAlpha(r[0]) && !IsDigit(r[0]) && !IsSpace(r[0]);
    assert NextStep(r) == StringStep(r);
    TokenTurn(r, ts, t, es, fs);
  }

  lemma CharTurn(r: seq<char>, rest: seq<char>, ts: seq<Token>, ts': seq<Token>, es: seq<TokenisationError>, es': seq<TokenisationError>, line: nat, column: nat, length: nat)
    requires r != [] && r[0] == '\'' && rest == r[CharStep(r).consumed..]
    requires ts' == ts + [Token(LiteralCharacter, line, column, length, CharStep(r).lexeme)]
    requires es' == es + ErrorsAt(line, column, CharStep(r).messages)
    ensures |rest| < |r|
    ensures Views(ts') + LexedViews(LexAll(rest)) == Views(ts) + LexedViews(LexAll(r))
    ensures Messages(es') + LexedMessages(LexAll(rest)) == Messages(es) + LexedMessages(LexAll(r))
  {
    MessagesOfErrorsAt(line, column, CharStep(r).messages);
    TokenTurn(r, ts, Token(LiteralCharacter, line, column, length, CharStep(r).lexeme), es,
              ErrorsAt(line, column, CharStep(r).messages));
  }

  lemma SymbolTurn(r: seq<char>, rest: seq<char>, ts: seq<Token>, ts': seq<Token>, es: seq<TokenisationError>, es': seq<TokenisationError>, line: nat, column: nat)
    requires r != [] && !IsSpace(r[0]) && !IsAlpha(r[0]) && !IsDigit(r[0]) && r[0] != '"' && r[0] != '\''
    requires rest == r[SymbolStep(r).consumed..]
    requires ts' == ts + [Token(SymbolStep(r).kind, line, column, 1, SymbolStep(r).lexeme)] && es' == es
    ensures |rest| < |r|
    ensures Views(ts') + LexedViews(LexAll(rest)) == Views(ts) + LexedViews(LexAll(r))
    ensures Messages(es') + LexedMessages(LexAll(rest)) == Messages(es) + LexedMessages(LexAll(r))
  {
    TokenTurn(r, ts, Token(SymbolStep(r).kind, line, column, 1, SymbolStep(r).lexeme), es, []);
    assert es + [] == es;
  }

  lemma AppendTurn(l: Lexed, rest: seq<Lexed>, ts: seq<Token>, t: Token, es: seq<TokenisationError>, fs: seq<TokenisationError>)
    requires View(t) == (l.kind, l.lexeme) && Messages(fs) == l.messages
    ensures Views(ts + [t]) + LexedViews(rest) == Views(ts) + LexedViews([l] + rest)
    ensures Messages(es + fs) + LexedMessages(rest) == Messages(es) + LexedMessages([l] + rest)
  {
    assert ([l] + rest)[1..] == rest;
    ViewsAppend(ts, t);
    MessagesAppend(es, fs);
  }

  lemma ViewsAppend(ts: seq<Token>, t: Token)
    ensures Views(ts + [t]) == Views(ts) + [View(t)]
  {
    assert (ts + [t])[..|ts|] == ts;
  }

  lemma {:induction false} MessagesAppend(es: seq<TokenisationError>, fs: seq<TokenisationError>)
    ensures Messages(es + fs) == Messages(es) + Messages(fs)
    decreases |fs|
  {
    if fs == [] {
      assert es + fs == es;
    } else {
      var fs' := fs[..|fs| - 1];
      MessagesAppend(es, fs');
      assert (es + fs)[..|es + fs| - 1] == es + fs';
    }
  }

  /** One character more of a string literal's text: a raw newline adds its
      error, any other character none. */
  lemma NewlineErrorsExtend(text: string, c: char)
    ensures NewlineErrors(text + [c]) == NewlineErrors(text) + (if c == '\n' then [NewlineInStringLiteral] else [])
  {
    assert (text + [c])[..|text|] == text;
  }

  lemma MessagesExtend(es: seq<TokenisationError>, e: TokenisationError)
    ensures Messages(es + [e]) == Messages(es) + [e.message]
  {
    assert (es + [e])[..|es|] == es;
  }

  class Lexer {
    const reader: CharReader
    var tokens: seq<Token>
    var errors: seq<TokenisationError>

    ghost predicate Valid()
      reads this, reader
    {
      reader.Valid()
    }

    constructor (reader: CharReader)
      requires reader.Valid()
      ensures Valid() && this.reader == reader
      ensures tokens == [] && errors == []
    {
      this.reader := reader;
      tokens := [];
      errors := [];
    }

    /** The line and column of the reader's next character: what lexer.cpp's
        `get_line_number` and `get_column_number`, which `CharReader` does not
        declare, are taken to answer from `get_source_position`. */
    ghost function Line(): nat
      reads this, reader
    {
      reader.here.newlinesCount
    }

    ghost function Column(): nat
      reads this, reader
    {
      reader.here.offsetInLine
    }

    /** `run`: tokenises until the reader is exhausted. The types, lexemes and
        error messages appended are those of `LexAll` on the characters that
        remained. Each turn skips whitespace with `SkipWhitespaceToEnd`, which
        stops at the end of input; the source's `skip_whitespace` does not, and
        never returns once only whitespace is left (see `SkipWhitespace` and
        `SkipWhitespaceAsWrittenNeverEnds`). */
    method Run()
      requires Valid()
      modifies this, reader
      ensures Valid() && reader.Remaining() == []
      ensures Views(tokens) == Views(old(tokens)) + LexedViews(LexAll(old(reader.Remaining())))
      ensures Messages(errors) == Messages(old(errors)) + LexedMessages(LexAll(old(reader.Remaining())))
    {
      var eof := reader.EndOfFileReached();
      while !eof
        invariant Valid()
        invariant eof <==> reader.Remaining() == []
        invariant Views(tokens) + LexedViews(LexAll(reader.Remaining()))
               == Views(old(tokens)) + LexedViews(LexAll(old(reader.Remaining())))
        invariant Messages(errors) + LexedMessages(LexAll(reader.Remaining()))
               == Messages(old(errors)) + LexedMessages(LexAll(old(reader.Remaining())))
        decreases |reader.Remaining()|
      {
        ghost var before := reader.Remaining();
        SkipSpacesIdempotent(before);
        SkipWhitespaceToEnd();
        ghost var skipped := reader.Remaining();
        assert LexAll(skipped) == LexAll(before);
        TokeniseNext();
        eof := reader.EndOfFileReached();
      }
    }

    /** `skip_whitespace` as written: the do-while peeks and consumes while the
        next character is whitespace. At the end of input `peek` answers ' ', so
        the loop stops only at a character that is not whitespace: it returns
        only on input that still holds one, which is what it is given here. */
    method SkipWhitespace()
      requires Valid() && SkipSpaces(reader.Remaining()) != []
      modifies reader
      ensures Valid() && reader.Remaining() == SkipSpaces(old(reader.Remaining()))
    {
      ghost var s := reader.Remaining();
      ghost var n := LexicalRules.Run(s, Whitespace);
      assert n < |s|;
      var whitespace := true;
      while whitespace
        invariant reader.Valid()
        invariant |reader.Remaining()| <= |s| && reader.Remaining() == s[|s| - |reader.Remaining()|..]
        invariant |s| - |reader.Remaining()| <= n
        invariant !whitespace ==> |s| - |reader.Remaining()| == n
        decreases |reader.Remaining()|, whitespace
      {
        ghost var before := reader.Remaining();
        assert before != [] && before[0] == s[|s| - |before|];
        var c := reader.Peek(0);
        whitespace := IsSpace(c);
        if whitespace {
          var _ := reader.Consume(0);
        }
      }
    }

    /** `skip_whitespace` as evidently intended: consumes whitespace while any
        input is left, and so stops at the end of input too. */
    method SkipWhitespaceToEnd()
      requires Valid()
      modifies reader
      ensures Valid() && reader.Remaining() == SkipSpaces(old(reader.Remaining()))
    {
      ghost var s := reader.Remaining();
      ghost var n := LexicalRules.Run(s, Whitespace);
      var eof := reader.EndOfFileReached();
      var c := reader.Peek(0);
      while !eof && IsSpace(c)
        invariant reader.Valid()
        invariant |reader.Remaining()| <= |s| && reader.Remaining() == s[|s| - |reader.Remaining()|..]
        invariant |s| - |reader.Remaining()| <= n
        invariant eof <==> reader.Remaining() == []
        invariant c == PeekAt(reader.Remaining(), 0)
        decreases |reader.Remaining()|
      {
        assert s[|s| - |reader.Remaining()|] == c;
        var _ := reader.Consume(0);
        eof := reader.EndOfFileReached();
        c := reader.Peek(0);
      }
    }

    /** `tokenise_next`: nothing at the end of input; otherwise one token and at
        least one character taken. From a character that is not whitespace, the
        token's type and lexeme and the errors' messages, followed by those of
        `LexAll` on what remains, are those of `LexAll` on the input: the token
        is the one `NextStep` describes (`TokenTurn`). */
    method TokeniseNext()
      requires Valid()
      modifies this, reader
      ensures Valid()
      ensures old(reader.Remaining()) == [] ==>
        reader.Remaining() == [] && tokens == old(tokens) && errors == old(errors)
      ensures old(reader.Remaining()) != [] ==>
        && reader.Remaining() == old(reader.Remaining())[NextStep(old(reader.Remaining())).consumed..]
        && |tokens| == |old(tokens)| + 1
      ensures old(reader.Remaining()) != [] && !IsSpace(old(reader.Remaining())[0]) ==>
        && Views(tokens) + LexedViews(LexAll(reader.Remaining()))
           == Views(old(tokens)) + LexedViews(LexAll(old(reader.Remaining())))
        && Messages(errors) + LexedMessages(LexAll(reader.Remaining()))
           == Messages(old(errors)) + LexedMessages(LexAll(old(reader.Remaining())))
    {
      ghost var s, ts, es := reader.Remaining(), tokens, errors;
      var eof := reader.EndOfFileReached();
      if eof {
        return;
      }
      var c := reader.Peek(0);
      ghost var line, column := Line(), Column();
      if IsAlpha(c) {
        ReadAndTokeniseWord();
        WordTurn(s, reader.Remaining(), ts, tokens, es, errors, line, column);
      } else if IsDigit(c) {
        ReadAndTokeniseNumber();
        NumberTurn(s, reader.Remaining(), ts, tokens, es, errors, line, column);
      } else if c == '"' {
        ReadAndTokeniseString();
        StringTurn(s, reader.Remaining(), ts, tokens[|ts|], es, errors[|es|..]);
      } else if c == '\'' {
        ReadAndTokeniseCharacter();
        CharTurn(s, reader.Remaining(), ts, tokens, es, errors, line, column, tokens[|ts|].length);
      } else {
        ReadAndTokeniseSymbol();
        if !IsSpace(s[0]) {
          SymbolTurn(s, reader.Remaining(), ts, tokens, es, errors, line, column);
        }
      }
    }

    /** `read_and_tokenise_word`: reads the word `WordText` describes and hands it
        to `tokenise_word` with the position where it starts. */
    method ReadAndTokeniseWord()
      requires Valid() && reader.Remaining() != [] && IsAlpha(reader.Remaining()[0])
      modifies this, reader
      ensures Valid()
      ensures var w := WordText(old(reader.Remaining()));
        && reader.Remaining() == old(reader.Remaining())[|w|..]
        && tokens == old(tokens) + [WordToken(old(Line()), old(Column()), w)]
        && errors == old(errors)
    {
      var sp := reader.GetSourcePosition();
      ghost var s := reader.Remaining();
      var lexeme := ScanWord();
      var colon := reader.Peek(0);
      if colon == ':' {
        var d := reader.Consume(0);
        assert s[..|lexeme| + 1] == lexeme + [d];
        lexeme := lexeme + [d];
      }
      TokeniseWord(sp.newlinesCount, sp.offsetInLine, lexeme);
    }

    /** The loop of `read_and_tokenise_word`: a letter, then the word characters
        that follow it. */
    method ScanWord() returns (lexeme: string)
      requires reader.Valid() && reader.Remaining() != [] && IsAlpha(reader.Remaining()[0])
      modifies reader
      ensures reader.Valid()
      ensures var s := old(reader.Remaining());
        && |lexeme| == WordRunEnd(s) && lexeme == s[..|lexeme|] && reader.Remaining() == s[|lexeme|..]
    {
      ghost var s := reader.Remaining();
      lexeme := "";
      var c := reader.Consume(0);
      lexeme := lexeme + [c];
      c := reader.Peek(0);
      while IsWordChar(c)
        invariant reader.Valid()
        invariant 1 <= |lexeme| <= |s| && lexeme == s[..|lexeme|] && reader.Remaining() == s[|lexeme|..]
        invariant forall j :: 1 <= j < |lexeme| ==> InClass(s[j], WordTail)
        invariant c == PeekAt(s, |lexeme|)
        decreases |s| - |lexeme|
      {
        assert s[..|lexeme| + 1] == lexeme + [c];
        c := reader.Consume(0);
        lexeme := lexeme + [c];
        c := reader.Peek(0);
      }
      RunUnique(s[1..], WordTail, |lexeme| - 1);
    }

    /** `tokenise_word`: appends the token `WordToken` describes. */
    method TokeniseWord(line: nat, column: nat, word: string)
      modifies this
      ensures tokens == old(tokens) + [WordToken(line, column, word)]
      ensures errors == old(errors)
    {
      var kind := KeywordToTokenType(word);
      if kind.Some? {
        tokens := tokens + [Token(kind.value, line, column, |word|, None)];
      } else {
        tokens := tokens + [Token(Identifier, line, column, |word|, Some(word))];
      }
    }

    /** `read_and_tokenise_number`: a number token whose lexeme and length are
        the characters `NumberStep` takes; no error. */
    method ReadAndTokeniseNumber()
      requires Valid() && reader.Remaining() != [] && IsDigit(reader.Remaining()[0])
      modifies this, reader
      ensures Valid()
      ensures var l := NumberStep(old(reader.Remaining()));
        && reader.Remaining() == old(reader.Remaining())[l.consumed..]
        && tokens == old(tokens) + [Token(LiteralNumber, old(Line()), old(Column()), l.consumed, l.lexeme)]
        && errors == old(errors)
    {
      var sp := reader.GetSourcePosition();
      ghost var s := reader.Remaining();
      var lexeme := "";
      var prefixed := reader.ConsumeAllIfNext("0x");
      if prefixed {
        lexeme := "0x";
      } else {
        prefixed := reader.ConsumeAllIfNext("0b");
        if prefixed {
          lexeme := "0b";
        }
      }
      if prefixed {
        assert PeekAt(s, 1) != ' ';
        assert s[..2] == lexeme;
      }
      lexeme := ScanNumber(s, lexeme);
      tokens := tokens + [Token(LiteralNumber, sp.newlinesCount, sp.offsetInLine, |lexeme|, Some(lexeme))];
    }

    /** The loop of `read_and_tokenise_number`: extends `prefix`, the part of
        `s` already read, with decimal digits, hexadecimal letters, '.' and the
        '_' separator. */
    method ScanNumber(ghost s: seq<char>, prefix: string) returns (lexeme: string)
      requires reader.Valid() && |prefix| <= |s| && prefix == s[..|prefix|] && reader.Remaining() == s[|prefix|..]
      requires forall j :: 0 <= j < |prefix| ==> InClass(s[j], NumberBody)
      modifies reader
      ensures reader.Valid()
      ensures lexeme == s[..LexicalRules.Run(s, NumberBody)] && reader.Remaining() == s[|lexeme|..]
    {
      lexeme := prefix;
      var c := reader.Peek(0);
      while IsNumberChar(c)
        invariant reader.Valid()
        invariant |lexeme| <= |s| && lexeme == s[..|lexeme|] && reader.Remaining() == s[|lexeme|..]
        invariant forall j :: 0 <= j < |lexeme| ==> InClass(s[j], NumberBody)
        invariant c == PeekAt(s, |lexeme|)
        decreases |s| - |lexeme|
      {
        assert s[..|lexeme| + 1] == lexeme + [c];
        c := reader.Consume(0);
        lexeme := lexeme + [c];
        c := reader.Peek(0);
      }
      RunUnique(s, NumberBody, |lexeme|);
    }

    /** `read_and_tokenise_string`: a string token whose lexeme and error
        messages are those of `StringStep`. Its position is where the literal
        starts unless the lexeme holds a raw newline: lexer.cpp:219-224 then
        moves it to the position of the last newline error, the one of the
        character after that newline. An unterminated literal is reported on
        the token's line. Its length is the column reached minus the token's
        column, as a 32-bit unsigned difference. */
    method ReadAndTokeniseString()
      requires Valid() && reader.Remaining() != [] && reader.Remaining()[0] == '"'
      modifies this, reader
      ensures Valid()
      ensures var l := StringStep(old(reader.Remaining()));
        && reader.Remaining() == old(reader.Remaining())[l.consumed..]
        && |tokens| == |old(tokens)| + 1 && tokens == old(tokens) + [tokens[|old(tokens)|]]
        && var t := tokens[|old(tokens)|];
        && t.tokenType == LiteralString && t.lexeme == l.lexeme
        && t.length == Uint32Diff(Column(), t.column)
        && ('\n' !in l.lexeme.value ==> t.line == old(Line()) && t.column == old(Column()))
        && |old(errors)| <= |errors| && errors == old(errors) + errors[|old(errors)|..]
        && Messages(errors[|old(errors)|..]) == l.messages
        && var n := |NewlineErrors(l.lexeme.value)|;
        && (n > 0 ==>
              && |old(errors)| + n <= |errors|
              && errors[|old(errors)| + n - 1] == TokenisationError(t.line, t.column, NewlineInStringLiteral))
        && (UnterminatedStringLiteral in l.messages ==> |old(errors)| < |errors| && errors[|errors| - 1].line == t.line)
    {
      var sp := reader.GetSourcePosition();
      var line, column := sp.newlinesCount, sp.offsetInLine;
      var lexeme;
      lexeme, line, column := ReadStringContent(line, column);
      var end := reader.GetSourcePosition();
      tokens := tokens + [Token(LiteralString, line, column, Uint32Diff(end.offsetInLine, column), Some(lexeme))];
    }

    /** The part of `read_and_tokenise_string` after the opening quote; see
        `ScanString` for its loop. The returned position is that of the last
        newline error, and an unterminated literal is reported on its line. */
    method ReadStringContent(line0: nat, column0: nat) returns (lexeme: string, line: nat, column: nat)
      requires Valid() && reader.Remaining() != [] && reader.Remaining()[0] == '"'
      modifies this, reader
      ensures Valid()
      ensures var l := StringStep(old(reader.Remaining()));
        && reader.Remaining() == old(reader.Remaining())[l.consumed..]
        && l.lexeme == Some(lexeme)
        && |old(errors)| <= |errors| && errors == old(errors) + errors[|old(errors)|..]
        && Messages(errors[|old(errors)|..]) == l.messages
      ensures tokens == old(tokens)
      ensures '\n' !in lexeme ==> line == line0 && column == column0
      ensures NewlineErrors(lexeme) != [] ==>
        && |old(errors)| + |NewlineErrors(lexeme)| <= |errors|
        && errors[|old(errors)| + |NewlineErrors(lexeme)| - 1] == TokenisationError(line, column, NewlineInStringLiteral)
      ensures UnterminatedStringLiteral in StringStep(old(reader.Remaining())).messages ==>
        |old(errors)| < |errors| && errors[|errors| - 1].line == line
    {
      ghost var s := reader.Remaining();
      ghost var t := StringTail(s);
      var _ := reader.Consume(0); // the opening quote
      var c := reader.Consume(0);
      assert c == t[0] && reader.Remaining() == t[1..];
      ghost var k, e0 := 0, errors;
      var added;
      lexeme, line, column, k, added := ScanString(t, c, line0, column0);
      errors := errors + added;
      assert forall j :: 0 <= j < k ==> t[j] != '"' && t[j] != '\\' by {
        forall j | 0 <= j < k ensures t[j] != '"' && t[j] != '\\' { assert t[j] == lexeme[j]; }
      }
      StringStepStopsAt(s, k);
      NewlineErrorsAreNewlines(lexeme);
      assert errors[|e0|..] == added;
    }

    /** The loop of `read_and_tokenise_string`, from the character `c0 == t[0]`
        just consumed: it takes the literal `t[..k]` up to the closing quote,
        the first backslash or the last character `t[k]`. Each raw newline is
        reported at the position of the character after it, and the token's
        position moves there, so the token stands where the last newline error
        does; running out of input is reported as unterminated, on the token's
        line. */
    method ScanString(ghost t: seq<char>, c0: char, line0: nat, column0: nat)
      returns (lexeme: string, line: nat, column: nat, ghost k: nat, added: seq<TokenisationError>)
      requires reader.Valid() && t != [] && c0 == t[0] && reader.Remaining() == t[1..]
      modifies reader
      ensures reader.Valid()
      ensures k < |t| && lexeme == t[..k] && reader.Remaining() == t[k + 1..]
      ensures '"' !in lexeme && '\\' !in lexeme
      ensures t[k] == '"' || t[k] == '\\' || k == |t| - 1
      ensures Messages(added) == NewlineErrors(lexeme) + (if k == |t| - 1 && t[k] != '"' then [UnterminatedStringLiteral] else [])
      ensures NewlineErrors(lexeme) == [] ==> line == line0 && column == column0
      ensures NewlineErrors(lexeme) != [] ==>
        added[|NewlineErrors(lexeme)| - 1] == TokenisationError(line, column, NewlineInStringLiteral)
      ensures k == |t| - 1 && t[k] != '"' ==> added[|added| - 1].line == line
    {
      line, column := line0, column0;
      added := [];
      k := 0;
      lexeme := "";
      var escapeSequence := false;
      var c := c0;
      while !escapeSequence && c != '"'
        invariant reader.Valid()
        invariant k < |t| && reader.Remaining() == t[k + 1..] && c == t[k]
        invariant lexeme == t[..k] && '"' !in lexeme && '\\' !in lexeme
        invariant Messages(added) == NewlineErrors(lexeme) && |added| == |NewlineErrors(lexeme)|
        invariant escapeSequence ==> c == '\\' && k + 1 < |t|
        invariant added == [] ==> line == line0 && column == column0
        invariant added != [] ==> added[|added| - 1] == TokenisationError(line, column, NewlineInStringLiteral)
        decreases |t| - k, !escapeSequence
      {
        var sp := reader.GetSourcePosition();
        var currentColumn := sp.offsetInLine;
        var eof := reader.EndOfFileReached();
        if eof {
          assert k == |t| - 1 && t[k] != '"';
          MessagesExtend(added, TokenisationError(line, currentColumn, UnterminatedStringLiteral));
          added := added + [TokenisationError(line, currentColumn, UnterminatedStringLiteral)];
          break;
        }
        // The escape branch of lexer.cpp:197-211 needs `escape_sequence` set,
        // which the loop condition excludes.
        if c == '\\' {
          escapeSequence := true;
          continue;
        }
        lexeme, c, line, column, added := TakeStringCharacter(t, k, lexeme, c, line, column, added);
        k := k + 1;
      }
    }

    /** One character of a string literal that is neither '"' nor '\\', with
        input left after it, added to the lexeme. A raw newline is reported
        after the errors `added0` at the reader's position when the step
        starts, which is that of the character after the newline (the loop has
        just peeked it), and the token's position moves there. */
    method TakeStringCharacter(ghost t: seq<char>, ghost k: nat, lexeme0: string, c0: char, line0: nat, column0: nat,
                               added0: seq<TokenisationError>)
      returns (lexeme: string, c: char, line: nat, column: nat, added: seq<TokenisationError>)
      requires reader.Valid() && k + 1 < |t| && lexeme0 == t[..k] && c0 == t[k]
      requires reader.Remaining() == t[k + 1..]
      requires Messages(added0) == NewlineErrors(lexeme0)
      modifies reader
      ensures reader.Valid()
      ensures lexeme == lexeme0 + [c0] && lexeme == t[..k + 1]
      ensures c == t[k + 1] && reader.Remaining() == t[k + 2..]
      ensures Messages(added) == NewlineErrors(lexeme)
      ensures c0 == '\n' ==>
        && added == added0 + [TokenisationError(line, column, NewlineInStringLiteral)]
        && line == old(reader.here).newlinesCount && column == old(reader.here).offsetInLine
      ensures c0 != '\n' ==> added == added0 && line == line0 && column == column0
    {
      line, column := line0, column0;
      added := added0;
      if c0 == '\n' {
        var sp := reader.GetSourcePosition();
        line, column := sp.newlinesCount, sp.offsetInLine;
        MessagesExtend(added, TokenisationError(line, column, NewlineInStringLiteral));
        added := added + [TokenisationError(line, column, NewlineInStringLiteral)];
      }
      // The merge branch of lexer.cpp:226-230 needs c == '"', which the loop
      // condition excludes.
      assert t[..k + 1] == lexeme0 + [c0];
      NewlineErrorsExtend(lexeme0, c0);
      lexeme := lexeme0 + [c0];
      c := reader.Consume(0);
    }

    /** `read_and_tokenise_character`: a character token with the lexeme of
        `CharStep`, and its errors, all at the literal's start. */
    method ReadAndTokeniseCharacter()
      requires Valid() && reader.Remaining() != [] && reader.Remaining()[0] == '\''
      modifies this, reader
      ensures Valid()
      ensures var l := CharStep(old(reader.Remaining()));
        && reader.Remaining() == old(reader.Remaining())[l.consumed..]
        && tokens == old(tokens) + [Token(LiteralCharacter, old(Line()), old(Column()),
                                          Uint32Diff(Column(), old(Column())), l.lexeme)]
        && errors == old(errors) + ErrorsAt(old(Line()), old(Column()), l.messages)
    {
      var sp := reader.GetSourcePosition();
      var line, column := sp.newlinesCount, sp.offsetInLine;
      ghost var s := reader.Remaining();
      var c := ReadCharacterContent(line, column);
      ghost var p := CharOpenLength(s);
      ghost var e := errors;
      var closed := reader.ConsumeIfMatches('\'');
      assert closed == (PeekAt(s, p) == '\'');
      if !closed {
        errors := errors + [TokenisationError(line, column, UnterminatedCharacterLiteral)];
      }
      assert errors == e + ErrorsAt(line, column, if closed then [] else [UnterminatedCharacterLiteral]);
      assert s[p..][Min(1, |s[p..]|)..] == s[Min(p + 1, |s|)..];
      var end := reader.GetSourcePosition();
      tokens := tokens + [Token(LiteralCharacter, line, column, Uint32Diff(end.offsetInLine, column), Some(CharLexeme(c)))];
    }

    /** The part of `read_and_tokenise_character` before the closing quote:
        takes the quote and the (possibly escaped) character, reporting an
        unknown escape, a raw newline or an empty literal at (`line`, `column`). */
    method ReadCharacterContent(line: nat, column: nat) returns (c: char)
      requires Valid() && reader.Remaining() != [] && reader.Remaining()[0] == '\''
      modifies this, reader
      ensures tokens == old(tokens)
      ensures Valid() && c == CharValue(old(reader.Remaining()))
      ensures reader.Remaining() == old(reader.Remaining())[CharOpenLength(old(reader.Remaining()))..]
      ensures errors == old(errors) + ErrorsAt(line, column, CharOpenMessages(old(reader.Remaining())))
    {
      ghost var s := reader.Remaining();
      var _ := reader.Consume(0); // the opening quote
      assert reader.Remaining() == s[1..];
      c := reader.Consume(0);
      if c == '\\' {
        c := reader.Consume(0);
        assert reader.Remaining() == s[Min(3, |s|)..];
        var escaped := ConvertEscaped(c);
        if escaped.Some? {
          c := escaped.value;
        } else {
          errors := errors + [TokenisationError(line, column, UnknownEscapeSequence)];
        }
      } else if c == '\n' {
        errors := errors + [TokenisationError(line, column, NewlineInCharacterLiteral)];
      } else if c == '\'' {
        errors := errors + [TokenisationError(line, column, EmptyCharacterLiteral)];
      }
    }

    /** `read_and_tokenise_symbol`: the token `SymbolStep` describes, at the
        symbol's position; `::` and the mapped characters carry no lexeme. */
    method ReadAndTokeniseSymbol()
      requires Valid() && reader.Remaining() != []
      modifies this, reader
      ensures Valid()
      ensures var l := SymbolStep(old(reader.Remaining()));
        && reader.Remaining() == old(reader.Remaining())[l.consumed..]
        && tokens == old(tokens) + [Token(l.kind, old(Line()), old(Column()), 1, l.lexeme)]
        && errors == old(errors)
    {
      var sp := reader.GetSourcePosition();
      var line, column := sp.newlinesCount, sp.offsetInLine;
      var accessor := reader.ConsumeAllIfNext("::");
      if accessor {
        tokens := tokens + [Token(StaticAccessor, line, column, 1, None)];
        return;
      }
      var c := reader.Peek(0);
      var optTokenType := ConvertSingleCharToken(c);
      if optTokenType.Some? {
        var _ := reader.Consume(0);
        tokens := tokens + [Token(optTokenType.value, line, column, 1, None)];
        return;
      }
      var customChar := reader.Consume(0);
      TokeniseCustomChar(line, column, customChar);
    }

    /** `tokenise_custom_char`: a custom token whose lexeme is the character. */
    method TokeniseCustomChar(line: nat, column: nat, customChar: char)
      modifies this
      ensures tokens == old(tokens) + [Token(CustomToken, line, column, 1, Some([customChar]))]
      ensures errors == old(errors)
    {
      var lexeme := "";
      lexeme := lexeme + [customChar];
      assert lexeme == [customChar];
      tokens := tokens + [Token(CustomToken, line, column, 1, Some(lexeme))];
    }
  }
}
