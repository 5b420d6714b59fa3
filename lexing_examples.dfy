/** The inputs of tests/neon_compiler/lexer/lexer_test.cpp, lexed by the rules
    of `LexicalRules`: what the functions each lexer method is proved against
    give on them. Each test input is written as its pieces, token by token. */
module LexingExamples {
  import opened Util
  import opened Tokens
  import opened Reading
  import opened LexicalRules

  /** Leading whitespace makes no token. */
  lemma LexAllSpace(c: char, r: seq<char>)
    requires IsSpace(c)
    ensures LexAll([c] + r) == LexAll(r)
  {
    var s := [c] + r;
    var n := Run(r, Whitespace);
    RunUnique(s, Whitespace, n + 1);
    assert s[n + 1..] == r[n..];
  }

  /** A word `w`: a letter and word characters `v`, then the colon `suffix`
      ("" or ":"), then input that cannot extend it. It lexes to one word
      token, then `run` on the rest. */
  lemma LexWord(w: string, v: string, suffix: string, rest: seq<char>)
    requires v != [] && IsAlpha(v[0]) && forall j :: 1 <= j < |v| ==> IsWordChar(v[j])
    requires suffix == [] || suffix == [':']
    requires w == v + suffix
    requires suffix == [] ==> rest == [] || (!IsWordChar(rest[0]) && rest[0] != ':')
    requires suffix != [] ==> rest == [] || IsSpace(rest[0])
    ensures var t := WordToken(0, 0, w);
      LexAll(w + rest) == [Lexed(t.tokenType, t.lexeme, |w|, [])] + LexAll(rest)
  {
    var s := w + rest;
    assert s[..|v|] == v;
    RunUnique(s[1..], WordTail, |v| - 1);
    assert WordText(s) == w;
    LexAllStep(s);
    assert s[|w|..] == rest;
  }

  /** A keyword `w` of letters only, then input that cannot extend it. */
  lemma LexKeyword(w: string, rest: seq<char>, kind: TokenType)
    requires w != [] && forall j :: 0 <= j < |w| ==> 'a' <= w[j] <= 'z'
    requires rest == [] || IsSpace(rest[0])
    requires KeywordToTokenType(w) == Some(kind)
    ensures LexAll(w + rest) == [Lexed(kind, None, |w|, [])] + LexAll(rest)
  {
    assert w + [] == w;
    LexWord(w, w, [], rest);
  }

  /** A keyword of letters, one blank, then `rest`. */
  lemma LexKeywordThenBlank(w: string, rest: seq<char>, kind: TokenType)
    requires w != [] && forall j :: 0 <= j < |w| ==> 'a' <= w[j] <= 'z'
    requires KeywordToTokenType(w) == Some(kind)
    ensures LexAll(w + ([' '] + rest)) == [Lexed(kind, None, |w|, [])] + LexAll(rest)
  {
    LexKeyword(w, [' '] + rest, kind);
    LexAllSpace(' ', rest);
  }

  /** "pkg", then a blank. */
  lemma LexPkg(rest: seq<char>)
    ensures LexAll("pkg" + (" " + rest)) == [Lexed(Package, None, 3, [])] + LexAll(rest)
  {
    KeywordEntries1To5();
    assert " " == [' '];
    LexKeywordThenBlank("pkg", rest, Package);
  }

  /** "interface", then a blank. */
  lemma LexInterface(rest: seq<char>)
    ensures LexAll("interface" + (" " + rest)) == [Lexed(TypeInterface, None, 9, [])] + LexAll(rest)
  {
    KeywordEntries11To15();
    assert " " == [' '];
    LexKeywordThenBlank("interface", rest, TypeInterface);
  }

  /** "mut:" alone is the mutable-reference keyword: the ':' belongs to it. */
  lemma LexMutColon()
    ensures LexAll("mut:") == [Lexed(MutableReference, None, 4, [])]
  {
    KeywordEntries6To10();
    LexWord("mut:", "mut", ":", []);
    assert "mut:" + [] == "mut:";
    LexAllOfWhitespace([]);
  }

  /** "pkg interface mut:" gives the package keyword, the interface keyword and
      the mutable-reference keyword "mut:", with no error (lexer_test.cpp:13,
      29-36). */
  lemma KeywordsExample()
    ensures LexAll("pkg" + (" " + ("interface" + (" " + "mut:"))))
         == [Lexed(Package, None, 3, []), Lexed(TypeInterface, None, 9, []), Lexed(MutableReference, None, 4, [])]
  {
    var a, b, c := Lexed(Package, None, 3, []), Lexed(TypeInterface, None, 9, []), Lexed(MutableReference, None, 4, []);
    assert [a] + ([b] + [c]) == [a, b, c];
    LexPkg("interface" + (" " + "mut:"));
    LexInterface("mut:");
    LexMutColon();
  }

  /** A character literal at the front of the input is the token `CharStep`
      describes, then `run` on what it leaves. */
  lemma LexCharacter(r: seq<char>)
    requires r != [] && r[0] == '\''
    ensures LexAll(r) == [CharStep(r)] + LexAll(r[CharStep(r).consumed..])
  {
    assert !IsSpace(r[0]) && !IsAlpha(r[0]) && !IsDigit(r[0]) && r[0] != '"';
    assert NextStep(r) == CharStep(r);
    LexAllStep(r);
  }

  /** A plain character between quotes, then a blank. */
  lemma LexPlainCharThenBlank(c: char, rest: seq<char>)
    requires c != '\\' && c != '\n' && c != '\''
    ensures LexAll(['\'', c, '\''] + ([' '] + rest)) == [Lexed(LiteralCharacter, Some([c]), 3, [])] + LexAll(rest)
  {
    var s := ['\'', c, '\''] + ([' '] + rest);
    assert s[1] == c && s[2] == '\'';
    assert CharStep(s) == Lexed(LiteralCharacter, Some([c]), 3, []);
    LexCharacter(s);
    assert s[3..] == [' '] + rest;
    LexAllSpace(' ', rest);
  }

  /** A known escape between quotes: the character it stands for. */
  lemma LexEscapedChar(e: char, rest: seq<char>)
    requires ConvertEscaped(e).Some?
    ensures LexAll(['\'', '\\', e, '\''] + rest)
         == [Lexed(LiteralCharacter, Some([ConvertEscaped(e).value]), 4, [])] + LexAll(rest)
  {
    var s := ['\'', '\\', e, '\''] + rest;
    assert s[1] == '\\' && s[2] == e && s[3] == '\'';
    assert CharStep(s) == Lexed(LiteralCharacter, Some([ConvertEscaped(e).value]), 4, []);
    LexCharacter(s);
    assert s[4..] == rest;
  }

  /** A known escape between quotes, then a blank. */
  lemma LexEscapedCharThenBlank(e: char, rest: seq<char>)
    requires ConvertEscaped(e).Some?
    ensures LexAll(['\'', '\\', e, '\''] + ([' '] + rest))
         == [Lexed(LiteralCharacter, Some([ConvertEscaped(e).value]), 4, [])] + LexAll(rest)
  {
    LexEscapedChar(e, [' '] + rest);
    LexAllSpace(' ', rest);
  }

  /** A known escape between quotes, then only whitespace. */
  lemma LexEscapedCharThenSpaces(e: char, trailing: seq<char>)
    requires ConvertEscaped(e).Some?
    requires forall j :: 0 <= j < |trailing| ==> IsSpace(trailing[j])
    ensures LexAll(['\'', '\\', e, '\''] + trailing)
         == [Lexed(LiteralCharacter, Some([ConvertEscaped(e).value]), 4, [])]
  {
    LexEscapedChar(e, trailing);
    LexAllOfWhitespace(trailing);
  }

  /** "'c'", then a blank. */
  lemma LexLetterC(rest: seq<char>)
    ensures LexAll("'c'" + (" " + rest)) == [Lexed(LiteralCharacter, Some("c"), 3, [])] + LexAll(rest)
  {
    assert "'c'" == ['\'', 'c', '\''] && " " == [' '] && "c" == ['c'];
    LexPlainCharThenBlank('c', rest);
  }

  /** "'\\''", then a blank. */
  lemma LexEscapedQuote(rest: seq<char>)
    ensures LexAll("'\\''" + (" " + rest)) == [Lexed(LiteralCharacter, Some("'"), 4, [])] + LexAll(rest)
  {
    assert "'\\''" == ['\'', '\\', '\'', '\''] && " " == [' '];
    assert ConvertEscaped('\'') == Some('\'') && "'" == ['\''];
    LexEscapedCharThenBlank('\'', rest);
  }

  /** "'\\n'" alone is the newline character. */
  lemma LexEscapedNewline()
    ensures LexAll("'\\n'") == [Lexed(LiteralCharacter, Some("\n"), 4, [])]
  {
    assert "'\\n'" == ['\'', '\\', 'n', '\''] + [];
    assert ConvertEscaped('n') == Some('\n') && "\n" == ['\n'];
    LexEscapedCharThenSpaces('n', []);
  }

  /** "'c' '\\'' '\\n'" gives three character tokens, 'c', the quote and the
      newline, with no error (lexer_test.cpp:15, 62-84). */
  lemma CharactersExample()
    ensures LexAll("'c'" + (" " + ("'\\''" + (" " + "'\\n'"))))
         == [Lexed(LiteralCharacter, Some("c"), 3, []), Lexed(LiteralCharacter, Some("'"), 4, []),
             Lexed(LiteralCharacter, Some("\n"), 4, [])]
  {
    var a, b, c := Lexed(LiteralCharacter, Some("c"), 3, []), Lexed(LiteralCharacter, Some("'"), 4, []),
                   Lexed(LiteralCharacter, Some("\n"), 4, []);
    assert [a] + ([b] + [c]) == [a, b, c];
    LexLetterC("'\\''" + (" " + "'\\n'"));
    LexEscapedQuote("'\\n'");
    LexEscapedNewline();
  }
}
