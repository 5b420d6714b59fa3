/** The token cursor of neon_compiler/token_reader.cpp: bounded lookahead over
    the finished token sequence. Reads past the end are clamped to the last
    token, which the lexer's caller makes the end-of-file marker. The index is
    the source's `uint`, so it is kept modulo 2^32. */
module TokenReading {
  import opened Util
  import opened Tokens

  /** The index `peek(offset)` reads from `index` in a sequence of `n` tokens:
      `index + offset` computed on `uint`, replaced by `n - 1` (stored back into
      a `uint`) when it is not below `n`. */
  function PeekIndex(n: nat, index: Uint32, offset: Uint32): (p: nat)
    requires n > 0
    ensures p < n
    ensures n <= Uint32Modulus && index + offset < Uint32Modulus ==> p == Min(index + offset, n - 1)
  {
    var q := Uint32Add(index, offset);
    if q >= n then (n - 1) % Uint32Modulus else q
  }

  class TokenReader {
    /** the tokens, a read-only view */
    const tokens: seq<Token>
    /** how many tokens have been consumed */
    var readingIndex: Uint32

    constructor (tokens: seq<Token>)
      ensures this.tokens == tokens && readingIndex == 0
    {
      this.tokens := tokens;
      readingIndex := 0;
    }

    /** `peek(offset)`: the token `offset` places ahead, or the last token when
        that is past the end. An empty sequence has no last token (the source
        indexes at `size() - 1`), so `tokens` must not be empty. */
    function Peek(offset: Uint32): (t: Token)
      reads this
      requires tokens != []
      ensures t in tokens
      ensures |tokens| <= Uint32Modulus && readingIndex + offset < Uint32Modulus ==>
                t == tokens[Min(readingIndex + offset, |tokens| - 1)]
    {
      tokens[PeekIndex(|tokens|, readingIndex, offset)]
    }

    /** `consume(offset)`: skips `offset` tokens, answers the token then in
        front, and moves one past it. */
    method Consume(offset: Uint32) returns (t: Token)
      requires tokens != []
      modifies this
      ensures t == old(Peek(offset))
      ensures readingIndex == Uint32Add(Uint32Add(old(readingIndex), offset), 1)
    {
      readingIndex := Uint32Add(readingIndex, offset);
      t := Peek(0);
      readingIndex := Uint32Add(readingIndex, 1);
    }

    /** `end_of_file_reached`: the token in front is the end-of-file marker. */
    function EndOfFileReached(): (eof: bool)
      reads this
      requires tokens != []
    {
      Peek(0).tokenType == EndOfFile
    }

    /** `consume_if_matches(match)`: moves one token ahead exactly when the
        token in front has type `expected`; otherwise nothing changes. */
    method ConsumeIfMatches(expected: TokenType) returns (matching: bool)
      requires tokens != []
      modifies this
      ensures matching == (old(Peek(0)).tokenType == expected)
      ensures readingIndex == if matching then Uint32Add(old(readingIndex), 1) else old(readingIndex)
    {
      matching := Peek(0).tokenType == expected;
      if matching {
        var _ := Consume(0);
      }
    }
  }

  /** A sequence that holds the end-of-file marker exactly at its end. */
  predicate EndsWithSingleEndOfFile(tokens: seq<Token>)
  {
    && tokens != [] && tokens[|tokens| - 1].tokenType == EndOfFile
    && forall j :: 0 <= j < |tokens| - 1 ==> tokens[j].tokenType != EndOfFile
  }

  /** On such a sequence the end of file is reached exactly once the index has
      come to the last token, and from then on every peek, however far ahead,
      answers the end-of-file marker. */
  lemma EndOfFileReachedAtLastToken(r: TokenReader, offset: Uint32)
    requires EndsWithSingleEndOfFile(r.tokens) && |r.tokens| <= Uint32Modulus
    requires r.readingIndex + offset < Uint32Modulus
    ensures r.EndOfFileReached() <==> r.readingIndex >= |r.tokens| - 1
    ensures r.readingIndex + offset >= |r.tokens| - 1 ==> r.Peek(offset).tokenType == EndOfFile
  {
    var n := |r.tokens|;
    assert r.Peek(0) == r.tokens[Min(r.readingIndex, n - 1)];
    assert r.Peek(offset) == r.tokens[Min(r.readingIndex + offset, n - 1)];
  }

  /** The sequence of tests/neon_compiler/token_reader/token_reader_test.cpp:
      package, identifier, end of statement, identifier, end of file. */
  function TestTokens(): (ts: seq<Token>)
    ensures |ts| == 5
  {
    [Token(Package, 0, 0, 0, None), Token(Identifier, 0, 0, 0, None), Token(EndStatement, 0, 0, 0, None),
     Token(Identifier, 0, 0, 0, None), Token(EndOfFile, 0, 0, 0, None)]
  }

  /** The calls of token_reader_test.cpp:25-37 in their order, with the types
      peeked, the types consumed and the end-of-file answers they give. */
  method TokenReaderScenario() returns (peeked: seq<TokenType>, consumed: seq<TokenType>, eofs: seq<bool>)
    ensures peeked == [Package, Identifier, EndStatement, EndOfFile]
    ensures consumed == [Package, EndStatement, Identifier, EndOfFile, EndOfFile]
    ensures eofs == [false, false, true, true]
  {
    var tr := new TokenReader(TestTokens());
    peeked := [tr.Peek(0).tokenType, tr.Peek(1).tokenType, tr.Peek(2).tokenType, tr.Peek(9).tokenType];
    eofs := [tr.EndOfFileReached()];
    var t := tr.Consume(0);
    consumed := [t.tokenType];
    t := tr.Consume(1);
    consumed := consumed + [t.tokenType];
    eofs := eofs + [tr.EndOfFileReached()];
    t := tr.Consume(0);
    consumed := consumed + [t.tokenType];
    eofs := eofs + [tr.EndOfFileReached()];
    t := tr.Consume(0);
    consumed := consumed + [t.tokenType];
    t := tr.Consume(0);
    consumed := consumed + [t.tokenType];
    eofs := eofs + [tr.EndOfFileReached()];
  }
}
