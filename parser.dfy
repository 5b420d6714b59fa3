/** The parser entry of neon_compiler/parser/parser.cpp: `run` checks that the
    token sequence opens with the package keyword, and `take_errors` hands over
    the errors found. */
module Parsing {
  import opened Util
  import opened Tokens
  import opened TokenReading

  /** The messages a parsing error can carry; `run` uses only one. */
  datatype ParsingMessage = MissingPackageDeclaration

  /** neon_compiler/parser/parsing_error.cpp: the token the error is about and
      its message; the getters are the destructors. */
  datatype ParsingError = ParsingError(token: Token, message: ParsingMessage)

  /** The errors `run` appends when `front` is the token in front of the
      reader: none for the package keyword, otherwise one missing-package
      error about `front`. */
  function PackageCheck(front: Token): (es: seq<ParsingError>)
    ensures |es| <= 1
    ensures es == [] <==> front.tokenType == Package
    ensures forall e :: e in es ==> e.token == front && e.message == MissingPackageDeclaration
  {
    if front.tokenType == Package then [] else [ParsingError(front, MissingPackageDeclaration)]
  }

  class Parser {
    const reader: TokenReader
    var errors: seq<ParsingError>

    /** The logger the source also takes is only used by `print_token`, which
        is not part of this model. */
    constructor (tokens: seq<Token>)
      ensures fresh(reader) && reader.tokens == tokens && reader.readingIndex == 0
      ensures errors == []
    {
      reader := new TokenReader(tokens);
      errors := [];
    }

    /** `run`: consumes the package keyword when it is in front; otherwise
        appends one missing-package error about the front token and leaves the
        reader where it was. Nothing but the front token decides the outcome. */
    method Run()
      requires reader.tokens != []
      modifies this, reader
      ensures errors == old(errors) + PackageCheck(old(reader.Peek(0)))
      ensures reader.readingIndex ==
        if old(reader.Peek(0)).tokenType == Package then Uint32Add(old(reader.readingIndex), 1)
        else old(reader.readingIndex)
    {
      var found := reader.ConsumeIfMatches(Package);
      if !found {
        errors := errors + [ParsingError(reader.Peek(0), MissingPackageDeclaration)];
      }
    }

    /** `take_errors`: the errors in the order they were appended. The source
        moves the vector out, which leaves this parser's list empty. */
    method TakeErrors() returns (es: seq<ParsingError>)
      modifies this
      ensures es == old(errors) && errors == []
    {
      es := errors;
      errors := [];
    }
  }

  /** A fresh parser over tokens that open with the package keyword ends with
      no error and one token consumed; over any other non-empty tokens it ends
      with exactly the one missing-package error about the first token, which
      `take_errors` hands over. */
  method ParseOnce(tokens: seq<Token>) returns (es: seq<ParsingError>, consumed: nat)
    requires tokens != []
    ensures tokens[0].tokenType == Package ==> es == [] && consumed == 1
    ensures tokens[0].tokenType != Package ==>
      es == [ParsingError(tokens[0], MissingPackageDeclaration)] && consumed == 0
  {
    var parser := new Parser(tokens);
    parser.Run();
    es := parser.TakeErrors();
    consumed := parser.reader.readingIndex;
  }
}
