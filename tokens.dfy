/** Tokens (neon_compiler/token.hpp, neon_compiler/token.cpp): the token types,
    the token record and the keyword table. */
module Tokens {
  import opened Util

  /** The enumeration of neon_compiler/token.hpp:11-66, plus `LiteralCharacter`
      and `EndOfFile`, which the lexer and the token reader use but the header
      lacks. */
  datatype TokenType =
    | Identifier
    | LiteralNumber
    | LiteralString
    | LiteralCharacter
    | CustomToken
    | BracketCurlyOpen
    | BracketCurlyClose
    | BracketRoundOpen
    | BracketRoundClose
    | SmallerThan
    | GreaterThan
    | EndStatement
    | Comma
    | Package
    | StaticAccessor
    | VisibilityPublic
    | VisibilityPrivate
    | VisibilityProtected
    | VisibilityInner
    | MemberStatic
    | MemberConst
    | MemberExternal
    | MutableReference
    | MutableDeclaration
    | RefTypeOwn
    | RefTypeShared
    | TypeClass
    | TypeInterface
    | Constructor
    | ReferenceSuper
    | ReferenceThis
    | InheritanceImplements
    | InheritanceExtends
    | DeclClassExtendable
    | DeclMethodFinal
    | DeclMethodOverride
    | DeclTypeCopyable
    | DeclTypeSerialisable
    | BoolTrue
    | BoolFalse
    | CallCompileFunction
    | DefineCompileFunction
    | DefineGrammarSet
    | ReturnTypeVoid
    | StmtIf
    | StmtElse
    | StmtFor
    | StmtForEachIn
    | StmtWhile
    | StmtSerialising
    | StmtReturn
    | StmtMove
    | StmtPass
    | StmtCopy
    | EndOfFile

  /** A token: its type, the line and column where it starts, the length of its
      source text and its lexeme, if it was built with one. The getters of
      token.cpp are this datatype's destructors. */
  datatype Token = Token(tokenType: TokenType, line: nat, column: nat, length: nat, lexeme: Option<string>)

  /** The keyword table of neon_compiler/token.cpp:41-80: each spelling with the
      token type it stands for, in the order the lookup tests them. */
  const KeywordTable: seq<(string, TokenType)> := [
    ("pkg", Package), ("public", VisibilityPublic), ("private", VisibilityPrivate), ("protected", VisibilityProtected),
    ("inner", VisibilityInner), ("static", MemberStatic), ("const", MemberConst), ("external", MemberExternal),
    ("mut:", MutableReference), ("mut", MutableDeclaration), ("own", RefTypeOwn), ("shared", RefTypeShared),
    ("class", TypeClass), ("interface", TypeInterface), ("constructor", Constructor), ("super", ReferenceSuper),
    ("this", ReferenceThis), ("impl", InheritanceImplements), ("extends", InheritanceExtends), ("extendable", DeclClassExtendable),
    ("final", DeclMethodFinal), ("override", DeclMethodOverride), ("copyable", DeclTypeCopyable), ("serialisable", DeclTypeSerialisable),
    ("true", BoolTrue), ("false", BoolFalse), ("auto:", CallCompileFunction), ("compile_function", DefineCompileFunction),
    ("grammar", DefineGrammarSet), ("void", ReturnTypeVoid), ("if", StmtIf), ("else", StmtElse),
    ("for", StmtFor), ("for_each_in", StmtForEachIn), ("while", StmtWhile), ("serialising", StmtSerialising),
    ("ret", StmtReturn), ("move", StmtMove), ("pass", StmtPass), ("copy", StmtCopy)
  ]

  /** The token type a keyword spelling stands for; `None` for any other word.
      Each test is `string_view` equality, which compares the sizes first and
      then the characters; the size of each spelling is written out. The
      properties of the lookup are stated by the lemmas below. */
  function KeywordToTokenType(word: string): Option<TokenType>
  {
         if |word| == 3 && word == "pkg"                then Some(Package)
    else if |word| == 6 && word == "public"             then Some(VisibilityPublic)
    else if |word| == 7 && word == "private"            then Some(VisibilityPrivate)
    else if |word| == 9 && word == "protected"          then Some(VisibilityProtected)
    else if |word| == 5 && word == "inner"              then Some(VisibilityInner)
    else if |word| == 6 && word == "static"             then Some(MemberStatic)
    else if |word| == 5 && word == "const"              then Some(MemberConst)
    else if |word| == 8 && word == "external"           then Some(MemberExternal)
    else if |word| == 4 && word == "mut:"               then Some(MutableReference)
    else if |word| == 3 && word == "mut"                then Some(MutableDeclaration)
    else if |word| == 3 && word == "own"                then Some(RefTypeOwn)
    else if |word| == 6 && word == "shared"             then Some(RefTypeShared)
    else if |word| == 5 && word == "class"              then Some(TypeClass)
    else if |word| == 9 && word == "interface"          then Some(TypeInterface)
    else if |word| == 11 && word == "constructor"       then Some(Constructor)
    else if |word| == 5 && word == "super"              then Some(ReferenceSuper)
    else if |word| == 4 && word == "this"               then Some(ReferenceThis)
    else if |word| == 4 && word == "impl"               then Some(InheritanceImplements)
    else if |word| == 7 && word == "extends"            then Some(InheritanceExtends)
    else if |word| == 10 && word == "extendable"        then Some(DeclClassExtendable)
    else if |word| == 5 && word == "final"              then Some(DeclMethodFinal)
    else if |word| == 8 && word == "override"           then Some(DeclMethodOverride)
    else if |word| == 8 && word == "copyable"           then Some(DeclTypeCopyable)
    else if |word| == 12 && word == "serialisable"      then Some(DeclTypeSerialisable)
    else if |word| == 4 && word == "true"               then Some(BoolTrue)
    else if |word| == 5 && word == "false"              then Some(BoolFalse)
    else if |word| == 5 && word == "auto:"              then Some(CallCompileFunction)
    else if |word| == 16 && word == "compile_function"  then Some(DefineCompileFunction)
    else if |word| == 7 && word == "grammar"            then Some(DefineGrammarSet)
    else if |word| == 4 && word == "void"               then Some(ReturnTypeVoid)
    else if |word| == 2 && word == "if"                 then Some(StmtIf)
    else if |word| == 4 && word == "else"               then Some(StmtElse)
    else if |word| == 3 && word == "for"                then Some(StmtFor)
    else if |word| == 11 && word == "for_each_in"       then Some(StmtForEachIn)
    else if |word| == 5 && word == "while"              then Some(StmtWhile)
    else if |word| == 11 && word == "serialising"       then Some(StmtSerialising)
    else if |word| == 3 && word == "ret"                then Some(StmtReturn)
    else if |word| == 4 && word == "move"               then Some(StmtMove)
    else if |word| == 4 && word == "pass"               then Some(StmtPass)
    else if |word| == 4 && word == "copy"               then Some(StmtCopy)
    else None
  }

  /** The lookup answers only for the spellings of the table, and then with the
      type the table pairs with that spelling. The converse, that every entry of
      the table is found, is stated entry by entry in `KeywordEntries1To5` to
      `KeywordEntries36To40`. */
  lemma KeywordLookupInTable(word: string)
    ensures KeywordToTokenType(word).Some? ==> (word, KeywordToTokenType(word).value) in KeywordTable
  {
  }

  /** Table entries 1 to 5 ("pkg" to "inner") are found. */
  lemma KeywordEntries1To5()
    ensures KeywordToTokenType("pkg") == Some(Package)
    ensures KeywordToTokenType("public") == Some(VisibilityPublic)
    ensures KeywordToTokenType("private") == Some(VisibilityPrivate)
    ensures KeywordToTokenType("protected") == Some(VisibilityProtected)
    ensures KeywordToTokenType("inner") == Some(VisibilityInner)
  {
  }

  /** Table entries 6 to 10 ("static" to "mut") are found. */
  lemma KeywordEntries6To10()
    ensures KeywordToTokenType("static") == Some(MemberStatic)
    ensures KeywordToTokenType("const") == Some(MemberConst)
    ensures KeywordToTokenType("external") == Some(MemberExternal)
    ensures KeywordToTokenType("mut:") == Some(MutableReference)
    ensures KeywordToTokenType("mut") == Some(MutableDeclaration)
  {
  }

  /** Table entries 11 to 15 ("own" to "constructor") are found. */
  lemma KeywordEntries11To15()
    ensures KeywordToTokenType("own") == Some(RefTypeOwn)
    ensures KeywordToTokenType("shared") == Some(RefTypeShared)
    ensures KeywordToTokenType("class") == Some(TypeClass)
    ensures KeywordToTokenType("interface") == Some(TypeInterface)
    ensures KeywordToTokenType("constructor") == Some(Constructor)
  {
  }

  /** Table entries 16 to 20 ("super" to "extendable") are found. */
  lemma KeywordEntries16To20()
    ensures KeywordToTokenType("super") == Some(ReferenceSuper)
    ensures KeywordToTokenType("this") == Some(ReferenceThis)
    ensures KeywordToTokenType("impl") == Some(InheritanceImplements)
    ensures KeywordToTokenType("extends") == Some(InheritanceExtends)
    ensures KeywordToTokenType("extendable") == Some(DeclClassExtendable)
  {
  }

  /** Table entries 21 to 25 ("final" to "true") are found. */
  lemma KeywordEntries21To25()
    ensures KeywordToTokenType("final") == Some(DeclMethodFinal)
    ensures KeywordToTokenType("override") == Some(DeclMethodOverride)
    ensures KeywordToTokenType("copyable") == Some(DeclTypeCopyable)
    ensures KeywordToTokenType("serialisable") == Some(DeclTypeSerialisable)
    ensures KeywordToTokenType("true") == Some(BoolTrue)
  {
  }

  /** Table entries 26 to 30 ("false" to "void") are found. */
  lemma KeywordEntries26To30()
    ensures KeywordToTokenType("false") == Some(BoolFalse)
    ensures KeywordToTokenType("auto:") == Some(CallCompileFunction)
    ensures KeywordToTokenType("compile_function") == Some(DefineCompileFunction)
    ensures KeywordToTokenType("grammar") == Some(DefineGrammarSet)
    ensures KeywordToTokenType("void") == Some(ReturnTypeVoid)
  {
  }

  /** Table entries 31 to 35 ("if" to "while") are found. */
  lemma KeywordEntries31To35()
    ensures KeywordToTokenType("if") == Some(StmtIf)
    ensures KeywordToTokenType("else") == Some(StmtElse)
    ensures KeywordToTokenType("for") == Some(StmtFor)
    ensures KeywordToTokenType("for_each_in") == Some(StmtForEachIn)
    ensures KeywordToTokenType("while") == Some(StmtWhile)
  {
  }

  /** Table entries 36 to 40 ("serialising" to "copy") are found. */
  lemma KeywordEntries36To40()
    ensures KeywordToTokenType("serialising") == Some(StmtSerialising)
    ensures KeywordToTokenType("ret") == Some(StmtReturn)
    ensures KeywordToTokenType("move") == Some(StmtMove)
    ensures KeywordToTokenType("pass") == Some(StmtPass)
    ensures KeywordToTokenType("copy") == Some(StmtCopy)
  {
  }

  /** Types 1 to 10 of the table are the answer for one spelling only. */
  lemma KeywordTypeSpelling1To10(word: string)
    ensures KeywordToTokenType(word) == Some(Package) ==> word == "pkg"
    ensures KeywordToTokenType(word) == Some(VisibilityPublic) ==> word == "public"
    ensures KeywordToTokenType(word) == Some(VisibilityPrivate) ==> word == "private"
    ensures KeywordToTokenType(word) == Some(VisibilityProtected) ==> word == "protected"
    ensures KeywordToTokenType(word) == Some(VisibilityInner) ==> word == "inner"
    ensures KeywordToTokenType(word) == Some(MemberStatic) ==> word == "static"
    ensures KeywordToTokenType(word) == Some(MemberConst) ==> word == "const"
    ensures KeywordToTokenType(word) == Some(MemberExternal) ==> word == "external"
    ensures KeywordToTokenType(word) == Some(MutableReference) ==> word == "mut:"
    ensures KeywordToTokenType(word) == Some(MutableDeclaration) ==> word == "mut"
  {
  }

  /** Types 11 to 20 of the table are the answer for one spelling only. */
  lemma KeywordTypeSpelling11To20(word: string)
    ensures KeywordToTokenType(word) == Some(RefTypeOwn) ==> word == "own"
    ensures KeywordToTokenType(word) == Some(RefTypeShared) ==> word == "shared"
    ensures KeywordToTokenType(word) == Some(TypeClass) ==> word == "class"
    ensures KeywordToTokenType(word) == Some(TypeInterface) ==> word == "interface"
    ensures KeywordToTokenType(word) == Some(Constructor) ==> word == "constructor"
    ensures KeywordToTokenType(word) == Some(ReferenceSuper) ==> word == "super"
    ensures KeywordToTokenType(word) == Some(ReferenceThis) ==> word == "this"
    ensures KeywordToTokenType(word) == Some(InheritanceImplements) ==> word == "impl"
    ensures KeywordToTokenType(word) == Some(InheritanceExtends) ==> word == "extends"
    ensures KeywordToTokenType(word) == Some(DeclClassExtendable) ==> word == "extendable"
  {
  }

  /** Types 21 to 30 of the table are the answer for one spelling only. */
  lemma KeywordTypeSpelling21To30(word: string)
    ensures KeywordToTokenType(word) == Some(DeclMethodFinal) ==> word == "final"
    ensures KeywordToTokenType(word) == Some(DeclMethodOverride) ==> word == "override"
    ensures KeywordToTokenType(word) == Some(DeclTypeCopyable) ==> word == "copyable"
    ensures KeywordToTokenType(word) == Some(DeclTypeSerialisable) ==> word == "serialisable"
    ensures KeywordToTokenType(word) == Some(BoolTrue) ==> word == "true"
    ensures KeywordToTokenType(word) == Some(BoolFalse) ==> word == "false"
    ensures KeywordToTokenType(word) == Some(CallCompileFunction) ==> word == "auto:"
    ensures KeywordToTokenType(word) == Some(DefineCompileFunction) ==> word == "compile_function"
    ensures KeywordToTokenType(word) == Some(DefineGrammarSet) ==> word == "grammar"
    ensures KeywordToTokenType(word) == Some(ReturnTypeVoid) ==> word == "void"
  {
  }

  /** Types 31 to 40 of the table are the answer for one spelling only. */
  lemma KeywordTypeSpelling31To40(word: string)
    ensures KeywordToTokenType(word) == Some(StmtIf) ==> word == "if"
    ensures KeywordToTokenType(word) == Some(StmtElse) ==> word == "else"
    ensures KeywordToTokenType(word) == Some(StmtFor) ==> word == "for"
    ensures KeywordToTokenType(word) == Some(StmtForEachIn) ==> word == "for_each_in"
    ensures KeywordToTokenType(word) == Some(StmtWhile) ==> word == "while"
    ensures KeywordToTokenType(word) == Some(StmtSerialising) ==> word == "serialising"
    ensures KeywordToTokenType(word) == Some(StmtReturn) ==> word == "ret"
    ensures KeywordToTokenType(word) == Some(StmtMove) ==> word == "move"
    ensures KeywordToTokenType(word) == Some(StmtPass) ==> word == "pass"
    ensures KeywordToTokenType(word) == Some(StmtCopy) ==> word == "copy"
  {
  }

  /** The table is injective: no two spellings share a token type. */
  lemma KeywordTableInjective(w1: string, w2: string)
    requires KeywordToTokenType(w1).Some? && KeywordToTokenType(w1) == KeywordToTokenType(w2)
    ensures w1 == w2
  {
    match KeywordToTokenType(w1).value
    case Package | VisibilityPublic | VisibilityPrivate | VisibilityProtected | VisibilityInner | MemberStatic | MemberConst | MemberExternal | MutableReference | MutableDeclaration =>
      KeywordTypeSpelling1To10(w1);
      KeywordTypeSpelling1To10(w2);
    case RefTypeOwn | RefTypeShared | TypeClass | TypeInterface | Constructor | ReferenceSuper | ReferenceThis | InheritanceImplements | InheritanceExtends | DeclClassExtendable =>
      KeywordTypeSpelling11To20(w1);
      KeywordTypeSpelling11To20(w2);
    case DeclMethodFinal | DeclMethodOverride | DeclTypeCopyable | DeclTypeSerialisable | BoolTrue | BoolFalse | CallCompileFunction | DefineCompileFunction | DefineGrammarSet | ReturnTypeVoid =>
      KeywordTypeSpelling21To30(w1);
      KeywordTypeSpelling21To30(w2);
    case StmtIf | StmtElse | StmtFor | StmtForEachIn | StmtWhile | StmtSerialising | StmtReturn | StmtMove | StmtPass | StmtCopy =>
      KeywordTypeSpelling31To40(w1);
      KeywordTypeSpelling31To40(w2);
    case _ =>
      KeywordsAreOnlyKeywordTypes(w1);
  }

  /** "mut:" and "mut" are different keywords. */
  lemma MutSpellingsDiffer()
    ensures KeywordToTokenType("mut:") == Some(MutableReference)
    ensures KeywordToTokenType("mut") == Some(MutableDeclaration)
  {
  }

  /** Matching is case-sensitive and a trailing ':' is part of the spelling. */
  lemma KeywordMatchingIsExact()
    ensures KeywordToTokenType("Pkg") == None
    ensures KeywordToTokenType("pkg:") == None
    ensures KeywordToTokenType("") == None
  {
  }

  /** The only keyword spellings that end in ':' are "mut:" and "auto:". */
  lemma ColonKeywords(word: string)
    requires KeywordToTokenType(word).Some? && |word| > 0 && word[|word| - 1] == ':'
    ensures word == "mut:" || word == "auto:"
  {
  }

  /** The fifteen types that are not keywords (literals, identifiers, symbols and
      the end of input) are never the answer of the lookup. */
  lemma KeywordsAreOnlyKeywordTypes(word: string)
    ensures KeywordToTokenType(word) != Some(Identifier)
    ensures KeywordToTokenType(word) != Some(LiteralNumber)
    ensures KeywordToTokenType(word) != Some(LiteralString)
    ensures KeywordToTokenType(word) != Some(LiteralCharacter)
    ensures KeywordToTokenType(word) != Some(CustomToken)
    ensures KeywordToTokenType(word) != Some(BracketCurlyOpen)
    ensures KeywordToTokenType(word) != Some(BracketCurlyClose)
    ensures KeywordToTokenType(word) != Some(BracketRoundOpen)
    ensures KeywordToTokenType(word) != Some(BracketRoundClose)
    ensures KeywordToTokenType(word) != Some(SmallerThan)
    ensures KeywordToTokenType(word) != Some(GreaterThan)
    ensures KeywordToTokenType(word) != Some(EndStatement)
    ensures KeywordToTokenType(word) != Some(Comma)
    ensures KeywordToTokenType(word) != Some(StaticAccessor)
    ensures KeywordToTokenType(word) != Some(EndOfFile)
  {
  }
}
