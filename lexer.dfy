/**
 * The A2L lexer as the FUNCTION_VERSION item sees it: a stream of tokens,
 * each a kind and the raw text it was scanned from, read one at a time.
 * The scanner itself is not part of this model; its output is given as a
 * sequence.
 */
module Lexing {

  /** Token kinds of the A2L lexer (the ones an item's grammar can ask for). */
  datatype TokenTyp =
    | Identifier
    | String
    | Integer
    | Float
    | Hex
    | Keyword
    | Comment
    | BlockComment
    | Eof

  /** One scanned token: its kind and its lexeme. */
  datatype Token = Token(kind: TokenTyp, lexeme: string)

  /** The lexer's human-readable name of a token kind, used in diagnostics. */
  function KindName(k: TokenTyp): string
  {
    match k
    case Identifier => "Identifier"
    case String => "String"
    case Integer => "Integer"
    case Float => "Float"
    case Hex => "Hex"
    case Keyword => "Keyword"
    case Comment => "Comment"
    case BlockComment => "BlockComment"
    case Eof => "Eof"
  }

  /** The token read at cursor position p; past the end the lexer yields Eof. */
  function TokenAt(tokens: seq<Token>, p: nat): Token
  {
    if p < |tokens| then tokens[p] else Token(Eof, "")
  }

  /** The n tokens the lexer hands out when asked n times from cursor start. */
  function Window(tokens: seq<Token>, start: nat, n: nat): seq<Token>
  {
    seq(n, j requires 0 <= j < n => TokenAt(tokens, start + j))
  }

  class Lexer {
    /** Everything the scanner produces for the input, in order. */
    const tokens: seq<Token>
    /** How many tokens have been handed out so far. */
    var pos: nat
    /** The lexeme of the token handed out last. */
    var lexem: string

    constructor (tokens: seq<Token>)
      ensures this.tokens == tokens && pos == 0 && lexem == ""
    {
      this.tokens := tokens;
      pos := 0;
      lexem := "";
    }

    /** Hands out the next token's kind and makes its text the current lexeme. */
    method NextToken() returns (k: TokenTyp)
      modifies this
      ensures pos == old(pos) + 1
      ensures k == TokenAt(tokens, old(pos)).kind
      ensures lexem == TokenAt(tokens, old(pos)).lexeme
    {
      var t := TokenAt(tokens, pos);
      k, lexem := t.kind, t.lexeme;
      pos := pos + 1;
    }
  }
}
