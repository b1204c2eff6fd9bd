/**
  The tokens of the Monkey language and their spellings.

  The lexer works on bytes (`Vec<u8>` in the original); a `Byte` is an
  integer in 0..255. Identifier and integer lexemes are kept as the bytes
  of their run: the original converts them with `String::from_utf8_lossy`,
  which is the identity on the ASCII runs the lexer produces.
 */
module Tokens {

  type Byte = b: int | 0 <= b < 256

  /** One classified unit of source text (the Rust `Token` enum). */
  datatype Token =
    | Ident(name: seq<Byte>)
    | Int(digits: seq<Byte>)
    | Eof
    | Assign | Equal | NotEqual | Plus | Minus
    | Comma | Semicolon | Bang | Asterisk | Slash | Lt | Gt
    | LParen | RParen | LBrace | RBrace
    | Function | Let | If | True | False | Else | Return

  predicate IsKeyword(t: Token) {
    t in {Function, Let, If, True, False, Else, Return}
  }

  /** The source text a token stands for; `Eof` stands for no text. */
  function Spelling(t: Token): seq<Byte> {
    match t
    case Ident(name) => name
    case Int(digits) => digits
    case Eof => []
    case Assign => ['=' as int]
    case Equal => ['=' as int, '=' as int]
    case NotEqual => ['!' as int, '=' as int]
    case Plus => ['+' as int]
    case Minus => ['-' as int]
    case Comma => [',' as int]
    case Semicolon => [';' as int]
    case Bang => ['!' as int]
    case Asterisk => ['*' as int]
    case Slash => ['/' as int]
    case Lt => ['<' as int]
    case Gt => ['>' as int]
    case LParen => ['(' as int]
    case RParen => [')' as int]
    case LBrace => ['{' as int]
    case RBrace => ['}' as int]
    case Function => ['f' as int, 'n' as int]
    case Let => ['l' as int, 'e' as int, 't' as int]
    case If => ['i' as int, 'f' as int]
    case True => ['t' as int, 'r' as int, 'u' as int, 'e' as int]
    case False => ['f' as int, 'a' as int, 'l' as int, 's' as int, 'e' as int]
    case Else => ['e' as int, 'l' as int, 's' as int, 'e' as int]
    case Return => ['r' as int, 'e' as int, 't' as int, 'u' as int, 'r' as int, 'n' as int]
  }

  /** The keyword table, in the order the original's `match` lists its arms. */
  const KeywordTable: seq<Token> := [Function, Let, If, Else, True, False, Return]

  /** The spellings of the seven keywords. */
  function KeywordSpellings(): set<seq<Byte>> {
    set t | t in KeywordTable :: Spelling(t)
  }

  /** The first entry of `table` spelled `ident`, or an identifier when there is none. */
  function LookupIn(ident: seq<Byte>, table: seq<Token>): (t: Token)
    ensures Spelling(t) == ident
  {
    if table == [] then Ident(ident)
    else if ident == Spelling(table[0]) then table[0]
    else LookupIn(ident, table[1..])
  }

  /**
    The keyword table applied to a completed identifier run: an exact,
    case-sensitive match gives the keyword, anything else an identifier.
   */
  function LookupIdent(ident: seq<Byte>): (t: Token)
    ensures Spelling(t) == ident
  {
    LookupIn(ident, KeywordTable)
  }

  /** A lookup gives an entry of the table exactly when `ident` spells one. */
  lemma {:induction false} LookupInTable(ident: seq<Byte>, table: seq<Token>)
    requires forall i | 0 <= i < |table| :: !table[i].Ident?
    ensures LookupIn(ident, table).Ident? <==> forall i | 0 <= i < |table| :: Spelling(table[i]) != ident
    ensures !LookupIn(ident, table).Ident? ==> LookupIn(ident, table) in table
  {
    if table != [] && ident != Spelling(table[0]) {
      LookupInTable(ident, table[1..]);
      assert forall i | 1 <= i < |table| :: table[i] == table[1..][i - 1];
    }
  }

  /** Exactly the seven keyword spellings give a keyword; any other text is an identifier. */
  lemma KeywordLookup(ident: seq<Byte>)
    ensures LookupIdent(ident).Ident? <==> ident !in KeywordSpellings()
    ensures !LookupIdent(ident).Ident? ==> IsKeyword(LookupIdent(ident))
  {
    LookupInTable(ident, KeywordTable);
  }

  /** Looking up a keyword's own spelling gives that keyword back. */
  lemma KeywordRoundTrip(t: Token)
    requires IsKeyword(t)
    ensures LookupIdent(Spelling(t)) == t
  {
    KeywordLookup(Spelling(t));
  }
}
