/**
  The Monkey lexer as the original has it: an object that owns the input
  bytes and a cursor (`position`, `readPosition`, `ch`) that its methods
  move forward in place. Every method is proved against the functional
  reference in LexerSpec.
 */
module Lexer {
  import opened Tokens
  import opened LexerSpec

  class Lexer {
    const input: seq<Byte>
    var position: nat
    var readPosition: nat
    var ch: Byte

    /**
      The cursor invariant: the next byte to read follows the current one,
      and `ch` is the byte at `position`, or the sentinel 0 past the end.
     */
    ghost predicate Valid()
      reads this
    {
      readPosition == position + 1 && ch == ByteAt(input, position)
    }

    /** Takes the input and primes the cursor on its first byte. */
    constructor (text: seq<Byte>)
      ensures Valid()
      ensures input == text && position == 0
    {
      input := text;
      position, readPosition, ch := 0, 0, 0;
      new;
      ReadChar();
    }

    /** Moves the cursor one byte; past the end `ch` stays the sentinel 0. */
    method ReadChar()
      modifies this
      ensures position == old(readPosition) && readPosition == position + 1
      ensures ch == ByteAt(input, position)
      ensures Valid()
    {
      if readPosition >= |input| {
        ch := 0;
      } else {
        ch := input[readPosition];
      }
      position := readPosition;
      readPosition := readPosition + 1;
    }

    /** The byte after the current one, without moving the cursor. */
    function Peek(): (b: Byte)
      reads this
      requires Valid()
      ensures b == ByteAt(input, position + 1)
    {
      if readPosition >= |input| then 0 else input[readPosition]
    }

    method SkipWhitespace()
      requires Valid()
      modifies this
      ensures Valid()
      ensures position == SkipWs(input, old(position))
      ensures old(position) <= position && !IsWhitespace(ch)
    {
      while IsWhitespace(ch)
        invariant Valid()
        invariant SkipWs(input, position) == SkipWs(input, old(position))
        decreases |input| - position
      {
        ReadChar();
      }
    }

    /** Consumes the maximal run of letters and underscores at the cursor. */
    method ReadIdent() returns (ident: seq<Byte>)
      requires Valid() && position <= |input|
      modifies this
      ensures Valid()
      ensures position == RunEnd(input, old(position), Letters)
      ensures ident == input[old(position)..position]
    {
      var pos := position;
      while IsIdentByte(ch)
        invariant Valid() && pos <= position <= |input|
        invariant RunEnd(input, position, Letters) == RunEnd(input, pos, Letters)
        decreases |input| - position
      {
        ReadChar();
      }
      ident := input[pos..position];
    }

    /** Consumes the maximal run of digits at the cursor. */
    method ReadInt() returns (digits: seq<Byte>)
      requires Valid() && position <= |input|
      modifies this
      ensures Valid()
      ensures position == RunEnd(input, old(position), Digits)
      ensures digits == input[old(position)..position]
    {
      var pos := position;
      while IsDigit(ch)
        invariant Valid() && pos <= position <= |input|
        invariant RunEnd(input, position, Digits) == RunEnd(input, pos, Digits)
        decreases |input| - position
      {
        ReadChar();
      }
      digits := input[pos..position];
    }

    /**
      Skips whitespace, classifies the byte under the cursor and consumes
      the token's bytes: the outcome and the new cursor are those of one
      step of the reference scanner.
     */
    method NextToken() returns (r: Outcome)
      requires Valid()
      modifies this
      ensures Valid()
      ensures r == TokenAt(input, old(position)).outcome
      ensures position == TokenAt(input, old(position)).next
    {
      SkipWhitespace();
      var tok: Token;
      var fixed := FixedToken(ch);
      if fixed.Some? {
        tok := fixed.value;
      } else if ch == '=' as int {
        if Peek() == '=' as int {
          ReadChar();
          tok := Equal;
        } else {
          tok := Assign;
        }
      } else if ch == '!' as int {
        if Peek() == '=' as int {
          ReadChar();
          tok := NotEqual;
        } else {
          tok := Bang;
        }
      } else if IsIdentByte(ch) {
        var ident := ReadIdent();
        return Ok(LookupIdent(ident));
      } else if IsDigit(ch) {
        var digits := ReadInt();
        return Ok(Int(digits));
      } else if ch == 0 {
        tok := Eof;
      } else {
        return Unhandled(ch, position);
      }
      ReadChar();
      return Ok(tok);
    }
  }

  /**
    How the repository's tests drive the lexer: a fresh `Lexer` over
    `text`, then `n` calls of `next_token`, collecting what each returns.
   */
  method NextTokens(text: seq<Byte>, n: nat) returns (outs: seq<Outcome>)
    ensures outs == Calls(text, 0, n)
  {
    var lexer := new Lexer(text);
    outs := [];
    var i := 0;
    while i < n
      invariant i <= n && lexer.Valid() && lexer.input == text
      invariant outs + Calls(text, lexer.position, n - i) == Calls(text, 0, n)
    {
      ghost var before := lexer.position;
      var o := lexer.NextToken();
      assert Calls(text, before, n - i) == [o] + Calls(text, lexer.position, n - i - 1);
      outs := outs + [o];
      i := i + 1;
    }
  }
}
