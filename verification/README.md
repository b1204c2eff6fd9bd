# Monkey lexer, modelled and verified in Dafny

This project models the hand-written lexer of the Monkey language
(`src/lexer/mod.rs`). The lexer is a `Lexer` object that owns the input
bytes and a cursor: `position`, `read_position` and the current byte `ch`,
where 0 stands for "past the end". Each call of `next_token` does four
things:

- it skips ASCII whitespace;
- it classifies the byte under the cursor;
- it uses one byte of lookahead (`peek`) to tell `=` from `==` and `!` from `!=`;
- it reads maximal runs of letters or underscores (identifiers, checked
  against the keyword table) and of digits (integer literals, kept as text).

It returns `EOF` at the sentinel. Every other byte reaches `todo!`.

The project has five modules:

- `Tokens` (`tokens.dfy`):
  - the `Token` enum;
  - the text each token is spelled with;
  - the keyword table, with the proof that it matches exactly the seven
    keyword spellings.
- `LexerSpec` (`lexer_spec.dfy`): a functional reference for one call of
  `next_token`.
  - `TokenAt(input, pos)` gives the outcome, the start of the token and the
    new cursor.
  - `Calls` is repeated calls. `Tokenize` is a driver that calls until
    `Eof` or an unhandled byte.
  - It also holds the properties of these: per-arm behaviour, lookahead,
    maximal munch, `Eof` repeating forever, and coverage. Coverage means
    that over lexable input the tokens spell the input exactly, minus its
    whitespace.
- `Lexer` (`lexer.dfy`): the `Lexer` class with the original's fields and
  methods, updating the cursor in place.
  - Each method is proved against `LexerSpec`: `NextToken` returns
    `TokenAt(input, old(position)).outcome` and leaves the cursor at its
    `next`.
  - `NextTokens` is the loop the repository's tests run: a fresh lexer,
    then `n` calls.
- `LexerComposition` (`lexer_compose.dfy`): lexing is local. Part of a
  concatenated input lexes as it does on its own, displaced. A part that
  ends in whitespace and lexes cleanly to `Eof` can be glued to whatever
  follows it.
- `LexerTests` (`lexer_tests.dfy`):
  - the four unit tests of `src/lexer/mod.rs`, as lemmas over the
    reference;
  - a few boundary scenarios: empty input, keyword case, run boundaries,
    the `NUL` caveat, an unhandled byte, whitespace insensitivity.

## Model

| member | source | states |
|---|---|---|
| Tokens.LookupIn | src/lexer/mod.rs:103-112 | the token found for a completed identifier is always spelled exactly like that identifier |
| Tokens.LookupIdent | src/lexer/mod.rs:103-112 | the keyword `match`: the result is spelled like the identifier it was given |
| Tokens.LookupInTable | src/lexer/mod.rs:103-112 | a table lookup gives an identifier exactly when no entry is spelled that way, and otherwise an entry of the table |
| Tokens.KeywordLookup | src/lexer/mod.rs:103-112 | exact, case-sensitive match: a keyword comes back exactly for the seven keyword spellings, an identifier for any other text |
| Tokens.KeywordRoundTrip | src/lexer/mod.rs:104-110 | looking up a keyword's own spelling gives that keyword back |
| LexerSpec.SkipWs | src/lexer/mod.rs:123-127 | skipping whitespace only moves forward, passes only whitespace, and stops on a byte that is not whitespace (the sentinel included) |
| LexerSpec.RunEnd | src/lexer/mod.rs:129-144 | a run ends at or after its start and within the input, holds only bytes of its kind, and the byte after it is not of its kind |
| LexerSpec.FixedToken | src/lexer/mod.rs:72-100 | exactly the twelve single-byte punctuators have a fixed token, which is spelled by that one byte and is neither an identifier nor an integer, and none of them is whitespace, a letter, a digit or the sentinel |
| LexerSpec.Operator | src/lexer/mod.rs:72-100 | the arms needing at most one byte of lookahead fire exactly for the punctuators, `=` and `!`; the token is spelled by that byte, or by that byte and a following `=`, and is neither an identifier nor an integer |
| LexerSpec.TokenAt | src/lexer/mod.rs:70-121 | one call of `next_token` starts its token where whitespace skipping stops, never before the cursor; the `match self.ch` at lines 72-117 is `TokenFrom`, whose arms are stated by the `TokenFrom*`, `*Step` and `RunSpelling` lemmas |
| LexerSpec.TokenFromOutcome | src/lexer/mod.rs:115-116 | the outcome is unhandled exactly for bytes without an arm, and then the cursor stays; it is `Eof` exactly at the sentinel, which is consumed |
| LexerSpec.TokenFromSpelling | src/lexer/mod.rs:72-119 | every token other than `Eof` consumes exactly the bytes it is spelled with, inside the input, none of them whitespace |
| LexerSpec.RunSpelling | src/lexer/mod.rs:101-114 | an identifier or integer token is spelled by its run, which is non-empty, inside the input and free of whitespace |
| LexerSpec.FixedTokenStep | src/lexer/mod.rs:73-100 | a punctuator gives its fixed token, and the cursor moves exactly one byte past it |
| LexerSpec.LookaheadStep | src/lexer/mod.rs:81-96 | `=`/`!` followed by `=` give `Equal`/`NotEqual` and move two bytes, otherwise `Assign`/`Bang` and one byte (each direction of every case) |
| LexerSpec.DoubleEqualsIsOneToken | src/lexer/mod.rs:81-88 | `==` is lexed as one `Equal` spanning both bytes, never as `Assign` |
| LexerSpec.IdentifierStep | src/lexer/mod.rs:101-113 | a letter or underscore starts the maximal letter/underscore run, whose text goes through the keyword table; the byte after it is not a letter or underscore (`RunToken` builds the token, `RunValue` gives the run's bytes) |
| LexerSpec.IntegerStep | src/lexer/mod.rs:114 | a digit starts the maximal digit run, kept as text; the byte after it is not a digit (through `RunToken` and `RunValue`) |
| LexerSpec.EofIsSticky | src/lexer/mod.rs:60-68 | once the cursor is past the end, every further call yields `Eof`, however many calls are made |
| LexerSpec.Tokenize | src/lexer/mod.rs:70-121 | the driver's view is never empty and ends in `Eof` or an unhandled byte |
| LexerSpec.StepAdvances | src/lexer/mod.rs:70-121 | a call that yields an ordinary token strictly advances the cursor and stays within the input |
| LexerSpec.TokenizeStopsAtFirstFinal | src/lexer/mod.rs:70-121 | every outcome before the last is an ordinary token |
| LexerSpec.TokenizeIsCalls | src/lexer/mod.rs:70-121 | the driver's view is exactly the first calls of `next_token` |
| LexerSpec.CallsPrefix | src/lexer/mod.rs:174-178 | fewer calls see a prefix of what more calls see |
| LexerSpec.FirstCalls | src/lexer/mod.rs:174-178 | if the driver sees `expected` then a final outcome, the first `|expected|` calls return `expected` |
| LexerSpec.TokenizeCoversInput | src/lexer/mod.rs:70-144 | over input of handled bytes with no NUL, lexing ends in `Eof`, and the tokens spell the input exactly with only the whitespace left out |
| Lexer.Lexer.constructor | src/lexer/mod.rs:48-58 | a new lexer holds the input with its cursor on the first byte, the cursor invariant established |
| Lexer.Lexer.ReadChar | src/lexer/mod.rs:60-68 | the cursor moves to `read_position`, `read_position` is one further, and `ch` is the byte there or 0 past the end |
| Lexer.Lexer.Peek | src/lexer/mod.rs:146-152 | the byte after the current one, or 0 past the end, with nothing changed |
| Lexer.Lexer.SkipWhitespace | src/lexer/mod.rs:123-127 | the cursor ends where the reference stops skipping, never moves back, and `ch` is not whitespace |
| Lexer.Lexer.ReadIdent | src/lexer/mod.rs:129-135 | consumes exactly the maximal letter/underscore run and returns its bytes |
| Lexer.Lexer.ReadInt | src/lexer/mod.rs:137-144 | consumes exactly the maximal digit run and returns its bytes |
| Lexer.Lexer.NextToken | src/lexer/mod.rs:70-121 | returns the reference outcome for the old cursor and leaves the cursor where the reference says, keeping the cursor invariant |
| LexerSpec.Calls | src/lexer/mod.rs:174-178 | the outcomes of `n` successive calls from a cursor, one per call |
| Lexer.NextTokens | src/lexer/mod.rs:174-178 | the tests' loop (a fresh lexer, then `n` calls) collects exactly the first `n` reference outcomes, `Calls(input, 0, n)` |
| LexerComposition.TokenAtSuffix | src/lexer/mod.rs:70-121 | a call inside the second part of a concatenation behaves as on that part alone, displaced by the length of the first |
| LexerComposition.TokenAtPrefix | src/lexer/mod.rs:70-121 | a token that ends inside the first part is not affected by what follows |
| LexerComposition.TokenizeSuffix | src/lexer/mod.rs:70-121 | lexing from inside the second part gives that part's own outcomes, with unhandled offsets displaced |
| LexerComposition.TokenizeAppend | src/lexer/mod.rs:70-121 | after a part that ends in whitespace, holds no NUL and lexes to `Eof`, the concatenation lexes as the part's tokens followed by the rest's outcomes |
| LexerComposition.TokenizeLines | src/lexer/mod.rs:70-121 | two such parts lex to the first's tokens, the second's tokens and one `Eof` |
| LexerTests.NextTokenTest1 | src/lexer/mod.rs:160-180 | `(){},;+=` lexes to its eight punctuation tokens, then `Eof` |
| LexerTests.NextTokenTest1Calls | src/lexer/mod.rs:160-180 | the first eight calls return the tokens the test lists |
| LexerTests.NextTokenTest2 | src/lexer/mod.rs:183-272 | the thirteen-line program lexes to the 65 listed tokens, then `Eof` |
| LexerTests.NextTokenTest2Calls | src/lexer/mod.rs:183-272 | the first 65 calls return the tokens the test lists |
| LexerTests.NextTokenTest3 | src/lexer/mod.rs:274-323 | the input that opens with an empty line lexes to the 29 listed tokens, then `Eof` |
| LexerTests.NextTokenTest3Calls | src/lexer/mod.rs:274-323 | the first 29 calls return the tokens the test lists |
| LexerTests.NextTokenTest4 | src/lexer/mod.rs:326-349 | `10 == 10; 10 != 9;` lexes with `Equal` and `NotEqual` as single tokens, then `Eof` |
| LexerTests.NextTokenTest4Calls | src/lexer/mod.rs:326-349 | the first eight calls return the tokens the test lists |
| LexerTests.EmptyInput | src/lexer/mod.rs:115 | empty input lexes to `Eof` alone |
| LexerTests.KeywordsAreExact | src/lexer/mod.rs:103-111 | `fn fna Fn` lexes to `Function`, `Ident("fna")`, `Ident("Fn")`, `Eof` |
| LexerTests.RunsAreMaximal | src/lexer/mod.rs:129-144 | `5x a1 _a` lexes to `Int("5")`, `Ident("x")`, `Ident("a")`, `Int("1")`, `Ident("_a")`, `Eof` |
| LexerTests.LookaheadPairs | src/lexer/mod.rs:81-96 | `a==b!=!c=d` lexes with `Equal`, `NotEqual`, `Bang` and `Assign` in their places |
| LexerTests.AsciiWhitespace | src/lexer/mod.rs:123-127 | tab, form feed and carriage return are skipped like spaces |
| LexerTests.NulEndsInput | src/lexer/mod.rs:115 | a NUL byte inside the input ends lexing with `Eof`: `a`, NUL, `b` gives `Ident("a")`, `Eof` |
| LexerTests.UnhandledByteStops | src/lexer/mod.rs:116 | `x @ y` gives `Ident("x")`, then the unhandled `@` at offset 2 |
| LexerTests.NestedBraces | src/lexer/mod.rs:72-121 | `if (5 < 10) { return true; } else { return false; }` lexes to its seventeen tokens, then `Eof` |
| LexerTests.WhitespaceInsensitive | src/lexer/mod.rs:123-127 | `5+5` and `5 + 5` lex to the same outcomes |

## Left out

- The REPL and the binaries (`src/repl/mod.rs`, `rust/src/repl/mod.rs`, `rust/src/bin/repl.rs`, `rust/src/main.rs`) are not part of this model. They are read-print loops over standard input and output.
- The Go parser (`go/parser/parser.go` and its test) is not part of this model. Its `ParseProgram` is a stub, and the Go lexer it calls is outside this model.
- The `todo!` arm (src/lexer/mod.rs:116) aborts the process. Here it is the outcome `Unhandled(byte, offset)`, with the cursor left on that byte. `Tokenize` stops there. `Lexer.NextTokens` would go on to return the same outcome again, where the original has already aborted.
- `anyhow::Result`: the original only ever returns `Ok`. The outcome datatype takes its place.
- `String::from_utf8_lossy` is not modelled. Lexemes stay byte sequences: every identifier and integer run is ASCII, where the conversion changes nothing.
- `usize` overflow of `position` and `read_position` is not modelled. Both are unbounded naturals; each `Eof` call moves the cursor one further.
- Lexer.NextTokens: models only the loop of the tests. The `println!` and the `assert_eq!` comparison are left out; the `...Calls` lemmas in `LexerTests` state that comparison.
- Lexer.Lexer.Peek: the original takes `&mut self` but changes nothing. Here it is a function that reads the object.
- A NUL byte inside the input reads as the end of input and gives `Eof` early (src/lexer/mod.rs:115). This is kept as the original has it, shown by `LexerTests.NulEndsInput`, and excluded by the no-NUL conditions of `TokenizeCoversInput` and `TokenizeAppend`.
- The repository's tests compare only the listed tokens and never ask for `EOF`. The `NextTokenTestN` lemmas also state the final `Eof`; the `NextTokenTestNCalls` lemmas state exactly what the tests check.
