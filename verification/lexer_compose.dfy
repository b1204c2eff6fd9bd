/**
  Scanning composes over concatenated input: a text that ends in
  whitespace and scans cleanly to `Eof` can be lexed on its own, and
  whatever follows it is lexed as if it stood alone, only displaced.
 */
module LexerComposition {
  import opened Tokens
  import opened LexerSpec

  /** An outcome found `d` bytes further into the input. */
  function Shift(o: Outcome, d: nat): Outcome {
    if o.Unhandled? then Unhandled(o.found, o.offset + d) else o
  }

  /** The outcomes of a part, as found `d` bytes further into the input. */
  function Relocate(outcomes: seq<Outcome>, d: nat): (r: seq<Outcome>)
    ensures |r| == |outcomes|
  {
    if outcomes == [] then [] else [Shift(outcomes[0], d)] + Relocate(outcomes[1..], d)
  }

  lemma {:induction false} SkipWsSuffix(a: seq<Byte>, b: seq<Byte>, q: nat)
    ensures SkipWs(a + b, |a| + q) == |a| + SkipWs(b, q)
    decreases |b| - q
  {
    assert ByteAt(a + b, |a| + q) == ByteAt(b, q);
    if IsWhitespace(ByteAt(b, q)) {
      SkipWsSuffix(a, b, q + 1);
    }
  }

  lemma {:induction false} RunEndSuffix(a: seq<Byte>, b: seq<Byte>, q: nat, kind: RunKind)
    ensures RunEnd(a + b, |a| + q, kind) == |a| + RunEnd(b, q, kind)
    decreases |b| - q
  {
    assert ByteAt(a + b, |a| + q) == ByteAt(b, q);
    if InRun(kind, ByteAt(b, q)) {
      RunEndSuffix(a, b, q + 1, kind);
    }
  }

  lemma SliceOfSuffix<T>(a: seq<T>, b: seq<T>, i: nat, j: nat)
    requires i <= j <= |b|
    ensures (a + b)[|a| + i..|a| + j] == b[i..j]
  {
  }

  lemma SliceOfPrefix<T>(a: seq<T>, b: seq<T>, i: nat, j: nat)
    requires i <= j <= |a|
    ensures (a + b)[i..j] == a[i..j]
  {
  }

  /** An identifier or integer run inside the second part ignores the first part. */
  lemma RunTokenSuffix(a: seq<Byte>, b: seq<Byte>, start: nat, kind: RunKind)
    requires start < |b|
    ensures var s := RunToken(b, start, kind);
      RunToken(a + b, |a| + start, kind) == Scanned(s.outcome, |a| + start, |a| + s.next)
  {
    var end := RunEnd(b, start, kind);
    RunEndSuffix(a, b, start, kind);
    SliceOfSuffix(a, b, start, end);
    RunTokenOf(a + b, |a| + start, kind, |a| + end, b[start..end]);
    RunTokenOf(b, start, kind, end, b[start..end]);
  }

  /** A run token is determined by where its run ends and by the run's bytes. */
  lemma RunTokenOf(input: seq<Byte>, start: nat, kind: RunKind, end: nat, lexeme: seq<Byte>)
    requires start < |input| && RunEnd(input, start, kind) == end && input[start..end] == lexeme
    ensures RunToken(input, start, kind) == Scanned(Ok(RunValue(kind, lexeme)), start, end)
  {
  }

  /** Classifying inside the second part of a concatenation ignores the first part. */
  lemma TokenFromSuffix(a: seq<Byte>, b: seq<Byte>, start: nat)
    ensures var s := TokenFrom(b, start);
      TokenFrom(a + b, |a| + start) == Scanned(Shift(s.outcome, |a|), |a| + start, |a| + s.next)
  {
    var c := ByteAt(b, start);
    assert ByteAt(a + b, |a| + start) == c;
    assert ByteAt(a + b, |a| + start + 1) == ByteAt(b, start + 1);
    if Operator(c, ByteAt(b, start + 1)).None? {
      if IsIdentByte(c) {
        RunTokenSuffix(a, b, start, Letters);
      } else if IsDigit(c) {
        RunTokenSuffix(a, b, start, Digits);
      }
    }
  }

  /** Lexing inside the second part of a concatenation ignores the first part. */
  lemma TokenAtSuffix(a: seq<Byte>, b: seq<Byte>, q: nat)
    ensures var s := TokenAt(b, q);
      TokenAt(a + b, |a| + q) == Scanned(Shift(s.outcome, |a|), |a| + s.start, |a| + s.next)
  {
    var start := SkipWs(b, q);
    SkipWsSuffix(a, b, q);
    assert TokenAt(a + b, |a| + q) == TokenFrom(a + b, |a| + start);
    TokenFromSuffix(a, b, start);
  }

  lemma {:induction false} SkipWsPrefix(a: seq<Byte>, b: seq<Byte>, p: nat)
    requires p <= |a|
    ensures SkipWs(a, p) < |a| ==> SkipWs(a + b, p) == SkipWs(a, p)
    ensures SkipWs(a, p) >= |a| ==> SkipWs(a + b, p) == SkipWs(a + b, |a|)
    decreases |a| - p
  {
    if p < |a| {
      assert ByteAt(a + b, p) == ByteAt(a, p);
      if IsWhitespace(ByteAt(a, p)) {
        SkipWsPrefix(a, b, p + 1);
      }
    }
  }

  lemma {:induction false} RunEndPrefix(a: seq<Byte>, b: seq<Byte>, p: nat, kind: RunKind)
    requires p <= |a| && RunEnd(a, p, kind) < |a|
    ensures RunEnd(a + b, p, kind) == RunEnd(a, p, kind)
    decreases |a| - p
  {
    assert ByteAt(a + b, p) == ByteAt(a, p);
    if InRun(kind, ByteAt(a, p)) {
      RunEndPrefix(a, b, p + 1, kind);
    }
  }

  /** A run that ends inside the first part is not affected by what follows. */
  lemma RunTokenPrefix(a: seq<Byte>, b: seq<Byte>, start: nat, kind: RunKind)
    requires start < |a| && RunEnd(a, start, kind) < |a|
    ensures RunToken(a + b, start, kind) == RunToken(a, start, kind)
  {
    var end := RunEnd(a, start, kind);
    RunEndPrefix(a, b, start, kind);
    SliceOfPrefix(a, b, start, end);
  }

  /** A token that ends before the end of the first part is not affected by what follows. */
  lemma TokenAtPrefix(a: seq<Byte>, b: seq<Byte>, p: nat)
    requires p <= |a|
    requires TokenAt(a, p).outcome.Ok? && TokenAt(a, p).outcome.token != Eof
    requires TokenAt(a, p).next < |a|
    ensures TokenAt(a + b, p) == TokenAt(a, p)
  {
    var s := TokenAt(a, p);
    TokenFromSpelling(a, s.start);
    SkipWsPrefix(a, b, p);
    var c := ByteAt(a, s.start);
    assert ByteAt(a + b, s.start) == c;
    assert ByteAt(a + b, s.start + 1) == ByteAt(a, s.start + 1);
    if Operator(c, ByteAt(a, s.start + 1)).None? {
      if IsIdentByte(c) {
        RunTokenPrefix(a, b, s.start, Letters);
      } else if IsDigit(c) {
        RunTokenPrefix(a, b, s.start, Digits);
      }
    }
  }

  /** Two positions whose next call scans the same token lead to the same tokens. */
  lemma SameStepSameTokens(input: seq<Byte>, p: nat, p': nat)
    requires p <= |input| && p' <= |input|
    requires TokenAt(input, p) == TokenAt(input, p')
    ensures Tokenize(input, p) == Tokenize(input, p')
  {
  }

  lemma RelocateCons(o: Outcome, rest: seq<Outcome>, d: nat)
    ensures Relocate([o] + rest, d) == [Shift(o, d)] + Relocate(rest, d)
  {
    assert ([o] + rest)[1..] == rest;
  }

  /** The tokens from offset `q` of `b` are found displaced by `|a|` in `a + b`. */
  predicate LexesAlone(a: seq<Byte>, b: seq<Byte>, q: nat)
    requires q <= |b|
  {
    Tokenize(a + b, |a| + q) == Relocate(Tokenize(b, q), |a|)
  }

  /** Lexing from inside the second part of a concatenation ignores the first part. */
  lemma {:induction false} TokenizeSuffix(a: seq<Byte>, b: seq<Byte>, q: nat)
    requires q <= |b|
    ensures LexesAlone(a, b, q)
    decreases |b| - q
  {
    var s := TokenAt(b, q);
    if IsFinal(s.outcome) {
      SuffixFinal(a, b, q);
    } else {
      TokenFromSpelling(b, s.start);
      assert s.next <= |b|;
      TokenizeSuffix(a, b, s.next);
      SuffixStep(a, b, q);
    }
  }

  lemma SuffixFinal(a: seq<Byte>, b: seq<Byte>, q: nat)
    requires q <= |b| && IsFinal(TokenAt(b, q).outcome)
    ensures LexesAlone(a, b, q)
  {
    var s := TokenAt(b, q);
    TokenAtSuffix(a, b, q);
    assert Tokenize(b, q) == [s.outcome];
    assert Relocate([s.outcome], |a|) == [Shift(s.outcome, |a|)];
  }

  lemma SuffixStep(a: seq<Byte>, b: seq<Byte>, q: nat)
    requires q <= |b| && !IsFinal(TokenAt(b, q).outcome)
    requires TokenAt(b, q).next <= |b| && LexesAlone(a, b, TokenAt(b, q).next)
    ensures LexesAlone(a, b, q)
  {
    var s := TokenAt(b, q);
    TokenizeCons(b, q);
    ShiftedCons(a, b, q, s.outcome, s.next);
    assert Shift(s.outcome, |a|) == s.outcome;
    ConsRelocated(s.outcome, Tokenize(b, s.next), Tokenize(a + b, |a| + s.next),
      Tokenize(b, q), Tokenize(a + b, |a| + q), |a|);
  }

  /** One step of lexing inside the second part, seen in the concatenation. */
  lemma ShiftedCons(a: seq<Byte>, b: seq<Byte>, q: nat, o: Outcome, n: nat)
    requires q <= |b| && TokenAt(b, q).outcome == o && TokenAt(b, q).next == n && !IsFinal(o)
    ensures n <= |b| && Tokenize(a + b, |a| + q) == [o] + Tokenize(a + b, |a| + n)
  {
    StepAdvances(b, q);
    TokenAtSuffixOk(a, b, q, o, n);
    TokenizeConsAt(a + b, |a| + q, o, |a| + n);
  }

  /** A token found inside the second part is found, displaced, in the concatenation. */
  lemma TokenAtSuffixOk(a: seq<Byte>, b: seq<Byte>, q: nat, o: Outcome, n: nat)
    requires TokenAt(b, q).outcome == o && TokenAt(b, q).next == n && o.Ok?
    ensures TokenAt(a + b, |a| + q).outcome == o && TokenAt(a + b, |a| + q).next == |a| + n
  {
    TokenAtSuffix(a, b, q);
  }

  /** `TokenizeCons` with the step's outcome and cursor given by name. */
  lemma TokenizeConsAt(input: seq<Byte>, pos: nat, o: Outcome, next: nat)
    requires pos <= |input| && TokenAt(input, pos).outcome == o && TokenAt(input, pos).next == next
    requires !IsFinal(o)
    ensures next <= |input| && Tokenize(input, pos) == [o] + Tokenize(input, next)
  {
    TokenizeCons(input, pos);
  }

  /** Sequence algebra behind one step of `TokenizeSuffix`. */
  lemma ConsRelocated(o: Outcome, rest: seq<Outcome>, moved: seq<Outcome>,
                      whole: seq<Outcome>, wholeMoved: seq<Outcome>, d: nat)
    requires whole == [o] + rest && wholeMoved == [Shift(o, d)] + moved && moved == Relocate(rest, d)
    ensures wholeMoved == Relocate(whole, d)
  {
    RelocateCons(o, rest, d);
  }

  /** Sequence algebra behind one step of `TokenizeAppend`. */
  lemma ConsThenAppend<T>(x: T, t: seq<T>, xt: seq<T>, u: seq<T>, xu: seq<T>, tail: seq<T>)
    requires |t| >= 1 && xt == [x] + t && xu == [x] + u && u == t[..|t| - 1] + tail
    ensures xu == xt[..|xt| - 1] + tail
  {
    assert xt[..|xt| - 1] == [x] + t[..|t| - 1];
  }

  /** A part that ends in whitespace, holds no NUL byte and scans to `Eof`. */
  predicate Clean(a: seq<Byte>, p: nat)
    requires p <= |a|
  {
    && |a| > 0 && IsWhitespace(a[|a| - 1])
    && (forall k | p <= k < |a| :: a[k] != 0)
    && Tokenize(a, p)[|Tokenize(a, p)| - 1] == Ok(Eof)
  }

  /** The tokens of `a + b` from `p` are those of `a` without its `Eof`, then those of `b`. */
  predicate LexesAppended(a: seq<Byte>, b: seq<Byte>, p: nat)
    requires p <= |a|
  {
    var ta := Tokenize(a, p);
    Tokenize(a + b, p) == ta[..|ta| - 1] + Relocate(Tokenize(b, 0), |a|)
  }

  /**
    Lexing `a + b` gives the tokens of `a` (without its `Eof`) followed by
    the tokens of `b`, when `a` is clean.
   */
  lemma {:induction false} TokenizeAppend(a: seq<Byte>, b: seq<Byte>, p: nat)
    requires p <= |a| && Clean(a, p)
    ensures LexesAppended(a, b, p)
    decreases |a| - p
  {
    if TokenAt(a, p).outcome == Ok(Eof) {
      AppendAtEnd(a, b, p);
    } else {
      CleanStep(a, p);
      TokenizeAppend(a, b, TokenAt(a, p).next);
      AppendStep(a, b, p);
    }
  }

  /** A clean part's first token is an ordinary one that ends before the part does. */
  lemma CleanStep(a: seq<Byte>, p: nat)
    requires p <= |a| && Clean(a, p) && TokenAt(a, p).outcome != Ok(Eof)
    ensures var s := TokenAt(a, p);
      s.outcome.Ok? && !IsFinal(s.outcome) && s.next < |a| && Clean(a, s.next)
  {
    var s := TokenAt(a, p);
    TokenFromSpelling(a, s.start);
    assert s.next < |a| by {
      assert !IsWhitespace(a[s.next - 1]);
    }
    TokenizeCons(a, p);
    LastOfCons(s.outcome, Tokenize(a, s.next), Tokenize(a, p));
  }

  lemma AppendAtEnd(a: seq<Byte>, b: seq<Byte>, p: nat)
    requires p <= |a| && Clean(a, p) && TokenAt(a, p).outcome == Ok(Eof)
    ensures LexesAppended(a, b, p)
  {
    var s := TokenAt(a, p);
    TokenFromOutcome(a, s.start);
    assert s.start >= |a|;
    SkipWsPrefix(a, b, p);
    SkipWsPrefix(a, b, |a|);
    SameStepSameTokens(a + b, p, |a|);
    TokenizeSuffix(a, b, 0);
    assert LexesAlone(a, b, 0);
  }

  lemma AppendStep(a: seq<Byte>, b: seq<Byte>, p: nat)
    requires p <= |a|
    requires var s := TokenAt(a, p);
      s.outcome.Ok? && !IsFinal(s.outcome) && s.next < |a| && LexesAppended(a, b, s.next)
    ensures LexesAppended(a, b, p)
  {
    var s := TokenAt(a, p);
    TokenAtPrefix(a, b, p);
    TokenizeCons(a, p);
    TokenizeCons(a + b, p);
    ConsThenAppend(s.outcome, Tokenize(a, s.next), Tokenize(a, p),
      Tokenize(a + b, s.next), Tokenize(a + b, p), Relocate(Tokenize(b, 0), |a|));
  }

  /** No byte of `s` is the NUL that the scanner takes for the end of input. */
  predicate NoNul(s: seq<Byte>) {
    0 !in s
  }

  predicate AllOk(r: seq<Outcome>) {
    forall o | o in r :: o.Ok?
  }

  /** Relocating changes only the offsets of unhandled bytes. */
  lemma {:induction false} RelocateOk(r: seq<Outcome>, d: nat)
    requires AllOk(r)
    ensures Relocate(r, d) == r
    decreases |r|
  {
    if r != [] {
      assert r[0] in r;
      assert forall o | o in r[1..] :: o in r;
      RelocateOk(r[1..], d);
      assert r == [r[0]] + r[1..];
    }
  }

  /** A chunk after which another can be lexed as if it stood alone. */
  predicate Gluable(a: seq<Byte>) {
    |a| > 0 && IsWhitespace(a[|a| - 1]) && NoNul(a)
  }

  /**
    A chunk that ends in whitespace and lexes to `ta` then `Eof`, followed
    by a chunk that lexes to `tb` then `Eof`: together they lex to `ta`,
    `tb` and one `Eof`.
   */
  lemma TokenizeLines(a: seq<Byte>, b: seq<Byte>, ta: seq<Outcome>, tb: seq<Outcome>)
    requires Gluable(a) && Tokenize(a, 0) == ta + [Ok(Eof)]
    requires Tokenize(b, 0) == tb + [Ok(Eof)] && AllOk(tb)
    ensures Tokenize(a + b, 0) == (ta + tb) + [Ok(Eof)]
    ensures Gluable(b) ==> Gluable(a + b)
  {
    assert forall k | 0 <= k < |a| :: a[k] in a;
    assert Clean(a, 0);
    TokenizeAppend(a, b, 0);
    RelocateOk(tb + [Ok(Eof)], |a|);
    DropEof(ta, Tokenize(a, 0), Tokenize(a + b, 0), Relocate(Tokenize(b, 0), |a|), tb);
    if Gluable(b) {
      assert (a + b)[|a + b| - 1] == b[|b| - 1];
      assert forall x | x in a + b :: x in a || x in b;
    }
  }

  lemma DropEof(ta: seq<Outcome>, t: seq<Outcome>, whole: seq<Outcome>, tail: seq<Outcome>, tb: seq<Outcome>)
    requires t == ta + [Ok(Eof)] && whole == t[..|t| - 1] + tail && tail == tb + [Ok(Eof)]
    ensures whole == (ta + tb) + [Ok(Eof)]
  {
    assert t[..|t| - 1] == ta;
  }
}
