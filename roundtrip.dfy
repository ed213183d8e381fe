/** Re-scanning the display forms of a token sequence: keywords and symbols
    written out with a space after each are read back as the same sequence,
    followed by `Eof`. `Slash` is excluded because, as written, `/` followed
    by a space starts a comment (module SlashBranch).

    Every lemma that mentions `Scan` or `Lex` is kept to a handful of proof
    obligations, because each such obligation makes the verifier unfold the
    whole dispatch of `next_token`. For the same reason `SpelledFrom` is
    written as one `var`-bound fact, which the induction in `SpellAt`
    discharges in a single step instead of one step per conjunct. */
module RoundTrip {
  import opened Tokens
  import opened Scanner
  import opened Properties
  import opened Ascii

  /** The tokens whose display form reads back as themselves. */
  predicate Simple(t: Token) {
    IsKeyword(t) || (IsSymbol(t) && !t.Slash?)
  }

  predicate AllSimple(ts: seq<Token>) {
    forall k | 0 <= k < |ts| :: Simple(ts[k])
  }

  lemma SimpleFacts(t: Token)
    requires Simple(t)
    ensures !t.Number? && t != Eof
  {
  }

  /** The display forms of `ts`, each followed by one space. */
  function Spell(ts: seq<Token>): string
    requires AllSimple(ts)
  {
    if ts == [] then "" else SimpleFacts(ts[0]); Display(ts[0]) + " " + Spell(ts[1..])
  }

  /** The library classifies ASCII as Rust does, and the input from `i` on
      is the spelling of `ts`. */
  ghost predicate SpelledFrom(std: Std, s: string, i: nat, ts: seq<Token>) {
    var ok := ClassifiesAscii(std) && AllSimple(ts) && i <= |s| && s[i..] == Spell(ts);
    ok
  }

  /** The display form of the simple token `t` stands at `i` and ends at `n`,
      where a space follows. */
  ghost predicate SpelledAt(std: Std, s: string, i: nat, t: Token, n: nat) {
    ClassifiesAscii(std) && Simple(t) && i <= n < |s| &&
    (SimpleFacts(t); s[i..n] == Display(t)) && s[n] == ' '
  }

  /** The scan from `i` yields `t`, which is not `Eof`, and stops at the
      whitespace character at `n`. */
  predicate StopsAt(std: Std, s: string, i: nat, t: Token, n: nat) {
    i <= n < |s| && Scan(std, s, i) == Returned(Scanned(t, n)) && t != Eof &&
    std.isWhitespace(s[n])
  }

  /** Re-scanning the spelling of keywords and symbols other than `Slash`
      yields those tokens in order, then `Eof`. */
  lemma SpellRoundTrip(std: Std, ts: seq<Token>)
    requires ClassifiesAscii(std) && AllSimple(ts)
    ensures Lex(std, Spell(ts), 0) == Returned(ts + [Eof])
  {
    SpellAt(std, Spell(ts), 0, ts);
  }

  /** The same, for a spelling that fills the input from `i` on. */
  lemma {:induction false} SpellAt(std: Std, s: string, i: nat, ts: seq<Token>)
    requires SpelledFrom(std, s, i, ts)
    ensures i <= |s| && Lex(std, s, i) == Returned(ts + [Eof])
    decreases ts
  {
    if ts == [] {
      SpellEmpty(std, s, i);
    } else {
      var n := SpellStep(std, s, i, ts);
      SpellAt(std, s, n + 1, ts[1..]);
      ConsEof(ts, Lex(std, s, i), Lex(std, s, n + 1));
    }
  }

  lemma ConsEof(ts: seq<Token>, o: Outcome<seq<Token>>, rest: Outcome<seq<Token>>)
    requires ts != [] && o == Then([ts[0]], rest) && rest == Returned(ts[1..] + [Eof])
    ensures o == Returned(ts + [Eof])
  {
    assert [ts[0]] + (ts[1..] + [Eof]) == ts + [Eof];
  }

  lemma SpellEmpty(std: Std, s: string, i: nat)
    requires SpelledFrom(std, s, i, [])
    ensures i <= |s| && Lex(std, s, i) == Returned([] + [Eof])
  {
    assert i == |s|;
    ScanOnlyWhitespace(std, s, i);
    assert [] + [Eof] == [Eof];
  }

  /** The first token of a spelling is read, and the rest of the spelling
      follows the space after it. */
  lemma SpellStep(std: Std, s: string, i: nat, ts: seq<Token>) returns (n: nat)
    requires ts != [] && SpelledFrom(std, s, i, ts)
    ensures SpelledFrom(std, s, n + 1, ts[1..]) && i <= n < |s|
    ensures Lex(std, s, i) == Then([ts[0]], Lex(std, s, n + 1))
  {
    n := SplitSpelling(std, s, i, ts);
    ScanSimple(std, s, i, ts[0], n);
    LexStep(std, s, i, ts[0], n);
  }

  /** The first display form of a spelling, its space, and the rest. */
  lemma SplitSpelling(std: Std, s: string, i: nat, ts: seq<Token>) returns (n: nat)
    requires ts != [] && SpelledFrom(std, s, i, ts)
    ensures SpelledAt(std, s, i, ts[0], n) && SpelledFrom(std, s, n + 1, ts[1..])
  {
    var d := Display(ts[0]);
    n := i + |d|;
    assert s[i..] == d + " " + Spell(ts[1..]);
    assert s[i..n] == s[i..][..|d|];
    assert s[n + 1..] == s[i..][|d| + 1..];
  }

  /** A step that yields a token other than `Eof` and stops at whitespace is
      followed by the scan after that whitespace character. */
  lemma LexStep(std: Std, s: string, i: nat, t: Token, n: nat)
    requires StopsAt(std, s, i, t, n)
    ensures i <= n < |s| && Lex(std, s, i) == Then([t], Lex(std, s, n + 1))
  {
    LexCons(std, s, i, t, n);
    BlankStep(std, s, n);
  }

  /** A whitespace character before the next token makes no difference. */
  lemma BlankStep(std: Std, s: string, n: nat)
    requires n < |s| && std.isWhitespace(s[n])
    ensures Lex(std, s, n) == Lex(std, s, n + 1)
  {
    assert RunEnd(std, Blank, s, n) == RunEnd(std, Blank, s, n + 1);
    assert Scan(std, s, n) == Scan(std, s, n + 1);
  }

  /** A simple token's display form followed by a space is scanned as that
      token, stopping at the space. */
  lemma ScanSimple(std: Std, s: string, i: nat, t: Token, n: nat)
    requires SpelledAt(std, s, i, t, n)
    ensures StopsAt(std, s, i, t, n)
  {
    SimpleFacts(t);
    AsciiChar(std, ' ');
    if IsKeyword(t) {
      KeywordAt(std, s, i, t, n);
    } else {
      SymbolAt(std, s, i, t, n);
    }
  }

  lemma KeywordAt(std: Std, s: string, i: nat, t: Token, n: nat)
    requires SpelledAt(std, s, i, t, n) && IsKeyword(t)
    ensures Scan(std, s, i) == Returned(Scanned(t, n))
  {
    KeywordLetters(std, s, i, t, n);
    KeywordInTable(t);
    assert KeywordOrIdentifier(s[i..n]) == t;
    AsciiWord(std, s, i, i, n);
  }

  /** The characters of a spelled keyword are ASCII letters, followed by an
      ASCII blank. */
  lemma KeywordLetters(std: Std, s: string, i: nat, t: Token, n: nat)
    requires SpelledAt(std, s, i, t, n) && IsKeyword(t)
    ensures ClassifiesAscii(std) && i < n < |s| && s[i..n] == Display(t)
    ensures AsciiLetter(s[i]) && (forall k | i < k < n :: AsciiLetter(s[k])) && AsciiWhitespace(s[n])
  {
    var d := Display(t);
    KeywordSpelling(t);
    forall k | i <= k < n ensures AsciiLetter(s[k]) {
      assert s[k] == d[k - i];
    }
  }

  lemma SymbolAt(std: Std, s: string, i: nat, t: Token, n: nat)
    requires SpelledAt(std, s, i, t, n) && IsSymbol(t) && !t.Slash?
    ensures Scan(std, s, i) == Returned(Scanned(t, n))
  {
    SymbolSpelling(t);
    if Display(t)[0] in "(){},.-+;*" {
      SingleAt(std, s, i, t);
    } else {
      OperatorAt(std, s, i, t);
    }
  }

  lemma SingleAt(std: Std, s: string, i: nat, t: Token)
    requires ClassifiesAscii(std) && IsSymbol(t)
    requires |Display(t)| == 1 && Display(t)[0] in "(){},.-+;*"
    requires i < |s| && s[i..i + 1] == Display(t)
    ensures Scan(std, s, i) == Returned(Scanned(t, i + 1))
  {
    assert s[i] == Display(t)[0];
    AsciiChar(std, s[i]);
    ScanSingleSymbol(std, s, i, i);
    SymbolDisplayInjective(Scan(std, s, i).value.token, t);
  }

  /** An operator spelling, followed by a space and so not by `=`. */
  lemma OperatorAt(std: Std, s: string, i: nat, t: Token)
    requires ClassifiesAscii(std) && IsSymbol(t)
    requires 1 <= |Display(t)| <= 2 && Display(t)[0] in "!=><"
    requires |Display(t)| == 2 ==> Display(t)[1] == '='
    requires i + |Display(t)| < |s| && s[i..i + |Display(t)|] == Display(t)
    requires s[i + |Display(t)|] == ' '
    ensures Scan(std, s, i) == Returned(Scanned(t, i + |Display(t)|))
  {
    var n := i + |Display(t)|;
    OperatorFollowed(s, i, Display(t));
    AsciiChar(std, s[i]);
    ScanOperator(std, s, i, i);
    var r := Scan(std, s, i).value;
    assert r.next == n;
    SymbolDisplayInjective(r.token, t);
  }

  /** An operator spelling `d` at `i`, followed by a space: the character
      after its first one is `=` exactly when `d` has two characters. */
  lemma OperatorFollowed(s: string, i: nat, d: string)
    requires 1 <= |d| <= 2 && (|d| == 2 ==> d[1] == '=')
    requires i + |d| < |s| && s[i..i + |d|] == d && s[i + |d|] == ' '
    ensures s[i] == d[0] && ((i + 1 < |s| && s[i + 1] == '=') <==> |d| == 2)
  {
    assert s[i] == d[0];
    if |d| == 2 {
      assert s[i + 1] == d[1];
    }
  }
}
