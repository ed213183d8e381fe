/** Concrete scans, under the assumption that the standard-library classifiers
    agree with Rust on ASCII characters and that the float parser accepts a
    digits-and-dots lexeme exactly when it has at most one dot. */
module Ascii {
  import opened Tokens
  import opened Scanner
  import opened Properties

  predicate IsAscii(c: char) { c as int < 128 }

  /** Rust's `char::is_whitespace` on ASCII: space, tab, line feed, vertical
      tab, form feed and carriage return. */
  predicate AsciiWhitespace(c: char) { c == ' ' || 9 <= c as int <= 13 }

  predicate AsciiDigit(c: char) { '0' <= c <= '9' }

  predicate AsciiLetter(c: char) { 'a' <= c <= 'z' || 'A' <= c <= 'Z' }

  predicate AsciiAlphanumeric(c: char) { AsciiLetter(c) || AsciiDigit(c) }

  /** A non-empty word of ASCII letters. */
  predicate AsciiLetters(s: string) {
    |s| > 0 && forall k | 0 <= k < |s| :: AsciiLetter(s[k])
  }

  /** A number lexeme made of ASCII: a digit, then digits and dots. */
  predicate DigitsAndDots(s: string) {
    |s| > 0 && AsciiDigit(s[0]) && forall k | 0 <= k < |s| :: AsciiDigit(s[k]) || s[k] == '.'
  }

  predicate AtMostOneDot(s: string) {
    forall k, l | 0 <= k < l < |s| :: !(s[k] == '.' && s[l] == '.')
  }

  /** `std` behaves as Rust's standard library does on ASCII input. */
  ghost predicate ClassifiesAscii(std: Std) {
    (forall c: char {:trigger IsAscii(c)} | IsAscii(c) ::
      std.isWhitespace(c) == AsciiWhitespace(c) &&
      std.isNumeric(c) == AsciiDigit(c) &&
      std.isAlphanumeric(c) == AsciiAlphanumeric(c)) &&
    (forall s: string {:trigger DigitsAndDots(s)} | DigitsAndDots(s) ::
      std.parsesAsFloat(s) == AtMostOneDot(s))
  }

  /** One library that meets the assumption. */
  const AsciiStd: Std :=
    Std(AsciiWhitespace, AsciiDigit, AsciiAlphanumeric, s => DigitsAndDots(s) && AtMostOneDot(s))

  lemma AsciiStdClassifiesAscii()
    ensures ClassifiesAscii(AsciiStd)
  {
  }

  lemma AsciiChar(std: Std, c: char)
    requires ClassifiesAscii(std) && IsAscii(c)
    ensures std.isWhitespace(c) == AsciiWhitespace(c)
    ensures std.isNumeric(c) == AsciiDigit(c)
    ensures std.isAlphanumeric(c) == AsciiAlphanumeric(c)
  {
  }

  /** An ASCII word after ASCII blanks yields its keyword or identifier. */
  lemma AsciiWord(std: Std, s: string, i: nat, j: nat, e: nat)
    requires ClassifiesAscii(std)
    requires i <= j < e <= |s|
    requires forall k | i <= k < j :: AsciiWhitespace(s[k])
    requires AsciiLetter(s[j])
    requires forall k | j < k < e :: AsciiLetter(s[k])
    requires e == |s| || AsciiWhitespace(s[e])
    ensures Scan(std, s, i) == Returned(Scanned(KeywordOrIdentifier(s[j..e]), e))
  {
    forall k | i <= k < j ensures std.isWhitespace(s[k]) {
      AsciiChar(std, s[k]);
    }
    AsciiChar(std, s[j]);
    forall k | j < k < e ensures std.isAlphanumeric(s[k]) {
      AsciiChar(std, s[k]);
    }
    if e < |s| {
      AsciiChar(std, s[e]);
    }
    ScanWord(std, s, i, j, e);
    var t := Scan(std, s, i).value.token;
    MatchKeywordExact(s[j..e], t);
  }

  /** An ASCII number lexeme at the start of the input, running to its end. */
  lemma AsciiNumber(std: Std, s: string)
    requires ClassifiesAscii(std) && DigitsAndDots(s)
    ensures Lex(std, s, 0) ==
      if AtMostOneDot(s) then Returned([Number(s), Eof]) else Panicked(s)
  {
    AsciiChar(std, s[0]);
    forall k | 0 < k < |s| ensures std.isNumeric(s[k]) || s[k] == '.' {
      AsciiChar(std, s[k]);
    }
    ScanNumber(std, s, 0, 0, |s|);
    assert s[0..|s|] == s;
    if AtMostOneDot(s) {
      LexLast(std, s, 0, Number(s));
    }
  }

  lemma ExampleDecimal(std: Std)
    requires ClassifiesAscii(std)
    ensures Lex(std, "3.14", 0) == Returned([Number("3.14"), Eof])
  {
    AsciiNumber(std, "3.14");
  }

  lemma ExampleInteger(std: Std)
    requires ClassifiesAscii(std)
    ensures Lex(std, "42", 0) == Returned([Number("42"), Eof])
  {
    AsciiNumber(std, "42");
  }

  /** A lexeme with two dots is scanned whole and then the `unwrap` panics. */
  lemma ExampleTwoDots(std: Std)
    requires ClassifiesAscii(std)
    ensures Lex(std, "1.2.3", 0) == Panicked("1.2.3")
  {
    var s := "1.2.3";
    assert s[1] == '.' && s[3] == '.';
    AsciiNumber(std, s);
  }

  /** A word after the input's end yields its token and then `Eof`. */
  lemma AsciiWordAlone(std: Std, s: string)
    requires ClassifiesAscii(std) && AsciiLetters(s)
    ensures Lex(std, s, 0) == Returned([KeywordOrIdentifier(s), Eof])
  {
    AsciiWord(std, s, 0, 0, |s|);
    assert s[0..|s|] == s;
    LexLast(std, s, 0, KeywordOrIdentifier(s));
  }

  lemma ExampleKeyword(std: Std)
    requires ClassifiesAscii(std)
    ensures Lex(std, "var", 0) == Returned([Var, Eof])
  {
    assert MatchKeyword("var") == Some(Var);
    AsciiWordAlone(std, "var");
  }

  lemma ExampleIdentifier(std: Std)
    requires ClassifiesAscii(std)
    ensures Lex(std, "variable", 0) == Returned([Identifier("variable"), Eof])
  {
    assert MatchKeyword("variable") == None;
    AsciiWordAlone(std, "variable");
  }

  lemma ExampleKeywords(std: Std)
    requires ClassifiesAscii(std)
    ensures Lex(std, "and or if", 0) == Returned([And, Or, If, Eof])
  {
    var s := "and or if";
    assert [And] + ([Or] + [If, Eof]) == [And, Or, If, Eof];
    WordsOfExample();
    AsciiWord(std, s, 0, 0, 3);
    AsciiWord(std, s, 3, 4, 6);
    AsciiWord(std, s, 6, 7, 9);
    LexCons(std, s, 0, And, 3);
    LexCons(std, s, 3, Or, 6);
    LexLast(std, s, 6, If);
  }

  lemma WordsOfExample()
    ensures var s := "and or if";
      |s| == 9 &&
      AsciiLetter(s[0]) &&
      (forall k | 0 < k < 3 :: AsciiLetter(s[k])) && AsciiWhitespace(s[3]) &&
      (forall k | 3 <= k < 4 :: AsciiWhitespace(s[k])) && AsciiLetter(s[4]) &&
      (forall k | 4 < k < 6 :: AsciiLetter(s[k])) && AsciiWhitespace(s[6]) &&
      (forall k | 6 <= k < 7 :: AsciiWhitespace(s[k])) && AsciiLetter(s[7]) &&
      (forall k | 7 < k < 9 :: AsciiLetter(s[k]))
    ensures "and or if"[0..3] == "and" && KeywordOrIdentifier("and") == And
    ensures "and or if"[4..6] == "or" && KeywordOrIdentifier("or") == Or
    ensures "and or if"[7..9] == "if" && KeywordOrIdentifier("if") == If
  {
  }

  /** `_` starts no branch, so it is consumed as `Eof` and the scan stops
      there; the word after it is never read. */
  lemma ExampleUnderscore(std: Std)
    requires ClassifiesAscii(std)
    ensures Lex(std, "_x", 0) == Returned([Eof])
  {
    var s := "_x";
    assert s[0] == '_' && !Dispatched(s[0]);
    AsciiChar(std, '_');
    ScanUnrecognised(std, s, 0, 0);
  }

  /** A quotation mark is not scanned as a string literal either. */
  lemma ExampleQuote(std: Std)
    requires ClassifiesAscii(std)
    ensures Lex(std, "\"a\"", 0) == Returned([Eof])
  {
    var s := "\"a\"";
    assert s[0] == '"' && !Dispatched(s[0]);
    AsciiChar(std, '"');
    ScanUnrecognised(std, s, 0, 0);
  }

  /** Re-scanning the display form of a keyword yields that keyword alone. */
  lemma KeywordRoundTrip(std: Std, t: Token)
    requires ClassifiesAscii(std) && IsKeyword(t)
    ensures Lex(std, Display(t), 0) == Returned([t, Eof])
  {
    var s := Display(t);
    KeywordSpelling(t);
    KeywordInTable(t);
    assert KeywordOrIdentifier(s) == t;
    AsciiWordAlone(std, s);
  }

  /** A lone symbol spelling other than `/` scans as the symbol displayed so. */
  lemma SymbolAlone(std: Std, s: string)
    requires ClassifiesAscii(std)
    requires (|s| == 1 && s[0] in "(){},.-+;*") ||
             (|s| == 1 && s[0] in "!=><") ||
             (|s| == 2 && s[0] in "!=><" && s[1] == '=')
    ensures Scan(std, s, 0).Returned?
    ensures var t := Scan(std, s, 0).value.token;
      IsSymbol(t) && Display(t) == s && Lex(std, s, 0) == Returned([t, Eof])
  {
    AsciiChar(std, s[0]);
    if s[0] in "(){},.-+;*" {
      ScanSingleSymbol(std, s, 0, 0);
    } else {
      ScanOperator(std, s, 0, 0);
    }
    var r := Scan(std, s, 0).value;
    assert s[0..r.next] == s;
    LexLast(std, s, 0, r.token);
  }

  /** Re-scanning the display form of a symbol other than `Slash` yields that
      symbol alone; `Slash` is the exception, in module SlashBranch. */
  lemma SymbolRoundTrip(std: Std, t: Token)
    requires ClassifiesAscii(std) && IsSymbol(t) && t != Slash
    ensures Lex(std, Display(t), 0) == Returned([t, Eof])
  {
    SymbolSpelling(t);
    SymbolAlone(std, Display(t));
    SymbolDisplayInjective(Scan(std, Display(t), 0).value.token, t);
  }

  /** Keywords are spelled with ASCII letters. */
  lemma KeywordSpelling(t: Token)
    requires IsKeyword(t)
    ensures AsciiLetters(Display(t))
  {
    // Split four ways, as in `Tokens.KeywordInTable`, to keep each proof small.
    if t.And? || t.Class? || t.Else? || t.False? {
      SpellingA(t);
    } else if t.Fun? || t.For? || t.If? || t.Nil? {
      SpellingB(t);
    } else if t.Or? || t.Print? || t.Return? || t.Super? {
      SpellingC(t);
    } else {
      SpellingD(t);
    }
  }

  lemma SpellingA(t: Token)
    requires t.And? || t.Class? || t.Else? || t.False?
    ensures AsciiLetters(Display(t))
  {
    match t case And => case Class => case Else => case False =>
  }

  lemma SpellingB(t: Token)
    requires t.Fun? || t.For? || t.If? || t.Nil?
    ensures AsciiLetters(Display(t))
  {
    match t case Fun => case For => case If => case Nil =>
  }

  lemma SpellingC(t: Token)
    requires t.Or? || t.Print? || t.Return? || t.Super?
    ensures AsciiLetters(Display(t))
  {
    match t case Or => case Print => case Return => case Super =>
  }

  lemma SpellingD(t: Token)
    requires t.This? || t.True? || t.Var? || t.While?
    ensures AsciiLetters(Display(t))
  {
    match t case This => case True => case Var => case While =>
  }

  /** Symbols other than `Slash` are spelled as one dispatched character,
      optionally followed by `=`. */
  lemma SymbolSpelling(t: Token)
    requires IsSymbol(t) && t != Slash
    ensures var s := Display(t);
      (|s| == 1 && s[0] in "(){},.-+;*") ||
      (|s| == 1 && s[0] in "!=><") ||
      (|s| == 2 && s[0] in "!=><" && s[1] == '=')
  {
  }
}
