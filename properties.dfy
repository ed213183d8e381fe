/** What one step of the lexer and the whole scan do, stated without
    reference to how `Scan` is written: each run of characters is described by
    where it ends, and each branch by the token it yields. */
module Properties {
  import opened Tokens
  import opened Scanner

  /** The characters `next_token` dispatches on before it asks the classifiers. */
  predicate Dispatched(c: char) {
    c in "(){},.-+;/*!=><"
  }

  /** The token to be scanned from `i` starts at `j`: everything in between is
      whitespace and `s[j]` is not. */
  predicate TokenStartsAt(std: Std, s: string, i: nat, j: nat) {
    i <= j < |s| &&
    (forall k | i <= k < j :: std.isWhitespace(s[k])) &&
    !std.isWhitespace(s[j])
  }

  /** Any position that ends a maximal run is the one `RunEnd` finds. */
  lemma {:induction false} RunEndUnique(std: Std, run: Run, s: string, i: nat, e: nat)
    requires i <= e <= |s|
    requires forall k | i <= k < e :: Continues(std, run, s[k])
    requires e == |s| || !Continues(std, run, s[e])
    ensures RunEnd(std, run, s, i) == e
    decreases e - i
  {
    if i < e {
      RunEndUnique(std, run, s, i + 1, e);
    }
  }

  lemma BlankEnd(std: Std, s: string, i: nat, j: nat)
    requires TokenStartsAt(std, s, i, j)
    ensures RunEnd(std, Blank, s, i) == j
  {
    RunEndUnique(std, Blank, s, i, j);
  }

  /** The lookahead consumes the next character exactly when it is
      `expected`, and chooses `matched` exactly then. */
  lemma MatchOneTwoChoice<C>(s: string, k: nat, expected: char, unmatched: C, matched: C)
    requires k <= |s|
    ensures var (c, n) := MatchOneTwo(s, k, expected, unmatched, matched);
      k <= n <= k + 1 && (n == k + 1 <==> k < |s| && s[k] == expected) &&
      c == (if n == k + 1 then matched else unmatched)
  {
  }

  /** The line from `k` is the longest stretch of the input there without a
      `\n`; the position after it is the end of the input, or just past the
      `\n` that stopped it. */
  lemma LineSplit(std: Std, s: string, k: nat)
    requires k <= |s|
    ensures var (text, n) := Line(std, s, k);
      k + |text| <= |s| && s[k..k + |text|] == text && '\n' !in text &&
      ((n == k + |text| == |s|) || (n == k + |text| + 1 && s[k + |text|] == '\n'))
  {
    var e := RunEnd(std, LineBody, s, k);
    forall m | 0 <= m < e - k ensures s[k..e][m] != '\n' {
      assert Continues(std, LineBody, s[k + m]);
    }
  }

  /** As written, the `/` branch yields `Slash`, consuming a second `/`,
      exactly when one follows, and otherwise a comment of the rest of the
      line. */
  lemma AfterSlashChoice(std: Std, s: string, k: nat)
    requires k <= |s|
    ensures var r := AfterSlash(std, s, k);
      (r.token == Slash <==> k < |s| && s[k] == '/') &&
      (r.token == Slash ==> r.next == k + 1) &&
      (r.token != Slash ==> r == Scanned(Comment(Line(std, s, k).0), Line(std, s, k).1))
  {
  }

  /** Input that is empty or whitespace from `i` on yields `Eof`. */
  lemma ScanOnlyWhitespace(std: Std, s: string, i: nat)
    requires i <= |s|
    requires forall k | i <= k < |s| :: std.isWhitespace(s[k])
    ensures Scan(std, s, i) == Returned(Scanned(Eof, |s|))
    ensures Lex(std, s, i) == Returned([Eof])
  {
    RunEndUnique(std, Blank, s, i, |s|);
  }

  /** A single-character symbol yields the token displayed as that character. */
  lemma ScanSingleSymbol(std: Std, s: string, i: nat, j: nat)
    requires TokenStartsAt(std, s, i, j) && s[j] in "(){},.-+;*"
    ensures Scan(std, s, i).Returned?
    ensures var r := Scan(std, s, i).value;
      IsSymbol(r.token) && Display(r.token) == [s[j]] && r.next == j + 1
  {
    BlankEnd(std, s, i, j);
  }

  /** `!`, `=`, `>` and `<` yield their two-character token exactly when `=`
      follows, consuming it; otherwise the one-character token, consuming
      nothing more. Either way the token is displayed as the text consumed. */
  lemma ScanOperator(std: Std, s: string, i: nat, j: nat)
    requires TokenStartsAt(std, s, i, j) && s[j] in "!=><"
    ensures Scan(std, s, i).Returned?
    ensures var r := Scan(std, s, i).value;
      var followed := j + 1 < |s| && s[j + 1] == '=';
      IsSymbol(r.token) &&
      r.next == (if followed then j + 2 else j + 1) &&
      Display(r.token) == s[j..r.next] &&
      (followed <==> r.token in {BangEqual, EqualEqual, GreaterEqual, LessEqual})
  {
    BlankEnd(std, s, i, j);
  }

  /** As written, `//` yields `Slash` and consumes both characters. */
  lemma ScanDoubleSlash(std: Std, s: string, i: nat, j: nat)
    requires TokenStartsAt(std, s, i, j) && j + 1 < |s| && s[j] == '/' && s[j + 1] == '/'
    ensures Scan(std, s, i) == Returned(Scanned(Slash, j + 2))
  {
    BlankEnd(std, s, i, j);
  }

  /** As written, `/` not followed by `/` yields a comment holding the text up
      to the next `\n`, and consumes that `\n`; with no `\n` the comment is the
      rest of the input. */
  lemma ScanSlashComment(std: Std, s: string, i: nat, j: nat, e: nat)
    requires TokenStartsAt(std, s, i, j) && s[j] == '/' && !(j + 1 < |s| && s[j + 1] == '/')
    requires j + 1 <= e <= |s|
    requires forall k | j + 1 <= k < e :: s[k] != '\n'
    requires e == |s| || s[e] == '\n'
    ensures Scan(std, s, i) == Returned(Scanned(Comment(s[j + 1..e]), if e < |s| then e + 1 else e))
  {
    BlankEnd(std, s, i, j);
    RunEndUnique(std, LineBody, s, j + 1, e);
  }

  /** A start character that is numeric (and not dispatched on) begins a number
      lexeme: it and the maximal run of numeric characters and dots after it.
      A lexeme the float parser rejects makes the `unwrap` panic. */
  lemma ScanNumber(std: Std, s: string, i: nat, j: nat, e: nat)
    requires TokenStartsAt(std, s, i, j) && !Dispatched(s[j]) && std.isNumeric(s[j])
    requires j < e <= |s|
    requires forall k | j < k < e :: std.isNumeric(s[k]) || s[k] == '.'
    requires e == |s| || !(std.isNumeric(s[e]) || s[e] == '.')
    ensures Scan(std, s, i) ==
      if std.parsesAsFloat(s[j..e]) then Returned(Scanned(Number(s[j..e]), e)) else Panicked(s[j..e])
  {
    BlankEnd(std, s, i, j);
    RunEndUnique(std, NumberTail, s, j + 1, e);
  }

  /** A start character that is alphanumeric but not numeric begins a word: it
      and the maximal run of alphanumeric characters and underscores after it.
      The word yields a keyword exactly when the table holds it, otherwise an
      identifier carrying the word. */
  lemma ScanWord(std: Std, s: string, i: nat, j: nat, e: nat)
    requires TokenStartsAt(std, s, i, j) && !Dispatched(s[j])
    requires std.isAlphanumeric(s[j]) && !std.isNumeric(s[j])
    requires j < e <= |s|
    requires forall k | j < k < e :: std.isAlphanumeric(s[k]) || s[k] == '_'
    requires e == |s| || !(std.isAlphanumeric(s[e]) || s[e] == '_')
    ensures Scan(std, s, i).Returned? && Scan(std, s, i).value.next == e
    ensures var t := Scan(std, s, i).value.token;
      (IsKeyword(t) <==> MatchKeyword(s[j..e]).Some?) &&
      (IsKeyword(t) ==> Display(t) == s[j..e]) &&
      (!IsKeyword(t) ==> t == Identifier(s[j..e]))
  {
    BlankEnd(std, s, i, j);
    RunEndUnique(std, WordTail, s, j + 1, e);
    assert Scan(std, s, i) == Returned(Scanned(KeywordOrIdentifier(s[j..e]), e));
    WordToken(s[j..e]);
  }

  /** A word yields a keyword exactly when the table holds it, and then the
      keyword displayed as the word; otherwise an identifier carrying it. */
  lemma WordToken(w: string)
    ensures var t := KeywordOrIdentifier(w);
      (IsKeyword(t) <==> MatchKeyword(w).Some?) &&
      (IsKeyword(t) ==> Display(t) == w) &&
      (!IsKeyword(t) ==> t == Identifier(w))
  {
    if MatchKeyword(w).Some? {
      TableSound(w, MatchKeyword(w).value);
    }
  }

  /** A start character no branch recognises is consumed and yields `Eof`,
      which ends the whole scan there. */
  lemma ScanUnrecognised(std: Std, s: string, i: nat, j: nat)
    requires TokenStartsAt(std, s, i, j) && !Dispatched(s[j])
    requires !std.isNumeric(s[j]) && !std.isAlphanumeric(s[j])
    ensures Scan(std, s, i) == Returned(Scanned(Eof, j + 1))
    ensures Lex(std, s, i) == Returned([Eof])
  {
    BlankEnd(std, s, i, j);
  }

  /** A step that yields a token other than `Eof` is followed by the rest of the scan. */
  lemma LexCons(std: Std, s: string, i: nat, t: Token, n: nat)
    requires i <= |s| && Scan(std, s, i) == Returned(Scanned(t, n)) && t != Eof
    ensures n <= |s| && Lex(std, s, i) == Then([t], Lex(std, s, n))
  {
  }

  /** A step that yields a token other than `Eof` and reaches the end of the
      input completes the scan. */
  lemma LexLast(std: Std, s: string, i: nat, t: Token)
    requires i <= |s| && Scan(std, s, i) == Returned(Scanned(t, |s|)) && t != Eof
    ensures Lex(std, s, i) == Returned([t, Eof])
  {
    LexCons(std, s, i, t, |s|);
    ScanOnlyWhitespace(std, s, |s|);
    assert [t] + [Eof] == [t, Eof];
  }

  /** Every step before the final `Eof` consumes input, so a scan yields at
      most one token per character, plus the `Eof`. */
  lemma {:induction false} LexSteps(std: Std, s: string, i: nat)
    requires i <= |s|
    ensures Lex(std, s, i).Returned? ==> |Lex(std, s, i).value| <= |s| - i + 1
    decreases |s| - i
  {
    match Scan(std, s, i)
    case Panicked(_) =>
    case Returned(Scanned(t, k)) =>
      if t != Eof {
        LexSteps(std, s, k);
      }
  }
}
