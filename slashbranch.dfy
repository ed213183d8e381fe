/** The `/` branch of `next_token` has its two outcomes swapped: the selector
    is given `true` for "no second `/`" and `false` for "second `/` found",
    and its result is then read as "is a comment". */
module SlashBranch {
  import opened Tokens
  import opened Scanner
  import opened Properties
  import opened Ascii

  /** As written, the display form of `Slash` is read back as an empty
      comment, and a `//` comment is read as `Slash` followed by its words. */
  lemma SlashAsWritten(std: Std)
    requires ClassifiesAscii(std)
    ensures Lex(std, Display(Slash), 0) == Returned([Comment(""), Eof])
    ensures Lex(std, "// hello\n", 0) == Returned([Slash, Identifier("hello"), Eof])
  {
    LoneSlashAsWritten(std);
    DoubleSlashAsWritten(std);
  }

  lemma LoneSlashAsWritten(std: Std)
    requires ClassifiesAscii(std)
    ensures Lex(std, Display(Slash), 0) == Returned([Comment(""), Eof])
  {
    var s := Display(Slash);
    assert s == "/" && s[1..1] == "";
    AsciiChar(std, '/');
    ScanSlashComment(std, s, 0, 0, 1);
    LexLast(std, s, 0, Comment(""));
  }

  lemma DoubleSlashAsWritten(std: Std)
    requires ClassifiesAscii(std)
    ensures Lex(std, "// hello\n", 0) == Returned([Slash, Identifier("hello"), Eof])
  {
    var s := "// hello\n";
    HelloSteps(std);
    LexCons(std, s, 0, Slash, 2);
    LexCons(std, s, 2, Identifier("hello"), 8);
    assert [Slash] + ([Identifier("hello")] + [Eof]) == [Slash, Identifier("hello"), Eof];
  }

  /** The three steps of the as-written scan of `// hello`. */
  lemma HelloSteps(std: Std)
    requires ClassifiesAscii(std)
    ensures Scan(std, "// hello\n", 0) == Returned(Scanned(Slash, 2))
    ensures Scan(std, "// hello\n", 2) == Returned(Scanned(Identifier("hello"), 8))
    ensures Lex(std, "// hello\n", 8) == Returned([Eof])
  {
    var s := "// hello\n";
    HelloFacts();
    AsciiChar(std, '/');
    AsciiWord(std, s, 2, 3, 8);
    AsciiChar(std, '\n');
    ScanDoubleSlash(std, s, 0, 0);
    ScanOnlyWhitespace(std, s, 8);
  }

  lemma HelloFacts()
    ensures var s := "// hello\n";
      |s| == 9 && s[0] == '/' && s[1] == '/' && AsciiWhitespace(s[2]) &&
      AsciiLetter(s[3]) && (forall k | 3 < k < 8 :: AsciiLetter(s[k])) && s[8] == '\n' &&
      (forall k | 2 <= k < 3 :: AsciiWhitespace(s[k])) && AsciiWhitespace(s[8]) &&
      s[3..8] == "hello" && KeywordOrIdentifier("hello") == Identifier("hello")
  {
  }

  /** As written, no comment reads back from its display form: the `//` in
      front of it scans as `Slash`. */
  lemma CommentAsWritten(std: Std, text: string)
    requires ClassifiesAscii(std)
    ensures Lex(std, Display(Comment(text)), 0) != Returned([Comment(text), Eof])
  {
    var s := Display(Comment(text));
    CommentSpelling(text);
    AsciiChar(std, '/');
    ScanDoubleSlash(std, s, 0, 0);
    LexCons(std, s, 0, Slash, 2);
    SlashFirst(Lex(std, s, 0), Lex(std, s, 2), Comment(text));
  }

  /** The display form of a comment: `//`, a space, then its text. */
  lemma CommentSpelling(text: string)
    ensures var s := Display(Comment(text));
      |s| == |text| + 3 && s[0] == '/' && s[1] == '/' && s[2..|s|] == " " + text &&
      ('\n' !in text ==> forall n | 2 <= n < |s| :: s[n] != '\n')
  {
    var s := Display(Comment(text));
    if '\n' !in text {
      forall n | 2 <= n < |s| ensures s[n] != '\n' {
        if n > 2 {
          assert s[n] == text[n - 3];
        }
      }
    }
  }

  /** A scan that begins with `Slash` does not begin with any other token. */
  lemma SlashFirst(o: Outcome<seq<Token>>, rest: Outcome<seq<Token>>, t: Token)
    requires o == Then([Slash], rest) && t != Slash
    ensures o != Returned([t, Eof])
  {
    if rest.Returned? {
      assert o.value[0] == Slash;
    }
  }

  /** The `/` branch as evidently intended: a second `/` starts a comment. */
  function AfterSlashIntended(std: Std, s: string, k: nat): Scanned
    requires k <= |s|
  {
    var (isComment, k') := MatchOneTwo(s, k, '/', false, true);
    if isComment then
      var (text, n) := Line(std, s, k');
      Scanned(Comment(text), n)
    else Scanned(Slash, k')
  }

  /** Intended: `/` not followed by `/` is `Slash`, consuming nothing more. */
  lemma IntendedSlash(std: Std, s: string, k: nat)
    requires k <= |s| && !(k < |s| && s[k] == '/')
    ensures AfterSlashIntended(std, s, k) == Scanned(Slash, k)
  {
  }

  /** Intended: `//` begins a comment holding the text after it up to the next
      `\n`, which is consumed; with no `\n` the comment is the rest of the input. */
  lemma IntendedComment(std: Std, s: string, k: nat, e: nat)
    requires k < |s| && s[k] == '/'
    requires k + 1 <= e <= |s|
    requires forall n | k + 1 <= n < e :: s[n] != '\n'
    requires e == |s| || s[e] == '\n'
    ensures AfterSlashIntended(std, s, k) == Scanned(Comment(s[k + 1..e]), if e < |s| then e + 1 else e)
  {
    RunEndUnique(std, LineBody, s, k + 1, e);
  }

  /** One step of the scan with the `/` branch as intended; every other
      branch is the one written. */
  function ScanIntended(std: Std, s: string, i: nat): (r: Outcome<Scanned>)
    requires i <= |s|
    ensures r.Returned? ==> i <= r.value.next <= |s|
    ensures r.Returned? && r.value.token != Eof ==> i < r.value.next
  {
    var j := RunEnd(std, Blank, s, i);
    if j < |s| && s[j] == '/' then Returned(AfterSlashIntended(std, s, j + 1)) else Scan(std, s, i)
  }

  /** The whole scan with the intended `/` branch. */
  function LexIntended(std: Std, s: string, i: nat): (r: Outcome<seq<Token>>)
    requires i <= |s|
    ensures r.Returned? ==> EndsWithSingleEof(r.value)
    decreases |s| - i
  {
    match ScanIntended(std, s, i)
    case Panicked(m) => Panicked(m)
    case Returned(Scanned(t, k)) =>
      if t == Eof then Returned([Eof]) else Then([t], LexIntended(std, s, k))
  }

  /** The correction changes nothing on input that holds no `/`. */
  lemma {:induction false} IntendedWithoutSlash(std: Std, s: string, i: nat)
    requires i <= |s| && forall k | i <= k < |s| :: s[k] != '/'
    ensures LexIntended(std, s, i) == Lex(std, s, i)
    decreases |s| - i
  {
    assert ScanIntended(std, s, i) == Scan(std, s, i);
    match Scan(std, s, i)
    case Panicked(_) =>
    case Returned(Scanned(t, k)) =>
      if t != Eof {
        IntendedWithoutSlash(std, s, k);
      }
  }

  /** With the intended branch, the display form of every symbol, `Slash`
      included, reads back as that symbol alone. */
  lemma IntendedSymbolRoundTrip(std: Std, t: Token)
    requires ClassifiesAscii(std) && IsSymbol(t)
    ensures LexIntended(std, Display(t), 0) == Returned([t, Eof])
  {
    if t == Slash {
      IntendedSlashStep(std);
      IntendedAtEnd(std, Display(Slash));
      assert [Slash] + [Eof] == [Slash, Eof];
    } else {
      SymbolRoundTrip(std, t);
      SymbolWithoutSlash(t);
      IntendedWithoutSlash(std, Display(t), 0);
    }
  }

  lemma SymbolWithoutSlash(t: Token)
    requires IsSymbol(t) && t != Slash
    ensures forall k | 0 <= k < |Display(t)| :: Display(t)[k] != '/'
  {
    match t
    case LeftParen => case RightParen => case LeftBrace => case RightBrace =>
    case Comma => case Dot => case Minus => case Plus => case Semicolon =>
    case Star => case Bang => case BangEqual => case Equal =>
    case EqualEqual => case Greater => case GreaterEqual => case Less => case LessEqual =>
  }

  lemma IntendedSlashStep(std: Std)
    requires ClassifiesAscii(std)
    ensures ScanIntended(std, Display(Slash), 0) == Returned(Scanned(Slash, 1))
  {
    var s := Display(Slash);
    assert s == "/";
    AsciiChar(std, '/');
    RunEndUnique(std, Blank, s, 0, 0);
    IntendedSlash(std, s, 1);
  }

  lemma IntendedAtEnd(std: Std, s: string)
    ensures LexIntended(std, s, |s|) == Returned([Eof])
  {
    ScanOnlyWhitespace(std, s, |s|);
  }

  /** With the intended branch, `// hello` reads as the comment ` hello`. */
  lemma IntendedCommentExample(std: Std)
    requires ClassifiesAscii(std)
    ensures LexIntended(std, "// hello\n", 0) == Returned([Comment(" hello"), Eof])
  {
    IntendedCommentStep(std);
    IntendedAtEnd(std, "// hello\n");
    assert [Comment(" hello")] + [Eof] == [Comment(" hello"), Eof];
  }

  lemma IntendedCommentStep(std: Std)
    requires ClassifiesAscii(std)
    ensures ScanIntended(std, "// hello\n", 0) == Returned(Scanned(Comment(" hello"), 9))
  {
    var s := "// hello\n";
    HelloFacts();
    AsciiChar(std, '/');
    RunEndUnique(std, Blank, s, 0, 0);
    IntendedComment(std, s, 1, 8);
    assert s[2..8] == " hello";
  }

  /** With the intended branch the display form of a one-line comment is read
      as a comment, but its text keeps the space the display form puts after
      `//`, so it still does not read back as itself. */
  lemma IntendedCommentDisplay(std: Std, text: string)
    requires ClassifiesAscii(std) && '\n' !in text
    ensures ScanIntended(std, Display(Comment(text)), 0) ==
      Returned(Scanned(Comment(" " + text), |Display(Comment(text))|))
  {
    var s := Display(Comment(text));
    CommentSpelling(text);
    AsciiChar(std, '/');
    RunEndUnique(std, Blank, s, 0, 0);
    IntendedComment(std, s, 1, |s|);
  }

}
