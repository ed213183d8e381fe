/** The scanning algorithm as functions of the input text and a position in it:
    `Scan` is one call of `next_token`, `Lex` is `tokenize`. The imperative
    procedures in module Tokenizer are proved equal to these. */
module Scanner {
  import opened Tokens

  /** The facilities the lexer takes from Rust's standard library, left
      uninterpreted: the three Unicode character classifiers and whether
      `str::parse::<f64>` accepts a string. */
  datatype Std = Std(
    isWhitespace: char -> bool,
    isNumeric: char -> bool,
    isAlphanumeric: char -> bool,
    parsesAsFloat: string -> bool)

  /** What a call returns, or the panic that ends the program instead. */
  datatype Outcome<T> = Returned(value: T) | Panicked(message: string)

  /** A token and the cursor position just after it. */
  datatype Scanned = Scanned(token: Token, next: nat)

  /** The kinds of character run the lexer consumes greedily. */
  datatype Run = Blank | NumberTail | WordTail | LineBody

  /** Whether `c` extends a run of the given kind. */
  predicate Continues(std: Std, run: Run, c: char) {
    match run
    case Blank => std.isWhitespace(c)
    case NumberTail => std.isNumeric(c) || c == '.'
    case WordTail => std.isAlphanumeric(c) || c == '_'
    case LineBody => c != '\n'
  }

  /** The end of the maximal run of `run` characters starting at `i`. */
  function RunEnd(std: Std, run: Run, s: string, i: nat): (j: nat)
    requires i <= |s|
    ensures i <= j <= |s|
    ensures forall k | i <= k < j :: Continues(std, run, s[k])
    ensures j == |s| || !Continues(std, run, s[j])
    decreases |s| - i
  {
    if i < |s| && Continues(std, run, s[i]) then RunEnd(std, run, s, i + 1) else i
  }

  /** The one-character lookahead of `consume_match_one_two`: if the character
      at `k` is `expected` it is consumed and `matched` chosen, otherwise the
      position stays and `unmatched` is chosen. */
  function MatchOneTwo<C>(s: string, k: nat, expected: char, unmatched: C, matched: C): (C, nat)
    requires k <= |s|
  {
    if k < |s| && s[k] == expected then (matched, k + 1) else (unmatched, k)
  }

  /** The rest of the line from `k` and the position after its `\n` (which is
      consumed when present). */
  function Line(std: Std, s: string, k: nat): (string, nat)
    requires k <= |s|
  {
    var e := RunEnd(std, LineBody, s, k);
    (s[k..e], if e < |s| then e + 1 else e)
  }

  /** A word is a keyword when the table knows it, otherwise an identifier. */
  function KeywordOrIdentifier(w: string): Token {
    match MatchKeyword(w)
    case Some(t) => t
    case None => Identifier(w)
  }

  /** The `/` branch of `next_token`, with `k` just after the `/`. As
      written, the selector yields `false` (not a comment) when a second `/`
      follows and `true` otherwise. */
  function AfterSlash(std: Std, s: string, k: nat): Scanned
    requires k <= |s|
  {
    var (isComment, k') := MatchOneTwo(s, k, '/', true, false);
    if isComment then
      var (text, n) := Line(std, s, k');
      Scanned(Comment(text), n)
    else Scanned(Slash, k')
  }

  /** One call of `next_token` with the cursor at `i`. */
  function Scan(std: Std, s: string, i: nat): (r: Outcome<Scanned>)
    requires i <= |s|
    ensures r.Returned? ==> i <= r.value.next <= |s|
    ensures r.Returned? && r.value.token != Eof ==> i < r.value.next
  {
    var j := RunEnd(std, Blank, s, i);
    if j == |s| then Returned(Scanned(Eof, j)) else Dispatch(std, s, j)
  }

  /** The token that starts with the non-whitespace character at `j`. */
  function Dispatch(std: Std, s: string, j: nat): (r: Outcome<Scanned>)
    requires j < |s|
    ensures r.Returned? ==> j < r.value.next <= |s|
  {
    var ch, k := s[j], j + 1;
    match ch
    case '(' => Returned(Scanned(LeftParen, k))
    case ')' => Returned(Scanned(RightParen, k))
    case '{' => Returned(Scanned(LeftBrace, k))
    case '}' => Returned(Scanned(RightBrace, k))
    case ',' => Returned(Scanned(Comma, k))
    case '.' => Returned(Scanned(Dot, k))
    case '-' => Returned(Scanned(Minus, k))
    case '+' => Returned(Scanned(Plus, k))
    case ';' => Returned(Scanned(Semicolon, k))
    case '/' => Returned(AfterSlash(std, s, k))
    case '*' => Returned(Scanned(Star, k))
    case '!' => var (t, n) := MatchOneTwo(s, k, '=', Bang, BangEqual); Returned(Scanned(t, n))
    case '=' => var (t, n) := MatchOneTwo(s, k, '=', Equal, EqualEqual); Returned(Scanned(t, n))
    case '>' => var (t, n) := MatchOneTwo(s, k, '=', Greater, GreaterEqual); Returned(Scanned(t, n))
    case '<' => var (t, n) := MatchOneTwo(s, k, '=', Less, LessEqual); Returned(Scanned(t, n))
    case _ =>
    if std.isNumeric(ch) then
      var e := RunEnd(std, NumberTail, s, k);
      if std.parsesAsFloat(s[j..e]) then Returned(Scanned(Number(s[j..e]), e))
      else Panicked(s[j..e])
    else if std.isAlphanumeric(ch) then
      var e := RunEnd(std, WordTail, s, k);
      Returned(Scanned(KeywordOrIdentifier(s[j..e]), e))
    else Returned(Scanned(Eof, k))
  }

  /** `prefix` put in front of a token sequence, a panic passed through. */
  function Then(prefix: seq<Token>, o: Outcome<seq<Token>>): Outcome<seq<Token>> {
    match o
    case Returned(ts) => Returned(prefix + ts)
    case Panicked(m) => Panicked(m)
  }

  /** Whether `ts` is a finished scan: non-empty, `Eof` last and nowhere else. */
  predicate EndsWithSingleEof(ts: seq<Token>) {
    |ts| > 0 && ts[|ts| - 1] == Eof && forall n | 0 <= n < |ts| - 1 :: ts[n] != Eof
  }

  /** `tokenize` from position `i`: scan until `Eof` is produced. */
  function Lex(std: Std, s: string, i: nat): (r: Outcome<seq<Token>>)
    requires i <= |s|
    ensures r.Returned? ==> EndsWithSingleEof(r.value)
    decreases |s| - i
  {
    match Scan(std, s, i)
    case Panicked(m) => Panicked(m)
    case Returned(Scanned(t, k)) =>
      if t == Eof then Returned([Eof]) else Then([t], Lex(std, s, k))
  }
}
