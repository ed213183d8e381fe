/** The lexer as the source writes it: procedures that advance a shared
    peekable cursor and push characters into buffers, each proved to compute
    what module Scanner specifies. */
module Tokenizer {
  import opened Tokens
  import opened Scanner

  /** Rust's `Result`; the `Ok` value of a number parse is kept as its lexeme. */
  datatype Result<T> = Ok(value: T) | Err(error: string)

  /** A peekable character iterator over `text`, positioned at `pos`. */
  class Cursor {
    const text: string
    var pos: nat

    ghost predicate Valid()
      reads this
    {
      pos <= |text|
    }

    constructor (text: string)
      ensures Valid() && this.text == text && pos == 0
    {
      this.text := text;
      pos := 0;
    }

    /** The next character, without consuming it. */
    function Peek(): (c: Option<char>)
      reads this
      ensures c.Some? <==> pos < |text|
      ensures c.Some? ==> c.value == text[pos]
    {
      if pos < |text| then Some(text[pos]) else None
    }

    /** Consume and return the next character, if any. */
    method Next() returns (c: Option<char>)
      requires Valid()
      modifies this
      ensures Valid()
      ensures c == old(Peek())
      ensures pos == if old(pos) < |text| then old(pos) + 1 else old(pos)
    {
      c := Peek();
      if pos < |text| {
        pos := pos + 1;
      }
    }
  }

  /** `consume_line`: the characters up to the next `\n`, which is consumed too. */
  method ConsumeLine(src: Cursor, std: Std) returns (l: string)
    requires src.Valid()
    modifies src
    ensures src.Valid()
    ensures (l, src.pos) == Line(std, src.text, old(src.pos))
  {
    ghost var start := src.pos;
    ghost var e := RunEnd(std, LineBody, src.text, start);
    l := "";
    while true
      invariant src.Valid() && start <= src.pos <= e
      invariant l == src.text[start..src.pos]
      decreases |src.text| - src.pos
    {
      var c := src.Next();
      if c.None? {
        break;
      }
      if c.value == '\n' {
        break;
      }
      l := l + [c.value];
    }
  }

  /** `consume_match_next`: consume the next character exactly when it is `next`. */
  method ConsumeMatchNext(src: Cursor, next: char) returns (matched: bool)
    requires src.Valid()
    modifies src
    ensures src.Valid()
    ensures matched == (old(src.Peek()) == Some(next))
    ensures src.pos == if matched then old(src.pos) + 1 else old(src.pos)
  {
    var p := src.Peek();
    matched := match p
      case Some(c) => c == next
      case None => false;
    if matched {
      var _ := src.Next();
    }
  }

  /** `consume_match_one_two`: `b` when the next character is `next` (and
      consumed), `a` otherwise. */
  method ConsumeMatchOneTwo<C>(src: Cursor, next: char, a: C, b: C) returns (r: C)
    requires src.Valid()
    modifies src
    ensures src.Valid()
    ensures (r, src.pos) == MatchOneTwo(src.text, old(src.pos), next, a, b)
  {
    var matched := ConsumeMatchNext(src, next);
    if matched {
      r := b;
    } else {
      r := a;
    }
  }

  /** `consume_number`: `c` followed by the maximal run of numeric characters
      and dots, then parsed. */
  method ConsumeNumber(src: Cursor, std: Std, c: char) returns (r: Result<string>)
    requires src.Valid()
    modifies src
    ensures src.Valid()
    ensures src.pos == RunEnd(std, NumberTail, src.text, old(src.pos))
    ensures var lexeme := [c] + src.text[old(src.pos)..src.pos];
      r == if std.parsesAsFloat(lexeme) then Ok(lexeme) else Err(lexeme)
  {
    ghost var start := src.pos;
    var numStr := [c];
    while true
      invariant src.Valid() && start <= src.pos
      invariant RunEnd(std, NumberTail, src.text, src.pos) == RunEnd(std, NumberTail, src.text, start)
      invariant numStr == [c] + src.text[start..src.pos]
      decreases |src.text| - src.pos
    {
      var p := src.Peek();
      if p.None? {
        break;
      }
      if std.isNumeric(p.value) || p.value == '.' {
        var n := src.Next();
        numStr := numStr + [n.value];
      } else {
        break;
      }
    }
    if std.parsesAsFloat(numStr) {
      r := Ok(numStr);
    } else {
      r := Err(numStr);
    }
  }

  /** `consume_identifer_or_keyword`: `c` followed by the maximal run of
      alphanumeric characters and underscores; it never fails. */
  method ConsumeIdentifierOrKeyword(src: Cursor, std: Std, c: char) returns (r: Result<string>)
    requires src.Valid()
    modifies src
    ensures src.Valid()
    ensures src.pos == RunEnd(std, WordTail, src.text, old(src.pos))
    ensures r == Ok([c] + src.text[old(src.pos)..src.pos])
  {
    ghost var start := src.pos;
    var s := [c];
    while true
      invariant src.Valid() && start <= src.pos
      invariant RunEnd(std, WordTail, src.text, src.pos) == RunEnd(std, WordTail, src.text, start)
      invariant s == [c] + src.text[start..src.pos]
      decreases |src.text| - src.pos
    {
      var p := src.Peek();
      if p.None? {
        break;
      }
      if std.isAlphanumeric(p.value) || p.value == '_' {
        s := s + [p.value];
        var _ := src.Next();
      } else {
        break;
      }
    }
    r := Ok(s);
  }

  /** `eat_whitespace`: skip the maximal run of whitespace. */
  method EatWhitespace(src: Cursor, std: Std)
    requires src.Valid()
    modifies src
    ensures src.Valid()
    ensures src.pos == RunEnd(std, Blank, src.text, old(src.pos))
  {
    ghost var start := src.pos;
    while true
      invariant src.Valid() && start <= src.pos
      invariant RunEnd(std, Blank, src.text, src.pos) == RunEnd(std, Blank, src.text, start)
      decreases |src.text| - src.pos
    {
      var p := src.Peek();
      if p.None? {
        break;
      }
      if std.isWhitespace(p.value) {
        var _ := src.Next();
      } else {
        break;
      }
    }
  }

  /** `next_token`: skip whitespace, then read one token. A number the float
      parser rejects makes the `unwrap` panic. */
  method NextToken(src: Cursor, std: Std) returns (r: Outcome<Token>)
    requires src.Valid()
    modifies src
    ensures src.Valid()
    ensures Scan(std, src.text, old(src.pos)) ==
      match r
      case Returned(t) => Returned(Scanned(t, src.pos))
      case Panicked(m) => Panicked(m)
  {
    EatWhitespace(src, std);
    ghost var start := src.pos;
    var next := src.Next();
    if next.None? {
      return Returned(Eof);
    }
    var ch := next.value;
    var token: Token;
    match ch {
    case '(' => token := LeftParen;
    case ')' => token := RightParen;
    case '{' => token := LeftBrace;
    case '}' => token := RightBrace;
    case ',' => token := Comma;
    case '.' => token := Dot;
    case '-' => token := Minus;
    case '+' => token := Plus;
    case ';' => token := Semicolon;
    case '/' =>
      var isComment := ConsumeMatchOneTwo(src, '/', true, false);
      if isComment {
        var line := ConsumeLine(src, std);
        token := Comment(line);
      } else {
        token := Slash;
      }
    case '*' => token := Star;
    case '!' => token := ConsumeMatchOneTwo(src, '=', Bang, BangEqual);
    case '=' => token := ConsumeMatchOneTwo(src, '=', Equal, EqualEqual);
    case '>' => token := ConsumeMatchOneTwo(src, '=', Greater, GreaterEqual);
    case '<' => token := ConsumeMatchOneTwo(src, '=', Less, LessEqual);
    case _ =>
      if std.isNumeric(ch) {
        var number := ConsumeNumber(src, std, ch);
        assert [ch] + src.text[start + 1..src.pos] == src.text[start..src.pos];
        if number.Err? {
          return Panicked(number.error);
        }
        token := Number(number.value);
      } else if std.isAlphanumeric(ch) {
        var s := ConsumeIdentifierOrKeyword(src, std, ch);
        assert [ch] + src.text[start + 1..src.pos] == src.text[start..src.pos];
        var keyword := MatchKeyword(s.value);
        if keyword.Some? {
          token := keyword.value;
        } else {
          token := Identifier(s.value);
        }
      } else {
        token := Eof;
      }
    }
    return Returned(token);
  }

  /** `tokenize`: call `next_token` and collect its tokens until `Eof`. */
  method Tokenize(s: string, std: Std) returns (r: Outcome<seq<Token>>)
    ensures r == Lex(std, s, 0)
    ensures r.Returned? ==> EndsWithSingleEof(r.value)
  {
    var tokens := [];
    var src := new Cursor(s);
    assert Then(tokens, Lex(std, s, 0)) == Lex(std, s, 0) by {
      if Lex(std, s, 0).Returned? {
        assert [] + Lex(std, s, 0).value == Lex(std, s, 0).value;
      }
    }
    while true
      invariant src.Valid() && src.text == s
      invariant Then(tokens, Lex(std, s, src.pos)) == Lex(std, s, 0)
      decreases |s| - src.pos
    {
      ghost var before := src.pos;
      var t := NextToken(src, std);
      if t.Panicked? {
        return Panicked(t.message);
      }
      var eof := t.value == Eof;
      ThenThen(tokens, [t.value], Lex(std, s, src.pos));
      tokens := tokens + [t.value];
      if eof {
        break;
      }
    }
    r := Returned(tokens);
  }

  lemma ThenThen(a: seq<Token>, b: seq<Token>, o: Outcome<seq<Token>>)
    ensures Then(a, Then(b, o)) == Then(a + b, o)
  {
    if o.Returned? {
      assert a + (b + o.value) == (a + b) + o.value;
    }
  }
}
