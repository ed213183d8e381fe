/** The token vocabulary of the Lox lexer: the closed set of tokens, their
    display form and the reserved-word table. */
module Tokens {

  datatype Option<T> = None | Some(value: T)

  /** One lexical unit. A number keeps its lexeme instead of its f64 value. */
  datatype Token =
    | LeftParen | RightParen | LeftBrace | RightBrace | Comma | Dot
    | Minus | Plus | Semicolon | Slash | Star
    | Bang | BangEqual | Equal | EqualEqual
    | Greater | GreaterEqual | Less | LessEqual
    | Identifier(text: string) | String(text: string) | Number(lexeme: string) | Comment(text: string)
    | And | Class | Else | False | Fun | For | If | Nil | Or
    | Print | Return | Super | This | True | Var | While
    | Eof

  /** The sixteen reserved words. */
  predicate IsKeyword(t: Token) {
    t.And? || t.Class? || t.Else? || t.False? || t.Fun? || t.For? || t.If? || t.Nil? ||
    t.Or? || t.Print? || t.Return? || t.Super? || t.This? || t.True? || t.Var? || t.While?
  }

  /** Punctuation and operators: the tokens that carry no payload and are not words. */
  predicate IsSymbol(t: Token) {
    t.LeftParen? || t.RightParen? || t.LeftBrace? || t.RightBrace? || t.Comma? || t.Dot? ||
    t.Minus? || t.Plus? || t.Semicolon? || t.Slash? || t.Star? ||
    t.Bang? || t.BangEqual? || t.Equal? || t.EqualEqual? ||
    t.Greater? || t.GreaterEqual? || t.Less? || t.LessEqual?
  }

  /** The display form of a token (the f64 rendering of a number is not modelled). */
  function Display(t: Token): string
    requires !t.Number?
  {
    match t
    case LeftParen => "("
    case RightParen => ")"
    case LeftBrace => "{"
    case RightBrace => "}"
    case Comma => ","
    case Dot => "."
    case Minus => "-"
    case Plus => "+"
    case Semicolon => ";"
    case Slash => "/"
    case Star => "*"
    case Bang => "!"
    case BangEqual => "!="
    case Equal => "="
    case EqualEqual => "=="
    case Greater => ">"
    case GreaterEqual => ">="
    case Less => "<"
    case LessEqual => "<="
    case Identifier(s) => s
    case String(s) => s
    case Comment(s) => "// " + s
    case And => "and"
    case Class => "class"
    case Else => "else"
    case False => "false"
    case Fun => "fun"
    case For => "for"
    case If => "if"
    case Nil => "nil"
    case Or => "or"
    case Print => "print"
    case Return => "return"
    case Super => "super"
    case This => "this"
    case True => "true"
    case Var => "var"
    case While => "while"
    case Eof => "EOF"
  }

  /** The reserved-word table: an exact, case-sensitive lookup. */
  function MatchKeyword(s: string): (r: Option<Token>)
    ensures r.Some? ==> IsKeyword(r.value)
  {
    match s
    case "and" => Some(And)
    case "class" => Some(Class)
    case "else" => Some(Else)
    case "false" => Some(False)
    case "fun" => Some(Fun)
    case "for" => Some(For)
    case "if" => Some(If)
    case "nil" => Some(Nil)
    case "or" => Some(Or)
    case "print" => Some(Print)
    case "return" => Some(Return)
    case "super" => Some(Super)
    case "this" => Some(This)
    case "true" => Some(True)
    case "var" => Some(Var)
    case "while" => Some(While)
    case _ => None
  }

  /** The table recognises a string exactly when it is the display form of a
      keyword, and then it yields that keyword. */
  lemma MatchKeywordExact(s: string, t: Token)
    ensures MatchKeyword(s) == Some(t) <==> IsKeyword(t) && Display(t) == s
  {
    if MatchKeyword(s) == Some(t) {
      TableSound(s, t);
    }
    if IsKeyword(t) && Display(t) == s {
      KeywordInTable(t);
    }
  }

  /** The table yields only keywords, each for its own display form. */
  lemma TableSound(s: string, t: Token)
    requires MatchKeyword(s) == Some(t)
    ensures IsKeyword(t) && Display(t) == s
  {
    match t
    case And => case Class => case Else => case False =>
    case Fun => case For => case If => case Nil =>
    case Or => case Print => case Return => case Super =>
    case This => case True => case Var => case While =>
  }

  /** The table yields nothing exactly for the strings that are no keyword's
      display form. */
  lemma MatchKeywordNone(s: string)
    ensures MatchKeyword(s) == None <==> forall t | IsKeyword(t) :: Display(t) != s
  {
    if MatchKeyword(s).Some? {
      TableSound(s, MatchKeyword(s).value);
    }
    forall t | IsKeyword(t) && Display(t) == s ensures MatchKeyword(s) == Some(t) {
      KeywordInTable(t);
    }
  }

  /** Every keyword's display form is in the table, mapped to that keyword. */
  lemma KeywordInTable(t: Token)
    requires IsKeyword(t)
    ensures MatchKeyword(Display(t)) == Some(t)
  {
    // Four keywords per helper: one proof over all sixteen table entries
    // is too large for the verifier to check in one go.
    if t.And? || t.Class? || t.Else? || t.False? {
      InTableA(t);
    } else if t.Fun? || t.For? || t.If? || t.Nil? {
      InTableB(t);
    } else if t.Or? || t.Print? || t.Return? || t.Super? {
      InTableC(t);
    } else {
      InTableD(t);
    }
  }

  lemma InTableA(t: Token)
    requires t.And? || t.Class? || t.Else? || t.False?
    ensures MatchKeyword(Display(t)) == Some(t)
  {
    match t
    case And => assert MatchKeyword("and") == Some(And);
    case Class => assert MatchKeyword("class") == Some(Class);
    case Else => assert MatchKeyword("else") == Some(Else);
    case False => assert MatchKeyword("false") == Some(False);
  }

  lemma InTableB(t: Token)
    requires t.Fun? || t.For? || t.If? || t.Nil?
    ensures MatchKeyword(Display(t)) == Some(t)
  {
    match t
    case Fun => assert MatchKeyword("fun") == Some(Fun);
    case For => assert MatchKeyword("for") == Some(For);
    case If => assert MatchKeyword("if") == Some(If);
    case Nil => assert MatchKeyword("nil") == Some(Nil);
  }

  lemma InTableC(t: Token)
    requires t.Or? || t.Print? || t.Return? || t.Super?
    ensures MatchKeyword(Display(t)) == Some(t)
  {
    match t
    case Or => assert MatchKeyword("or") == Some(Or);
    case Print => assert MatchKeyword("print") == Some(Print);
    case Return => assert MatchKeyword("return") == Some(Return);
    case Super => assert MatchKeyword("super") == Some(Super);
  }

  lemma InTableD(t: Token)
    requires t.This? || t.True? || t.Var? || t.While?
    ensures MatchKeyword(Display(t)) == Some(t)
  {
    match t
    case This => assert MatchKeyword("this") == Some(This);
    case True => assert MatchKeyword("true") == Some(True);
    case Var => assert MatchKeyword("var") == Some(Var);
    case While => assert MatchKeyword("while") == Some(While);
  }

  /** Distinct symbols are displayed differently. */
  lemma SymbolDisplayInjective(a: Token, b: Token)
    requires IsSymbol(a) && IsSymbol(b) && Display(a) == Display(b)
    ensures a == b
  {
    match a
    case LeftParen => case RightParen => case LeftBrace => case RightBrace =>
    case Comma => case Dot => case Minus => case Plus => case Semicolon =>
    case Slash => case Star => case Bang => case BangEqual => case Equal =>
    case EqualEqual => case Greater => case GreaterEqual => case Less => case LessEqual =>
  }

  /** The shape of each display form: a symbol is one character or one
      followed by `=`, a keyword a short word, an identifier or string its
      text, a comment its text after `// `, and every payload-free token
      something non-empty. */
  lemma DisplayForms(t: Token)
    requires !t.Number?
    ensures IsSymbol(t) ==> 1 <= |Display(t)| <= 2 && (|Display(t)| == 2 ==> Display(t)[1] == '=')
    ensures IsKeyword(t) ==> 2 <= |Display(t)| <= 6
    ensures t.Identifier? || t.String? ==> Display(t) == t.text
    ensures t.Comment? ==> |Display(t)| >= 3 && Display(t)[..3] == "// " && Display(t)[3..] == t.text
    ensures t.Eof? ==> Display(t) == "EOF"
    ensures !(t.Identifier? || t.String? || t.Comment?) ==> |Display(t)| >= 1
  {
    if IsSymbol(t) {
      SymbolForm(t);
    } else if IsKeyword(t) {
      KeywordForm(t);
    }
  }

  lemma SymbolForm(t: Token)
    requires IsSymbol(t)
    ensures 1 <= |Display(t)| <= 2 && (|Display(t)| == 2 ==> Display(t)[1] == '=')
  {
  }

  lemma KeywordForm(t: Token)
    requires IsKeyword(t)
    ensures 2 <= |Display(t)| <= 6
  {
  }
}
