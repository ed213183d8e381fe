# Lox lexer model

A Dafny model of the lexer of `rusty_lox`, `src/tokenizer.rs`. The lexer turns Lox
source text into a flat sequence of tokens that ends in `Eof`.

The model has seven modules:

- **Tokens** (`tokens.dfy`) holds the token vocabulary and the reserved-word table:
  - `Token` is the token enum;
  - `Display` is the token's `Display` rendering, for every token except `Number`;
  - `MatchKeyword` is `match_keyword`.
- **Scanner** (`scanner.dfy`) is the scanning algorithm written as pure functions of the input text and a position:
  - `RunEnd` finds the end of a maximal run of characters of one kind;
  - `Scan` is one call of `next_token`;
  - `Lex` is `tokenize`.
  - The Rust standard-library facilities the lexer relies on are left uninterpreted. They are the fields of a `Std` value: `char::is_whitespace`, `char::is_numeric`, `char::is_alphanumeric`, and whether `str::parse::<f64>` accepts a string.
  - A rejected number makes the `unwrap` in `next_token` panic. The model represents this as `Outcome.Panicked`.
- **Tokenizer** (`tokenizer.dfy`) is the lexer in the form the source writes it:
  - a `Cursor` class (text plus position) stands in for `Peekable<Chars>`;
  - each `consume_*` helper, `eat_whitespace` and `next_token` is a method on the cursor, and `tokenize` is a method that creates the cursor; the ones whose Rust code loops keep that loop, with invariants;
  - each scanning method is proved to compute what the Scanner functions specify.
- **Properties** (`properties.dfy`) describes each branch of a scanning step, and the whole scan, without reference to how `Scan` is written. Each run of characters is characterised by where it ends, and each branch by the token it yields.
- **Ascii** (`ascii.dfy`) gives concrete scans under one assumption: the classifiers agree with Rust on ASCII characters, and the float parser accepts a digits-and-dots lexeme exactly when it has at most one dot. It covers:
  - example inputs;
  - the keyword round trip, where the display form of a keyword reads back as that keyword;
  - the symbol round trip.
- **SlashBranch** (`slashbranch.dfy`) holds the inverted `/` branch, described under "## Findings".
- **RoundTrip** (`roundtrip.dfy`) scans back a whole sequence of keywords and symbols written out with a space after each.

Points where the code behaves in a way a reader might not expect, which the model follows:

- **`/`:** `//` yields `Slash`, and `/` followed by anything else yields a comment holding the rest of the line (`src/tokenizer.rs:217-226`). See "## Findings".
- **Operators `!`, `=`, `>` and `<`:** each gives its plain token unless `=` follows, and the combined token, consuming the `=`, when one does (`src/tokenizer.rs:228-239`). `Properties.ScanOperator` proves this for all four.
- **Malformed number:** `next_token` calls `unwrap` on the parse result (`src/tokenizer.rs:242`), so a malformed number panics. As a result, the `Err` arm of `tokenize` (`src/tokenizer.rs:273-276`) is never taken.
- **Word start:** a word must start with an alphanumeric character (`src/tokenizer.rs:244`). `_` is not alphanumeric, so it takes the `Eof` fallback (`src/tokenizer.rs:251-253`; `Ascii.ExampleUnderscore`).

## Model

| member | source | states |
|---|---|---|
| Tokens.MatchKeyword | src/tokenizer.rs:104-125 | whatever the table yields is a keyword |
| Tokens.MatchKeywordExact | src/tokenizer.rs:104-125 | the table yields `t` for `s` exactly when `t` is a keyword displayed as `s`; both directions hold |
| Tokens.TableSound | src/tokenizer.rs:104-125 | an entry found in the table is a keyword whose display form is the looked-up string |
| Tokens.KeywordInTable | src/tokenizer.rs:82-125 | every keyword's display form is in the table and maps back to that keyword |
| Tokens.MatchKeywordNone | src/tokenizer.rs:104-125 | the lookup yields `None` exactly for strings that are no keyword's display form |
| Tokens.DisplayForms | src/tokenizer.rs:54-102 | the shape of every display form: a symbol is one character, or one followed by `=`; a keyword is a word of two to six characters; an identifier or string is its text; a comment is `// ` followed by its text; `Eof` is `EOF`; every token without a payload displays as something non-empty |
| Tokens.SymbolDisplayInjective | src/tokenizer.rs:57-76 | two symbols with the same display form are the same symbol |
| Scanner.RunEnd | src/tokenizer.rs:189-197 | the run found is maximal: every character before its end continues the run, and the character at its end (if any) does not |
| Scanner.Scan | src/tokenizer.rs:199-257 | a step never moves the cursor backwards, and every step that yields a token other than `Eof` consumes at least one character |
| Scanner.Dispatch | src/tokenizer.rs:207-255 | the character that selects the branch is always consumed |
| Scanner.Lex | src/tokenizer.rs:259-280 | a scan that does not panic ends with exactly one `Eof`, and `Eof` occurs nowhere else |
| Tokenizer.Cursor.Peek | src/tokenizer.rs:152 | the next character without consuming it: `None` exactly at the end of the input, otherwise the character at the position |
| Tokenizer.Cursor.Next | src/tokenizer.rs:202 | consumes and returns the next character; at the end of the input it returns `None` and the position stays |
| Tokenizer.ConsumeLine | src/tokenizer.rs:127-136 | returns the characters up to the next `\n` and leaves the cursor after that `\n` (or at the end of the input) |
| Tokenizer.ConsumeMatchNext | src/tokenizer.rs:151-160 | the result is true exactly when the next character is `next`, and the cursor advances exactly then |
| Tokenizer.ConsumeMatchOneTwo | src/tokenizer.rs:138-149 | yields `b` and consumes `next` when it follows; otherwise yields `a` and consumes nothing |
| Tokenizer.ConsumeNumber | src/tokenizer.rs:162-173 | the cursor stops at the end of the maximal run of numeric characters and dots; the lexeme is `c` plus that run, `Ok` when it parses and `Err` otherwise |
| Tokenizer.ConsumeIdentifierOrKeyword | src/tokenizer.rs:175-187 | the cursor stops at the end of the maximal run of alphanumeric characters and underscores; the result is always `Ok` of `c` plus that run |
| Tokenizer.EatWhitespace | src/tokenizer.rs:189-197 | the cursor stops at the end of the maximal whitespace run |
| Tokenizer.NextToken | src/tokenizer.rs:199-257 | the token returned and the new cursor position are those `Scanner.Scan` specifies; a panic carries the rejected lexeme |
| Tokenizer.Tokenize | src/tokenizer.rs:259-280 | the loop terminates and yields `Scanner.Lex` of the input, which ends with exactly one `Eof` |
| Properties.RunEndUnique | src/tokenizer.rs:189-197 | any position that ends a maximal run is the one the scan stops at |
| Properties.MatchOneTwoChoice | src/tokenizer.rs:138-160 | the lookahead consumes the next character exactly when it is the expected one, and chooses the second outcome exactly then; otherwise it consumes nothing |
| Properties.LineSplit | src/tokenizer.rs:127-136 | the comment text is the input from the cursor up to, not including, the first `\n`; the cursor ends just after that `\n`, or at the end of the input when there is none |
| Properties.AfterSlashChoice | src/tokenizer.rs:217-226 | as written, the `/` branch yields `Slash` exactly when a second `/` follows, consuming it; otherwise it yields a comment of the rest of the line, as `Properties.LineSplit` describes |
| Properties.ScanOnlyWhitespace | src/tokenizer.rs:199-205 | empty or all-whitespace remaining input yields `Eof` at the end of the input, and the scan from there is `[Eof]` |
| Properties.ScanSingleSymbol | src/tokenizer.rs:207-227 | after whitespace, one of the ten fixed symbol characters ``(){},.-+;*`` yields the symbol displayed as that character and consumes only it |
| Properties.ScanOperator | src/tokenizer.rs:228-239 | `!`, `=`, `>` and `<` yield their two-character token exactly when `=` follows (consuming it), otherwise the one-character token; the token's display form is the text consumed |
| Properties.ScanDoubleSlash | src/tokenizer.rs:217-226 | as written, `//` yields `Slash` and consumes both characters |
| Properties.ScanSlashComment | src/tokenizer.rs:217-226 | as written, `/` not followed by `/` yields a comment of the text up to the next `\n`, which is consumed; with no `\n` the comment takes the rest of the input |
| Properties.ScanNumber | src/tokenizer.rs:240-243 | a numeric start character begins a lexeme that runs to the end of the maximal run of numeric characters and dots; the lexeme yields `Number` when it parses and a panic otherwise |
| Properties.ScanWord | src/tokenizer.rs:244-250 | an alphanumeric (non-numeric) start character begins a maximal run of alphanumeric characters and underscores; the word yields a keyword exactly when the table holds it, displayed as the word, and otherwise an identifier carrying it |
| Properties.WordToken | src/tokenizer.rs:246-250 | a word yields a keyword exactly when the table holds it, and an identifier carrying the word otherwise |
| Properties.ScanUnrecognised | src/tokenizer.rs:251-253 | a start character that no branch recognises is consumed as `Eof`, which ends the whole scan |
| Properties.LexCons | src/tokenizer.rs:264-272 | a step yielding a token other than `Eof` is followed by the rest of the scan from where the step stopped |
| Properties.LexLast | src/tokenizer.rs:264-272 | a non-`Eof` token that reaches the end of the input is followed only by `Eof` |
| Properties.LexSteps | src/tokenizer.rs:259-280 | a completed scan has at most one token per input character, plus the `Eof` |
| Ascii.AsciiWord | src/tokenizer.rs:244-250 | an ASCII word after ASCII blanks yields its keyword or identifier and stops at the word's end |
| Ascii.AsciiNumber | src/tokenizer.rs:240-243 | an ASCII digits-and-dots lexeme yields `[Number(lexeme), Eof]` when it has at most one dot, and a panic otherwise |
| Ascii.ExampleDecimal | src/tokenizer.rs:240-243 | `3.14` yields the number `3.14`, then `Eof` |
| Ascii.ExampleInteger | src/tokenizer.rs:240-243 | `42` yields the number `42`, then `Eof` |
| Ascii.ExampleTwoDots | src/tokenizer.rs:240-243 | `1.2.3` is scanned as one lexeme, which the `unwrap` rejects with a panic |
| Ascii.AsciiWordAlone | src/tokenizer.rs:244-250 | an input that is a single ASCII word yields that word's token, then `Eof` |
| Ascii.ExampleKeyword | src/tokenizer.rs:244-250 | `var` yields `Var`, then `Eof` |
| Ascii.ExampleIdentifier | src/tokenizer.rs:244-250 | `variable` yields `Identifier("variable")`, then `Eof`; a keyword prefix is not a keyword |
| Ascii.ExampleKeywords | src/tokenizer.rs:259-280 | `and or if` yields `And`, `Or`, `If`, `Eof` |
| Ascii.ExampleUnderscore | src/tokenizer.rs:244-253 | `_x` yields only `Eof`: `_` is not alphanumeric, so it is consumed as `Eof` and the scan stops |
| Ascii.ExampleQuote | src/tokenizer.rs:240-253 | a quotation mark is not scanned as a string literal; it ends the scan as `Eof` |
| Ascii.KeywordRoundTrip | src/tokenizer.rs:82-125 | the display form of every keyword reads back as that keyword alone |
| Ascii.SymbolAlone | src/tokenizer.rs:207-239 | a one- or two-character symbol spelling other than `/` scans as the symbol displayed that way, then `Eof` |
| Ascii.SymbolRoundTrip | src/tokenizer.rs:57-76 | the display form of every symbol except `Slash` reads back as that symbol alone |
| Ascii.KeywordSpelling | src/tokenizer.rs:82-97 | every keyword is spelled with ASCII letters |
| Ascii.SymbolSpelling | src/tokenizer.rs:57-76 | every symbol but `Slash` is displayed as one dispatched character, optionally followed by `=` |
| SlashBranch.SlashAsWritten | src/tokenizer.rs:217-226 | as written, `/` reads back as an empty comment, and `// hello` reads as `Slash` followed by `Identifier("hello")` |
| SlashBranch.LoneSlashAsWritten | src/tokenizer.rs:217-226 | as written, the display form of `Slash` scans as `[Comment(""), Eof]` |
| SlashBranch.DoubleSlashAsWritten | src/tokenizer.rs:217-226 | as written, `// hello\n` scans as `[Slash, Identifier("hello"), Eof]` |
| SlashBranch.CommentAsWritten | src/tokenizer.rs:217-226 | as written, no comment's display form reads back as that comment: its `//` scans as `Slash` |
| SlashBranch.IntendedSlash | src/tokenizer.rs:217-226 | corrected: `/` not followed by `/` is `Slash` and consumes nothing more |
| SlashBranch.IntendedComment | src/tokenizer.rs:217-226 | corrected: `//` starts a comment of the text up to the next `\n`, which is consumed |
| SlashBranch.ScanIntended | src/tokenizer.rs:199-257 | the corrected step keeps the bounds of `Scanner.Scan`: it never moves backwards, and it consumes input for every token other than `Eof` |
| SlashBranch.LexIntended | src/tokenizer.rs:259-280 | the corrected scan still ends with exactly one `Eof` |
| SlashBranch.IntendedWithoutSlash | src/tokenizer.rs:217-226 | on input holding no `/`, the correction changes nothing |
| SlashBranch.IntendedSymbolRoundTrip | src/tokenizer.rs:57-76 | corrected: the display form of every symbol, `Slash` included, reads back as that symbol alone |
| SlashBranch.IntendedCommentDisplay | src/tokenizer.rs:80 | with the corrected branch, the display form of a comment without `\n` scans as a comment whose text has a leading space added, so it does not read back either |
| SlashBranch.IntendedCommentExample | src/tokenizer.rs:217-226 | corrected: `// hello\n` scans as `[Comment(" hello"), Eof]` |
| RoundTrip.SpellRoundTrip | src/tokenizer.rs:259-280 | writing out any sequence of keywords and symbols other than `Slash`, each display form followed by a space, and scanning the result yields that sequence followed by `Eof` |
| RoundTrip.SpellAt | src/tokenizer.rs:259-280 | the same from any position where such a spelling fills the rest of the input |
| RoundTrip.LexStep | src/tokenizer.rs:264-272 | a step that yields a token other than `Eof` and stops at a whitespace character is followed by the scan from after that character |
| RoundTrip.BlankStep | src/tokenizer.rs:189-205 | a whitespace character before the next token does not change the scan |
| RoundTrip.ScanSimple | src/tokenizer.rs:199-257 | the display form of a keyword or of a symbol other than `Slash`, followed by a space, is scanned as that token and the step stops at the space |
| RoundTrip.KeywordAt | src/tokenizer.rs:244-250 | a keyword's display form followed by a space is scanned as that keyword |
| RoundTrip.SymbolAt | src/tokenizer.rs:207-239 | a symbol's display form other than `/`, followed by a space, is scanned as that symbol |
| RoundTrip.SingleAt | src/tokenizer.rs:207-227 | the display form of one of the ten fixed symbols ``(){},.-+;*`` is scanned as that symbol, consuming one character |
| RoundTrip.OperatorAt | src/tokenizer.rs:228-239 | an operator's display form followed by a space is scanned as that operator: the plain token because no `=` follows, the combined token when its `=` is part of the spelling |

## Left out

- Reading a file or a prompt line, and printing tokens (`examples/lox.rs`): this is I/O around the lexer, not part of it.
- The `f64` value of a number: a `Number` token carries its lexeme. Float parsing is the uninterpreted `Std.parsesAsFloat`, so a panic is modelled only as "the parser rejected the lexeme".
- `Display` of `Number`, which prints the float: `Tokens.Display` requires a non-number token.
- The Unicode definitions of `is_whitespace`, `is_numeric` and `is_alphanumeric`: they are parameters (`Std`). The concrete examples assume only their ASCII behaviour (`Ascii.ClassifiesAscii`).
- The `Err` branch of `tokenize` and its `eprintln!` (`src/tokenizer.rs:273-276`): `next_token` cannot return `Err`. A bad number panics in `unwrap` first, and `consume_identifer_or_keyword` always returns `Ok`.
- String-literal scanning: the source has a `String` token but no code that produces it. A quotation mark takes the `Eof` fallback (`Ascii.ExampleQuote`).
- The derived `Debug`, `Clone` and `PartialEq` implementations, and the `fmt::Formatter` plumbing: `Display` is modelled as a function to a string.
- `Peekable<Chars>`: modelled as `Tokenizer.Cursor`, a text plus a position. The iterator is owned by one caller, so aliasing does not arise.
- Tokens.MatchKeyword: its own contract only says that results are keywords. The full table semantics, in both directions, are in `Tokens.MatchKeywordExact` and `Tokens.MatchKeywordNone`.
- Scanning back the spelling of a sequence that holds `Slash`, identifiers, strings, numbers or comments: `RoundTrip.SpellRoundTrip` covers keywords and the other symbols. As written, `/` followed by a space starts a comment, so `Slash` does not read back (see "## Findings"). Identifiers and numbers read back only under conditions on their text, and strings do not read back at all. Comments never read back. As written, the leading `//` scans as `Slash` (`SlashBranch.CommentAsWritten`). With the corrected branch, the comment text keeps the space that `Display` puts after `//` (`SlashBranch.IntendedCommentDisplay`).

## Findings

| source | as written | input that shows it | evidently intended | confidence | as-written member | corrected member |
|---|---|---|---|---|---|---|
| src/tokenizer.rs:217-226 | the selector's outcomes are swapped: `true` ("comment") for no second `/`, `false` for a second `/`. So `//` yields `Slash` and `/x` yields a comment | `/` scans as `[Comment(""), Eof]`; `// hello\n` scans as `[Slash, Identifier("hello"), Eof]` | `//` starts a comment of the rest of the line, and a lone `/` is `Slash` | not executed | SlashBranch.SlashAsWritten | SlashBranch.IntendedSymbolRoundTrip |

The main model (`Scanner.Scan`, `Tokenizer.NextToken`) follows the code as written. `SlashBranch.AfterSlashIntended`, `SlashBranch.ScanIntended` and `SlashBranch.LexIntended` are the corrected definitions. The following lemmas are proved about them:

- `SlashBranch.IntendedSlash`;
- `SlashBranch.IntendedComment`;
- `SlashBranch.IntendedSymbolRoundTrip`, under which `Slash` reads back as itself;
- `SlashBranch.IntendedCommentExample`;
- `SlashBranch.IntendedWithoutSlash`, which says the correction changes nothing on input without `/`.
