# JSON lexer model

A Dafny model of the lexer in `src/tokenize.rs` of a small Rust JSON parser
(`tokenize.dfy`, module `Tokenize`). The lexer turns the characters of a JSON text into
tokens. It does so with a cursor `index: &mut usize` that moves over an immutable
`chars: &Vec<char>`. The code consists of:

- the `Token` and `TokenizeError` enums (`datatype Token`, `datatype TokenizeError`,
  and `Result<T>` for Rust's `Result<T, TokenizeError>`);
- `tokenize_null`. It matches the literal `null` one character at a time from the cursor,
  advances the cursor on each match and fails with `UnfinishedLiteralValue` at the first
  mismatch;
- `make_token`. It dispatches on the character under the cursor: six structural
  characters give a token without moving the cursor, and `n` goes to `tokenize_null`;
- `tokenize`. This is the loop that collects the tokens.

The cursor is an in/out parameter. Each method takes `index` and returns the final
cursor as `next`. What a call computes is given by specification functions:

- `MatchLength` is the length of the longest prefix of a literal found at the cursor;
- `ScanNull` is the result and final cursor of `tokenize_null`;
- `Lex` is the token sequence of an input made only of structural characters.

Lemmas then prove the lexer's properties from these functions.

Repairs and choices, where the code is incomplete:

- `tokenize` (src/tokenize.rs:21-31) does not compile as written. It calls `make_token`
  with one argument where the function takes two and returns a `Result`, and its loop
  never advances `index`. The only evidence of its intended behaviour is the unit test
  `just_comma`. `Tokenize` is therefore a **repair**: it calls `MakeToken` at the cursor,
  pushes the token and steps the cursor by one. Its input is limited to structural
  characters, the only ones for which one step per character is clearly the intent.
- The `'t'`, `'f'` and default arms of `make_token` are `todo!()`. `MakeToken` excludes
  them with a precondition (`IsImplemented`).
- `tokenize_null` reads `chars[*index]` without a bounds check. `TokenizeNull` models it
  as written. It requires exactly the no-out-of-bounds condition `NullReadsInBounds`,
  which is weaker than "four characters remain" (`FourLeftSuffices`).
  `TokenizeNullChecked` is the corrected form (see Findings), and `MakeToken` uses it.

## Model

| member | source | states |
|---|---|---|
| Tokenize.StructuralToken | src/tokenize.rs:47-52 | the token for a structural character is one of the six structural tokens |
| Tokenize.StructuralTable | src/tokenize.rs:47-52 | `[`, `]`, `{`, `}`, `,`, `:` give LeftBracket, RightBracket, LeftBrace, RightBrace, Comma, Colon |
| Tokenize.StructuralRoundTrip | src/tokenize.rs:46-52 | the structural arms are a bijection between the six characters and the six tokens, so different characters give different tokens |
| Tokenize.MatchLength | src/tokenize.rs:34-39 | the cursor stops after the longest matched prefix of the literal: that prefix is in the input, and the next position is a mismatch or the end of the input |
| Tokenize.MatchLengthIs | src/tokenize.rs:34-38 | the first mismatch (or the end of the input) at offset k makes the matched length exactly k |
| Tokenize.MatchLengthAtLeast | src/tokenize.rs:34-39 | a prefix of length k already matched means the matcher gets at least k characters in |
| Tokenize.FullMatch | src/tokenize.rs:34-40 | the whole literal is matched if and only if it appears in the input at the cursor |
| Tokenize.MatchLengthLocal | src/tokenize.rs:35 | matching reads only the window of the literal's length at the cursor: inputs that agree there give the same matched length |
| Tokenize.FourLeftSuffices | src/tokenize.rs:35 | with four characters left, `tokenize_null` never reads past the end of the input |
| Tokenize.NullPanicsExactly | src/tokenize.rs:35 | `tokenize_null` reads past the end (and the Rust code panics) if and only if the rest of the input is a proper prefix of `null` |
| Tokenize.ScanNullOk | src/tokenize.rs:33-40 | `tokenize_null` returns `Ok(Null)` if and only if `chars[index..index+4]` is `null`, and then the cursor has advanced by exactly 4 |
| Tokenize.ScanNullMismatch | src/tokenize.rs:34-38 | on the first mismatch at offset k < 4 the result is `Err(UnfinishedLiteralValue)` and the cursor has advanced by exactly k |
| Tokenize.ScanNullShape | src/tokenize.rs:33-41 | the only outcomes are `Ok(Null)` and `Err(UnfinishedLiteralValue)`, and the cursor moves forward by at most 4 |
| Tokenize.ScanNullLocal | src/tokenize.rs:34-35 | the outcome depends only on `chars[index .. index+3]` |
| Tokenize.TokenizeNull | src/tokenize.rs:33-41 | as written: for every input it does not run off, the loop's result and cursor are those of `ScanNull`, and it succeeds exactly when the cursor moved 4 |
| Tokenize.TruncatedNullReadsPastEnd | src/tokenize.rs:35 | on input `nul` the unchecked matcher reads past the end, while the intended outcome is `Err(UnfinishedLiteralValue)` with the cursor at 3 |
| Tokenize.TokenizeNullChecked | src/tokenize.rs:33-41 | corrected matcher for every cursor inside the input: the `ScanNull` outcome, `Ok(Null)` exactly when `null` is at the cursor, and otherwise `UnfinishedLiteralValue` before 4 characters are consumed |
| Tokenize.MakeToken | src/tokenize.rs:43-63 | a structural character gives its token and leaves the cursor unchanged; on `n` the result and the cursor are exactly those of the checked `tokenize_null` (`ScanNull`, end of input counting as a mismatch), its error propagated unchanged |
| Tokenize.LexPointwise | src/tokenize.rs:25-30 | one token per input character, and token i is the one `make_token` gives character i |
| Tokenize.LexAppend | src/tokenize.rs:25-30 | lexing `a + b` gives the tokens of `a` followed by those of `b`, so tokens are appended in input order |
| Tokenize.RenderLex | src/tokenize.rs:21-31 | the tokens of a structural input determine the input: writing each token's character back gives the input |
| Tokenize.LexRender | src/tokenize.rs:21-31 | every sequence of structural tokens is what lexing some input gives, namely its rendering |
| Tokenize.JustComma | src/tokenize.rs:69-77 | the unit test `just_comma`: the input `,` gives exactly `[Comma]` |
| Tokenize.Tokenize | src/tokenize.rs:21-31 | repaired loop: one token per character, token i is the one for character i, equal to `Lex(input)` |

## Findings

| source | as written | input that shows it | evidently intended | confidence | as-written member | corrected member |
|---|---|---|---|---|---|---|
| src/tokenize.rs:35 | `chars[*index]` is read without a bounds check, so the lexer panics when the input ends inside `null` | `nul` at index 0 (also `n`, `nu`, and `n` as the last character) | input ending inside the literal is an `UnfinishedLiteralValue` error, which the error's name describes | high (not executed) | Tokenize.TruncatedNullReadsPastEnd | Tokenize.TokenizeNullChecked |

## Left out

- The `'t'` and `'f'` arms and the default arm of `make_token` (src/tokenize.rs:57-60) are `todo!()` and panic. `MakeToken` excludes them by precondition.
- MakeToken: where `make_token` panics because the input ends inside `null` (src/tokenize.rs:35, reached from line 53), `MakeToken` instead returns `UnfinishedLiteralValue` with the cursor at the end of the input, because it calls the corrected `TokenizeNullChecked`.
- `Token::Number(f64)` is never produced. Its payload is a `real`, and floating point is not modelled.
- `Token::String`, `Token::True` and `Token::False` are constructors only: no code produces them.
- Tokenize: repaired, as described above. It accepts only structural characters, because the source's loop is unfinished and gives no intended stepping rule for `null` or other tokens.
- The `usize` cursor is a `nat`. It never exceeds the input length, so overflow cannot arise.
- The `Value` enum in src/lib.rs is data that no code builds or consumes. The parser, string-escape decoding and number parsing do not exist in the source and are not modelled.
- `Debug` and `PartialEq` derives are not modelled; Dafny's datatype equality plays the part of `PartialEq`.
