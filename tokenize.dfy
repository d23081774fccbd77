/**
 * The JSON lexer of src/tokenize.rs: the token and error types, the cursor-driven
 * matcher for the literal `null`, the one-character dispatch `make_token`, and the
 * token loop `tokenize` in a repaired form (the source as written does not compile
 * and would not terminate).
 *
 * The Rust cursor `index: &mut usize` is an in/out parameter here: every method
 * takes the cursor as `index` and returns where it ends up as `next`. The input
 * `chars: &Vec<char>` is only ever read, so it is a `seq<char>`.
 */
module Tokenize {

  /** The lexer's tokens. `Number` is never produced by the lexer. */
  datatype Token =
    | LeftBrace
    | RightBrace
    | LeftBracket
    | RightBracket
    | Comma
    | Colon
    | Null
    | True
    | False
    | Number(number: real)
    | String(text: string)
  {
    /** The six tokens that stand for one structural character each. */
    predicate IsStructural() {
      LeftBrace? || RightBrace? || LeftBracket? || RightBracket? || Comma? || Colon?
    }
  }

  datatype TokenizeError = UnfinishedLiteralValue

  /** Rust's `Result<T, TokenizeError>`. */
  datatype Result<T> = Ok(value: T) | Err(error: TokenizeError)

  /** The literal that `tokenize_null` matches. */
  const NullLiteral: string := "null"

  /* ---------------------------------------------------------------------------
   * Structural characters
   * ------------------------------------------------------------------------- */

  predicate IsStructuralChar(c: char) {
    c == '[' || c == ']' || c == '{' || c == '}' || c == ',' || c == ':'
  }

  /** The characters for which `make_token` has an implemented arm. */
  predicate IsImplemented(c: char) {
    IsStructuralChar(c) || c == 'n'
  }

  /** The token `make_token` yields for a structural character. */
  function StructuralToken(c: char): (t: Token)
    requires IsStructuralChar(c)
    ensures t.IsStructural()
  {
    match c
    case '[' => LeftBracket
    case ']' => RightBracket
    case '{' => LeftBrace
    case '}' => RightBrace
    case ',' => Comma
    case ':' => Colon
  }

  /** The character a structural token stands for: the inverse of StructuralToken. */
  function Symbol(t: Token): (c: char)
    requires t.IsStructural()
    ensures IsStructuralChar(c)
  {
    match t
    case LeftBracket => '['
    case RightBracket => ']'
    case LeftBrace => '{'
    case RightBrace => '}'
    case Comma => ','
    case Colon => ':'
  }

  /** Symbol undoes StructuralToken and StructuralToken undoes Symbol. */
  lemma StructuralRoundTrip(c: char, t: Token)
    ensures IsStructuralChar(c) ==> Symbol(StructuralToken(c)) == c
    ensures t.IsStructural() ==> StructuralToken(Symbol(t)) == t
  {
  }

  /** The table of make_token's structural arms, one character at a time. */
  lemma StructuralTable()
    ensures StructuralToken('[') == LeftBracket
    ensures StructuralToken(']') == RightBracket
    ensures StructuralToken('{') == LeftBrace
    ensures StructuralToken('}') == RightBrace
    ensures StructuralToken(',') == Comma
    ensures StructuralToken(':') == Colon
  {
  }

  /* ---------------------------------------------------------------------------
   * Matching a literal at a cursor
   * ------------------------------------------------------------------------- */

  /**
   * How many leading characters of `lit` the input matches from position `i`,
   * stopping at the first mismatch or at the end of the input.
   */
  function MatchLength(chars: seq<char>, i: nat, lit: string): (m: nat)
    requires i <= |chars|
    ensures m <= |lit| && i + m <= |chars|
    ensures chars[i..i + m] == lit[..m]
    ensures m < |lit| ==> i + m == |chars| || chars[i + m] != lit[m]
    decreases |lit|
  {
    if lit == [] || i == |chars| || chars[i] != lit[0] then 0
    else
      var m := MatchLength(chars, i + 1, lit[1..]);
      assert chars[i..i + 1 + m] == [chars[i]] + chars[i + 1..i + 1 + m];
      assert lit[..1 + m] == [lit[0]] + lit[1..][..m];
      1 + m
  }

  /**
   * The matched length is determined by where the first mismatch (or the end of
   * the input) occurs: any `k` with a matching prefix that then stops is it.
   */
  lemma MatchLengthIs(chars: seq<char>, i: nat, lit: string, k: nat)
    requires i + k <= |chars| && k <= |lit|
    requires chars[i..i + k] == lit[..k]
    requires k == |lit| || i + k == |chars| || chars[i + k] != lit[k]
    ensures MatchLength(chars, i, lit) == k
  {
  }

  /** A matching prefix of length `k` means at least `k` characters are matched. */
  lemma MatchLengthAtLeast(chars: seq<char>, i: nat, lit: string, k: nat)
    requires i + k <= |chars| && k <= |lit|
    requires chars[i..i + k] == lit[..k]
    ensures k <= MatchLength(chars, i, lit)
  {
  }

  /** The whole literal is matched exactly when it sits in the input at `i`. */
  lemma FullMatch(chars: seq<char>, i: nat, lit: string)
    requires i <= |chars|
    ensures MatchLength(chars, i, lit) == |lit| <==> i + |lit| <= |chars| && chars[i..i + |lit|] == lit
  {
    if i + |lit| <= |chars| && chars[i..i + |lit|] == lit {
      MatchLengthIs(chars, i, lit, |lit|);
    }
  }

  /** The at most `n` characters of `s` from position `i` on. */
  function Window(s: seq<char>, i: nat, n: nat): (w: seq<char>)
    requires i <= |s|
    ensures |w| <= n && (|w| < n ==> i + |w| == |s|)
  {
    if i + n <= |s| then s[i..i + n] else s[i..]
  }

  /**
   * The matched length depends only on the input window `i .. i + |lit| - 1`,
   * cut short by the end of the input: inputs that agree there match alike.
   */
  lemma {:induction false} MatchLengthLocal(a: seq<char>, b: seq<char>, i: nat, lit: string)
    requires i <= |a| && i <= |b|
    requires Window(a, i, |lit|) == Window(b, i, |lit|)
    ensures MatchLength(a, i, lit) == MatchLength(b, i, lit)
    decreases |lit|
  {
    if lit != [] {
      var w := Window(a, i, |lit|);
      if i < |a| {
        assert a[i] == w[0] == b[i];
        assert Window(a, i + 1, |lit| - 1) == w[1..] == Window(b, i + 1, |lit| - 1);
        MatchLengthLocal(a, b, i + 1, lit[1..]);
      }
    }
  }

  /* ---------------------------------------------------------------------------
   * tokenize_null
   * ------------------------------------------------------------------------- */

  /**
   * The positions `tokenize_null` reads are all in bounds: either `null` is
   * matched in full, or the first mismatch is at a position inside the input.
   * When this fails the Rust code panics on the unchecked `chars[*index]`.
   */
  predicate NullReadsInBounds(chars: seq<char>, index: nat) {
    index <= |chars| &&
    var m := MatchLength(chars, index, NullLiteral);
    m == |NullLiteral| || index + m < |chars|
  }

  /** The outcome of `tokenize_null`: its result and the final cursor. */
  function ScanNull(chars: seq<char>, index: nat): (Result<Token>, nat)
    requires index <= |chars|
  {
    var m := MatchLength(chars, index, NullLiteral);
    (if m == |NullLiteral| then Ok(Null) else Err(UnfinishedLiteralValue), index + m)
  }

  /** Having four characters left is enough for `tokenize_null` never to read past the end. */
  lemma FourLeftSuffices(chars: seq<char>, index: nat)
    requires index + |NullLiteral| <= |chars|
    ensures NullReadsInBounds(chars, index)
  {
  }

  /**
   * `tokenize_null` reads past the end (the Rust code panics) exactly when the
   * rest of the input is a proper prefix of `null`, the empty rest included.
   */
  lemma NullPanicsExactly(chars: seq<char>, index: nat)
    requires index <= |chars|
    ensures !NullReadsInBounds(chars, index) <==>
              |chars| - index < |NullLiteral| && chars[index..] == NullLiteral[..|chars| - index]
  {
    var rest := |chars| - index;
    if rest < |NullLiteral| && chars[index..] == NullLiteral[..rest] {
      assert chars[index..index + rest] == chars[index..];
      MatchLengthIs(chars, index, NullLiteral, rest);
    }
  }

  /**
   * `tokenize_null` succeeds exactly when `null` is at the cursor, and then the
   * cursor has moved past it.
   */
  lemma ScanNullOk(chars: seq<char>, index: nat)
    requires index <= |chars|
    ensures ScanNull(chars, index).0 == Ok(Null) <==>
              index + 4 <= |chars| && chars[index..index + 4] == NullLiteral
    ensures ScanNull(chars, index).0 == Ok(Null) ==> ScanNull(chars, index).1 == index + 4
  {
    FullMatch(chars, index, NullLiteral);
  }

  /**
   * On the first mismatch at offset `k`, `tokenize_null` fails with
   * UnfinishedLiteralValue and has moved the cursor by exactly `k`.
   */
  lemma ScanNullMismatch(chars: seq<char>, index: nat, k: nat)
    requires k < |NullLiteral| && index + k < |chars|
    requires chars[index..index + k] == NullLiteral[..k]
    requires chars[index + k] != NullLiteral[k]
    ensures ScanNull(chars, index) == (Err(UnfinishedLiteralValue), index + k)
  {
    MatchLengthIs(chars, index, NullLiteral, k);
  }

  /**
   * `tokenize_null` yields only `Null` or `UnfinishedLiteralValue`, and moves
   * the cursor forward by at most the literal's length.
   */
  lemma ScanNullShape(chars: seq<char>, index: nat)
    requires index <= |chars|
    ensures var (r, next) := ScanNull(chars, index);
            (r == Ok(Null) || r == Err(UnfinishedLiteralValue)) &&
            index <= next <= index + |NullLiteral| && next <= |chars|
  {
  }

  /** `tokenize_null` reads nothing outside `chars[index .. index + 3]`. */
  lemma ScanNullLocal(a: seq<char>, b: seq<char>, index: nat)
    requires index <= |a| && index <= |b|
    requires Window(a, index, |NullLiteral|) == Window(b, index, |NullLiteral|)
    ensures ScanNull(a, index) == ScanNull(b, index)
  {
    MatchLengthLocal(a, b, index, NullLiteral);
  }

  /**
   * Match `null` character by character, advancing the cursor on each match,
   * as written: every read is unchecked, so the caller must rule out running
   * off the end of the input.
   */
  method TokenizeNull(chars: seq<char>, index: nat) returns (r: Result<Token>, next: nat)
    requires NullReadsInBounds(chars, index)
    ensures (r, next) == ScanNull(chars, index)
    ensures r.Ok? <==> next == index + |NullLiteral|
  {
    next := index;
    for k := 0 to |NullLiteral|
      invariant next == index + k <= |chars|
      invariant chars[index..next] == NullLiteral[..k]
    {
      MatchLengthAtLeast(chars, index, NullLiteral, k);
      if NullLiteral[k] != chars[next] {
        MatchLengthIs(chars, index, NullLiteral, k);
        return Err(UnfinishedLiteralValue), next;
      }
      assert chars[index..next + 1] == chars[index..next] + [chars[next]];
      assert NullLiteral[..k + 1] == NullLiteral[..k] + [NullLiteral[k]];
      next := next + 1;
    }
    MatchLengthIs(chars, index, NullLiteral, |NullLiteral|);
    r := Ok(Null);
  }

  /**
   * The input `nul` ends inside the literal: `tokenize_null` as written reads
   * past its end, although UnfinishedLiteralValue names exactly this case.
   */
  lemma TruncatedNullReadsPastEnd()
    ensures !NullReadsInBounds("nul", 0)
    ensures ScanNull("nul", 0) == (Err(UnfinishedLiteralValue), 3)
  {
    NullPanicsExactly("nul", 0);
  }

  /**
   * `tokenize_null` with the end of the input treated as a mismatch: the same
   * outcome wherever the unchecked version is defined, and UnfinishedLiteralValue
   * with the cursor at the end where that one would read past it.
   */
  method TokenizeNullChecked(chars: seq<char>, index: nat) returns (r: Result<Token>, next: nat)
    requires index <= |chars|
    ensures (r, next) == ScanNull(chars, index)
    ensures r == Ok(Null) <==> index + |NullLiteral| <= |chars| && chars[index..index + |NullLiteral|] == NullLiteral
    ensures r.Err? ==> r.error == UnfinishedLiteralValue && next < index + |NullLiteral|
  {
    next := index;
    for k := 0 to |NullLiteral|
      invariant next == index + k <= |chars|
      invariant chars[index..next] == NullLiteral[..k]
    {
      if next == |chars| || NullLiteral[k] != chars[next] {
        MatchLengthIs(chars, index, NullLiteral, k);
        FullMatch(chars, index, NullLiteral);
        return Err(UnfinishedLiteralValue), next;
      }
      assert chars[index..next + 1] == chars[index..next] + [chars[next]];
      assert NullLiteral[..k + 1] == NullLiteral[..k] + [NullLiteral[k]];
      next := next + 1;
    }
    MatchLengthIs(chars, index, NullLiteral, |NullLiteral|);
    r := Ok(Null);
  }

  /* ---------------------------------------------------------------------------
   * make_token
   * ------------------------------------------------------------------------- */

  /**
   * Make one token from the character under the cursor. Structural characters
   * leave the cursor where it is; `n` hands over to `tokenize_null` (in its
   * checked form, so that input ending inside `null` is an error rather than an
   * out-of-bounds read), whose error is passed through unchanged.
   */
  method MakeToken(chars: seq<char>, index: nat) returns (r: Result<Token>, next: nat)
    requires index < |chars| && IsImplemented(chars[index])
    ensures IsStructuralChar(chars[index]) ==> r == Ok(StructuralToken(chars[index])) && next == index
    ensures chars[index] == 'n' ==> (r, next) == ScanNull(chars, index)
  {
    var ch := chars[index];
    var token;
    match ch {
      case '[' => token := LeftBracket;
      case ']' => token := RightBracket;
      case '{' => token := LeftBrace;
      case '}' => token := RightBrace;
      case ',' => token := Comma;
      case ':' => token := Colon;
      case 'n' =>
        var res;
        res, next := TokenizeNullChecked(chars, index);
        match res {
          case Ok(t) => token := t;
          case Err(err) => return Err(err), next;
        }
        return Ok(token), next;
    }
    next := index;
    r := Ok(token);
  }

  /* ---------------------------------------------------------------------------
   * tokenize (repaired)
   * ------------------------------------------------------------------------- */

  predicate AllStructural(s: string) {
    forall i :: 0 <= i < |s| ==> IsStructuralChar(s[i])
  }

  /** The tokens of an all-structural input: one per character, in input order. */
  function Lex(s: string): seq<Token>
    requires AllStructural(s)
  {
    if s == [] then [] else [StructuralToken(s[0])] + Lex(s[1..])
  }

  /** The characters a sequence of structural tokens stands for: the inverse of Lex. */
  function Render(ts: seq<Token>): string
    requires forall i :: 0 <= i < |ts| ==> ts[i].IsStructural()
  {
    if ts == [] then [] else [Symbol(ts[0])] + Render(ts[1..])
  }

  /** Lex yields exactly one token per character, the one make_token gives it. */
  lemma {:induction false} LexPointwise(s: string)
    requires AllStructural(s)
    ensures |Lex(s)| == |s|
    ensures forall i :: 0 <= i < |s| ==> Lex(s)[i] == StructuralToken(s[i])
  {
    if s != [] {
      LexPointwise(s[1..]);
      assert forall i :: 1 <= i < |s| ==> s[1..][i - 1] == s[i];
    }
  }

  /** Lexing a concatenation concatenates the token sequences: tokens come in input order. */
  lemma {:induction false} LexAppend(a: string, b: string)
    requires AllStructural(a) && AllStructural(b)
    ensures AllStructural(a + b)
    ensures Lex(a + b) == Lex(a) + Lex(b)
  {
    if a == [] {
      assert a + b == b;
    } else {
      assert (a + b)[1..] == a[1..] + b;
      LexAppend(a[1..], b);
    }
  }

  /** Rendering the tokens of a structural input gives the input back. */
  lemma {:induction false} RenderLex(s: string)
    requires AllStructural(s)
    ensures forall i :: 0 <= i < |Lex(s)| ==> Lex(s)[i].IsStructural()
    ensures Render(Lex(s)) == s
  {
    LexPointwise(s);
    if s != [] {
      RenderLex(s[1..]);
      StructuralRoundTrip(s[0], LeftBrace);
    }
  }

  /** Lexing the rendering of structural tokens gives the tokens back. */
  lemma {:induction false} LexRender(ts: seq<Token>)
    requires forall i :: 0 <= i < |ts| ==> ts[i].IsStructural()
    ensures AllStructural(Render(ts)) && Lex(Render(ts)) == ts
  {
    if ts != [] {
      LexRender(ts[1..]);
      StructuralRoundTrip(',', ts[0]);
    }
  }

  /** The unit test `just_comma`: the input "," gives exactly [Comma]. */
  lemma JustComma()
    ensures Lex(",") == [Comma]
  {
  }

  /**
   * The token loop, repaired: the Rust body calls `make_token` with the wrong
   * arguments and never advances `index`. Here each step calls MakeToken at the
   * cursor, pushes its token and moves the cursor one character on; the input is
   * restricted to structural characters, the only ones for which one step per
   * character is the evident intent.
   */
  method Tokenize(input: string) returns (tokens: seq<Token>)
    requires AllStructural(input)
    ensures |tokens| == |input|
    ensures forall i :: 0 <= i < |input| ==> tokens[i] == StructuralToken(input[i])
    ensures tokens == Lex(input)
  {
    var chars := input;
    var index := 0;
    tokens := [];
    while index < |chars|
      invariant index <= |chars|
      invariant tokens == Lex(chars[..index])
    {
      var r, next := MakeToken(chars, index);
      LexAppend(chars[..index], [chars[index]]);
      assert chars[..index + 1] == chars[..index] + [chars[index]];
      tokens := tokens + [r.value];
      index := next + 1;
    }
    assert chars[..index] == input;
    LexPointwise(input);
  }
}
