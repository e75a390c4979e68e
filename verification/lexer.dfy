/** The tokenizer of src/lexer.c.

    The C lexer walks a NUL-terminated buffer with a cursor.  Here the buffer
    is `text` followed by one implicit NUL byte, the cursor is an index
    `pos <= |text|`, and a call of `lexer_next_token` is the pure function
    `NextToken(text, pos)` returning the token and the new cursor. */
module Lexer {
  import opened Base

  /** TokenType of src/lexer.h. */
  datatype TokenKind =
    | NULL | TRUE | FALSE | NUMBER | STRING
    | LBRACE | RBRACE | LBRACKET | RBRACKET | COLON | COMMA
    | EOF

  /** A token is a kind and a span of the buffer; a NULL start is `None`. */
  datatype Token = Token(kind: TokenKind, start: Option<nat>, length: nat)

  /** The token every call starts from and the one it returns when it finds
      nothing: kind EOF, NULL start, length 0. */
  const EndToken := Token(EOF, None, 0)

  /** The byte at index `i` of the buffer `text` + NUL. */
  function Peek(text: string, i: nat): (c: char)
    requires i <= |text|
  {
    if i < |text| then text[i] else '\0'
  }

  predicate IsSpace(c: char) {
    c == ' ' || c == '\n' || c == '\t' || c == '\r'
  }

  predicate IsDigit(c: char) {
    '0' <= c <= '9'
  }

  /** The bytes a number token may continue with. */
  predicate IsNumberChar(c: char) {
    IsDigit(c) || c == '.' || c == 'e' || c == 'E' || c == '+' || c == '-'
  }

  predicate IsStructural(c: char) {
    c == '{' || c == '}' || c == '[' || c == ']' || c == ':' || c == ','
  }

  function StructuralKind(c: char): (k: TokenKind)
    requires IsStructural(c)
  {
    match c
    case '{' => LBRACE
    case '}' => RBRACE
    case '[' => LBRACKET
    case ']' => RBRACKET
    case ':' => COLON
    case ',' => COMMA
  }

  /** Text that a string token can span: no closing quote and no NUL. */
  predicate QuoteFree(s: string) {
    forall i :: 0 <= i < |s| ==> s[i] != '"' && s[i] != '\0'
  }

  /** Text a number token can span: a leading digit or minus sign followed by
      any run of number bytes. */
  predicate NumberText(s: string) {
    && |s| >= 1
    && (IsDigit(s[0]) || s[0] == '-')
    && forall i :: 0 <= i < |s| ==> IsNumberChar(s[i])
  }

  /** `strncmp(&text[p], word, |word|) == 0` for a word without NUL bytes. */
  predicate StartsWith(text: string, p: nat, word: string) {
    p + |word| <= |text| && text[p..p + |word|] == word
  }

  /** The cursor after the leading blanks have been skipped. */
  function SkipWhitespace(text: string, pos: nat): (p: nat)
    requires pos <= |text|
    ensures pos <= p <= |text|
    ensures !IsSpace(Peek(text, p))
    decreases |text| - pos
  {
    if pos < |text| && IsSpace(text[pos]) then SkipWhitespace(text, pos + 1) else pos
  }

  /** Only blanks are skipped. */
  lemma {:induction false} SkippedAreBlank(text: string, pos: nat)
    requires pos <= |text|
    ensures forall k :: pos <= k < SkipWhitespace(text, pos) ==> IsSpace(text[k])
    decreases |text| - pos
  {
    if pos < |text| && IsSpace(text[pos]) {
      SkippedAreBlank(text, pos + 1);
    }
  }

  /** The first index from `pos` on that holds a quote or the NUL. */
  function ScanString(text: string, pos: nat): (e: nat)
    requires pos <= |text|
    ensures pos <= e <= |text|
    ensures Peek(text, e) == '"' || Peek(text, e) == '\0'
    decreases |text| - pos
  {
    if pos < |text| && text[pos] != '"' && text[pos] != '\0' then ScanString(text, pos + 1) else pos
  }

  /** The string scan passes neither a quote nor a NUL. */
  lemma {:induction false} ScannedQuoteFree(text: string, pos: nat)
    requires pos <= |text|
    ensures forall k :: pos <= k < ScanString(text, pos) ==> text[k] != '"' && text[k] != '\0'
    decreases |text| - pos
  {
    if pos < |text| && text[pos] != '"' && text[pos] != '\0' {
      ScannedQuoteFree(text, pos + 1);
    }
  }

  /** The end of the maximal run of number bytes starting at `pos`. */
  function ScanNumber(text: string, pos: nat): (e: nat)
    requires pos <= |text|
    ensures pos <= e <= |text|
    ensures !IsNumberChar(Peek(text, e))
    decreases |text| - pos
  {
    if pos < |text| && IsNumberChar(text[pos]) then ScanNumber(text, pos + 1) else pos
  }

  /** The number scan passes only number bytes. */
  lemma {:induction false} ScannedNumberChars(text: string, pos: nat)
    requires pos <= |text|
    ensures forall k :: pos <= k < ScanNumber(text, pos) ==> IsNumberChar(text[k])
    decreases |text| - pos
  {
    if pos < |text| && IsNumberChar(text[pos]) {
      ScannedNumberChars(text, pos + 1);
    }
  }

  /** The string case: `p` holds the opening quote. */
  function LexString(text: string, p: nat): (r: (Token, nat))
    requires p < |text| && text[p] == '"'
    ensures p < r.1 <= |text|
    ensures r.0.kind == STRING || r.0 == EndToken
    ensures r.0.kind == STRING ==>
              && r.0.start == Some(p + 1)
              && r.1 == p + 2 + r.0.length
              && text[r.1 - 1] == '"'
    ensures r.0.kind != STRING ==> Peek(text, r.1) == '\0'
  {
    var e := ScanString(text, p + 1);
    if Peek(text, e) == '"' then
      (Token(STRING, Some(p + 1), e - (p + 1)), e + 1)
    else
      (EndToken, e)
  }

  /** The number case: `p` holds a digit or a minus sign. */
  function LexNumber(text: string, p: nat): (r: (Token, nat))
    requires p < |text| && (IsDigit(text[p]) || text[p] == '-')
    ensures r.0.kind == NUMBER
    ensures r.0.start == Some(p)
    ensures p < r.1 == p + r.0.length <= |text|
    ensures !IsNumberChar(Peek(text, r.1))
  {
    var e := ScanNumber(text, p);
    (Token(NUMBER, Some(p), e - p), e)
  }

  /** The bytes a token spans (`strndup(token.start, token.length)`). */
  function Lexeme(text: string, t: Token): (s: string)
    requires t.start.Some? ==> t.start.value + t.length <= |text|
  {
    match t.start
    case None => ""
    case Some(s) => text[s..s + t.length]
  }

  /** One call of `lexer_next_token`: the token found at or after `pos`, and
      the cursor after it.  What it finds for each class of byte is stated
      by the lemmas below. */
  function NextToken(text: string, pos: nat): (r: (Token, nat))
    requires pos <= |text|
    // the cursor stays inside the buffer
    ensures pos <= r.1 <= |text|
    // only the EOF kind comes with a NULL start, and then with length 0
    ensures r.0.kind == EOF <==> r.0.start.None?
    ensures r.0.kind == EOF ==> r.0 == EndToken
    ensures r.0.start.Some? ==> pos <= r.0.start.value && r.0.start.value + r.0.length <= r.1
    // every token but EOF moves the cursor forward
    ensures r.0.kind != EOF ==> pos < r.1
    // so does every call that does not stop on the NUL
    ensures Peek(text, SkipWhitespace(text, pos)) != '\0' ==> SkipWhitespace(text, pos) < r.1
  {
    var p := SkipWhitespace(text, pos);
    var c := Peek(text, p);
    if c == '\0' then
      (EndToken, p)
    else if IsStructural(c) then
      (Token(StructuralKind(c), Some(p), 1), p + 1)
    else if c == '"' then
      LexString(text, p)
    else if IsDigit(c) || c == '-' then
      LexNumber(text, p)
    else
      LexWord(text, p)
  }

  /** The remaining cases: the literal words, matched as prefixes, or a
      byte that starts no token, which is skipped. */
  function LexWord(text: string, p: nat): (r: (Token, nat))
    requires p < |text| && text[p] != '\0'
    ensures p < r.1 <= |text|
    ensures r.0.kind == NULL || r.0.kind == TRUE || r.0.kind == FALSE || r.0 == EndToken
    ensures r.0.kind != EOF ==> r.0.start == Some(p) && r.1 == p + r.0.length
    ensures r.0.kind == EOF ==> r.1 == p + 1
  {
    if StartsWith(text, p, "null") then
      (Token(NULL, Some(p), 4), p + 4)
    else if StartsWith(text, p, "true") then
      (Token(TRUE, Some(p), 4), p + 4)
    else if StartsWith(text, p, "false") then
      (Token(FALSE, Some(p), 5), p + 5)
    else
      (EndToken, p + 1)
  }

  /** A prefix match fixes the bytes one by one; a literal word holds no
      NUL, so neither do the bytes it matched. */
  lemma StartsWithBytes(text: string, p: nat, word: string)
    requires StartsWith(text, p, word)
    requires word == "null" || word == "true" || word == "false"
    ensures text[p] == word[0]
    ensures forall k :: p <= k < p + |word| ==> text[k] != '\0'
  {
    assert text[p..p + |word|][0] == text[p];
    forall k | p <= k < p + |word| ensures text[k] != '\0' {
      assert text[p..p + |word|][k - p] == text[k];
    }
  }

  /** A call never moves the cursor over a NUL byte. */
  lemma NeverPassesNul(text: string, pos: nat)
    requires pos <= |text|
    ensures forall k :: pos <= k < NextToken(text, pos).1 ==> text[k] != '\0'
  {
    var p := SkipWhitespace(text, pos);
    SkippedAreBlank(text, pos);
    var c := Peek(text, p);
    if c == '"' {
      ScannedQuoteFree(text, p + 1);
    } else if IsDigit(c) || c == '-' {
      ScannedNumberChars(text, p);
    } else if c != '\0' && !IsStructural(c) {
      if StartsWith(text, p, "null") {
        StartsWithBytes(text, p, "null");
      } else if StartsWith(text, p, "true") {
        StartsWithBytes(text, p, "true");
      } else if StartsWith(text, p, "false") {
        StartsWithBytes(text, p, "false");
      }
    }
  }

  /** The span of a string token holds no quote and no NUL; the span of a
      number token is a number lexeme. */
  lemma TokenTexts(text: string, pos: nat)
    requires pos <= |text|
    ensures NextToken(text, pos).0.kind == STRING ==> QuoteFree(Lexeme(text, NextToken(text, pos).0))
    ensures NextToken(text, pos).0.kind == NUMBER ==> NumberText(Lexeme(text, NextToken(text, pos).0))
  {
    var c := Peek(text, SkipWhitespace(text, pos));
    if c == '"' {
      StringTokenText(text, pos);
    } else if IsDigit(c) || c == '-' {
      NumberTokenText(text, pos);
    }
  }

  /** The string case of `TokenTexts`. */
  lemma StringTokenText(text: string, pos: nat)
    requires pos <= |text| && Peek(text, SkipWhitespace(text, pos)) == '"'
    ensures NextToken(text, pos).0.kind == STRING ==> QuoteFree(Lexeme(text, NextToken(text, pos).0))
  {
    var p := SkipWhitespace(text, pos);
    var (t, q) := LexString(text, p);
    assert NextToken(text, pos) == (t, q);
    ScannedQuoteFree(text, p + 1);
    if t.kind == STRING {
      assert Lexeme(text, t) == text[p + 1..q - 1];
    }
  }

  /** The number case of `TokenTexts`. */
  lemma NumberTokenText(text: string, pos: nat)
    requires pos <= |text|
    requires var c := Peek(text, SkipWhitespace(text, pos)); IsDigit(c) || c == '-'
    ensures NumberText(Lexeme(text, NextToken(text, pos).0))
  {
    var p := SkipWhitespace(text, pos);
    NumberToken(text, pos);
    var (t, q) := NextToken(text, pos);
    assert Lexeme(text, t) == text[p..q];
  }

  /** At the end of the input (after blanks): an EOF token, and the cursor
      rests on the NUL. */
  lemma EndOfInput(text: string, pos: nat)
    requires pos <= |text|
    requires Peek(text, SkipWhitespace(text, pos)) == '\0'
    ensures NextToken(text, pos) == (EndToken, SkipWhitespace(text, pos))
  {
  }

  /** Each structural byte gives a one-byte token of its kind, and the
      cursor moves past it. */
  lemma StructuralToken(text: string, pos: nat)
    requires pos <= |text|
    requires IsStructural(Peek(text, SkipWhitespace(text, pos)))
    ensures var p := SkipWhitespace(text, pos);
            NextToken(text, pos) == (Token(StructuralKind(text[p]), Some(p), 1), p + 1)
  {
  }

  /** A quote opens a string that ends at the next quote, with no escapes;
      the token spans the bytes in between and the cursor moves past the
      closing quote.  With no closing quote before the NUL the call reports
      EOF and leaves the cursor on the NUL. */
  lemma StringToken(text: string, pos: nat)
    requires pos <= |text|
    requires Peek(text, SkipWhitespace(text, pos)) == '"'
    ensures var p := SkipWhitespace(text, pos);
            var (t, q) := NextToken(text, pos);
            && (t.kind == STRING || t == EndToken)
            && (t.kind == STRING ==>
                  && t.start == Some(p + 1)
                  && q == p + 2 + t.length
                  && text[q - 1] == '"'
                  && QuoteFree(text[p + 1..q - 1]))
            && (t.kind != STRING ==>
                  && Peek(text, q) == '\0'
                  && forall k :: p < k < q ==> text[k] != '"')
  {
    ScannedQuoteFree(text, SkipWhitespace(text, pos) + 1);
  }

  /** A digit or a minus sign opens a number: the maximal run of number
      bytes, never validated further. */
  lemma NumberToken(text: string, pos: nat)
    requires pos <= |text|
    requires var c := Peek(text, SkipWhitespace(text, pos)); IsDigit(c) || c == '-'
    ensures var p := SkipWhitespace(text, pos);
            var (t, q) := NextToken(text, pos);
            && t.kind == NUMBER
            && t.start == Some(p)
            && q == p + t.length
            && NumberText(text[p..q])
            && !IsNumberChar(Peek(text, q))
  {
    ScannedNumberChars(text, SkipWhitespace(text, pos));
  }

  /** `null`, `true` and `false` match as bare, case-sensitive prefixes:
      `nullable` gives NULL and leaves the cursor on `able`. */
  lemma LiteralToken(text: string, pos: nat)
    requires pos <= |text|
    ensures var p := SkipWhitespace(text, pos);
            StartsWith(text, p, "null") ==> NextToken(text, pos) == (Token(NULL, Some(p), 4), p + 4)
    ensures var p := SkipWhitespace(text, pos);
            StartsWith(text, p, "true") ==> NextToken(text, pos) == (Token(TRUE, Some(p), 4), p + 4)
    ensures var p := SkipWhitespace(text, pos);
            StartsWith(text, p, "false") ==> NextToken(text, pos) == (Token(FALSE, Some(p), 5), p + 5)
  {
    var p := SkipWhitespace(text, pos);
    if StartsWith(text, p, "null") {
      StartsWithBytes(text, p, "null");
    } else if StartsWith(text, p, "true") {
      StartsWithBytes(text, p, "true");
    } else if StartsWith(text, p, "false") {
      StartsWithBytes(text, p, "false");
    }
  }

  /** Any other byte is skipped, and the call reports EOF without looking
      further. */
  lemma InvalidByte(text: string, pos: nat)
    requires pos <= |text|
    requires var p := SkipWhitespace(text, pos); var c := Peek(text, p);
             && c != '\0' && !IsStructural(c) && c != '"' && !IsDigit(c) && c != '-'
             && !StartsWith(text, p, "null") && !StartsWith(text, p, "true")
             && !StartsWith(text, p, "false")
    ensures NextToken(text, pos) == (EndToken, SkipWhitespace(text, pos) + 1)
  {
  }

  /** Once the lexer has reached the NUL it stays there: every further call
      returns the same EOF token and leaves the cursor where it is. */
  lemma {:induction false} EndIsSticky(text: string, pos: nat)
    requires pos <= |text|
    requires Peek(text, SkipWhitespace(text, pos)) == '\0'
    ensures NextToken(text, NextToken(text, pos).1) == (EndToken, NextToken(text, pos).1)
    ensures NextToken(text, NextToken(text, pos).1).1 == NextToken(text, pos).1
  {
    var q := NextToken(text, pos).1;
    assert q == SkipWhitespace(text, pos);
    assert SkipWhitespace(text, q) == q;
  }

  /** A `]` token is the byte just before the cursor it leaves. */
  lemma ClosingBracket(text: string, pos: nat)
    requires pos <= |text| && NextToken(text, pos).0.kind == RBRACKET
    ensures 0 < NextToken(text, pos).1 <= |text| && text[NextToken(text, pos).1 - 1] == ']'
  {
  }

  /** Blanks in front of the cursor do not change what the next call finds. */
  lemma SkipBlank(text: string, pos: nat)
    requires pos < |text| && IsSpace(text[pos])
    ensures NextToken(text, pos) == NextToken(text, pos + 1)
  {
  }

  /** Outcome of `assert_token`: it returns, or it ends the run. */
  datatype Check = Pass | Fail(got: Token)

  /** `assert_token`: the run goes on exactly when the token has the expected
      kind; otherwise the offending token is what the error reports. */
  function AssertToken(t: Token, expected: TokenKind): (c: Check)
    ensures c.Pass? <==> t.kind == expected
    ensures c.Fail? ==> c.got == t
  {
    if t.kind == expected then Pass else Fail(t)
  }

  /** The blank-skipping loop at the head of `lexer_next_token`. */
  method SkipLoop(text: string, position: nat) returns (p: nat)
    requires position <= |text|
    ensures p == SkipWhitespace(text, position)
  {
    p := position;
    while p < |text| && IsSpace(text[p])
      invariant position <= p <= |text|
      invariant SkipWhitespace(text, p) == SkipWhitespace(text, position)
      decreases |text| - p
    {
      p := p + 1;
    }
  }

  /** The loop that looks for the closing quote of a string. */
  method StringLoop(text: string, startPos: nat) returns (p: nat)
    requires startPos <= |text|
    ensures p == ScanString(text, startPos)
  {
    p := startPos;
    while p < |text| && text[p] != '"' && text[p] != '\0'
      invariant startPos <= p <= |text|
      invariant ScanString(text, p) == ScanString(text, startPos)
      decreases |text| - p
    {
      p := p + 1;
    }
  }

  /** The loop that consumes the bytes of a number. */
  method NumberLoop(text: string, startPos: nat) returns (p: nat)
    requires startPos <= |text|
    ensures p == ScanNumber(text, startPos)
  {
    p := startPos;
    while p < |text| && IsNumberChar(text[p])
      invariant startPos <= p <= |text|
      invariant ScanNumber(text, p) == ScanNumber(text, startPos)
      decreases |text| - p
    {
      p := p + 1;
    }
  }

  /** `lexer_next_token` written as the C code runs it, statement by
      statement; it computes the same token and cursor as `NextToken`. */
  method LexerNextToken(text: string, position: nat) returns (token: Token, next: nat)
    requires position <= |text|
    ensures (token, next) == NextToken(text, position)
  {
    token := EndToken;
    var p := SkipLoop(text, position);
    var c := Peek(text, p);
    if c == '\0' {
      return token, p;
    }
    if IsStructural(c) {
      token := Token(StructuralKind(c), Some(p), 1);
      p := p + 1;
    } else if c == '"' {
      var startPos := p + 1;
      p := StringLoop(text, startPos);
      if Peek(text, p) == '"' {
        token := Token(STRING, Some(startPos), p - startPos);
        p := p + 1;
      }
    } else if IsDigit(c) || c == '-' {
      var startPos := p;
      p := NumberLoop(text, startPos);
      token := Token(NUMBER, Some(startPos), p - startPos);
    } else if StartsWith(text, p, "null") {
      token := Token(NULL, Some(p), 4);
      p := p + 4;
    } else if StartsWith(text, p, "true") {
      token := Token(TRUE, Some(p), 4);
      p := p + 4;
    } else if StartsWith(text, p, "false") {
      token := Token(FALSE, Some(p), 5);
      p := p + 5;
    } else {
      p := p + 1;
    }
    next := p;
  }
}
