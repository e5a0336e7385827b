/** Tokens of a filter and the lexer that cuts a filter into them. */
module Lexing {
  import opened Wrappers
  import opened Filters

  datatype TokenType =
    | Whitespace | Text | String | Not | And | Or | Number | HexNumber
    | LeftParen | RightParen | Minus | Dot | Equals | Has | LessThan | GreaterThan
    | Exclaim | Comma | LessEquals | GreaterEquals | NotEquals
  {
    function ComparisonFunction(): Option<string> {
      match this
      case Equals => Some(EQUALS)
      case NotEquals => Some(NOT_EQUALS)
      case LessThan => Some(LESS_THAN)
      case LessEquals => Some(LESS_EQUALS)
      case GreaterThan => Some(GREATER_THAN)
      case GreaterEquals => Some(GREATER_EQUALS)
      case Has => Some(HAS)
      case _ => None
    }

    predicate IsComparator() {
      ComparisonFunction().Some?
    }

    predicate IsValue() {
      Text? || String?
    }

    predicate IsKeyword() {
      Not? || And? || Or?
    }

    predicate IsName() {
      Text? || IsKeyword()
    }

    predicate IsField() {
      IsValue() || IsKeyword() || Number?
    }
  }

  function Keyword(text: string): Option<TokenType> {
    if text == "NOT" then Some(Not)
    else if text == "AND" then Some(And)
    else if text == "OR" then Some(Or)
    else None
  }

  /** A token, the byte offset it starts at and the characters it spans. */
  datatype Token = Token(ty: TokenType, offset: nat, value: string)

  // ----- characters -----

  /** The bytes of a character in UTF-8. */
  function Width(c: char): nat {
    if c as int < 0x80 then 1 else if c as int < 0x800 then 2 else if c as int < 0x1_0000 then 3 else 4
  }

  function ByteLength(s: string): nat {
    if s == [] then 0 else Width(s[0]) + ByteLength(s[1..])
  }

  /** The characters with the Unicode White_Space property. */
  predicate IsSpace(c: char) {
    var n := c as int;
    0x09 <= n <= 0x0D || n == 0x20 || n == 0x85 || n == 0xA0 || n == 0x1680 || 0x2000 <= n <= 0x200A
    || n == 0x2028 || n == 0x2029 || n == 0x202F || n == 0x205F || n == 0x3000
  }

  predicate IsDigit(c: char) {
    '0' <= c <= '9'
  }

  predicate IsHexDigit(c: char) {
    IsDigit(c) || 'a' <= c <= 'f' || 'A' <= c <= 'F'
  }

  predicate IsText(c: char) {
    c !in "()-.=:<>!," && !IsSpace(c)
  }

  // ----- what one token is -----

  /** The length of the longest prefix whose characters all satisfy `p`. */
  function Span(s: string, p: char -> bool): (n: nat)
    ensures n <= |s| && (forall i :: 0 <= i < n ==> p(s[i])) && (n < |s| ==> !p(s[n]))
  {
    if s == [] || !p(s[0]) then 0 else 1 + Span(s[1..], p)
  }

  /** The position after the closing quote of a string whose text is being read from `i`. A
      backslash that is not itself escaped escapes the next character. */
  function StringEnd(s: string, i: nat, quote: char, escaped: bool): (end: Option<nat>)
    requires i <= |s|
    ensures end.Some? ==> i < end.value <= |s| && s[end.value - 1] == quote
    decreases |s| - i
  {
    if i == |s| then None
    else if s[i] == '\\' && !escaped then StringEnd(s, i + 1, quote, true)
    else if s[i] == quote && !escaped then Some(i + 1)
    else StringEnd(s, i + 1, quote, false)
  }

  function Operator(s: string, one: TokenType, two: TokenType): (TokenType, nat) {
    if |s| > 1 && s[1] == '=' then (two, 2) else (one, 1)
  }

  function NumberLexeme(s: string): (r: (TokenType, nat))
    requires s != []
    ensures 0 < r.1 <= |s|
  {
    if |s| > 1 && s[1] == 'x' then (HexNumber, 2 + Span(s[2..], IsHexDigit))
    else (Number, 1 + Span(s[1..], IsDigit))
  }

  /** A keyword, or else text. */
  function TextType(word: string): TokenType {
    if Keyword(word).Some? then Keyword(word).value else Text
  }

  /** The type and length of the token at the front of the text; none for a string that is
      never closed. */
  function Lexeme(s: string): (r: Option<(TokenType, nat)>)
    requires s != []
    ensures r.Some? ==> 0 < r.value.1 <= |s|
    ensures r.None? ==> (s[0] == '\'' || s[0] == '"') && StringEnd(s, 1, s[0], false).None?
  {
    var c := s[0];
    if c == '(' then Some((LeftParen, 1))
    else if c == ')' then Some((RightParen, 1))
    else if c == '-' then Some((Minus, 1))
    else if c == '.' then Some((Dot, 1))
    else if c == '=' then Some((Equals, 1))
    else if c == ':' then Some((Has, 1))
    else if c == ',' then Some((Comma, 1))
    else if c == '<' then Some(Operator(s, LessThan, LessEquals))
    else if c == '>' then Some(Operator(s, GreaterThan, GreaterEquals))
    else if c == '!' then Some(Operator(s, Exclaim, NotEquals))
    else if c == '\'' || c == '"' then
      var end := StringEnd(s, 1, c, false);
      if end.Some? then Some((TokenType.String, end.value)) else None
    else if IsDigit(c) then Some(NumberLexeme(s))
    else if IsSpace(c) then Some((Whitespace, Span(s, IsSpace)))
    else
      var n := Span(s, IsText);
      Some((TextType(s[..n]), n))
  }

  /** All tokens from a position on, or the byte offset of the string left open. */
  function Tokens(input: string, pos: nat): Result<seq<Token>, nat>
    requires pos <= |input|
    decreases |input| - pos
  {
    if pos == |input| then Ok([]) else
      match Lexeme(input[pos..])
      case None => Err(ByteLength(input[..pos]))
      case Some((ty, n)) =>
        var rest :- Tokens(input, pos + n);
        Ok([Token(ty, ByteLength(input[..pos]), input[pos..pos + n])] + rest)
  }

  // ----- the lexer -----

  class Lexer {
    const input: string
    var pos: nat

    ghost predicate Valid()
      reads this
    {
      pos <= |input|
    }

    constructor (input: string)
      ensures Valid() && pos == 0 && this.input == input
    {
      this.input, pos := input, 0;
    }

    function Peek(): Option<char>
      requires Valid()
      reads this
    {
      if pos < |input| then Some(input[pos]) else None
    }

    method Bump() returns (c: Option<char>)
      requires Valid()
      modifies this
      ensures Valid() && c == old(Peek()) && pos == old(pos) + if c.Some? then 1 else 0
    {
      c := Peek();
      if c.Some? {
        pos := pos + 1;
      }
    }

    method BumpWhile(pred: char -> bool)
      requires Valid()
      modifies this
      ensures Valid() && pos == old(pos) + Span(input[old(pos)..], pred)
    {
      while pos < |input| && pred(input[pos])
        invariant old(pos) <= pos <= |input|
        invariant old(pos) + Span(input[old(pos)..], pred) == pos + Span(input[pos..], pred)
      {
        assert input[pos..][1..] == input[pos + 1..];
        var _ := Bump();
      }
    }

    /** Lex the next token, none at the end of the input. */
    method NextToken() returns (r: Result<Option<Token>, nat>)
      requires Valid()
      modifies this
      ensures Valid()
      ensures old(pos) == |input| ==> r == Ok(None)
      ensures old(pos) < |input| ==>
                match Lexeme(input[old(pos)..])
                case None => r == Err(ByteLength(input[..old(pos)]))
                case Some((ty, n)) =>
                  pos == old(pos) + n && r == Ok(Some(Token(ty, ByteLength(input[..old(pos)]), input[old(pos)..pos])))
    {
      var start := pos;
      if Peek().None? {
        return Ok(None);
      }
      var ty := NextType();
      if ty.None? {
        return Err(ByteLength(input[..start]));
      }
      return Ok(Some(Token(ty.value, ByteLength(input[..start]), input[start..pos])));
    }

    /** Consume the lexeme at the cursor; none for a string left open. */
    method NextType() returns (ty: Option<TokenType>)
      requires Valid() && pos < |input|
      modifies this
      ensures Valid() && ty.Some? == Lexeme(input[old(pos)..]).Some?
      ensures ty.Some? ==> Lexeme(input[old(pos)..]) == Some((ty.value, pos - old(pos)))
    {
      var c, kind := input[pos], Whitespace;
      assert input[pos..][0] == c;
      if c == '(' {
        kind := Single(LeftParen);
      } else if c == ')' {
        kind := Single(RightParen);
      } else if c == '-' {
        kind := Single(Minus);
      } else if c == '.' {
        kind := Single(Dot);
      } else if c == '=' {
        kind := Single(Equals);
      } else if c == ':' {
        kind := Single(Has);
      } else if c == ',' {
        kind := Single(Comma);
      } else if c == '<' {
        kind := MaybeEquals(LessThan, LessEquals);
      } else if c == '>' {
        kind := MaybeEquals(GreaterThan, GreaterEquals);
      } else if c == '!' {
        kind := MaybeEquals(Exclaim, NotEquals);
      } else if c == '\'' || c == '"' {
        var closed := QuotedString(c);
        if !closed {
          return None;
        }
        kind := TokenType.String;
      } else if IsDigit(c) {
        kind := NumberToken();
      } else if IsSpace(c) {
        BumpWhile(IsSpace);
      } else {
        kind := TextToken();
      }
      return Some(kind);
    }

    method Single(ty: TokenType) returns (r: TokenType)
      requires Valid() && pos < |input|
      modifies this
      ensures Valid() && r == ty && pos == old(pos) + 1
    {
      var _ := Bump();
      r := ty;
    }

    method MaybeEquals(one: TokenType, two: TokenType) returns (r: TokenType)
      requires Valid() && pos < |input|
      modifies this
      ensures Valid() && r == Operator(input[old(pos)..], one, two).0
      ensures pos == old(pos) + Operator(input[old(pos)..], one, two).1
    {
      ghost var text := input[pos..];
      assert |text| > 1 ==> text[1] == input[pos + 1];
      var _ := Bump();
      if Peek() == Some('=') {
        var _ := Bump();
        r := two;
      } else {
        r := one;
      }
    }

    /** Consume a quoted string; false when the input ends first. */
    method QuotedString(quote: char) returns (closed: bool)
      requires Valid() && pos < |input| && quote != '\\'
      modifies this
      ensures Valid()
      ensures var end := StringEnd(input[old(pos)..], 1, quote, false);
              closed == end.Some? && (closed ==> pos == old(pos) + end.value)
    {
      var start := pos;
      ghost var text := input[start..];
      var _ := Bump();
      var escaped := false;
      while true
        invariant start < pos <= |input|
        invariant StringEnd(text, pos - start, quote, escaped) == StringEnd(text, 1, quote, false)
        decreases |input| - pos
      {
        var c := Bump();
        if c.None? {
          return false;
        }
        assert text[pos - 1 - start] == c.value;
        if c.value == '\\' && !escaped {
          escaped := true;
          continue;
        }
        if c.value == quote && !escaped {
          return true;
        }
        escaped := false;
      }
    }

    method NumberToken() returns (r: TokenType)
      requires Valid() && pos < |input|
      modifies this
      ensures Valid() && (r, pos - old(pos)) == NumberLexeme(input[old(pos)..])
    {
      var _ := Bump();
      ghost var rest := input[old(pos)..];
      assert rest[1..] == input[pos..];
      if Peek() == Some('x') {
        var _ := Bump();
        assert rest[2..] == input[pos..];
        BumpWhile(IsHexDigit);
        r := HexNumber;
      } else {
        BumpWhile(IsDigit);
        r := Number;
      }
    }

    method TextToken() returns (r: TokenType)
      requires Valid() && pos < |input|
      modifies this
      ensures Valid()
      ensures var s := input[old(pos)..];
              var n := Span(s, IsText);
              pos == old(pos) + n && r == TextType(s[..n])
    {
      var start := pos;
      BumpWhile(IsText);
      assert input[start..][..pos - start] == input[start..pos];
      r := TextType(input[start..pos]);
    }
  }

  /** `tokenize`. */
  method Tokenize(filter: string) returns (r: Result<seq<Token>, nat>)
    ensures r == Tokens(filter, 0)
  {
    var lexer := new Lexer(filter);
    var tokens: seq<Token> := [];
    ContinueFromNothing(Tokens(filter, 0));
    while true
      invariant fresh(lexer) && lexer.Valid() && lexer.input == filter
      invariant Tokens(filter, 0) == Continue(tokens, Tokens(filter, lexer.pos))
      decreases |filter| - lexer.pos
    {
      ghost var pos := lexer.pos;
      var next := lexer.NextToken();
      if next.Err? {
        return Err(next.error);
      }
      if next.value.None? {
        assert tokens + [] == tokens;
        return Ok(tokens);
      }
      ContinueStep(tokens, next.value.value, filter, pos, lexer.pos);
      tokens := tokens + [next.value.value];
    }
  }

  function Continue(tokens: seq<Token>, rest: Result<seq<Token>, nat>): Result<seq<Token>, nat> {
    if rest.Ok? then Ok(tokens + rest.value) else rest
  }

  lemma ContinueFromNothing(rest: Result<seq<Token>, nat>)
    ensures Continue([], rest) == rest
  {
    if rest.Ok? {
      assert [] + rest.value == rest.value;
    }
  }

  lemma ContinueStep(tokens: seq<Token>, token: Token, input: string, pos: nat, next: nat)
    requires pos < next <= |input|
    requires Lexeme(input[pos..]) == Some((token.ty, next - pos))
    requires token.offset == ByteLength(input[..pos]) && token.value == input[pos..next]
    ensures Continue(tokens, Tokens(input, pos)) == Continue(tokens + [token], Tokens(input, next))
  {
    var n := next - pos;
    TokensUnfold(token, input, pos, n);
    assert pos + n == next;
    ContinueTwice(tokens, token, Tokens(input, pos), Tokens(input, next));
  }

  lemma {:induction false} TokensUnfold(token: Token, input: string, pos: nat, n: nat)
    requires 0 < n && pos + n <= |input|
    requires Lexeme(input[pos..]) == Some((token.ty, n))
    requires token.offset == ByteLength(input[..pos]) && token.value == input[pos..pos + n]
    ensures Tokens(input, pos) == Continue([token], Tokens(input, pos + n))
  {}

  lemma ContinueTwice(tokens: seq<Token>, token: Token, all: Result<seq<Token>, nat>, rest: Result<seq<Token>, nat>)
    requires all == Continue([token], rest)
    ensures Continue(tokens, all) == Continue(tokens + [token], rest)
  {
    if rest.Ok? {
      assert tokens + ([token] + rest.value) == tokens + [token] + rest.value;
    }
  }

  // ----- properties -----

  function Values(tokens: seq<Token>): string {
    if tokens == [] then [] else tokens[0].value + Values(tokens[1..])
  }

  lemma {:induction false} ByteLengthConcat(a: string, b: string)
    ensures ByteLength(a + b) == ByteLength(a) + ByteLength(b)
  {
    if a == [] {
      assert a + b == b;
    } else {
      assert (a + b)[1..] == a[1..] + b;
      ByteLengthConcat(a[1..], b);
    }
  }

  /** The first token and the rest of a successful lexing. */
  lemma TokensSplit(input: string, pos: nat) returns (first: Token, next: nat)
    requires pos < |input| && Tokens(input, pos).Ok?
    ensures pos < next <= |input| && first.value == input[pos..next] && first.offset == ByteLength(input[..pos])
    ensures Tokens(input, next).Ok? && Tokens(input, pos).value == [first] + Tokens(input, next).value
  {
    var (ty, n) := Lexeme(input[pos..]).value;
    first, next := Token(ty, ByteLength(input[..pos]), input[pos..pos + n]), pos + n;
  }

  lemma ValuesOfCons(first: Token, rest: seq<Token>)
    ensures Values([first] + rest) == first.value + Values(rest)
  {
    assert ([first] + rest)[1..] == rest;
  }

  lemma {:induction false} ValuesAreInput(input: string, pos: nat)
    requires pos <= |input| && Tokens(input, pos).Ok?
    ensures Values(Tokens(input, pos).value) == input[pos..]
    ensures forall token :: token in Tokens(input, pos).value ==> token.value != []
    decreases |input| - pos
  {
    if pos < |input| {
      var first, next := TokensSplit(input, pos);
      ValuesAreInput(input, next);
      ValuesOfCons(first, Tokens(input, next).value);
      assert input[pos..next] + input[next..] == input[pos..];
    }
  }

  /** Each token starts where the one before it ends. */
  predicate OffsetsFrom(tokens: seq<Token>, base: nat)
    decreases |tokens|
  {
    tokens == []
    || (tokens[0].offset == base && OffsetsFrom(tokens[1..], base + ByteLength(tokens[0].value)))
  }

  lemma OffsetsOfCons(first: Token, rest: seq<Token>, base: nat)
    requires first.offset == base && OffsetsFrom(rest, base + ByteLength(first.value))
    ensures OffsetsFrom([first] + rest, base)
  {
    assert ([first] + rest)[1..] == rest;
  }

  lemma PrefixGrows(input: string, pos: nat, next: nat, value: string)
    requires pos <= next <= |input| && value == input[pos..next]
    ensures ByteLength(input[..next]) == ByteLength(input[..pos]) + ByteLength(value)
  {
    assert input[..pos] + value == input[..next];
    ByteLengthConcat(input[..pos], value);
  }

  lemma {:induction false} TokensFollowOn(input: string, pos: nat)
    requires pos <= |input| && Tokens(input, pos).Ok?
    ensures OffsetsFrom(Tokens(input, pos).value, ByteLength(input[..pos]))
    decreases |input| - pos
  {
    if pos < |input| {
      var first, next := TokensSplit(input, pos);
      TokensFollowOn(input, next);
      var base, rest := ByteLength(input[..pos]), Tokens(input, next).value;
      PrefixGrows(input, pos, next, first.value);
      assert OffsetsFrom(rest, base + ByteLength(first.value));
      OffsetsOfCons(first, rest, base);
    }
  }

  lemma {:induction false} OffsetsArePrefixSums(tokens: seq<Token>, base: nat, i: nat)
    requires OffsetsFrom(tokens, base) && i < |tokens|
    ensures tokens[i].offset == base + ByteLength(Values(tokens[..i]))
    decreases i
  {
    if i > 0 {
      var first, rest := tokens[0], tokens[1..];
      OffsetsArePrefixSums(rest, base + ByteLength(first.value), i - 1);
      assert tokens[..i] == [first] + rest[..i - 1];
      ValuesOfCons(first, rest[..i - 1]);
      ByteLengthConcat(first.value, Values(rest[..i - 1]));
    }
  }

  /** Nothing is lost: the token values put together are the input, every token is non-empty
      and its offset is the number of bytes before it. */
  lemma LexingLosesNothing(input: string)
    requires Tokens(input, 0).Ok?
    ensures var tokens := Tokens(input, 0).value;
            Values(tokens) == input
            && forall i :: 0 <= i < |tokens| ==> tokens[i].value != [] && tokens[i].offset == ByteLength(Values(tokens[..i]))
  {
    ValuesAreInput(input, 0);
    TokensFollowOn(input, 0);
    var tokens := Tokens(input, 0).value;
    forall i | 0 <= i < |tokens|
      ensures tokens[i].value != [] && tokens[i].offset == ByteLength(Values(tokens[..i]))
    {
      OffsetsArePrefixSums(tokens, 0, i);
      assert tokens[i] in tokens;
    }
  }

  /** The number of backslashes right before position `k`, counted back to `from`. */
  function Backslashes(s: string, from: nat, k: nat): nat
    requires from <= k <= |s|
  {
    if k == from || s[k - 1] != '\\' then 0 else 1 + Backslashes(s, from, k - 1)
  }

  /** A quote that ends the string opened before `from`: an even number of backslashes
      stands before it. */
  ghost predicate Closes(s: string, from: nat, k: nat, quote: char) {
    from <= k < |s| && s[k] == quote && Backslashes(s, from, k) % 2 == 0
  }

  /** The scan with its escape flag stops behind the first quote that closes the string, and
      fails exactly when there is none. */
  lemma {:induction false} StringEndIsFirstClosingQuote(s: string, from: nat, i: nat, quote: char, escaped: bool)
    requires from <= i <= |s| && quote != '\\' && (escaped <==> Backslashes(s, from, i) % 2 == 1)
    ensures var end := StringEnd(s, i, quote, escaped);
            if end.None? then forall k :: i <= k ==> !Closes(s, from, k, quote)
            else Closes(s, from, end.value - 1, quote) && forall k :: i <= k < end.value - 1 ==> !Closes(s, from, k, quote)
    decreases |s| - i
  {
    if i < |s| {
      if s[i] == '\\' && !escaped {
        StringEndIsFirstClosingQuote(s, from, i + 1, quote, true);
      } else if s[i] != quote || escaped {
        StringEndIsFirstClosingQuote(s, from, i + 1, quote, false);
      }
    }
  }

  /** The only lexical error is a string that is never closed, reported at the byte offset
      of its opening quote. */
  lemma {:induction false} OnlyOpenStringsFail(input: string, pos: nat) returns (i: nat)
    requires pos <= |input| && Tokens(input, pos).Err?
    ensures pos <= i < |input| && (input[i] == '\'' || input[i] == '"')
    ensures Tokens(input, pos).error == ByteLength(input[..i])
    ensures forall k :: 1 <= k ==> !Closes(input[i..], 1, k, input[i])
    decreases |input| - pos
  {
    var lexeme := Lexeme(input[pos..]);
    if lexeme.None? {
      i := pos;
      OpenString(input[pos..]);
      assert input[pos..][0] == input[pos];
    } else {
      LaterTokenFails(input, pos, lexeme.value.1);
      i := OnlyOpenStringsFail(input, pos + lexeme.value.1);
    }
  }

  /** Behind a lexeme the error is that of the rest. */
  lemma LaterTokenFails(input: string, pos: nat, n: nat)
    requires pos <= |input| && Tokens(input, pos).Err?
    requires Lexeme(input[pos..]).Some? && n == Lexeme(input[pos..]).value.1
    ensures n > 0 && pos + n <= |input| && Tokens(input, pos + n) == Tokens(input, pos)
  {}

  lemma OpenString(s: string)
    requires s != [] && Lexeme(s).None?
    ensures (s[0] == '\'' || s[0] == '"') && forall k :: 1 <= k ==> !Closes(s, 1, k, s[0])
  {
    StringEndIsFirstClosingQuote(s, 1, 1, s[0], false);
  }

  // ----- lexing spelled tokens -----

  /** A token as it is spelled: its type and its characters. */
  datatype Spelled = Spelled(ty: TokenType, value: string)

  function Spelling(words: seq<Spelled>): string {
    if words == [] then [] else words[0].value + Spelling(words[1..])
  }

  /** Each token, followed by what comes after it, is cut off where it was spelled. */
  ghost predicate Separable(words: seq<Spelled>) {
    forall i :: 0 <= i < |words| ==> words[i].value != [] && StandsBefore(words[i], Spelling(words[i + 1..]))
  }

  predicate StandsBefore(word: Spelled, next: string)
    requires word.value != []
  {
    Lexeme(word.value + next) == Some((word.ty, |word.value|))
  }

  function Placed(words: seq<Spelled>, offset: nat): seq<Token> {
    if words == [] then []
    else [Token(words[0].ty, offset, words[0].value)] + Placed(words[1..], offset + ByteLength(words[0].value))
  }

  lemma Slices(input: string, pos: nat, first: string, rest: string)
    requires pos <= |input| && input[pos..] == first + rest
    ensures pos + |first| <= |input| && input[pos..pos + |first|] == first && input[pos + |first|..] == rest
    ensures input[..pos + |first|] == input[..pos] + first
  {
    assert |input[pos..]| == |first| + |rest|;
    forall i | 0 <= i < |first| ensures input[pos + i] == first[i] {
      assert input[pos..][i] == input[pos + i];
    }
    forall i | 0 <= i < |rest| ensures input[pos + |first| + i] == rest[i] {
      assert input[pos..][|first| + i] == input[pos + |first| + i];
    }
  }

  lemma TokensStep(input: string, pos: nat, word: Spelled, rest: seq<Token>)
    requires word.value != [] && pos + |word.value| <= |input| && input[pos..pos + |word.value|] == word.value
    requires Lexeme(input[pos..]) == Some((word.ty, |word.value|))
    requires Tokens(input, pos + |word.value|) == Ok(rest)
    ensures Tokens(input, pos) == Ok([Token(word.ty, ByteLength(input[..pos]), word.value)] + rest)
  {}

  lemma FirstStands(words: seq<Spelled>)
    requires words != [] && Separable(words)
    ensures words[0].value != [] && StandsBefore(words[0], Spelling(words[1..]))
  {
    assert words[0 + 1..] == words[1..];
  }

  lemma {:induction false} LexFrom(input: string, pos: nat, words: seq<Spelled>)
    requires pos <= |input| && input[pos..] == Spelling(words) && Separable(words)
    ensures Tokens(input, pos) == Ok(Placed(words, ByteLength(input[..pos])))
    decreases |words|
  {
    if words != [] {
      var word, next := words[0], pos + |words[0].value|;
      FirstStands(words);
      TailSeparable(words);
      Slices(input, pos, word.value, Spelling(words[1..]));
      ByteLengthConcat(input[..pos], word.value);
      LexFrom(input, next, words[1..]);
      TokensStep(input, pos, word, Placed(words[1..], ByteLength(input[..next])));
    }
  }

  /** Lexing the text of separable tokens gives them back, placed at their offsets. */
  lemma LexOfSpelling(words: seq<Spelled>)
    requires Separable(words)
    ensures Tokens(Spelling(words), 0) == Ok(Placed(words, 0))
  {
    var input := Spelling(words);
    assert input[0..] == input && input[..0] == [];
    LexFrom(input, 0, words);
  }

  lemma TailSeparable(words: seq<Spelled>)
    requires words != [] && Separable(words)
    ensures Separable(words[1..])
  {
    forall i | 0 <= i < |words| - 1
      ensures words[1..][i].value != [] && StandsBefore(words[1..][i], Spelling(words[1..][i + 1..]))
    {
      assert words[1..][i + 1..] == words[i + 2..];
      assert words[i + 1].value != [] && StandsBefore(words[i + 1], Spelling(words[i + 1 + 1..]));
    }
  }
}
