/** Parsing the canonical spelling gives the expression back. */
module RoundTrip {
  import opened Wrappers
  import opened Filters
  import opened Lexing
  import opened Unescaping
  import opened Grammar
  import opened Parsing
  import opened Parsers
  import opened Printing
  import Text
  import TrailingCommas

  /** The words stand at the position. */
  ghost predicate Here(ts: seq<Token>, pos: nat, words: seq<Spelled>) {
    pos + |words| <= |ts| && forall i :: 0 <= i < |words| ==> Is(ts[pos + i], words[i])
  }

  predicate Is(token: Token, word: Spelled) {
    token.ty == word.ty && token.value == word.value
  }

  lemma HereSplit(ts: seq<Token>, pos: nat, a: seq<Spelled>, b: seq<Spelled>)
    requires Here(ts, pos, a + b)
    ensures Here(ts, pos, a) && Here(ts, pos + |a|, b)
  {
    var words := a + b;
    forall i | 0 <= i < |a| ensures Is(ts[pos + i], a[i]) {
      assert words[i] == a[i];
    }
    forall i | 0 <= i < |b| ensures Is(ts[pos + |a| + i], b[i]) {
      assert words[|a| + i] == b[i] && Is(ts[pos + (|a| + i)], words[|a| + i]);
    }
  }

  lemma HereFirst(ts: seq<Token>, pos: nat, words: seq<Spelled>)
    requires Here(ts, pos, words) && words != []
    ensures At(ts, pos, words[0].ty) && ts[pos].value == words[0].value
    ensures Here(ts, pos + 1, words[1..])
  {
    assert Is(ts[pos + 0], words[0]);
    assert words == [words[0]] + words[1..];
    HereSplit(ts, pos, [words[0]], words[1..]);
  }

  /** Nothing that extends a comparable follows. */
  predicate Ends(ts: seq<Token>, p: nat) {
    !At(ts, p, Dot) && !At(ts, p, LeftParen)
  }

  /** Neither does a comparator. */
  predicate Stops(ts: seq<Token>, p: nat) {
    Ends(ts, p) && !SniffComparator(ts, p) && !(At(ts, p, Whitespace) && SniffComparator(ts, p + 1))
  }

  // ----- one item at a level of the grammar is the item itself -----

  lemma LoneFactor(ts: seq<Token>, pos: nat, e: Expr, q: nat)
    requires pos <= |ts| && TermAt(ts, pos) == Some((e, q)) && !AtJoint(ts, q, Or)
    ensures FactorAt(ts, pos) == Some((e, q))
  {
    DisjunctsStep(ts, pos);
  }

  lemma LoneSequence(ts: seq<Token>, pos: nat, e: Expr, q: nat)
    requires pos <= |ts| && FactorAt(ts, pos) == Some((e, q)) && (!At(ts, q, Whitespace) || At(ts, q + 1, And))
    ensures SequenceAt(ts, pos) == Some((e, q))
  {
    FuzziesStep(ts, pos);
  }

  lemma LoneExpression(ts: seq<Token>, pos: nat, e: Expr, q: nat)
    requires pos <= |ts| && !At(ts, pos, Whitespace) && SequenceAt(ts, pos) == Some((e, q)) && !AtJoint(ts, q, And)
    ensures ExpressionAt(ts, pos) == Some((e, q))
  {
    ConjunctsStep(ts, pos);
  }

  /** A term with nothing to join it to what follows is the whole expression. */
  lemma LoneTerm(ts: seq<Token>, pos: nat, e: Expr, q: nat)
    requires pos <= |ts| && !At(ts, pos, Whitespace) && TermAt(ts, pos) == Some((e, q)) && !At(ts, q, Whitespace)
    ensures ExpressionAt(ts, pos) == Some((e, q))
  {
    LoneFactor(ts, pos, e, q);
    LoneSequence(ts, pos, e, q);
    LoneExpression(ts, pos, e, q);
  }

  /** Two terms joined by a connective, the tightest first: OR, whitespace, AND. */
  lemma {:induction false} PairedTerms(ts: seq<Token>, pos: nat, name: string, a: Expr, q: nat, b: Expr, end: nat)
    requires Connective(name) && Here(ts, q, Between(name))
    requires pos <= |ts| && !At(ts, pos, Whitespace) && TermAt(ts, pos) == Some((a, q))
    requires var r := q + |Between(name)|; r <= |ts| && !At(ts, r, Whitespace) && !At(ts, r, And) && !At(ts, r, Or)
                                           && TermAt(ts, r) == Some((b, end))
    requires !At(ts, end, Whitespace)
    ensures ExpressionAt(ts, pos) == Some((Call(name, [a, b]), end))
  {
    var r := q + |Between(name)|;
    HereFirst(ts, q, Between(name));
    if name == OR {
      assert AtJoint(ts, q, Or) by {
        HereFirst(ts, q + 1, Between(name)[1..]);
        HereFirst(ts, q + 2, Between(name)[1..][1..]);
      }
      PairedFactor(ts, pos, a, q, b, end);
      LoneSequence(ts, pos, Call(OR, [a, b]), end);
      LoneExpression(ts, pos, Call(OR, [a, b]), end);
    } else {
      LoneFactor(ts, r, b, end);
      if name == AND {
        assert AtJoint(ts, q, And) by {
          HereFirst(ts, q + 1, Between(name)[1..]);
          HereFirst(ts, q + 2, Between(name)[1..][1..]);
        }
        LoneFactor(ts, pos, a, q);
        LoneSequence(ts, pos, a, q);
        LoneSequence(ts, r, b, end);
        PairedExpression(ts, pos, a, q, b, end);
      } else {
        LoneFactor(ts, pos, a, q);
        PairedSequence(ts, pos, a, q, b, end);
        LoneExpression(ts, pos, Call(FUZZY, [a, b]), end);
      }
    }
  }

  lemma FoldPair(a: Expr, b: Expr, name: string)
    ensures FoldLeft([a] + [b], name) == Call(name, [a, b])
  {
    assert ([a] + [b])[1..] == [b];
    assert [b][1..] == [];
    assert FoldFrom(Call(name, [a, b]), [], name) == Call(name, [a, b]);
  }

  lemma PairedFactor(ts: seq<Token>, pos: nat, a: Expr, q: nat, b: Expr, end: nat)
    requires pos <= |ts| && TermAt(ts, pos) == Some((a, q)) && AtJoint(ts, q, Or)
    requires TermAt(ts, q + 3) == Some((b, end)) && !AtJoint(ts, end, Or)
    ensures FactorAt(ts, pos) == Some((Call(OR, [a, b]), end))
  {
    DisjunctsStep(ts, pos);
    DisjunctsStep(ts, q + 3);
    FoldPair(a, b, OR);
  }

  lemma PairedSequence(ts: seq<Token>, pos: nat, a: Expr, q: nat, b: Expr, end: nat)
    requires pos <= |ts| && FactorAt(ts, pos) == Some((a, q)) && At(ts, q, Whitespace) && !At(ts, q + 1, And)
    requires FactorAt(ts, q + 1) == Some((b, end)) && !At(ts, end, Whitespace)
    ensures SequenceAt(ts, pos) == Some((Call(FUZZY, [a, b]), end))
  {
    FuzziesStep(ts, q + 1);
    assert FuzziesAt(ts, q + 1) == Some(([b], end));
    FuzziesStep(ts, pos);
    assert FuzziesAt(ts, pos) == Some(([a] + [b], end));
    FoldPair(a, b, FUZZY);
  }

  lemma PairedExpression(ts: seq<Token>, pos: nat, a: Expr, q: nat, b: Expr, end: nat)
    requires pos <= |ts| && !At(ts, pos, Whitespace) && SequenceAt(ts, pos) == Some((a, q)) && AtJoint(ts, q, And)
    requires !At(ts, q + 3, Whitespace) && SequenceAt(ts, q + 3) == Some((b, end)) && !AtJoint(ts, end, And)
    ensures ExpressionAt(ts, pos) == Some((Call(AND, [a, b]), end))
  {
    ConjunctsStep(ts, q + 3);
    assert ConjunctsAt(ts, q + 3) == Some(([b], end));
    ConjunctsStep(ts, pos);
    assert ConjunctsAt(ts, pos) == Some(([a] + [b], end));
    FoldPair(a, b, AND);
  }

  /** A bracketed expression, as a simple, a term and an argument. */
  lemma {:induction false} BracketParses(ts: seq<Token>, pos: nat, e: Expr, r: nat)
    requires pos < |ts| && At(ts, pos, LeftParen)
    requires ExpressionAt(ts, SkipSpace(ts, pos + 1)) == Some((e, r)) && At(ts, r, RightParen)
    ensures SimpleAt(ts, pos) == ArgAt(ts, pos) == TermAt(ts, pos) == Some((e, r + 1))
  {
    assert CompositeAt(ts, pos) == Some((e, r + 1));
    assert PrefixLength(ts, pos) == 0;
    PlainTerm(ts, pos);
  }

  /** A term without a prefix is its simple. */
  lemma PlainTerm(ts: seq<Token>, pos: nat)
    requires pos <= |ts| && PrefixLength(ts, pos) == 0
    ensures TermAt(ts, pos) == SimpleAt(ts, pos)
  {}

  // ----- comparables -----

  lemma {:induction false} DigitsOfDecimal(n: nat, rest: string, v: nat, k: nat)
    requires v == 0
    ensures DigitsValue(Text.Decimal(n) + rest, |Text.Decimal(n)| + k, 10, v) == DigitsValue(rest, k, 10, n)
  {
    if n < 10 {
      assert (Text.Decimal(n) + rest)[1..] == rest;
    } else {
      var last := [Text.Digit(n % 10)];
      assert Text.Decimal(n) + rest == Text.Decimal(n / 10) + (last + rest);
      DigitsOfDecimal(n / 10, last + rest, 0, 1 + k);
      assert (last + rest)[1..] == rest;
    }
  }

  /** A decimal spelling reads back as its number. */
  lemma MagnitudeOfDecimal(n: nat)
    requires n <= I64_MAX
    ensures Magnitude(Text.Decimal(n), 10) == Some(n)
  {
    DigitsOfDecimal(n, [], 0, 0);
    assert Text.Decimal(n) + [] == Text.Decimal(n);
  }

  lemma NotANumber(ts: seq<Token>, pos: nat)
    requires pos < |ts| && (ts[pos].ty.Text? || ts[pos].ty.String?)
    ensures ParseNumber(ts, pos).None?
  {}

  lemma NotAFunction(ts: seq<Token>, pos: nat)
    requires pos < |ts| && !ts[pos].ty.IsName()
    ensures FunctionAt(ts, pos).None?
  {}

  /** A number alternative that succeeds is the comparable. */
  lemma NumberComparable(ts: seq<Token>, pos: nat, e: Expr, end: nat)
    requires pos < |ts| && !ts[pos].ty.IsName() && ParseNumber(ts, pos) == Some((e, end))
    ensures ComparableAt(ts, pos) == Some((e, end))
  {
    NotAFunction(ts, pos);
    ComparableStep(ts, pos);
  }

  lemma IntIsNumber(ts: seq<Token>, pos: nat, i: nat)
    requires Here(ts, pos, [Spelled(TokenType.Number, Text.Decimal(i))]) && i <= I64_MAX && Ends(ts, pos + 1)
    ensures At(ts, pos, Number) && ParseNumber(ts, pos) == Some((Const(Constant.Int(i)), pos + 1))
  {
    HereFirst(ts, pos, [Spelled(TokenType.Number, Text.Decimal(i))]);
    MagnitudeOfDecimal(i);
  }

  lemma {:induction false} DigitsOfZeros(z: nat, rest: string, n: nat)
    ensures DigitsValue(Zeros(z) + rest, z + n, 10, 0) == DigitsValue(rest, n, 10, 0)
  {
    if z == 0 {
      assert Zeros(z) + rest == rest;
    } else {
      assert (Zeros(z) + rest)[1..] == Zeros(z - 1) + rest;
      DigitsOfZeros(z - 1, rest, n);
    }
  }

  lemma DigitsOfPadded(n: nat, k: nat)
    ensures DigitsValue(Padded(n, k), |Padded(n, k)|, 10, 0) == Some(n)
  {
    var digits := Text.Decimal(n);
    DigitsOfDecimal(n, [], 0, 0);
    assert digits + [] == digits;
    if |digits| <= k {
      DigitsOfZeros(k + 1 - |digits|, digits, |digits|);
    }
  }

  /** The digits on both sides of the dot read back as the fraction. */
  lemma FractionReads(d: real, n: nat, k: nat)
    requires Fraction(d, n, k)
    ensures var words := SplitWords(n, k); FloatValue(words[0].value, words[2].value) == Some(d)
  {
    var digits := Padded(n, k);
    DigitsOfPadded(n, k);
    assert digits[..|digits| - k] + digits[|digits| - k..] == digits;
  }

  /** A fraction at the position, which may stand behind a minus. */
  lemma FractionHere(ts: seq<Token>, pos: nat, d: real)
    requires IsFraction(d) && Here(ts, pos, FractionWords(d))
    ensures pos + 3 <= |ts| && |FractionWords(d)| == 3
    ensures At(ts, pos, Number) && At(ts, pos + 1, Dot) && At(ts, pos + 2, Number)
    ensures FloatBody(ts[pos..pos + 3]) == Some(d)
  {
    var n: nat, k: nat :| Fraction(d, n, k) && FractionWords(d) == SplitWords(n, k);
    FractionReads(d, n, k);
    SplitHere(ts, pos, SplitWords(n, k));
  }

  lemma SplitHere(ts: seq<Token>, pos: nat, words: seq<Spelled>)
    requires |words| == 3 && words[0].ty.Number? && words[1] == DOT && words[2].ty.Number? && Here(ts, pos, words)
    ensures At(ts, pos, Number) && At(ts, pos + 1, Dot) && At(ts, pos + 2, Number)
    ensures FloatBody(ts[pos..pos + 3]) == FloatValue(words[0].value, words[2].value)
  {
    assert Is(ts[pos + 0], words[0]) && Is(ts[pos + 1], words[1]) && Is(ts[pos + 2], words[2]);
    assert ts[pos..pos + 3] == [ts[pos], ts[pos + 1], ts[pos + 2]];
  }

  lemma FractionIsNumber(ts: seq<Token>, pos: nat, d: real)
    requires IsFraction(d) && Here(ts, pos, FractionWords(d))
    ensures At(ts, pos, Number) && ParseNumber(ts, pos) == Some((Const(Constant.Double(d)), pos + |FractionWords(d)|))
  {
    FractionHere(ts, pos, d);
    FloatFound(ts, pos, d);
  }

  lemma FloatFound(ts: seq<Token>, pos: nat, d: real)
    requires pos + 3 <= |ts| && At(ts, pos, Number) && At(ts, pos + 1, Dot) && At(ts, pos + 2, Number)
    requires FloatBody(ts[pos..pos + 3]) == Some(d)
    ensures ParseNumber(ts, pos) == Some((Const(Constant.Double(d)), pos + 3))
  {}

  function Opposite(c: Constant): Constant
    requires c.Int? || c.Double?
  {
    match c case Int(i) => Constant.Int(-i) case Double(d) => Constant.Double(-d)
  }

  /** A number without a sign. */
  ghost predicate Unsigned(c: Constant) {
    (c.Int? && 0 <= c.i <= I64_MAX) || (c.Double? && IsFraction(c.d))
  }

  lemma OppositeIsUnsigned(c: Constant)
    requires NegativeNumber(Const(c))
    ensures Unsigned(Opposite(c)) && MagnitudeWords(Opposite(c)) == MagnitudeWords(c) && Opposite(Opposite(c)) == c
  {}

  lemma {:induction false} NumberParses(ts: seq<Token>, pos: nat, c: Constant)
    requires Unsigned(c) && Here(ts, pos, MagnitudeWords(c)) && Ends(ts, pos + |MagnitudeWords(c)|)
    ensures At(ts, pos, Number) && ParseNumber(ts, pos) == Some((Const(c), pos + |MagnitudeWords(c)|))
    ensures ComparableAt(ts, pos) == Some((Const(c), pos + |MagnitudeWords(c)|))
  {
    match c {
      case Int(i) => IntIsNumber(ts, pos, i);
      case Double(d) =>
        FractionIsNotNegative(d);
        FractionIsNumber(ts, pos, d);
    }
    NumberComparable(ts, pos, Const(c), pos + |MagnitudeWords(c)|);
  }

  /** A minus in front of a number belongs to it. */
  lemma MinusNumber(ts: seq<Token>, pos: nat, c: Constant, end: nat)
    requires (c.Int? || c.Double?) && At(ts, pos, Minus) && At(ts, pos + 1, Number)
    requires ParseNumber(ts, pos + 1) == Some((Const(c), end))
    ensures ParseNumber(ts, pos) == Some((Const(Opposite(c)), end))
  {}

  /** A negative number, read with its minus and without. */
  lemma NegativeParses(ts: seq<Token>, pos: nat, c: Constant)
    requires NegativeNumber(Const(c)) && Here(ts, pos, [MINUS] + MagnitudeWords(c)) && Ends(ts, pos + 1 + |MagnitudeWords(c)|)
    ensures var end := pos + 1 + |MagnitudeWords(c)|;
            ComparableAt(ts, pos) == Some((Const(c), end)) && At(ts, pos, Minus) && At(ts, pos + 1, Number)
            && ComparableAt(ts, pos + 1) == Some((Const(Opposite(c)), end))
  {
    OppositeIsUnsigned(c);
    HereSplit(ts, pos, [MINUS], MagnitudeWords(c));
    HereFirst(ts, pos, [MINUS]);
    NumberParses(ts, pos + 1, Opposite(c));
    MinusParses(ts, pos, Opposite(c), pos + 1 + |MagnitudeWords(c)|);
  }

  lemma MinusParses(ts: seq<Token>, pos: nat, c: Constant, end: nat)
    requires (c.Int? || c.Double?) && At(ts, pos, Minus) && At(ts, pos + 1, Number)
    requires ParseNumber(ts, pos + 1) == Some((Const(c), end))
    ensures ComparableAt(ts, pos) == Some((Const(Opposite(c)), end))
  {
    MinusNumber(ts, pos, c, end);
    NumberComparable(ts, pos, Const(Opposite(c)), end);
  }

  lemma StringParses(ts: seq<Token>, pos: nat, text: string)
    requires Here(ts, pos, [Spelled(TokenType.String, Quote(text))]) && Ends(ts, pos + 1)
    ensures ComparableAt(ts, pos) == Some((Const(Str(text)), pos + 1))
  {
    HereFirst(ts, pos, [Spelled(TokenType.String, Quote(text))]);
    UnescapeOfQuote(text);
    NotAFunction(ts, pos);
    NotANumber(ts, pos);
    ComparableStep(ts, pos);
  }

  lemma {:induction false} DottedEnds(e: Expr)
    requires Dotted(e)
    ensures Words(e) != [] && Words(e)[0].ty.IsValue() && Last(Words(e)).ty.IsField()
    ensures e.Ident? ==> Words(e) == [BaseWord(e.name)]
    ensures e.Select? ==> Words(e) == Words(e.operand) + [DOT, FieldWord(e.field)]
  {
    if e.Select? {
      DottedEnds(e.operand);
      FieldWordSpelled(e.field);
    }
  }

  lemma HereLast(ts: seq<Token>, pos: nat, words: seq<Spelled>)
    requires Here(ts, pos, words) && words != []
    ensures At(ts, pos + |words| - 1, Last(words).ty)
  {
    assert Is(ts[pos + (|words| - 1)], words[|words| - 1]);
  }

  /** Bare or quoted, the word means its text. */
  lemma WordUnquotes(token: Token, text: string)
    ensures Is(token, BaseWord(text)) ==> Unquote(token) == Some(text)
    ensures Is(token, FieldWord(text)) ==> Unquote(token) == Some(text)
  {
    UnescapeOfQuote(text);
  }

  lemma SelectHere(ts: seq<Token>, pos: nat, e: Expr)
    requires e.Select? && Dotted(e) && Here(ts, pos, Words(e))
    ensures var p := pos + |Words(e.operand)|;
            Here(ts, pos, Words(e.operand)) && At(ts, p, Dot) && p + 1 < |ts| && ts[p + 1].ty.IsField()
            && Unquote(ts[p + 1]) == Some(e.field) && pos + |Words(e)| == p + 2
  {
    var p, field := pos + |Words(e.operand)|, FieldWord(e.field);
    DottedEnds(e);
    FieldWordSpelled(e.field);
    HereSplit(ts, pos, Words(e.operand), [DOT, field]);
    HereFirst(ts, p, [DOT, field]);
    HereFirst(ts, p + 1, [DOT, field][1..]);
    WordUnquotes(ts[p + 1], e.field);
  }

  /** The name scan runs over the whole path, or stops at a quoted or numeric segment. */
  lemma {:induction false} DottedIsName(ts: seq<Token>, pos: nat, e: Expr, last: nat)
    requires Dotted(e) && Here(ts, pos, Words(e)) && last + 1 == pos + |Words(e)|
    ensures NameEnd(ts, pos).None? || NameEnd(ts, pos) == NameEnd(ts, last)
  {
    if e.Select? {
      SelectDot(ts, pos, e, last);
      DottedIsName(ts, pos, e.operand, last - 2);
      NameStepOver(ts, last - 2);
    }
  }

  /** A path ends in a dot and a segment behind its operand. */
  lemma SelectDot(ts: seq<Token>, pos: nat, e: Expr, last: nat)
    requires e.Select? && Dotted(e) && Here(ts, pos, Words(e)) && last + 1 == pos + |Words(e)|
    ensures Dotted(e.operand) && Here(ts, pos, Words(e.operand)) && At(ts, last - 1, Dot)
    ensures last >= 2 && last - 1 == pos + |Words(e.operand)|
  {
    SelectHere(ts, pos, e);
    DottedEnds(e.operand);
  }

  /** From a segment in front of a dot the name scan goes on behind the dot. */
  lemma NameStepOver(ts: seq<Token>, p: nat)
    requires At(ts, p + 1, Dot)
    ensures NameEnd(ts, p).None? || NameEnd(ts, p) == NameEnd(ts, p + 2)
  {}

  /** The member scan reads the whole path and goes on behind it. */
  lemma {:induction false} DottedIsMember(ts: seq<Token>, pos: nat, e: Expr)
    requires Dotted(e) && Here(ts, pos, Words(e)) && (e.Select? || At(ts, pos + |Words(e)|, Dot))
    ensures ParseMember(ts, pos) == ParseFields(ts, pos + |Words(e)|, e)
  {
    DottedEnds(e);
    if e.Ident? {
      HereFirst(ts, pos, Words(e));
      WordUnquotes(ts[pos], e.name);
    } else {
      SelectHere(ts, pos, e);
      DottedIsMember(ts, pos, e.operand);
      FieldStep(ts, pos + |Words(e.operand)|, e.operand, e.field);
    }
  }

  lemma FieldStep(ts: seq<Token>, p: nat, operand: Expr, field: string)
    requires At(ts, p, Dot) && p + 1 < |ts| && ts[p + 1].ty.IsField() && Unquote(ts[p + 1]) == Some(field)
    ensures ParseFields(ts, p, operand) == ParseFields(ts, p + 2, Select(operand, field))
  {}

  lemma DottedNameEnd(ts: seq<Token>, pos: nat, e: Expr, end: nat)
    requires Dotted(e) && Here(ts, pos, Words(e)) && end == pos + |Words(e)| && !At(ts, end, Dot)
    ensures NameEnd(ts, pos).None? || NameEnd(ts, pos) == Some(end)
  {
    DottedEnds(e);
    DottedIsName(ts, pos, e, end - 1);
    NameAt(ts, end - 1);
  }

  lemma NameAt(ts: seq<Token>, last: nat)
    requires !At(ts, last + 1, Dot)
    ensures NameEnd(ts, last).None? || NameEnd(ts, last) == Some(last + 1)
  {}

  lemma NameWithoutParen(ts: seq<Token>, pos: nat, end: nat)
    requires pos <= |ts| && (NameEnd(ts, pos).None? || NameEnd(ts, pos) == Some(end)) && !At(ts, end, LeftParen)
    ensures FunctionAt(ts, pos).None?
  {}

  lemma PathIsNoCall(ts: seq<Token>, pos: nat, e: Expr, end: nat)
    requires Dotted(e) && Here(ts, pos, Words(e)) && end == pos + |Words(e)| && Ends(ts, end)
    ensures FunctionAt(ts, pos).None?
  {
    DottedNameEnd(ts, pos, e, end);
    NameWithoutParen(ts, pos, end);
  }

  lemma PathIsNoNumber(ts: seq<Token>, pos: nat, e: Expr)
    requires Path(e) && Here(ts, pos, Words(e))
    ensures ParseNumber(ts, pos).None?
  {
    DottedEnds(e);
    HereFirst(ts, pos, Words(e));
    NotANumber(ts, pos);
  }

  lemma {:induction false} PathParses(ts: seq<Token>, pos: nat, e: Expr)
    requires Path(e) && Here(ts, pos, Words(e)) && Ends(ts, pos + |Words(e)|)
    ensures ComparableAt(ts, pos) == Some((e, pos + |Words(e)|))
  {
    PathIsNoCall(ts, pos, e, pos + |Words(e)|);
    PathIsNoNumber(ts, pos, e);
    PathMember(ts, pos, e);
    ComparableStep(ts, pos);
  }

  lemma {:induction false} PathMember(ts: seq<Token>, pos: nat, e: Expr)
    requires Path(e) && Here(ts, pos, Words(e)) && Ends(ts, pos + |Words(e)|)
    ensures ParseMember(ts, pos) == Some((e, pos + |Words(e)|))
  {
    DottedEnds(e);
    if e.Select? {
      DottedIsMember(ts, pos, e);
    } else {
      HereFirst(ts, pos, Words(e));
    }
  }

  lemma {:induction false} CallParses(ts: seq<Token>, pos: nat, name: string, args: seq<Expr>, r: nat)
    requires At(ts, pos, TokenType.Text) && ts[pos].value == name && At(ts, pos + 1, LeftParen) && !At(ts, pos + 2, Whitespace)
    requires pos + 2 <= |ts| && ArgsAt(ts, pos + 2) == Some((args, r)) && At(ts, r, RightParen)
    ensures ComparableAt(ts, pos) == Some((Call(name, args), r + 1))
  {
    assert NameEnd(ts, pos) == Some(pos + 1);
    assert ts[pos..pos + 1] == [ts[pos]];
    assert NameText([ts[pos]]) == name + [] == name;
    assert FunctionAt(ts, pos) == Some((Call(name, args), r + 1));
    ComparableStep(ts, pos);
  }

  // ----- the words of the canonical spelling -----

  lemma CallFirstWord(name: string, args: seq<Expr>)
    requires Canonical(Call(name, args))
    ensures CallWords(name, args) != []
    ensures CallWords(name, args)[0].ty == if LeftSide(Call(name, args)) then TokenType.Text else LeftParen
  {
    if LeftSide(Call(name, args)) {
      PlainNameApplies(name, args);
    } else {
      BracketedShape(name, args);
      BracketedWords(name, args);
    }
  }

  /** The type of the first word tells what is spelled. */
  lemma {:induction false} FirstWord(e: Expr)
    requires Canonical(e)
    ensures Words(e) != []
    ensures var ty := Words(e)[0].ty;
            if LeftSide(e) then ty.Text? || ty.Number? || ty.String? else ty.Minus? || ty.LeftParen?
  {
    match e {
      case Const(Str(_)) =>
      case Const(Double(d)) =>
        if IsFraction(d) {
          FractionIsNotNegative(d);
        }
        NumberIsOperand(Constant.Double(d));
      case Const(c) => NumberIsOperand(c);
      case Ident(_) => DottedEnds(e);
      case Select(_, _) => DottedEnds(e);
      case Call(name, args) => CallFirstWord(name, args);
    }
  }

  /** Where the parts of a bracketed pair stand. */
  lemma HereParts(ts: seq<Token>, pos: nat, open: seq<Spelled>, a: seq<Spelled>, middle: seq<Spelled>, b: seq<Spelled>,
                  close: seq<Spelled>)
    requires Here(ts, pos, open + a + middle + b + close)
    ensures var p := pos + |open|;
            var q := p + |a|;
            var r := q + |middle|;
            Here(ts, pos, open) && Here(ts, p, a) && Here(ts, q, middle) && Here(ts, r, b) && Here(ts, r + |b|, close)
  {
    HereSplit(ts, pos, open + a + middle + b, close);
    HereSplit(ts, pos, open + a + middle, b);
    HereSplit(ts, pos, open + a, middle);
    HereSplit(ts, pos, open, a);
  }

  lemma HereAround(ts: seq<Token>, pos: nat, open: seq<Spelled>, a: seq<Spelled>, close: seq<Spelled>)
    requires Here(ts, pos, open + a + close)
    ensures Here(ts, pos, open) && Here(ts, pos + |open|, a) && Here(ts, pos + |open| + |a|, close)
  {
    HereSplit(ts, pos, open + a, close);
    HereSplit(ts, pos, open, a);
  }

  lemma PairHere(ts: seq<Token>, pos: nat, a: seq<Spelled>, middle: seq<Spelled>, b: seq<Spelled>)
    requires Here(ts, pos, PairWords(a, middle, b))
    ensures var q := pos + 1 + |a|;
            var r := q + |middle|;
            At(ts, pos, LeftParen) && Here(ts, pos + 1, a) && Here(ts, q, middle) && Here(ts, r, b) && At(ts, r + |b|, RightParen)
  {
    HereParts(ts, pos, [OPEN], a, middle, b, [CLOSE]);
    HereFirst(ts, pos, [OPEN]);
    HereFirst(ts, pos + 1 + |a| + |middle| + |b|, [CLOSE]);
  }

  lemma PrefixedTerm(ts: seq<Token>, pos: nat)
    requires pos + PrefixLength(ts, pos) <= |ts| && PrefixLength(ts, pos) > 0
    ensures var simple := SimpleAt(ts, pos + PrefixLength(ts, pos));
            TermAt(ts, pos)
            == if simple.None? then None
               else if ts[pos].ty.Minus? then Some((Negated(simple.value.0), simple.value.1))
               else Some((Call(NOT, [simple.value.0]), simple.value.1))
  {}

  lemma ComparableAlone(ts: seq<Token>, pos: nat, e: Expr, end: nat)
    requires pos <= |ts| && !At(ts, pos, LeftParen) && ComparableAt(ts, pos) == Some((e, end)) && Stops(ts, end)
    ensures SimpleAt(ts, pos) == ArgAt(ts, pos) == Some((e, end))
  {
    RestrictionStep(ts, pos);
  }

  /** An operand starts at the position. */
  predicate Starts(ts: seq<Token>, pos: nat) {
    At(ts, pos, TokenType.Text) || At(ts, pos, Number) || At(ts, pos, TokenType.String) || At(ts, pos, Minus)
    || At(ts, pos, LeftParen)
  }

  /** One that can stand on the left of a comparison. */
  predicate StartsLeft(ts: seq<Token>, pos: nat) {
    At(ts, pos, TokenType.Text) || At(ts, pos, Number) || At(ts, pos, TokenType.String)
  }

  lemma OperandStarts(ts: seq<Token>, pos: nat, e: Expr)
    requires Canonical(e) && Here(ts, pos, Words(e))
    ensures Starts(ts, pos) && (LeftSide(e) ==> StartsLeft(ts, pos)) && Words(e) != []
  {
    FirstWord(e);
    HereFirst(ts, pos, Words(e));
  }

  ghost predicate ReadsAs(ts: seq<Token>, pos: nat, e: Expr, end: nat) {
    pos <= |ts| && TermAt(ts, pos) == SimpleAt(ts, pos) == ArgAt(ts, pos) == Some((e, end))
  }

  lemma NotBracket(ts: seq<Token>, pos: nat, args: seq<Expr>, r: nat)
    requires |args| == 1 && At(ts, pos, LeftParen) && At(ts, pos + 1, Not) && At(ts, pos + 2, Whitespace)
    requires ReadsAs(ts, pos + 3, args[0], r) && At(ts, r, RightParen)
    ensures ReadsAs(ts, pos, Call(NOT, args), r + 1)
  {
    assert args == [args[0]];
    PrefixedTerm(ts, pos + 1);
    LoneTerm(ts, pos + 1, Call(NOT, args), r);
    BracketParses(ts, pos, Call(NOT, args), r);
  }

  lemma ConnectiveBracket(ts: seq<Token>, pos: nat, name: string, args: seq<Expr>, q: nat, r: nat, end: nat)
    requires Connective(name) && |args| == 2 && At(ts, pos, LeftParen) && Starts(ts, pos + 1)
    requires Here(ts, q, Between(name)) && r == q + |Between(name)| && Starts(ts, r)
    requires ReadsAs(ts, pos + 1, args[0], q) && ReadsAs(ts, r, args[1], end) && At(ts, end, RightParen)
    ensures ReadsAs(ts, pos, Call(name, args), end + 1)
  {
    assert args == [args[0], args[1]];
    PairedTerms(ts, pos + 1, name, args[0], q, args[1], end);
    BracketParses(ts, pos, Call(name, args), end);
  }

  lemma OperatorMeans(name: string)
    requires OperatorOf(name).Some?
    ensures OperatorOf(name).value.ty.ComparisonFunction() == Some(name)
  {}

  lemma {:induction false} ComparisonTerm(ts: seq<Token>, pos: nat, name: string, a: Expr, q: nat, b: Expr, end: nat)
    requires OperatorOf(name).Some? && !(name == HAS && b.Ident?)
    requires StartsLeft(ts, pos) && At(ts, q, OperatorOf(name).value.ty)
    requires ComparableAt(ts, pos) == Some((a, q)) && Starts(ts, q + 1)
    requires ArgAt(ts, q + 1) == Some((b, end))
    ensures TermAt(ts, pos) == Some((Call(name, [a, b]), end))
  {
    OperatorMeans(name);
    assert SkipSpace(ts, q) == q && SkipSpace(ts, q + 1) == q + 1;
    RestrictionStep(ts, pos);
    PlainTerm(ts, pos);
  }

  lemma {:induction false} ComparisonBracket(ts: seq<Token>, pos: nat, name: string, args: seq<Expr>, q: nat, end: nat)
    requires OperatorOf(name).Some? && |args| == 2 && !(name == HAS && args[1].Ident?)
    requires At(ts, pos, LeftParen) && StartsLeft(ts, pos + 1) && At(ts, q, OperatorOf(name).value.ty)
    requires ComparableAt(ts, pos + 1) == Some((args[0], q)) && Starts(ts, q + 1)
    requires ReadsAs(ts, q + 1, args[1], end) && At(ts, end, RightParen)
    ensures ReadsAs(ts, pos, Call(name, args), end + 1)
  {
    assert args == [args[0], args[1]];
    ComparisonTerm(ts, pos + 1, name, args[0], q, args[1], end);
    LoneTerm(ts, pos + 1, Call(name, args), end);
    BracketParses(ts, pos, Call(name, args), end);
  }

  // ----- the round trip -----

  /** Where the parts of a call stand. */
  lemma CallHere(ts: seq<Token>, pos: nat, name: string, args: seq<Spelled>)
    requires Here(ts, pos, ApplyWords(name, args))
    ensures At(ts, pos, TokenType.Text) && ts[pos].value == name && At(ts, pos + 1, LeftParen)
    ensures Here(ts, pos + 2, args) && At(ts, pos + 2 + |args|, RightParen)
  {
    var open := [Spelled(TokenType.Text, name), OPEN];
    HereAround(ts, pos, open, args, [CLOSE]);
    HereFirst(ts, pos, open);
    HereFirst(ts, pos + 1, open[1..]);
    HereFirst(ts, pos + 2 + |args|, [CLOSE]);
  }

  lemma PlainNameApplies(name: string, args: seq<Expr>)
    requires PlainWord(name) && !(Connective(name) && |args| == 2)
    ensures CallWords(name, args) == ApplyWords(name, ArgWords(args))
  {
    PlainIsNoOperator(name);
  }

  lemma {:induction false} ApplyParses(ts: seq<Token>, pos: nat, name: string, args: seq<Expr>, words: seq<Spelled>)
    requires forall i :: 0 <= i < |args| ==> Canonical(args[i])
    requires words == ArgWords(args) && Here(ts, pos, ApplyWords(name, words))
    ensures ComparableAt(ts, pos) == Some((Call(name, args), pos + |ApplyWords(name, words)|))
    decreases args, 2
  {
    var p, r := pos + 2, pos + 2 + |words|;
    CallHere(ts, pos, name, words);
    ArgsParse(ts, p, args);
    CallParses(ts, pos, name, args, r);
  }

  lemma {:induction false} LeftSideParses(ts: seq<Token>, pos: nat, e: Expr)
    requires LeftSide(e) && Here(ts, pos, Words(e)) && Ends(ts, pos + |Words(e)|)
    ensures ComparableAt(ts, pos) == Some((e, pos + |Words(e)|))
    decreases e, 0, 0
  {
    match e {
      case Const(Str(text)) => StringParses(ts, pos, text);
      case Const(Int(i)) => NumberParses(ts, pos, Constant.Int(i));
      case Const(Double(d)) =>
        FractionIsNotNegative(d);
        NumberParses(ts, pos, Constant.Double(d));
      case Ident(_) => PathParses(ts, pos, e);
      case Select(_, _) => PathParses(ts, pos, e);
      case Call(name, args) =>
        PlainNameApplies(name, args);
        ApplyParses(ts, pos, name, args, ArgWords(args));
    }
  }

  lemma LastArg(ts: seq<Token>, pos: nat, args: seq<Expr>, end: nat)
    requires |args| == 1 && Starts(ts, pos) && ReadsAs(ts, pos, args[0], end) && At(ts, end, RightParen)
    ensures ArgsAt(ts, pos) == Some((args, end))
  {
    ArgsStep(ts, pos);
    assert args == [args[0]];
  }

  lemma {:induction false} OneMoreArg(ts: seq<Token>, pos: nat, args: seq<Expr>, q: nat, end: nat)
    requires |args| > 1 && Starts(ts, pos) && ReadsAs(ts, pos, args[0], q) && At(ts, q, Comma)
    requires !At(ts, q + 1, Whitespace) && ArgsAt(ts, q + 1) == Some((args[1..], end))
    ensures ArgsAt(ts, pos) == Some((args, end))
  {
    ArgsStep(ts, pos);
    assert args == [args[0]] + args[1..];
  }

  lemma ArgsHere(ts: seq<Token>, pos: nat, args: seq<Expr>)
    requires |args| > 1 && Here(ts, pos, ArgWords(args))
    ensures var q := pos + |Words(args[0])|;
            Here(ts, pos, Words(args[0])) && At(ts, q, Comma) && Here(ts, q + 1, ArgWords(args[1..]))
            && q + 1 + |ArgWords(args[1..])| == pos + |ArgWords(args)|
  {
    CommaHere(ts, pos, Words(args[0]), ArgWords(args[1..]));
  }

  lemma CommaHere(ts: seq<Token>, pos: nat, a: seq<Spelled>, b: seq<Spelled>)
    requires Here(ts, pos, a + [COMMA] + b)
    ensures Here(ts, pos, a) && At(ts, pos + |a|, Comma) && Here(ts, pos + |a| + 1, b)
  {
    HereAround(ts, pos, a, [COMMA], b);
    HereFirst(ts, pos + |a|, [COMMA]);
  }

  lemma {:induction false} ArgsParse(ts: seq<Token>, pos: nat, args: seq<Expr>)
    requires (forall i :: 0 <= i < |args| ==> Canonical(args[i])) && Here(ts, pos, ArgWords(args))
    requires At(ts, pos + |ArgWords(args)|, RightParen)
    ensures ArgsAt(ts, pos) == Some((args, pos + |ArgWords(args)|)) && !At(ts, pos, Whitespace)
    decreases args, 1
  {
    if |args| == 1 {
      OperandStarts(ts, pos, args[0]);
      Parses(ts, pos, args[0]);
      LastArg(ts, pos, args, pos + |ArgWords(args)|);
    } else if |args| > 1 {
      ManyArgsParse(ts, pos, args);
    } else {
      NoArgsHere(ts, pos);
    }
  }

  lemma {:induction false} ManyArgsParse(ts: seq<Token>, pos: nat, args: seq<Expr>)
    requires |args| > 1 && (forall i :: 0 <= i < |args| ==> Canonical(args[i])) && Here(ts, pos, ArgWords(args))
    requires At(ts, pos + |ArgWords(args)|, RightParen)
    ensures ArgsAt(ts, pos) == Some((args, pos + |ArgWords(args)|)) && !At(ts, pos, Whitespace)
    decreases args, 0, 1
  {
    var q, end := pos + |Words(args[0])|, pos + |ArgWords(args)|;
    FirstArgParses(ts, pos, args, q);
    RestParses(ts, pos, args, q, end);
    OneMoreArg(ts, pos, args, q, end);
  }

  lemma {:induction false} RestParses(ts: seq<Token>, pos: nat, args: seq<Expr>, q: nat, end: nat)
    requires |args| > 1 && (forall i :: 0 <= i < |args| ==> Canonical(args[i])) && Here(ts, pos, ArgWords(args))
    requires q == pos + |Words(args[0])| && end == pos + |ArgWords(args)| && At(ts, end, RightParen)
    ensures ArgsAt(ts, q + 1) == Some((args[1..], end)) && !At(ts, q + 1, Whitespace)
    decreases args, 0, 0
  {
    var rest := args[1..];
    assert forall i :: 0 <= i < |rest| ==> rest[i] == args[i + 1];
    ArgsHere(ts, pos, args);
    ArgsParseTo(ts, q + 1, rest, end);
  }

  lemma {:induction false} ArgsParseTo(ts: seq<Token>, pos: nat, args: seq<Expr>, end: nat)
    requires (forall i :: 0 <= i < |args| ==> Canonical(args[i])) && Here(ts, pos, ArgWords(args))
    requires end == pos + |ArgWords(args)| && At(ts, end, RightParen)
    ensures ArgsAt(ts, pos) == Some((args, end)) && !At(ts, pos, Whitespace)
    decreases args, 2
  {
    ArgsParse(ts, pos, args);
  }

  lemma {:induction false} FirstArgParses(ts: seq<Token>, pos: nat, args: seq<Expr>, q: nat)
    requires |args| > 1 && Canonical(args[0]) && Here(ts, pos, ArgWords(args)) && q == pos + |Words(args[0])|
    ensures Starts(ts, pos) && ReadsAs(ts, pos, args[0], q) && At(ts, q, Comma) && !At(ts, pos, Whitespace)
    decreases args, 0, 0
  {
    ArgsHere(ts, pos, args);
    CloserStops(ts, q);
    OperandReads(ts, pos, args[0], q);
  }

  /** Nothing is read past a comma or a closing bracket. */
  lemma CloserStops(ts: seq<Token>, p: nat)
    requires At(ts, p, Comma) || At(ts, p, RightParen)
    ensures Stops(ts, p)
  {}

  lemma NoArgsHere(ts: seq<Token>, pos: nat)
    requires At(ts, pos, RightParen)
    ensures ArgsAt(ts, pos) == Some(([], pos))
  {}

  lemma {:induction false} NegativeReads(ts: seq<Token>, pos: nat, c: Constant)
    requires NegativeNumber(Const(c)) && Here(ts, pos, Words(Const(c))) && Stops(ts, pos + |Words(Const(c))|)
    ensures ReadsAs(ts, pos, Const(c), pos + |Words(Const(c))|)
  {
    var end := pos + 1 + |MagnitudeWords(c)|;
    assert Words(Const(c)) == [MINUS] + MagnitudeWords(c);
    NegativeParses(ts, pos, c);
    MinusReads(ts, pos, c, end);
  }

  lemma MinusReads(ts: seq<Token>, pos: nat, c: Constant, end: nat)
    requires (c.Int? || c.Double?) && At(ts, pos, Minus) && At(ts, pos + 1, Number) && Stops(ts, end)
    requires ComparableAt(ts, pos) == Some((Const(c), end)) && ComparableAt(ts, pos + 1) == Some((Const(Opposite(c)), end))
    ensures ReadsAs(ts, pos, Const(c), end)
  {
    ComparableAlone(ts, pos, Const(c), end);
    ComparableAlone(ts, pos + 1, Const(Opposite(c)), end);
    PrefixedTerm(ts, pos);
  }

  /** The canonical words at a position are read as the expression they spell, as a term, as
      a simple and as an argument, when nothing behind them extends it. */
  lemma {:induction false} Parses(ts: seq<Token>, pos: nat, e: Expr)
    requires Canonical(e) && Here(ts, pos, Words(e)) && Stops(ts, pos + |Words(e)|)
    ensures ReadsAs(ts, pos, e, pos + |Words(e)|)
    decreases e, 1
  {
    if LeftSide(e) {
      LeftOperandParses(ts, pos, e, pos + |Words(e)|);
    } else if e.Const? {
      NegativeReads(ts, pos, e.constant);
    } else {
      CompoundParses(ts, pos, e, pos + |Words(e)|);
    }
  }

  lemma {:induction false} LeftOperandParses(ts: seq<Token>, pos: nat, e: Expr, end: nat)
    requires LeftSide(e) && Here(ts, pos, Words(e)) && end == pos + |Words(e)| && Stops(ts, end)
    ensures ReadsAs(ts, pos, e, end)
    decreases e, 0, 2
  {
    LeftReads(ts, pos, e, end);
    LeftAlone(ts, pos, e, end);
  }

  lemma {:induction false} CompoundParses(ts: seq<Token>, pos: nat, e: Expr, end: nat)
    requires Canonical(e) && !LeftSide(e) && !e.Const? && Here(ts, pos, Words(e)) && end == pos + |Words(e)|
    ensures ReadsAs(ts, pos, e, end)
    decreases e, 0, 2
  {
    CompoundIsCall(e);
    BracketedParses(ts, pos, e.name, e.args, Words(e));
  }

  lemma CompoundIsCall(e: Expr)
    requires Canonical(e) && !LeftSide(e) && !e.Const?
    ensures e.Call? && e == Call(e.name, e.args) && Words(e) == CallWords(e.name, e.args)
  {}

  lemma {:induction false} OperandReads(ts: seq<Token>, pos: nat, e: Expr, end: nat)
    requires Canonical(e) && Here(ts, pos, Words(e)) && end == pos + |Words(e)| && Stops(ts, end)
    ensures Starts(ts, pos) && ReadsAs(ts, pos, e, end)
    decreases e, 2
  {
    OperandStarts(ts, pos, e);
    Parses(ts, pos, e);
  }

  lemma {:induction false} LeftReads(ts: seq<Token>, pos: nat, e: Expr, end: nat)
    requires LeftSide(e) && Here(ts, pos, Words(e)) && end == pos + |Words(e)| && Ends(ts, end)
    ensures StartsLeft(ts, pos) && ComparableAt(ts, pos) == Some((e, end))
    decreases e, 0, 1
  {
    OperandStarts(ts, pos, e);
    LeftSideParses(ts, pos, e);
  }

  lemma LeftAlone(ts: seq<Token>, pos: nat, e: Expr, end: nat)
    requires StartsLeft(ts, pos) && ComparableAt(ts, pos) == Some((e, end)) && Stops(ts, end)
    ensures ReadsAs(ts, pos, e, end)
  {
    ComparableAlone(ts, pos, e, end);
    PlainTerm(ts, pos);
  }

  /** What a canonical call with brackets can be. */
  lemma BracketedShape(name: string, args: seq<Expr>)
    requires Canonical(Call(name, args)) && !LeftSide(Call(name, args))
    ensures (name == NOT && |args| == 1 && Canonical(args[0]))
            || (Connective(name) && |args| == 2 && Canonical(args[0]) && Canonical(args[1]))
            || (OperatorOf(name).Some? && |args| == 2 && LeftSide(args[0]) && Canonical(args[1])
                && !(name == HAS && args[1].Ident?))
  {}

  lemma BracketedWords(name: string, args: seq<Expr>)
    ensures name == NOT && |args| == 1 ==> CallWords(name, args) == NotWords(Words(args[0]))
    ensures Connective(name) && |args| == 2 ==> CallWords(name, args) == PairWords(Words(args[0]), Between(name), Words(args[1]))
    ensures OperatorOf(name).Some? && |args| == 2 ==>
              CallWords(name, args) == PairWords(Words(args[0]), [OperatorOf(name).value], Words(args[1]))
  {
    assert !Connective(NOT) && OperatorOf(NOT).None?;
    assert Connective(name) ==> OperatorOf(name).None?;
  }

  lemma {:induction false} PairParses(ts: seq<Token>, pos: nat, name: string, args: seq<Expr>, words: seq<Spelled>,
                                      a: seq<Spelled>, b: seq<Spelled>)
    requires |args| == 2 && a == Words(args[0]) && b == Words(args[1]) && Canonical(args[1]) && Here(ts, pos, words)
    requires if Connective(name) then Canonical(args[0]) && words == PairWords(a, Between(name), b)
             else OperatorOf(name).Some? && LeftSide(args[0]) && !(name == HAS && args[1].Ident?)
                  && words == PairWords(a, [OperatorOf(name).value], b)
    ensures ReadsAs(ts, pos, Call(name, args), pos + |words|)
    decreases args, 3
  {
    if Connective(name) {
      ConnectiveParses(ts, pos, name, args, a, b);
    } else {
      ComparisonParses(ts, pos, name, args, a, b);
    }
  }

  lemma {:induction false} BracketedParses(ts: seq<Token>, pos: nat, name: string, args: seq<Expr>, words: seq<Spelled>)
    requires Canonical(Call(name, args)) && !LeftSide(Call(name, args))
    requires words == CallWords(name, args) && Here(ts, pos, words)
    ensures ReadsAs(ts, pos, Call(name, args), pos + |words|)
    decreases args, 4
  {
    BracketedShape(name, args);
    BracketedWords(name, args);
    if name == NOT && |args| == 1 {
      NotParses(ts, pos, args, Words(args[0]));
    } else {
      PairParses(ts, pos, name, args, words, Words(args[0]), Words(args[1]));
    }
  }

  lemma NotHere(ts: seq<Token>, pos: nat, a: seq<Spelled>)
    requires Here(ts, pos, NotWords(a))
    ensures At(ts, pos, LeftParen) && At(ts, pos + 1, Not) && At(ts, pos + 2, Whitespace)
    ensures Here(ts, pos + 3, a) && At(ts, pos + 3 + |a|, RightParen) && |NotWords(a)| == |a| + 4
  {
    var open := [OPEN, Spelled(TokenType.Not, "NOT"), SPACE];
    HereAround(ts, pos, open, a, [CLOSE]);
    HereFirst(ts, pos, open);
    HereFirst(ts, pos + 1, open[1..]);
    HereFirst(ts, pos + 2, open[1..][1..]);
    HereFirst(ts, pos + 3 + |a|, [CLOSE]);
  }

  lemma {:induction false} NotParses(ts: seq<Token>, pos: nat, args: seq<Expr>, a: seq<Spelled>)
    requires |args| == 1 && Canonical(args[0]) && a == Words(args[0]) && Here(ts, pos, NotWords(a))
    ensures ReadsAs(ts, pos, Call(NOT, args), pos + |NotWords(a)|)
    decreases args, 2
  {
    var p, q := pos + 3, pos + 3 + |a|;
    NotHere(ts, pos, a);
    CloserStops(ts, q);
    OperandReads(ts, p, args[0], q);
    NotBracket(ts, pos, args, q);
  }

  /** No comparator follows an operand in front of a connective. */
  lemma BetweenStops(ts: seq<Token>, q: nat, name: string)
    requires Connective(name) && Here(ts, q, Between(name)) && Starts(ts, q + |Between(name)|)
    ensures Stops(ts, q)
  {
    HereFirst(ts, q, Between(name));
    if name != FUZZY {
      HereFirst(ts, q + 1, Between(name)[1..]);
    }
  }

  /** Where the parts of a canonical connective stand. */
  lemma ConnectiveHere(ts: seq<Token>, pos: nat, a: seq<Spelled>, middle: seq<Spelled>, b: seq<Spelled>)
    returns (p: nat, q: nat, r: nat, end: nat)
    requires Here(ts, pos, PairWords(a, middle, b))
    ensures p == pos + 1 && q == p + |a| && r == q + |middle| && end == r + |b|
    ensures Here(ts, p, a) && Here(ts, q, middle) && Here(ts, r, b) && At(ts, end, RightParen)
  {
    PairHere(ts, pos, a, middle, b);
    p := pos + 1;
    q := p + |a|;
    r := q + |middle|;
    end := r + |b|;
  }

  lemma {:induction false} ConnectiveReads(ts: seq<Token>, pos: nat, name: string, args: seq<Expr>, a: seq<Spelled>, b: seq<Spelled>,
                        p: nat, q: nat, r: nat, end: nat)
    requires Connective(name) && |args| == 2 && Here(ts, pos, PairWords(a, Between(name), b))
    requires p == pos + 1 && q == p + |a| && r == q + |Between(name)| && end == r + |b|
    requires Starts(ts, p) && ReadsAs(ts, p, args[0], q) && Starts(ts, r) && ReadsAs(ts, r, args[1], end)
    ensures ReadsAs(ts, pos, Call(name, args), pos + |PairWords(a, Between(name), b)|)
  {
    PairHere(ts, pos, a, Between(name), b);
    ConnectiveBracket(ts, pos, name, args, q, r, end);
  }

  lemma TermsStart(ts: seq<Token>, p: nat, q: nat, name: string, r: nat, a: Expr, b: Expr)
    requires Connective(name) && Canonical(a) && Canonical(b)
    requires Here(ts, p, Words(a)) && Here(ts, q, Between(name)) && r == q + |Between(name)| && Here(ts, r, Words(b))
    ensures Starts(ts, p) && Starts(ts, r) && Stops(ts, q)
  {
    OperandStarts(ts, p, a);
    OperandStarts(ts, r, b);
    BetweenStops(ts, q, name);
  }

  lemma {:induction false} TermsParse(ts: seq<Token>, p: nat, q: nat, name: string, r: nat, end: nat, args: seq<Expr>,
                                      a: seq<Spelled>, b: seq<Spelled>)
    requires Connective(name) && |args| == 2 && Canonical(args[0]) && Canonical(args[1])
    requires a == Words(args[0]) && b == Words(args[1])
    requires Here(ts, p, a) && q == p + |a| && Here(ts, q, Between(name)) && r == q + |Between(name)|
    requires Here(ts, r, b) && end == r + |b| && Stops(ts, end)
    ensures Starts(ts, p) && ReadsAs(ts, p, args[0], q)
    ensures Starts(ts, r) && ReadsAs(ts, r, args[1], end)
    decreases args, 1
  {
    TermsStart(ts, p, q, name, r, args[0], args[1]);
    OperandReads(ts, p, args[0], q);
    OperandReads(ts, r, args[1], end);
  }

  lemma {:induction false} ConnectiveParses(ts: seq<Token>, pos: nat, name: string, args: seq<Expr>,
                                            a: seq<Spelled>, b: seq<Spelled>)
    requires Connective(name) && |args| == 2 && Canonical(args[0]) && Canonical(args[1])
    requires a == Words(args[0]) && b == Words(args[1]) && Here(ts, pos, PairWords(a, Between(name), b))
    ensures ReadsAs(ts, pos, Call(name, args), pos + |PairWords(a, Between(name), b)|)
    decreases args, 2
  {
    var p, q, r, end := ConnectiveHere(ts, pos, a, Between(name), b);
    TermsParse(ts, p, q, name, r, end, args, a, b);
    ConnectiveReads(ts, pos, name, args, a, b, p, q, r, end);
  }

  lemma ComparisonHere(ts: seq<Token>, pos: nat, name: string, a: seq<Spelled>, b: seq<Spelled>) returns (q: nat, end: nat)
    requires OperatorOf(name).Some? && Here(ts, pos, PairWords(a, [OperatorOf(name).value], b))
    ensures q == pos + 1 + |a| && end == q + 1 + |b| && end + 1 == pos + |PairWords(a, [OperatorOf(name).value], b)|
    ensures At(ts, pos, LeftParen) && Here(ts, pos + 1, a) && Here(ts, q + 1, b)
    ensures At(ts, q, OperatorOf(name).value.ty) && At(ts, end, RightParen)
  {
    PairHere(ts, pos, a, [OperatorOf(name).value], b);
    q := pos + 1 + |a|;
    end := q + 1 + |b|;
    HereFirst(ts, q, [OperatorOf(name).value]);
  }

  lemma {:induction false} SidesParse(ts: seq<Token>, p: nat, q: nat, r: nat, end: nat, args: seq<Expr>,
                                      a: seq<Spelled>, b: seq<Spelled>)
    requires |args| == 2 && LeftSide(args[0]) && Canonical(args[1])
    requires a == Words(args[0]) && b == Words(args[1])
    requires Here(ts, p, a) && q == p + |a| && Ends(ts, q) && r == q + 1
    requires Here(ts, r, b) && end == r + |b| && Stops(ts, end)
    ensures StartsLeft(ts, p) && ComparableAt(ts, p) == Some((args[0], q))
    ensures Starts(ts, r) && ReadsAs(ts, r, args[1], end)
    decreases args, 1
  {
    LeftReads(ts, p, args[0], q);
    OperandReads(ts, r, args[1], end);
  }

  lemma ComparisonReads(ts: seq<Token>, pos: nat, name: string, args: seq<Expr>, a: seq<Spelled>, b: seq<Spelled>,
                        p: nat, q: nat, r: nat, end: nat)
    requires OperatorOf(name).Some? && |args| == 2 && !(name == HAS && args[1].Ident?)
    requires Here(ts, pos, PairWords(a, [OperatorOf(name).value], b))
    requires p == pos + 1 && q == p + |a| && r == q + 1 && end == r + |b|
    requires StartsLeft(ts, p) && ComparableAt(ts, p) == Some((args[0], q))
    requires Starts(ts, r) && ReadsAs(ts, r, args[1], end)
    ensures ReadsAs(ts, pos, Call(name, args), pos + |PairWords(a, [OperatorOf(name).value], b)|)
  {
    var left, after := ComparisonHere(ts, pos, name, a, b);
    ComparisonBracket(ts, pos, name, args, q, end);
  }

  lemma {:induction false} ComparisonParses(ts: seq<Token>, pos: nat, name: string, args: seq<Expr>,
                                            a: seq<Spelled>, b: seq<Spelled>)
    requires OperatorOf(name).Some? && |args| == 2 && LeftSide(args[0]) && Canonical(args[1])
    requires !(name == HAS && args[1].Ident?)
    requires a == Words(args[0]) && b == Words(args[1]) && Here(ts, pos, PairWords(a, [OperatorOf(name).value], b))
    ensures ReadsAs(ts, pos, Call(name, args), pos + |PairWords(a, [OperatorOf(name).value], b)|)
    decreases args, 2
  {
    var q, end := ComparisonHere(ts, pos, name, a, b);
    var p, r := pos + 1, q + 1;
    SidesParse(ts, p, q, r, end, args, a, b);
    ComparisonReads(ts, pos, name, args, a, b, p, q, r, end);
  }

  lemma {:induction false} PlacedHere(words: seq<Spelled>, offset: nat)
    ensures |Placed(words, offset)| == |words| && Here(Placed(words, offset), 0, words)
  {
    if words != [] {
      var rest := Placed(words[1..], offset + ByteLength(words[0].value));
      PlacedHere(words[1..], offset + ByteLength(words[0].value));
      forall i | 0 < i < |words| ensures Is(Placed(words, offset)[i], words[i]) {
        assert Is(rest[0 + (i - 1)], words[1..][i - 1]);
      }
    }
  }

  lemma AllParses(ts: seq<Token>, e: Expr)
    requires Canonical(e) && Here(ts, 0, Words(e)) && |ts| == |Words(e)|
    ensures ExpressionAt(ts, 0) == Some((e, |ts|))
  {
    OperandStarts(ts, 0, e);
    Parses(ts, 0, e);
    LoneTerm(ts, 0, e, |ts|);
  }

  lemma {:induction false} NotTrimmed(ts: seq<Token>, words: seq<Spelled>)
    requires Operand(words) && Here(ts, 0, words) && |ts| == |words|
    ensures TrimEnd(ts) == ts && ts != []
  {
    HereLast(ts, 0, words);
  }

  lemma ParsedTokens(filter: string, ts: seq<Token>, e: Expr)
    requires Tokens(filter, 0) == Ok(ts) && TrimEnd(ts) == ts && ts != [] && ExpressionAt(ts, 0) == Some((e, |ts|))
    ensures ParseFilter(filter) == Ok(e)
  {}

  /** Printing and parsing undo each other: the canonical spelling of any expression built
      from connectives, negation, comparisons and calls of plain names, over paths with quoted
      segments, strings, 64-bit integers and decimal fractions parses to that expression. */
  lemma ParseOfPrint(e: Expr)
    requires Canonical(e)
    ensures ParseFilter(Print(e)) == Ok(e)
  {
    PrintLexes(e);
    var ts := Placed(Words(e), 0);
    PlacedHere(Words(e), 0);
    NotTrimmed(ts, Words(e));
    AllParses(ts, e);
    ParsedTokens(Print(e), ts, e);
  }

  // ----- where the round trip fails -----

  /** A comparison whose left side is a number. */
  function NumberComparison(name: string, c: Constant, right: Expr): Expr {
    Call(name, [Const(c), right])
  }

  lemma NumberComparisonWords(name: string, c: Constant, right: Expr)
    requires OperatorOf(name).Some?
    ensures Words(NumberComparison(name, c, right))
            == PairWords(Words(Const(c)), [OperatorOf(name).value], Words(right))
  {
    assert Words(NumberComparison(name, c, right)) == CallWords(name, [Const(c), right]);
  }

  lemma {:induction false} NegativeTerm(ts: seq<Token>, pos: nat, name: string, c: Constant, right: Expr, q: nat, end: nat)
    requires OperatorOf(name).Some? && !(name == HAS && right.Ident?) && NegativeNumber(Const(c)) && q == pos + |Words(Const(c))|
    requires Here(ts, pos, Words(Const(c))) && At(ts, q, OperatorOf(name).value.ty)
    requires Starts(ts, q + 1) && ArgAt(ts, q + 1) == Some((right, end))
    ensures At(ts, pos, Minus) && TermAt(ts, pos) == Some((Call(NOT, [Call(name, [Const(Opposite(c)), right])]), end))
  {
    NegativeHere(ts, pos, name, c, q);
    ComparisonTerm(ts, pos + 1, name, Const(Opposite(c)), q, right, end);
    MinusNegates(ts, pos, Call(name, [Const(Opposite(c)), right]), end);
  }

  /** Behind the minus stands the magnitude. */
  lemma NegativeHere(ts: seq<Token>, pos: nat, name: string, c: Constant, q: nat)
    requires NegativeNumber(Const(c)) && q == pos + |Words(Const(c))| && Here(ts, pos, Words(Const(c)))
    requires OperatorOf(name).Some? && At(ts, q, OperatorOf(name).value.ty)
    ensures At(ts, pos, Minus) && At(ts, pos + 1, Number) && ComparableAt(ts, pos + 1) == Some((Const(Opposite(c)), q))
  {
    assert Words(Const(c)) == [MINUS] + MagnitudeWords(c);
    NegativeParses(ts, pos, c);
  }

  /** A minus in front of a term that is no number negates it. */
  lemma MinusNegates(ts: seq<Token>, pos: nat, e: Expr, end: nat)
    requires At(ts, pos, Minus) && At(ts, pos + 1, Number) && TermAt(ts, pos + 1) == Some((e, end)) && e.Call?
    ensures TermAt(ts, pos) == Some((Call(NOT, [e]), end))
  {
    PlainTerm(ts, pos + 1);
    PrefixedTerm(ts, pos);
  }

  /** The grammar gives the minus to the whole term: the canonical spelling of a comparison
      with a negative number on its left parses to the negated comparison of its magnitude. */
  lemma NegativeLeftNegates(name: string, c: Constant, right: Expr)
    requires OperatorOf(name).Some? && Canonical(right) && !(name == HAS && right.Ident?) && NegativeNumber(Const(c))
    ensures ParseFilter(Print(NumberComparison(name, c, right)))
            == Ok(Call(NOT, [Call(name, [Const(Opposite(c)), right])]))
  {
    var e := NumberComparison(name, c, right);
    var left := Words(Const(c));
    var meant := Call(NOT, [Call(name, [Const(Opposite(c)), right])]);
    NumberComparisonWords(name, c, right);
    NumberIsOperand(c);
    CanonicalIsOperand(right);
    OperatorIsJoint(name);
    PairIsOperand(left, [OperatorOf(name).value], Words(right));
    SpacedIsSeparable(Words(e));
    LexOfSpelling(Words(e));
    var ts := Placed(Words(e), 0);
    PlacedHere(Words(e), 0);
    NotTrimmed(ts, Words(e));
    NegativeParsesWhole(ts, 0, name, c, right, meant);
    ParsedTokens(Print(e), ts, meant);
  }

  lemma WholeBracket(ts: seq<Token>, pos: nat, e: Expr, end: nat)
    requires At(ts, pos, LeftParen) && !At(ts, pos + 1, Whitespace) && TermAt(ts, pos + 1) == Some((e, end))
    requires At(ts, end, RightParen) && end + 1 == |ts|
    ensures ExpressionAt(ts, pos) == Some((e, |ts|))
  {
    LoneTerm(ts, pos + 1, e, end);
    BracketParses(ts, pos, e, end);
    LoneTerm(ts, pos, e, |ts|);
  }

  /** Inside its brackets the comparison is one negated term. */
  lemma {:induction false} NegativeInside(ts: seq<Token>, pos: nat, name: string, c: Constant, right: Expr, a: seq<Spelled>, b: seq<Spelled>)
    returns (end: nat)
    requires OperatorOf(name).Some? && Canonical(right) && !(name == HAS && right.Ident?) && NegativeNumber(Const(c))
    requires a == Words(Const(c)) && b == Words(right) && Here(ts, pos, PairWords(a, [OperatorOf(name).value], b))
    ensures At(ts, pos, LeftParen) && At(ts, pos + 1, Minus) && At(ts, end, RightParen)
    ensures end + 1 == pos + |PairWords(a, [OperatorOf(name).value], b)|
    ensures TermAt(ts, pos + 1) == Some((Call(NOT, [Call(name, [Const(Opposite(c)), right])]), end))
  {
    var q, after := ComparisonHere(ts, pos, name, a, b);
    end := after;
    RightParses(ts, q + 1, right, end);
    NegativeTerm(ts, pos + 1, name, c, right, q, end);
  }

  lemma NegativeParsesWhole(ts: seq<Token>, pos: nat, name: string, c: Constant, right: Expr, meant: Expr)
    requires OperatorOf(name).Some? && Canonical(right) && !(name == HAS && right.Ident?) && NegativeNumber(Const(c))
    requires meant == Call(NOT, [Call(name, [Const(Opposite(c)), right])])
    requires var words := PairWords(Words(Const(c)), [OperatorOf(name).value], Words(right));
             Here(ts, pos, words) && |ts| == pos + |words|
    ensures ExpressionAt(ts, pos) == Some((meant, |ts|))
  {
    var end := NegativeInside(ts, pos, name, c, right, Words(Const(c)), Words(right));
    WholeBracket(ts, pos, meant, end);
  }

  lemma RightParses(ts: seq<Token>, pos: nat, e: Expr, end: nat)
    requires Canonical(e) && Here(ts, pos, Words(e)) && end == pos + |Words(e)| && At(ts, end, RightParen)
    ensures Starts(ts, pos) && ArgAt(ts, pos) == Some((e, end))
  {
    CloserStops(ts, end);
    OperandReads(ts, pos, e, end);
  }

  /** So a comparison with a number on its left survives the round trip exactly when that
      number is not negative. */
  lemma NumberLeftRoundTripsExactly(name: string, c: Constant, right: Expr)
    requires OperatorOf(name).Some? && Canonical(right) && !(name == HAS && right.Ident?)
    requires (c.Int? || c.Double?) && Canonical(Const(c))
    ensures ParseFilter(Print(NumberComparison(name, c, right))) == Ok(NumberComparison(name, c, right)) <==> !Negative(c)
  {
    var e := NumberComparison(name, c, right);
    if Negative(c) {
      if c.Double? && IsFraction(c.d) {
        FractionIsNotNegative(c.d);
      }
      NegativeLeftNegates(name, c, right);
      assert OperatorOf(NOT).None?;
    } else {
      assert LeftSide(e.args[0]);
      assert Canonical(e);
      ParseOfPrint(e);
    }
  }

  // ----- whitespace inside brackets -----

  function MaybeSpace(space: bool): seq<Spelled> {
    if space then [SPACE] else []
  }

  /** An expression in brackets, with or without whitespace inside them. */
  ghost function Bracketing(e: Expr, before: bool, after: bool): seq<Spelled> {
    [OPEN] + MaybeSpace(before) + Words(e) + (MaybeSpace(after) + [CLOSE])
  }

  lemma {:induction false} BracketingIsRun(e: Expr, before: bool, after: bool)
    requires Canonical(e)
    ensures Run(Bracketing(e, before, after))
  {
    CanonicalIsOperand(e);
    OpeningIsRun(before);
    ClosingIsRun(after);
    RunConcat([OPEN] + MaybeSpace(before), Words(e));
    RunConcat([OPEN] + MaybeSpace(before) + Words(e), MaybeSpace(after) + [CLOSE]);
  }

  lemma OpeningIsRun(before: bool)
    ensures Run([OPEN] + MaybeSpace(before))
    ensures Last([OPEN] + MaybeSpace(before)) == if before then SPACE else OPEN
  {
    assert Run([OPEN]) && Run([SPACE]);
    if before {
      RunConcat([OPEN], [SPACE]);
    } else {
      assert [OPEN] + [] == [OPEN];
    }
  }

  lemma ClosingIsRun(after: bool)
    ensures Run(MaybeSpace(after) + [CLOSE])
    ensures (MaybeSpace(after) + [CLOSE])[0] == if after then SPACE else CLOSE
  {
    assert Run([CLOSE]) && Run([SPACE]);
    if after {
      RunConcat([SPACE], [CLOSE]);
    } else {
      assert [] + [CLOSE] == [CLOSE];
    }
  }

  lemma BracketingHere(ts: seq<Token>, e: Expr, before: bool, after: bool) returns (p: nat, q: nat)
    requires Here(ts, 0, Bracketing(e, before, after)) && |ts| == |Bracketing(e, before, after)|
    ensures At(ts, 0, LeftParen) && p == (if before then 2 else 1) && (before ==> At(ts, 1, Whitespace))
    ensures Here(ts, p, Words(e)) && q == p + |Words(e)|
    ensures if after then At(ts, q, Whitespace) && At(ts, q + 1, RightParen) && q + 2 == |ts|
            else At(ts, q, RightParen) && q + 1 == |ts|
  {
    var open, close := [OPEN] + MaybeSpace(before), MaybeSpace(after) + [CLOSE];
    HereAround(ts, 0, open, Words(e), close);
    p := |open|;
    q := p + |Words(e)|;
    OpeningHere(ts, 0, before);
    ClosingHere(ts, q, after);
  }

  lemma OpeningHere(ts: seq<Token>, pos: nat, before: bool)
    requires Here(ts, pos, [OPEN] + MaybeSpace(before))
    ensures At(ts, pos, LeftParen) && (before ==> At(ts, pos + 1, Whitespace))
  {
    HereSplit(ts, pos, [OPEN], MaybeSpace(before));
    HereFirst(ts, pos, [OPEN]);
    if before {
      HereFirst(ts, pos + 1, [SPACE]);
    }
  }

  lemma ClosingHere(ts: seq<Token>, pos: nat, after: bool)
    requires Here(ts, pos, MaybeSpace(after) + [CLOSE])
    ensures if after then At(ts, pos, Whitespace) && At(ts, pos + 1, RightParen) else At(ts, pos, RightParen)
  {
    HereSplit(ts, pos, MaybeSpace(after), [CLOSE]);
    if after {
      HereFirst(ts, pos, [SPACE]);
      HereFirst(ts, pos + 1, [CLOSE]);
    } else {
      HereFirst(ts, pos, [CLOSE]);
    }
  }

  /** Nothing starts at a closing bracket. */
  lemma NothingStarts(ts: seq<Token>, p: nat)
    requires At(ts, p, RightParen)
    ensures FactorAt(ts, p).None?
  {
    NotAFunction(ts, p);
    ComparableStep(ts, p);
    RestrictionStep(ts, p);
    PlainTerm(ts, p);
  }

  /** A sequence in front of whitespace and a closing bracket reads on and fails. */
  lemma SequenceFails(ts: seq<Token>, p: nat, e: Expr, q: nat)
    requires p <= |ts| && TermAt(ts, p) == Some((e, q)) && At(ts, q, Whitespace) && At(ts, q + 1, RightParen)
    ensures ParseSequence(ts, p).None?
  {
    LoneFactor(ts, p, e, q);
    NothingStarts(ts, q + 1);
    FuzziesStep(ts, q + 1);
    FuzziesStep(ts, p);
  }

  lemma BracketFails(ts: seq<Token>, p: nat)
    requires At(ts, 0, LeftParen) && p == SkipSpace(ts, 1) && p <= |ts| && !At(ts, p, Whitespace) && ParseSequence(ts, p).None?
    ensures ParseExpression(ts, 0).None?
  {
    assert ParseExpression(ts, p).None?;
    assert ParseComposite(ts, 0).None?;
    assert ParseSimple(ts, 0).None? && PrefixLength(ts, 0) == 0;
    assert ParseTerm(ts, 0).None?;
    assert ParseFactor(ts, 0).None?;
    assert ParseSequence(ts, 0).None?;
  }

  lemma {:induction false} BracketingParses(ts: seq<Token>, e: Expr, before: bool, after: bool)
    requires Canonical(e) && Here(ts, 0, Bracketing(e, before, after)) && |ts| == |Bracketing(e, before, after)|
    ensures if after then ParseExpression(ts, 0).None? else ExpressionAt(ts, 0) == Some((e, |ts|))
  {
    var p, q := BracketingHere(ts, e, before, after);
    OperandStarts(ts, p, e);
    Parses(ts, p, e);
    if after {
      SequenceFails(ts, p, e, q);
      BracketFails(ts, p);
    } else {
      LoneTerm(ts, p, e, q);
      BracketParses(ts, 0, e, q);
      LoneTerm(ts, 0, e, |ts|);
    }
  }

  lemma RefusedTokens(filter: string, ts: seq<Token>)
    requires Tokens(filter, 0) == Ok(ts) && TrimEnd(ts) == ts && ts != [] && ParseExpression(ts, 0).None?
    ensures ParseFilter(filter) == Err(Syntax)
  {}

  /** Brackets around a canonical expression may hold whitespace behind the opening one; the
      filter is accepted, as that expression, exactly when there is none in front of the
      closing one. */
  lemma BracketedExactly(e: Expr, before: bool, after: bool)
    requires Canonical(e)
    ensures ParseFilter(Spelling(Bracketing(e, before, after))) == if after then Err(Syntax) else Ok(e)
  {
    var words := Bracketing(e, before, after);
    BracketingIsRun(e, before, after);
    SpacedIsSeparable(words);
    LexOfSpelling(words);
    var ts := Placed(words, 0);
    PlacedHere(words, 0);
    HereLast(ts, 0, words);
    BracketingParses(ts, e, before, after);
    if after {
      RefusedTokens(Spelling(words), ts);
    } else {
      ParsedTokens(Spelling(words), ts, e);
    }
  }

  /** `( a )` is refused where `(a)` and `( a)` are accepted. */
  lemma SpacedBracketIsRefused()
    ensures ParseFilter("(" + "a" + ")") == ParseFilter("(" + " " + "a" + ")") == Ok(Ident("a"))
    ensures ParseFilter("(" + " " + "a" + " " + ")") == Err(Syntax)
  {
    var e := Ident("a");
    assert PlainWord("a") by {
      assert IsText('a');
    }
    assert Words(e) == [Spelled(TokenType.Text, "a")];
    var a := Spelled(TokenType.Text, "a");
    assert Bracketing(e, false, false) == [OPEN, a, CLOSE];
    assert Bracketing(e, true, false) == [OPEN, SPACE, a, CLOSE];
    assert Bracketing(e, true, true) == [OPEN, SPACE, a, SPACE, CLOSE];
    SpellFive(OPEN, SPACE, a, SPACE, CLOSE);
    BracketedExactly(e, false, false);
    BracketedExactly(e, true, false);
    BracketedExactly(e, true, true);
  }

  lemma SpellFive(a: Spelled, b: Spelled, c: Spelled, d: Spelled, e: Spelled)
    ensures Spelling([a, c, e]) == a.value + c.value + e.value
    ensures Spelling([a, b, c, e]) == a.value + b.value + c.value + e.value
    ensures Spelling([a, b, c, d, e]) == a.value + b.value + c.value + d.value + e.value
  {
    SpellCons(a, [c, e]);
    SpellCons(c, [e]);
    SpellCons(a, [b, c, e]);
    SpellCons(b, [c, e]);
    SpellCons(a, [b, c, d, e]);
    SpellCons(b, [c, d, e]);
    SpellCons(c, [d, e]);
    SpellCons(d, [e]);
  }

  lemma SpellCons(first: Spelled, rest: seq<Spelled>)
    ensures Spelling([first] + rest) == first.value + Spelling(rest)
  {
    assert ([first] + rest)[1..] == rest;
  }

  // ----- a comma behind the last argument -----

  /** A call of one argument with a comma behind it. */
  ghost function CommaCall(name: string, arg: Expr): seq<Spelled> {
    ApplyWords(name, Words(arg) + [COMMA])
  }

  lemma CommaCallIsRun(name: string, arg: Expr)
    requires PlainWord(name) && Canonical(arg)
    ensures Run(CommaCall(name, arg))
  {
    var open := [Spelled(TokenType.Text, name), OPEN];
    CanonicalIsOperand(arg);
    OpenCallIsRun(name);
    RunConcat(Words(arg), [COMMA]);
    RunConcat(open, Words(arg) + [COMMA]);
    RunConcat(open + (Words(arg) + [COMMA]), [CLOSE]);
  }

  lemma OpenCallIsRun(name: string)
    requires PlainWord(name)
    ensures Run([Spelled(TokenType.Text, name), OPEN]) && Run([COMMA]) && Run([CLOSE])
  {}

  lemma CommaCallHere(ts: seq<Token>, name: string, arg: Expr) returns (q: nat)
    requires Here(ts, 0, CommaCall(name, arg)) && |ts| == |CommaCall(name, arg)|
    ensures q == 2 + |Words(arg)| && q + 2 == |ts|
    ensures At(ts, 0, TokenType.Text) && ts[0].value == name && At(ts, 1, LeftParen)
    ensures Here(ts, 2, Words(arg)) && At(ts, q, Comma) && At(ts, q + 1, RightParen)
  {
    CallHere(ts, 0, name, Words(arg) + [COMMA]);
    q := 2 + |Words(arg)|;
    HereSplit(ts, 2, Words(arg), [COMMA]);
    HereFirst(ts, q, [COMMA]);
  }

  lemma CommaArgs(ts: seq<Token>, pos: nat, arg: Expr, q: nat)
    requires Starts(ts, pos) && ReadsAs(ts, pos, arg, q) && At(ts, q, Comma) && At(ts, q + 1, RightParen)
    ensures ArgsAt(ts, pos) == Some(([arg], q + 1))
  {
    NoArgsHere(ts, q + 1);
    ArgsStep(ts, pos);
    assert [arg] + [] == [arg];
  }

  lemma CommaCallParses(ts: seq<Token>, name: string, arg: Expr)
    requires Canonical(arg) && Here(ts, 0, CommaCall(name, arg)) && |ts| == |CommaCall(name, arg)|
    ensures ExpressionAt(ts, 0) == Some((Call(name, [arg]), |ts|)) && TrailingCommas.TrailingComma(ts)
  {
    var q := CommaCallHere(ts, name, arg);
    CloserStops(ts, q);
    OperandReads(ts, 2, arg, q);
    CommaArgs(ts, 2, arg, q);
    WholeCall(ts, name, [arg], q + 1);
    assert TrailingCommas.CommaCloses(ts, q, q + 1);
  }

  lemma WholeCall(ts: seq<Token>, name: string, args: seq<Expr>, r: nat)
    requires At(ts, 0, TokenType.Text) && ts[0].value == name && At(ts, 1, LeftParen) && !At(ts, 2, Whitespace)
    requires 2 <= |ts| && ArgsAt(ts, 2) == Some((args, r)) && At(ts, r, RightParen) && r + 1 == |ts|
    ensures ExpressionAt(ts, 0) == Some((Call(name, args), |ts|))
  {
    CallParses(ts, 0, name, args, r);
    LeftAlone(ts, 0, Call(name, args), r + 1);
    LoneTerm(ts, 0, Call(name, args), |ts|);
  }

  /** A comma behind the last argument is accepted and means nothing, although the documented
      grammar does not derive it. */
  lemma TrailingCommaIsAccepted(name: string, arg: Expr)
    requires PlainWord(name) && Canonical(arg)
    ensures ParseFilter(Spelling(CommaCall(name, arg))) == Ok(Call(name, [arg]))
    ensures !TrailingCommas.InGrammar(Spelling(CommaCall(name, arg)), Documented)
  {
    var words := CommaCall(name, arg);
    CommaCallIsRun(name, arg);
    SpacedIsSeparable(words);
    LexOfSpelling(words);
    var ts := Placed(words, 0);
    PlacedHere(words, 0);
    HereLast(ts, 0, words);
    CommaCallParses(ts, name, arg);
    ParsedTokens(Spelling(words), ts, Call(name, [arg]));
    TrailingCommas.DocumentedExactly(Spelling(words));
  }

  lemma StringCallSpelled(name: string, text: string)
    ensures Spelling(CommaCall(name, Const(Str(text)))) == name + "(" + Quote(text) + "," + ")"
  {
    var first, arg := Spelled(TokenType.Text, name), Spelled(TokenType.String, Quote(text));
    assert Words(Const(Str(text))) == [arg];
    assert CommaCall(name, Const(Str(text))) == [first, OPEN, arg, COMMA, CLOSE];
    SpellFive(first, OPEN, arg, COMMA, CLOSE);
  }

  lemma TimestampIsPlain()
    ensures PlainWord(TIMESTAMP)
  {
    assert Keyword(TIMESTAMP).None?;
  }

  /** `timestamp("x",)`. */
  lemma TimestampTakesComma()
    ensures var text := TIMESTAMP + "(" + Quote("x") + "," + ")";
            ParseFilter(text) == Ok(Call(TIMESTAMP, [Const(Str("x"))])) && !TrailingCommas.InGrammar(text, Documented)
  {
    StringCallSpelled(TIMESTAMP, "x");
    TimestampIsPlain();
    assert Canonical(Const(Str("x")));
    TrailingCommaIsAccepted(TIMESTAMP, Const(Str("x")));
  }
}
