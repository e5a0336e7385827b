/** A canonical, fully parenthesised spelling of filter expressions, and why the lexer cuts
    it back into the very tokens it was spelled with. */
module Printing {
  import opened Wrappers
  import opened Filters
  import opened Lexing
  import opened Unescaping
  import opened Grammar
  import Text

  /** The comparison operators and their tokens. */
  function OperatorOf(name: string): Option<Spelled> {
    if name == EQUALS then Some(Spelled(TokenType.Equals, "="))
    else if name == NOT_EQUALS then Some(Spelled(TokenType.NotEquals, "!="))
    else if name == LESS_THAN then Some(Spelled(TokenType.LessThan, "<"))
    else if name == LESS_EQUALS then Some(Spelled(TokenType.LessEquals, "<="))
    else if name == GREATER_THAN then Some(Spelled(TokenType.GreaterThan, ">"))
    else if name == GREATER_EQUALS then Some(Spelled(TokenType.GreaterEquals, ">="))
    else if name == HAS then Some(Spelled(TokenType.Has, ":"))
    else None
  }

  /** A word the lexer reads as one unquoted, non-keyword text. */
  predicate PlainWord(word: string) {
    word != [] && Keyword(word).None? && !IsDigit(word[0]) && word[0] != '\'' && word[0] != '"'
    && forall i :: 0 <= i < |word| ==> IsText(word[i])
  }

  predicate Connective(name: string) {
    name == AND || name == OR || name == FUZZY
  }

  predicate Digits(s: string) {
    s != [] && forall i :: 0 <= i < |s| ==> IsDigit(s[i])
  }

  /** Text spelled bare when it is one word, else quoted. */
  function BaseWord(text: string): Spelled {
    if PlainWord(text) then Spelled(TokenType.Text, text) else Spelled(TokenType.String, Quote(text))
  }

  /** Behind a dot a keyword and a run of digits stand bare too. */
  function FieldWord(text: string): Spelled {
    if Keyword(text).Some? then Spelled(Keyword(text).value, text)
    else if Digits(text) then Spelled(TokenType.Number, text)
    else BaseWord(text)
  }

  /** An identifier with fields selected from it, whatever their names. */
  predicate Dotted(e: Expr) {
    e.Ident? || (e.Select? && Dotted(e.operand))
  }

  /** A single identifier has no quoted spelling: a bare string is a literal. */
  predicate Path(e: Expr) {
    (e.Ident? && PlainWord(e.name)) || (e.Select? && Dotted(e))
  }

  // ----- decimal fractions -----

  /** The fraction of `n` over `k` tens. */
  ghost predicate Fraction(d: real, n: nat, k: nat) {
    k > 0 && d == n as real / PowerOfTen(k)
  }

  /** A number that some decimal fraction spells. */
  ghost predicate IsFraction(d: real) {
    exists n: nat, k: nat :: Fraction(d, n, k)
  }

  function Zeros(n: nat): (s: string)
    ensures |s| == n && forall i :: 0 <= i < n ==> s[i] == '0'
  {
    if n == 0 then [] else ['0'] + Zeros(n - 1)
  }

  /** The digits of `n`, more than `k` of them. */
  function Padded(n: nat, k: nat): (s: string)
    ensures |s| > k
  {
    var digits := Text.Decimal(n);
    if |digits| > k then digits else Zeros(k + 1 - |digits|) + digits
  }

  ghost function FractionWords(d: real): (words: seq<Spelled>)
    requires IsFraction(d)
    ensures exists n: nat, k: nat :: Fraction(d, n, k) && words == SplitWords(n, k)
  {
    var n: nat, k: nat :| Fraction(d, n, k);
    SplitWords(n, k)
  }

  /** NUMBER DOT NUMBER, with `k` digits behind the dot. */
  function SplitWords(n: nat, k: nat): seq<Spelled> {
    var digits := Padded(n, k);
    [Spelled(TokenType.Number, digits[..|digits| - k]), DOT, Spelled(TokenType.Number, digits[|digits| - k..])]
  }

  /** A negative number; as an argument or a term it is spelled with its minus. */
  ghost predicate NegativeNumber(e: Expr) {
    e.Const?
    && ((e.constant.Int? && -I64_MAX <= e.constant.i < 0)
        || (e.constant.Double? && e.constant.d < 0.0 && IsFraction(-e.constant.d)))
  }

  /** What can stand on the left of a comparison: not a negative number, whose minus the
      grammar takes for the whole term. */
  ghost predicate LeftSide(e: Expr)
    decreases e, 0
  {
    match e
    case Const(Int(i)) => 0 <= i <= I64_MAX
    case Const(Double(d)) => IsFraction(d)
    case Const(Str(_)) => true
    case Ident(_) => Path(e)
    case Select(_, _) => Path(e)
    case Call(name, args) =>
      PlainWord(name) && !(Connective(name) && |args| == 2)
      && forall i :: 0 <= i < |args| ==> Canonical(args[i])
    case _ => false
  }

  /** The expressions the canonical spelling covers: connectives, negation, comparisons and
      function calls over paths, strings, 64-bit integers and decimal fractions. */
  ghost predicate Canonical(e: Expr)
    decreases e, 1
  {
    LeftSide(e) || NegativeNumber(e)
    || (e.Call? && e.name == NOT && |e.args| == 1 && Canonical(e.args[0]))
    || (e.Call? && Connective(e.name) && |e.args| == 2 && Canonical(e.args[0]) && Canonical(e.args[1]))
    || (e.Call? && OperatorOf(e.name).Some? && |e.args| == 2 && LeftSide(e.args[0]) && Canonical(e.args[1])
        && !(e.name == HAS && e.args[1].Ident?))
  }

  const OPEN := Spelled(TokenType.LeftParen, "(")
  const CLOSE := Spelled(TokenType.RightParen, ")")
  const SPACE := Spelled(TokenType.Whitespace, " ")
  const COMMA := Spelled(TokenType.Comma, ",")
  const DOT := Spelled(TokenType.Dot, ".")
  const MINUS := Spelled(TokenType.Minus, "-")

  /** What stands between the two sides of a connective. */
  function Between(name: string): seq<Spelled> {
    if name == AND then [SPACE, Spelled(TokenType.And, "AND"), SPACE]
    else if name == OR then [SPACE, Spelled(TokenType.Or, "OR"), SPACE]
    else [SPACE]
  }

  /** The words of a number without its sign. */
  ghost function MagnitudeWords(c: Constant): seq<Spelled> {
    match c
    case Int(i) => [Spelled(TokenType.Number, Text.Decimal(if i < 0 then -i else i))]
    case Double(d) =>
      var magnitude := if d < 0.0 then -d else d;
      if IsFraction(magnitude) then FractionWords(magnitude) else []
    case _ => []
  }

  predicate Negative(c: Constant) {
    (c.Int? && c.i < 0) || (c.Double? && c.d < 0.0)
  }

  ghost function Words(e: Expr): seq<Spelled>
    decreases e, 1
  {
    match e
    case Const(Str(text)) => [Spelled(TokenType.String, Quote(text))]
    case Const(c) => if Negative(c) then [MINUS] + MagnitudeWords(c) else MagnitudeWords(c)
    case Ident(name) => [BaseWord(name)]
    case Select(operand, field) => Words(operand) + [DOT, FieldWord(field)]
    case Call(name, args) => CallWords(name, args)
  }

  ghost function CallWords(name: string, args: seq<Expr>): seq<Spelled>
    decreases args, 1
  {
    if name == NOT && |args| == 1 then NotWords(Words(args[0]))
    else if Connective(name) && |args| == 2 then PairWords(Words(args[0]), Between(name), Words(args[1]))
    else if OperatorOf(name).Some? && |args| == 2 then
      PairWords(Words(args[0]), [OperatorOf(name).value], Words(args[1]))
    else ApplyWords(name, ArgWords(args))
  }

  function NotWords(a: seq<Spelled>): seq<Spelled> {
    [OPEN, Spelled(TokenType.Not, "NOT"), SPACE] + a + [CLOSE]
  }

  function PairWords(a: seq<Spelled>, middle: seq<Spelled>, b: seq<Spelled>): seq<Spelled> {
    [OPEN] + a + middle + b + [CLOSE]
  }

  function ApplyWords(name: string, args: seq<Spelled>): seq<Spelled> {
    [Spelled(TokenType.Text, name), OPEN] + args + [CLOSE]
  }

  ghost function ArgWords(args: seq<Expr>): seq<Spelled>
    decreases args, 0
  {
    if args == [] then []
    else if |args| == 1 then Words(args[0])
    else Words(args[0]) + [COMMA] + ArgWords(args[1..])
  }

  /** The canonical spelling. */
  ghost function Print(e: Expr): string {
    Spelling(Words(e))
  }

  // ----- separability -----

  /** A word that the lexer cuts off whatever follows, as long as `b` cannot extend it. */
  predicate Separate(a: Spelled, b: char) {
    match a.ty
    case Text => !IsText(b)
    case And => !IsText(b)
    case Or => !IsText(b)
    case Not => !IsText(b)
    case Number => !IsDigit(b) && b != 'x'
    case Whitespace => !IsSpace(b)
    case LessThan => b != '='
    case GreaterThan => b != '='
    case _ => true
  }

  /** Words as this spelling uses them. */
  ghost predicate WellSpelled(w: Spelled) {
    match w.ty
    case Text => PlainWord(w.value)
    case String => exists text :: w.value == Quote(text)
    case Number => Digits(w.value)
    case And => w.value == "AND"
    case Or => w.value == "OR"
    case Not => w.value == "NOT"
    case Whitespace => w == SPACE
    case _ => Punctuation(w) || (exists name :: OperatorOf(name) == Some(w))
  }

  predicate Punctuation(w: Spelled) {
    w == OPEN || w == CLOSE || w == COMMA || w == DOT || w == MINUS
  }

  lemma SpanOfPrefix(word: string, next: string, p: char -> bool)
    requires forall i :: 0 <= i < |word| ==> p(word[i])
    requires next == [] || !p(next[0])
    ensures Span(word + next, p) == |word|
  {
    assert forall i :: 0 <= i < |word| ==> (word + next)[i] == word[i];
    assert next != [] ==> (word + next)[|word|] == next[0];
  }

  lemma TextStands(w: Spelled, next: string)
    requires w.value != [] && (forall i :: 0 <= i < |w.value| ==> IsText(w.value[i]))
    requires !IsDigit(w.value[0]) && w.value[0] != '\'' && w.value[0] != '"'
    requires w.ty == if Keyword(w.value).Some? then Keyword(w.value).value else TokenType.Text
    requires next == [] || !IsText(next[0])
    ensures StandsBefore(w, next)
  {
    SpanOfPrefix(w.value, next, IsText);
    assert (w.value + next)[..|w.value|] == w.value;
    assert IsText(w.value[0]);
  }

  lemma NumberStands(w: Spelled, next: string)
    requires w.ty.Number? && Digits(w.value) && (next == [] || Separate(w, next[0]))
    ensures StandsBefore(w, next)
  {
    var s := w.value + next;
    assert s[1..] == w.value[1..] + next;
    SpanOfPrefix(w.value[1..], next, IsDigit);
    if |s| > 1 {
      assert s[1] == if |w.value| > 1 then w.value[1] else next[0];
    }
  }

  lemma SpaceStands(next: string)
    requires next == [] || !IsSpace(next[0])
    ensures StandsBefore(SPACE, next)
  {
    SpanOfPrefix(" ", next, IsSpace);
  }

  /** The scan passes over one quoted character. */
  lemma {:induction false} StringEndStep(s: string, i: nat, c: char, rest: string)
    requires i <= |s| && s[i..] == QuoteChar(c) + rest
    ensures i + |QuoteChar(c)| <= |s| && s[i + |QuoteChar(c)|..] == rest
    ensures StringEnd(s, i, '"', false) == StringEnd(s, i + |QuoteChar(c)|, '"', false)
  {
    var n := |QuoteChar(c)|;
    assert |s[i..]| == n + |rest|;
    assert s[i..][n..] == s[i + n..];
    assert s[i..][0] == s[i] == QuoteChar(c)[0];
    if n == 2 {
      assert s[i..][1] == s[i + 1] == QuoteChar(c)[1];
    }
  }

  lemma ClosingQuote(s: string, i: nat, next: string)
    requires i <= |s| && s[i..] == QuoteBody("") + (['"'] + next)
    ensures StringEnd(s, i, '"', false) == Some(|s| - |next|)
  {
    assert |s[i..]| == 1 + |next|;
    assert s[i..][0] == s[i] == '"';
  }

  lemma {:induction false} StringEndOfQuote(s: string, i: nat, text: string, next: string)
    requires i <= |s| && s[i..] == QuoteBody(text) + (['"'] + next)
    ensures StringEnd(s, i, '"', false) == Some(|s| - |next|)
    decreases |text|
  {
    if text == [] {
      ClosingQuote(s, i, next);
    } else {
      var rest := QuoteBody(text[1..]) + (['"'] + next);
      assert QuoteBody(text) + (['"'] + next) == QuoteChar(text[0]) + rest;
      StringEndStep(s, i, text[0], rest);
      StringEndOfQuote(s, i + |QuoteChar(text[0])|, text[1..], next);
    }
  }

  lemma StringStands(w: Spelled, text: string, next: string)
    requires w.ty.String? && w.value == Quote(text)
    ensures StandsBefore(w, next)
  {
    var s := w.value + next;
    assert s[1..] == QuoteBody(text) + (['"'] + next);
    StringEndOfQuote(s, 1, text, next);
  }

  lemma OperatorStands(w: Spelled, name: string, next: string)
    requires OperatorOf(name) == Some(w) && (next == [] || Separate(w, next[0]))
    ensures StandsBefore(w, next)
  {
    assert next != [] ==> (w.value + next)[|w.value|] == next[0];
  }

  lemma PunctuationStands(w: Spelled, next: string)
    requires Punctuation(w)
    ensures StandsBefore(w, next)
  {}

  lemma WordStands(w: Spelled, next: string)
    requires WellSpelled(w) && (next == [] || Separate(w, next[0]))
    ensures w.value != [] && StandsBefore(w, next)
  {
    if w.ty.Text? || w.ty.IsKeyword() {
      TextStands(w, next);
    } else if w.ty.String? {
      var text :| w.value == Quote(text);
      StringStands(w, text, next);
    } else if w.ty.Number? {
      NumberStands(w, next);
    } else if w == SPACE {
      SpaceStands(next);
    } else if Punctuation(w) {
      PunctuationStands(w, next);
    } else {
      var name :| OperatorOf(name) == Some(w);
      OperatorStands(w, name, next);
    }
  }

  ghost predicate AllWellSpelled(words: seq<Spelled>) {
    forall i :: 0 <= i < |words| ==> WellSpelled(words[i]) && words[i].value != []
  }

  /** No word can be extended by the one after it. */
  ghost predicate Spaced(words: seq<Spelled>) {
    (forall i :: 0 <= i < |words| ==> words[i].value != [])
    && forall i :: 0 <= i < |words| - 1 ==> Separate(words[i], words[i + 1].value[0])
  }

  lemma SpacedIsSeparable(words: seq<Spelled>)
    requires AllWellSpelled(words) && Spaced(words)
    ensures Separable(words)
  {
    forall i | 0 <= i < |words| ensures words[i].value != [] && StandsBefore(words[i], Spelling(words[i + 1..])) {
      if i + 1 < |words| {
        assert words[i + 1..][0] == words[i + 1];
      }
      WordStands(words[i], Spelling(words[i + 1..]));
    }
  }

  lemma SpacedConcat(a: seq<Spelled>, b: seq<Spelled>)
    requires Spaced(a) && Spaced(b)
    requires a != [] && b != [] ==> Separate(a[|a| - 1], b[0].value[0])
    ensures Spaced(a + b)
  {
    var c := a + b;
    assert forall i :: 0 <= i < |a| ==> c[i] == a[i];
    assert forall i :: |a| <= i < |c| ==> c[i] == b[i - |a|];
  }

  // ----- the canonical spelling is separable -----

  ghost predicate Run(words: seq<Spelled>) {
    words != [] && AllWellSpelled(words) && Spaced(words)
  }

  function Last(words: seq<Spelled>): Spelled
    requires words != []
  {
    words[|words| - 1]
  }

  /** Words that start an operand and end one: nothing before extends into them, and they
      extend into nothing that is not text. */
  ghost predicate Operand(words: seq<Spelled>) {
    Run(words) && !IsSpace(words[0].value[0]) && words[0].value[0] != '='
    && (Last(words).ty.IsField() || Last(words).ty.RightParen?)
  }

  /** Words between two operands. */
  ghost predicate Joint(words: seq<Spelled>) {
    Run(words) && !IsText(words[0].value[0])
    && forall c: char :: !IsSpace(c) && c != '=' ==> Separate(Last(words), c)
  }

  lemma RunConcat(a: seq<Spelled>, b: seq<Spelled>)
    requires Run(a) && Run(b) && Separate(Last(a), b[0].value[0])
    ensures Run(a + b) && (a + b)[0] == a[0] && Last(a + b) == Last(b)
  {
    SpacedConcat(a, b);
    assert forall i :: 0 <= i < |a + b| ==> (a + b)[i] == if i < |a| then a[i] else b[i - |a|];
  }

  /** An opening run, an operand, and a closing bracket. */
  lemma Bracketed(open: seq<Spelled>, a: seq<Spelled>)
    requires Run(open) && Operand(a) && Separate(Last(open), a[0].value[0])
    requires !IsSpace(open[0].value[0]) && open[0].value[0] != '='
    ensures Operand(open + a + [CLOSE])
  {
    RunConcat(open, a);
    RunConcat(open + a, [CLOSE]);
  }

  lemma Paired(a: seq<Spelled>, middle: seq<Spelled>, b: seq<Spelled>)
    requires Operand(a) && Joint(middle) && Operand(b)
    ensures Operand(a + middle + b)
  {
    RunConcat(a, middle);
    RunConcat(a + middle, b);
  }

  lemma {:induction false} BetweenIsJoint(name: string)
    requires Connective(name)
    ensures Joint(Between(name))
  {}

  lemma OperatorIsJoint(name: string)
    requires OperatorOf(name).Some?
    ensures Joint([OperatorOf(name).value])
  {
    var w := OperatorOf(name).value;
    assert WellSpelled(w) && w.value != [];
    assert !IsText(w.value[0]);
  }

  lemma {:induction false} DecimalDigits(n: nat)
    ensures Digits(Text.Decimal(n))
  {
    if n >= 10 {
      DecimalDigits(n / 10);
    }
  }

  lemma BaseWordSpelled(text: string)
    ensures WellSpelled(BaseWord(text)) && BaseWord(text).value != []
  {}

  lemma FieldWordSpelled(text: string)
    ensures WellSpelled(FieldWord(text)) && FieldWord(text).value != [] && FieldWord(text).ty.IsField()
  {
    if Keyword(text).None? && !Digits(text) {
      BaseWordSpelled(text);
    }
  }

  lemma SelectIsOperand(operand: seq<Spelled>, field: string)
    requires Operand(operand)
    ensures Operand(operand + [DOT, FieldWord(field)])
  {
    FieldWordSpelled(field);
    RunConcat(operand, [DOT, FieldWord(field)]);
  }

  lemma {:induction false} DottedIsOperand(e: Expr)
    requires Dotted(e)
    ensures Operand(Words(e))
  {
    match e
    case Ident(name) => BaseWordSpelled(name);
    case Select(operand, field) =>
      DottedIsOperand(operand);
      SelectIsOperand(Words(operand), field);
  }

  lemma PaddedDigits(n: nat, k: nat)
    ensures Digits(Padded(n, k)[..|Padded(n, k)| - k])
    ensures k > 0 ==> Digits(Padded(n, k)[|Padded(n, k)| - k..])
  {
    DecimalDigits(n);
    assert Digits(Padded(n, k));
  }

  lemma SplitIsOperand(n: nat, k: nat)
    requires k > 0
    ensures Operand(SplitWords(n, k))
  {
    PaddedDigits(n, k);
  }

  lemma DecimalIsOperand(n: nat)
    ensures Operand([Spelled(TokenType.Number, Text.Decimal(n))])
  {
    DecimalDigits(n);
  }

  lemma FractionIsOperand(d: real)
    requires IsFraction(d)
    ensures Operand(FractionWords(d))
  {
    var n: nat, k: nat :| Fraction(d, n, k) && FractionWords(d) == SplitWords(n, k);
    SplitIsOperand(n, k);
  }

  lemma {:induction false} MagnitudeIsOperand(c: Constant)
    requires c.Int? || (c.Double? && IsFraction(if c.d < 0.0 then -c.d else c.d))
    ensures Operand(MagnitudeWords(c))
  {
    if c.Int? {
      DecimalIsOperand(if c.i < 0 then -c.i else c.i);
    } else {
      FractionIsOperand(if c.d < 0.0 then -c.d else c.d);
    }
  }

  lemma FractionIsNotNegative(d: real)
    requires IsFraction(d)
    ensures d >= 0.0
  {
    var n: nat, k: nat :| Fraction(d, n, k);
  }

  lemma NumberIsOperand(c: Constant)
    requires c.Int? || (c.Double? && IsFraction(if c.d < 0.0 then -c.d else c.d))
    ensures Operand(Words(Const(c)))
  {
    MagnitudeIsOperand(c);
    if Negative(c) {
      RunConcat([MINUS], MagnitudeWords(c));
    }
  }

  lemma {:induction false} CanonicalIsOperand(e: Expr)
    requires Canonical(e)
    ensures Operand(Words(e))
    decreases e, 1
  {
    match e {
      case Const(Str(_)) =>
      case Const(Double(d)) =>
        if IsFraction(d) {
          FractionIsNotNegative(d);
        }
        NumberIsOperand(Constant.Double(d));
      case Const(c) => NumberIsOperand(c);
      case Ident(_) => DottedIsOperand(e);
      case Select(_, _) => DottedIsOperand(e);
      case Call(name, args) => CanonicalCallIsOperand(name, args);
    }
  }

  lemma PlainIsNoOperator(name: string)
    requires PlainWord(name)
    ensures OperatorOf(name).None? && name != NOT
  {
    assert Keyword(NOT).Some?;
    assert !IsText('=') && !IsText('!') && !IsText('<') && !IsText('>') && !IsText(':');
  }

  /** What the parts of a canonical call are. */
  lemma CallShape(name: string, args: seq<Expr>)
    requires Canonical(Call(name, args))
    ensures if name == NOT && |args| == 1 then Canonical(args[0])
            else if Connective(name) && |args| == 2 then Canonical(args[0]) && Canonical(args[1])
            else if OperatorOf(name).Some? && |args| == 2 then
              Canonical(args[0]) && LeftSide(args[0]) && Canonical(args[1]) && !(name == HAS && args[1].Ident?)
            else PlainWord(name) && forall i :: 0 <= i < |args| ==> Canonical(args[i])
  {
    if LeftSide(Call(name, args)) {
      PlainIsNoOperator(name);
    }
  }

  lemma {:induction false} CanonicalCallIsOperand(name: string, args: seq<Expr>)
    requires Canonical(Call(name, args))
    ensures Operand(CallWords(name, args))
    decreases args, 2
  {
    CallShape(name, args);
    if name == NOT && |args| == 1 {
      CanonicalIsOperand(args[0]);
      Bracketed([OPEN, Spelled(TokenType.Not, "NOT"), SPACE], Words(args[0]));
    } else if Connective(name) && |args| == 2 {
      CanonicalIsOperand(args[0]);
      CanonicalIsOperand(args[1]);
      BetweenIsJoint(name);
      PairIsOperand(Words(args[0]), Between(name), Words(args[1]));
    } else if OperatorOf(name).Some? && |args| == 2 {
      CanonicalIsOperand(args[0]);
      CanonicalIsOperand(args[1]);
      OperatorIsJoint(name);
      PairIsOperand(Words(args[0]), [OperatorOf(name).value], Words(args[1]));
    } else {
      CallIsOperand(name, args);
    }
  }

  lemma {:induction false} PairIsOperand(a: seq<Spelled>, middle: seq<Spelled>, b: seq<Spelled>)
    requires Operand(a) && Joint(middle) && Operand(b)
    ensures Operand(PairWords(a, middle, b))
  {
    Paired(a, middle, b);
    OpenIsRun();
    Bracketed([OPEN], a + middle + b);
    PairRegroup(a, middle, b);
  }

  lemma OpenIsRun()
    ensures Run([OPEN])
  {}

  lemma PairRegroup(a: seq<Spelled>, middle: seq<Spelled>, b: seq<Spelled>)
    ensures PairWords(a, middle, b) == [OPEN] + (a + middle + b) + [CLOSE]
  {}

  lemma {:induction false} CallIsOperand(name: string, args: seq<Expr>)
    requires PlainWord(name) && forall i :: 0 <= i < |args| ==> Canonical(args[i])
    ensures Operand(ApplyWords(name, ArgWords(args)))
    decreases args, 1
  {
    var open := [Spelled(TokenType.Text, name), OPEN];
    if args == [] {
      assert open + [] == open;
      RunConcat(open, [CLOSE]);
    } else {
      ArgsAreOperand(args);
      Bracketed(open, ArgWords(args));
    }
  }

  lemma {:induction false} ArgsAreOperand(args: seq<Expr>)
    requires args != [] && forall i :: 0 <= i < |args| ==> Canonical(args[i])
    ensures Operand(ArgWords(args))
    decreases args, 0
  {
    CanonicalIsOperand(args[0]);
    if |args| > 1 {
      ArgsAreOperand(args[1..]);
      Paired(Words(args[0]), [COMMA], ArgWords(args[1..]));
    }
  }

  /** The canonical spelling is cut back into its own words. */
  lemma PrintLexes(e: Expr)
    requires Canonical(e)
    ensures Tokens(Print(e), 0) == Ok(Placed(Words(e), 0)) && Operand(Words(e))
  {
    CanonicalIsOperand(e);
    SpacedIsSeparable(Words(e));
    LexOfSpelling(Words(e));
  }
}
