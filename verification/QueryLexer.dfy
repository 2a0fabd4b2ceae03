/** The query language's tokens: the lexer, a renderer, and the proof that
    lexing rendered tokens gives them back. Characters are ASCII bytes. */
module QueryLexer {
  import opened Basics

  datatype CmpOp = Eq | Neq | Lt | Gt | Le | Ge

  datatype Token =
    | KIND | FIELD | HAS_CHILD | HAS_REF | ALIVE | ANY
    | AND | OR | NOT
    | LPAREN | RPAREN | COLON
    | CMP(op: CmpOp)
    | STRING(text: Text)
    | INTEGER(value: I64)
    | IDENT(name: Text)
    | END

  // ----- character classes -----

  const QUOTE: Byte := 0x22
  const SPACE: Byte := 0x20
  const MINUS: Byte := 0x2D
  const BANG: Byte := 0x21
  const EQUALS: Byte := 0x3D
  const LESS: Byte := 0x3C
  const GREATER: Byte := 0x3E
  const COLON_CHAR: Byte := 0x3A
  const OPEN_PAREN: Byte := 0x28
  const CLOSE_PAREN: Byte := 0x29
  const UNDERSCORE: Byte := 0x5F

  predicate IsSpace(c: Byte) { c == 0x20 || 0x09 <= c <= 0x0D }
  predicate IsDigit(c: Byte) { 0x30 <= c <= 0x39 }
  predicate IsLower(c: Byte) { 0x61 <= c <= 0x7A }
  predicate IsAlpha(c: Byte) { IsLower(c) || 0x41 <= c <= 0x5A }
  predicate IsWordChar(c: Byte) { IsAlpha(c) || IsDigit(c) || c == UNDERSCORE }
  predicate NotQuote(c: Byte) { c != QUOTE }

  function ToUpper(c: Byte): Byte {
    if IsLower(c) then c - 0x20 else c
  }

  function Upper(w: Text): (u: Text)
    ensures |u| == |w|
  {
    seq(|w|, i requires 0 <= i < |w| => ToUpper(w[i]))
  }

  /** How many leading characters satisfy p. */
  function Run(p: Byte -> bool, s: Text): (n: nat)
    ensures n <= |s|
    ensures forall i :: 0 <= i < n ==> p(s[i])
    ensures n < |s| ==> !p(s[n])
  {
    if s == [] || !p(s[0]) then 0 else 1 + Run(p, s[1..])
  }

  // ----- words -----

  const KIND_WORD: Text := [0x6B, 0x69, 0x6E, 0x64]                                     // kind
  const FIELD_WORD: Text := [0x66, 0x69, 0x65, 0x6C, 0x64]                              // field
  const HAS_CHILD_WORD: Text := [0x68, 0x61, 0x73, 0x5F, 0x63, 0x68, 0x69, 0x6C, 0x64]  // has_child
  const HAS_REF_WORD: Text := [0x68, 0x61, 0x73, 0x5F, 0x72, 0x65, 0x66]                // has_ref
  const ALIVE_WORD: Text := [0x61, 0x6C, 0x69, 0x76, 0x65]                              // alive
  const ANY_WORD: Text := [0x61, 0x6E, 0x79]                                            // any
  const AND_WORD: Text := [0x41, 0x4E, 0x44]                                            // AND
  const OR_WORD: Text := [0x4F, 0x52]                                                   // OR
  const NOT_WORD: Text := [0x4E, 0x4F, 0x54]                                            // NOT

  /** Keywords are lower case and exact; the boolean operators ignore case. */
  function Classify(w: Text): Token {
    if w == KIND_WORD then KIND
    else if w == FIELD_WORD then FIELD
    else if w == HAS_CHILD_WORD then HAS_CHILD
    else if w == HAS_REF_WORD then HAS_REF
    else if w == ALIVE_WORD then ALIVE
    else if w == ANY_WORD then ANY
    else if Upper(w) == AND_WORD then AND
    else if Upper(w) == OR_WORD then OR
    else if Upper(w) == NOT_WORD then NOT
    else IDENT(w)
  }

  predicate IsWord(w: Text) {
    w != [] && (IsAlpha(w[0]) || w[0] == UNDERSCORE) && forall i :: 0 <= i < |w| ==> IsWordChar(w[i])
  }

  /** A word the lexer reads as a name. */
  predicate IsName(w: Text) {
    IsWord(w) && Classify(w) == IDENT(w)
  }

  // ----- numbers -----

  function NumberOf(digits: Text): (n: nat)
    requires forall i :: 0 <= i < |digits| ==> IsDigit(digits[i])
  {
    if digits == [] then 0
    else
      var m := |digits| - 1;
      var d: int := digits[m];
      assert IsDigit(digits[m]);
      10 * NumberOf(digits[..m]) + (d - 0x30)
  }

  function DigitsOf(n: nat): (s: Text)
    ensures |s| >= 1 && forall i :: 0 <= i < |s| ==> IsDigit(s[i])
  {
    if n < 10 then [0x30 + n] else DigitsOf(n / 10) + [0x30 + n % 10]
  }

  lemma {:induction false} NumberRoundTrip(n: nat)
    ensures NumberOf(DigitsOf(n)) == n
  {
    var s := DigitsOf(n);
    if n < 10 {
      assert s[..0] == [];
    } else {
      NumberRoundTrip(n / 10);
      assert s[..|s| - 1] == DigitsOf(n / 10);
    }
  }

  /** A number that does not fit 64 bits makes `std::stoll` throw. */
  function IntegerToken(v: int): Result<Token> {
    if -0x8000_0000_0000_0000 <= v < 0x8000_0000_0000_0000 then Ok(INTEGER(v)) else Err(OutOfRange)
  }

  // ----- the lexer as a function -----

  function LexToken(s: Text): (r: Result<(Token, Text)>)
    requires s != []
    ensures r.Ok? ==> |r.value.1| < |s| && r.value.0 != END
  {
    var c := s[0];
    var next := if |s| > 1 then s[1] else 0;
    if c == QUOTE then
      var n := Run(NotQuote, s[1..]);
      if n == |s| - 1 then Err(BadValue) else Ok((STRING(s[1..1 + n]), s[n + 2..]))
    else if c == BANG && next == EQUALS then Ok((CMP(Neq), s[2..]))
    else if c == LESS && next == EQUALS then Ok((CMP(Le), s[2..]))
    else if c == GREATER && next == EQUALS then Ok((CMP(Ge), s[2..]))
    else if c == EQUALS then Ok((CMP(Eq), s[1..]))
    else if c == LESS then Ok((CMP(Lt), s[1..]))
    else if c == GREATER then Ok((CMP(Gt), s[1..]))
    else if c == COLON_CHAR then Ok((COLON, s[1..]))
    else if c == OPEN_PAREN then Ok((LPAREN, s[1..]))
    else if c == CLOSE_PAREN then Ok((RPAREN, s[1..]))
    else if c == MINUS && IsDigit(next) then
      var n := Run(IsDigit, s[1..]);
      var token :- IntegerToken(0 - NumberOf(s[1..][..n]));
      Ok((token, s[1..][n..]))
    else if IsDigit(c) then
      var n := Run(IsDigit, s);
      var token :- IntegerToken(NumberOf(s[..n]));
      Ok((token, s[n..]))
    else if IsAlpha(c) || c == UNDERSCORE then
      var n := Run(IsWordChar, s);
      Ok((Classify(s[..n]), s[n..]))
    else Err(BadValue)
  }

  function Lex(s: Text): (r: Result<seq<Token>>)
    ensures r.Ok? ==> |r.value| > 0 && r.value[|r.value| - 1] == END
    decreases |s|
  {
    var t := s[Run(IsSpace, s)..];
    if t == [] then Ok([END])
    else
      var (token, rest) :- LexToken(t);
      var tokens :- Lex(rest);
      Ok([token] + tokens)
  }

  /** Skip blanks, then one token, then the rest. */
  lemma LexStep(s: Text)
    ensures var t := s[Run(IsSpace, s)..];
      && (t == [] ==> Lex(s) == Ok([END]))
      && (t != [] ==> match LexToken(t)
                      case Err(code) => Lex(s) == Err(code)
                      case Ok((token, rest)) =>
                        Lex(s) == match Lex(rest) case Err(code) => Err(code) case Ok(tokens) => Ok([token] + tokens))
  {
    hide LexToken, Run;
  }

  // ----- rendering -----

  function OpText(op: CmpOp): Text {
    match op
    case Eq => [EQUALS]
    case Neq => [BANG, EQUALS]
    case Lt => [LESS]
    case Gt => [GREATER]
    case Le => [LESS, EQUALS]
    case Ge => [GREATER, EQUALS]
  }

  function IntText(i: int): Text {
    if i < 0 then [MINUS] + DigitsOf(-i) else DigitsOf(i)
  }

  function TokenText(t: Token): Text {
    match t
    case KIND => KIND_WORD
    case FIELD => FIELD_WORD
    case HAS_CHILD => HAS_CHILD_WORD
    case HAS_REF => HAS_REF_WORD
    case ALIVE => ALIVE_WORD
    case ANY => ANY_WORD
    case AND => AND_WORD
    case OR => OR_WORD
    case NOT => NOT_WORD
    case LPAREN => [OPEN_PAREN]
    case RPAREN => [CLOSE_PAREN]
    case COLON => [COLON_CHAR]
    case CMP(op) => OpText(op)
    case STRING(text) => [QUOTE] + text + [QUOTE]
    case INTEGER(i) => IntText(i)
    case IDENT(name) => name
    case END => []
  }

  /** Tokens with a space after each. */
  function Render(tokens: seq<Token>): Text {
    if tokens == [] then [] else TokenText(tokens[0]) + [SPACE] + Render(tokens[1..])
  }

  /** A token the lexer can produce: names are names, and a string holds no quote. */
  predicate Lexable(t: Token) {
    match t
    case STRING(text) => forall i :: 0 <= i < |text| ==> NotQuote(text[i])
    case IDENT(name) => IsName(name)
    case END => false
    case _ => true
  }

  // ----- lexing what was rendered -----

  lemma {:induction false} RunExact(p: Byte -> bool, w: Text, c: Byte, rest: Text)
    requires (forall i :: 0 <= i < |w| ==> p(w[i])) && !p(c)
    ensures Run(p, w + [c] + rest) == |w|
    decreases |w|
  {
    var s := w + [c] + rest;
    if w == [] {
      assert s[0] == c;
    } else {
      assert s[0] == w[0] && s[1..] == w[1..] + [c] + rest;
      RunExact(p, w[1..], c, rest);
    }
  }

  lemma LexWord(w: Text, rest: Text)
    requires IsWord(w)
    ensures LexToken(w + [SPACE] + rest) == Ok((Classify(w), [SPACE] + rest))
  {
    hide Classify;
    var s := w + [SPACE] + rest;
    RunExact(IsWordChar, w, SPACE, rest);
    assert s[0] == w[0];
    assert s[..|w|] == w && s[|w|..] == [SPACE] + rest;
  }

  lemma KeywordsAreWords()
    ensures IsWord(KIND_WORD) && IsWord(FIELD_WORD) && IsWord(HAS_CHILD_WORD) && IsWord(HAS_REF_WORD)
    ensures IsWord(ALIVE_WORD) && IsWord(ANY_WORD) && IsWord(AND_WORD) && IsWord(OR_WORD) && IsWord(NOT_WORD)
  {
  }

  lemma KeywordsClassify()
    ensures Classify(KIND_WORD) == KIND && Classify(FIELD_WORD) == FIELD
    ensures Classify(HAS_CHILD_WORD) == HAS_CHILD && Classify(HAS_REF_WORD) == HAS_REF
    ensures Classify(ALIVE_WORD) == ALIVE && Classify(ANY_WORD) == ANY
  {
    assert |KIND_WORD| == 4 && |FIELD_WORD| == 5 && |HAS_CHILD_WORD| == 9;
    assert ALIVE_WORD[0] != FIELD_WORD[0];
  }

  lemma OperatorsClassify()
    ensures Classify(AND_WORD) == AND && Classify(OR_WORD) == OR && Classify(NOT_WORD) == NOT
  {
    assert Upper(AND_WORD) == AND_WORD;
    assert Upper(OR_WORD) == OR_WORD;
    assert Upper(NOT_WORD) == NOT_WORD;
    assert AND_WORD[0] != ANY_WORD[0] && NOT_WORD[0] != ANY_WORD[0];
    assert NOT_WORD[0] != AND_WORD[0];
  }

  /** The digits scanned off the front of a rendered number are its digits. */
  lemma DigitsScan(d: Text, rest: Text)
    requires d != [] && forall i :: 0 <= i < |d| ==> IsDigit(d[i])
    ensures var s := d + [SPACE] + rest;
      Run(IsDigit, s) == |d| && s[..|d|] == d && s[|d|..] == [SPACE] + rest && s[0] == d[0]
  {
    RunExact(IsDigit, d, SPACE, rest);
  }

  lemma LexNatural(n: nat, rest: Text)
    requires n < 0x8000_0000_0000_0000
    ensures LexToken(DigitsOf(n) + [SPACE] + rest) == Ok((INTEGER(n), [SPACE] + rest))
  {
    hide Run, Classify;
    var d := DigitsOf(n);
    NumberRoundTrip(n);
    DigitsScan(d, rest);
  }

  lemma MinusFirst(d: Text, rest: Text)
    requires d != []
    ensures var s := [MINUS] + d + [SPACE] + rest;
      |s| > 1 && s[0] == MINUS && s[1] == d[0] && s[1..] == d + [SPACE] + rest
  {
  }

  lemma LexNegative(n: nat, rest: Text)
    requires n <= 0x8000_0000_0000_0000
    ensures LexToken([MINUS] + DigitsOf(n) + [SPACE] + rest) == Ok((INTEGER(0 - n), [SPACE] + rest))
  {
    hide Run, Classify, DigitsOf, NumberOf, IsAlpha;
    var d := DigitsOf(n);
    NumberRoundTrip(n);
    DigitsScan(d, rest);
    MinusFirst(d, rest);
  }

  lemma LexInteger(i: I64, rest: Text)
    ensures LexToken(IntText(i) + [SPACE] + rest) == Ok((INTEGER(i), [SPACE] + rest))
  {
    hide LexToken, DigitsOf;
    if i < 0 {
      LexNegative(0 - i, rest);
    } else {
      LexNatural(i, rest);
    }
  }

  /** A number lexes exactly when it fits 64 bits; otherwise the lexer throws. */
  lemma LexIntegerIff(i: int, rest: Text)
    ensures LexToken(IntText(i) + [SPACE] + rest).Ok? <==> -0x8000_0000_0000_0000 <= i < 0x8000_0000_0000_0000
    ensures LexToken(IntText(i) + [SPACE] + rest).Err? ==> LexToken(IntText(i) + [SPACE] + rest) == Err(OutOfRange)
  {
    hide Run, Classify, DigitsOf, NumberOf, IsAlpha;
    var n := if i < 0 then -i else i;
    var d := DigitsOf(n);
    NumberRoundTrip(n);
    DigitsScan(d, rest);
    if i < 0 {
      MinusFirst(d, rest);
    }
  }

  lemma LexString(text: Text, rest: Text)
    requires forall i :: 0 <= i < |text| ==> NotQuote(text[i])
    ensures LexToken([QUOTE] + text + [QUOTE] + [SPACE] + rest) == Ok((STRING(text), [SPACE] + rest))
  {
    var s := [QUOTE] + text + [QUOTE] + [SPACE] + rest;
    assert s[1..] == text + [QUOTE] + ([SPACE] + rest);
    RunExact(NotQuote, text, QUOTE, [SPACE] + rest);
    assert s[1..1 + |text|] == text && s[|text| + 2..] == [SPACE] + rest;
  }

  lemma LexOperator(op: CmpOp, rest: Text)
    ensures LexToken(OpText(op) + [SPACE] + rest) == Ok((CMP(op), [SPACE] + rest))
  {
    var s := OpText(op) + [SPACE] + rest;
    assert s[|OpText(op)|..] == [SPACE] + rest;
    assert |s| > 1 && s[0] == OpText(op)[0] && s[1] == (OpText(op) + [SPACE])[1];
  }

  lemma LexPunctuation(c: Byte, rest: Text)
    requires c == OPEN_PAREN || c == CLOSE_PAREN || c == COLON_CHAR
    ensures LexToken([c] + [SPACE] + rest) ==
      Ok((if c == OPEN_PAREN then LPAREN else if c == CLOSE_PAREN then RPAREN else COLON, [SPACE] + rest))
  {
    var s := [c] + [SPACE] + rest;
    assert s[0] == c && s[1..] == [SPACE] + rest;
  }

  lemma LexOne(t: Token, rest: Text)
    requires Lexable(t)
    ensures LexToken(TokenText(t) + [SPACE] + rest) == Ok((t, [SPACE] + rest))
  {
    hide LexToken, Classify, IsWord;
    KeywordsAreWords();
    KeywordsClassify();
    OperatorsClassify();
    match t
    case KIND => LexWord(KIND_WORD, rest);
    case FIELD => LexWord(FIELD_WORD, rest);
    case HAS_CHILD => LexWord(HAS_CHILD_WORD, rest);
    case HAS_REF => LexWord(HAS_REF_WORD, rest);
    case ALIVE => LexWord(ALIVE_WORD, rest);
    case ANY => LexWord(ANY_WORD, rest);
    case AND => LexWord(AND_WORD, rest);
    case OR => LexWord(OR_WORD, rest);
    case NOT => LexWord(NOT_WORD, rest);
    case LPAREN => LexPunctuation(OPEN_PAREN, rest);
    case RPAREN => LexPunctuation(CLOSE_PAREN, rest);
    case COLON => LexPunctuation(COLON_CHAR, rest);
    case CMP(op) => LexOperator(op, rest);
    case STRING(text) => LexString(text, rest);
    case INTEGER(i) => LexInteger(i, rest);
    case IDENT(name) => LexWord(name, rest);
  }

  lemma StartsVisible(t: Token, rest: Text)
    requires Lexable(t)
    ensures var s := TokenText(t) + [SPACE] + rest; s != [] && !IsSpace(s[0])
  {
    var s := TokenText(t) + [SPACE] + rest;
    assert TokenText(t) != [] ==> s[0] == TokenText(t)[0];
    if t.INTEGER? && t.value < 0 {
      assert s[0] == MINUS;
    }
  }

  /** A space in front changes nothing. */
  lemma LexSkipsSpace(s: Text)
    ensures Lex([SPACE] + s) == Lex(s)
  {
    var spaced := [SPACE] + s;
    assert spaced[1..] == s;
    assert Run(IsSpace, spaced) == 1 + Run(IsSpace, s);
    assert spaced[1 + Run(IsSpace, s)..] == s[Run(IsSpace, s)..];
  }

  /** Lexing rendered tokens gives them back, and the end marker. */
  lemma {:induction false} LexRender(tokens: seq<Token>)
    requires forall i :: 0 <= i < |tokens| ==> Lexable(tokens[i])
    ensures Lex(Render(tokens)) == Ok(tokens + [END])
  {
    hide LexToken, Lexable, TokenText;
    if tokens == [] {
      assert Render(tokens) == [];
      assert [] + [END] == [END];
    } else {
      var t, rest := tokens[0], Render(tokens[1..]);
      var s := Render(tokens);
      assert s == TokenText(t) + [SPACE] + rest;
      StartsVisible(t, rest);
      assert s[0..] == s;
      LexOne(t, rest);
      LexSkipsSpace(rest);
      LexRender(tokens[1..]);
      assert tokens + [END] == [t] + (tokens[1..] + [END]);
    }
  }

  lemma LexTokenLexable(s: Text)
    requires s != [] && LexToken(s).Ok?
    ensures Lexable(LexToken(s).value.0)
  {
    hide Classify;
    if IsAlpha(s[0]) || s[0] == UNDERSCORE {
      var w := s[..Run(IsWordChar, s)];
      assert IsWord(w);
      ClassifyLexable(w);
    }
  }

  lemma ClassifyLexable(w: Text)
    requires IsWord(w)
    ensures Lexable(Classify(w))
  {
  }

  /** Every token but the last is one the renderer can write. */
  lemma {:induction false} LexedAreLexable(s: Text)
    requires Lex(s).Ok?
    ensures forall i :: 0 <= i < |Lex(s).value| - 1 ==> Lexable(Lex(s).value[i])
    decreases |s|
  {
    hide LexToken, Lexable;
    var t := s[Run(IsSpace, s)..];
    if t != [] {
      LexTokenLexable(t);
      LexedAreLexable(LexToken(t).value.1);
    }
  }

  // ----- the lexer as an object -----

  class Lexer {
    const src: Text
    var pos: nat

    ghost predicate Valid()
      reads this
    {
      pos <= |src|
    }

    constructor (text: Text)
      ensures Valid() && src == text && pos == 0
    {
      src := text;
      pos := 0;
    }

    /** Advance over the longest run satisfying p. */
    method Scan(p: Byte -> bool) returns (run: Text)
      requires Valid()
      modifies `pos
      ensures Valid()
      ensures pos == old(pos) + Run(p, src[old(pos)..]) && run == src[old(pos)..pos]
    {
      run := [];
      var start := pos;
      while pos < |src| && p(src[pos])
        invariant start <= pos <= |src| && run == src[start..pos]
        invariant pos + Run(p, src[pos..]) == start + Run(p, src[start..])
      {
        assert src[pos..][1..] == src[pos + 1..];
        run := run + [src[pos]];
        pos := pos + 1;
      }
    }

    /** What reading one token at position start must do. */
    ghost predicate Reads(start: nat, r: Result<Token>)
      reads this
      requires start < |src|
    {
      && Valid()
      && match LexToken(src[start..])
         case Ok((t, rest)) => r == Ok(t) && src[pos..] == rest && pos > start
         case Err(code) => r == Err(code)
    }

    method NextString() returns (r: Result<Token>)
      requires Valid() && pos < |src| && src[pos] == QUOTE
      modifies `pos
      ensures Reads(old(pos), r)
    {
      ghost var s := src[pos..];
      assert s[1..] == src[pos + 1..];
      pos := pos + 1;
      var text := Scan(NotQuote);
      if pos >= |src| {
        return Err(BadValue);
      }
      assert text == s[1..1 + Run(NotQuote, s[1..])];
      pos := pos + 1;
      assert src[pos..] == s[Run(NotQuote, s[1..]) + 2..];
      return Ok(STRING(text));
    }

    method NextNumber() returns (r: Result<Token>)
      requires Valid() && pos < |src|
      requires IsDigit(src[pos]) || (src[pos] == MINUS && pos + 1 < |src| && IsDigit(src[pos + 1]))
      modifies `pos
      ensures Reads(old(pos), r)
    {
      hide Classify, NumberOf, IsAlpha, IntegerToken, Run;
      ghost var s := src[pos..];
      assert s[1..] == src[pos + 1..];
      if src[pos] == MINUS {
        pos := pos + 1;
        var digits := Scan(IsDigit);
        assert digits == s[1..][..Run(IsDigit, s[1..])];
        assert src[pos..] == s[1..][Run(IsDigit, s[1..])..];
        r := IntegerToken(0 - NumberOf(digits));
        return;
      }
      var digits := Scan(IsDigit);
      assert digits == s[..Run(IsDigit, s)] && src[pos..] == s[Run(IsDigit, s)..];
      r := IntegerToken(NumberOf(digits));
    }

    method NextWord() returns (r: Result<Token>)
      requires Valid() && pos < |src| && (IsAlpha(src[pos]) || src[pos] == UNDERSCORE)
      modifies `pos
      ensures Reads(old(pos), r)
    {
      hide Classify;
      ghost var s := src[pos..];
      var word := Scan(IsWordChar);
      assert word == s[..Run(IsWordChar, s)] && src[pos..] == s[Run(IsWordChar, s)..];
      return Ok(Classify(word));
    }

    /** Operators and punctuation; anything else is refused. */
    method NextSymbol() returns (r: Result<Token>)
      requires Valid() && pos < |src|
      requires src[pos] != QUOTE && !IsDigit(src[pos]) && !IsAlpha(src[pos]) && src[pos] != UNDERSCORE
      requires !(src[pos] == MINUS && pos + 1 < |src| && IsDigit(src[pos + 1]))
      modifies `pos
      ensures Reads(old(pos), r)
    {
      ghost var s := src[pos..];
      var c := src[pos];
      var next := if pos + 1 < |src| then src[pos + 1] else 0;
      assert s[1..] == src[pos + 1..];
      if (c == BANG || c == LESS || c == GREATER) && next == EQUALS {
        assert src[pos + 2..] == s[2..];
        pos := pos + 2;
        return Ok(CMP(if c == BANG then Neq else if c == LESS then Le else Ge));
      }
      var token;
      match c {
        case 0x3D => token := CMP(Eq);
        case 0x3C => token := CMP(Lt);
        case 0x3E => token := CMP(Gt);
        case 0x3A => token := COLON;
        case 0x28 => token := LPAREN;
        case 0x29 => token := RPAREN;
        case _ => return Err(BadValue);
      }
      pos := pos + 1;
      return Ok(token);
    }

    /** Read one token at a non-space character. */
    method Next() returns (r: Result<Token>)
      requires Valid() && pos < |src|
      modifies `pos
      ensures Reads(old(pos), r)
    {
      var c := src[pos];
      if c == QUOTE {
        r := NextString();
      } else if IsDigit(c) || (c == MINUS && pos + 1 < |src| && IsDigit(src[pos + 1])) {
        r := NextNumber();
      } else if IsAlpha(c) || c == UNDERSCORE {
        r := NextWord();
      } else {
        r := NextSymbol();
      }
    }

    /** Skip blanks, then read one token if there is one. */
    method NextToken() returns (r: Result<Option<Token>>)
      requires Valid()
      modifies `pos
      ensures Valid()
      ensures var t := src[old(pos)..][Run(IsSpace, src[old(pos)..])..];
              if t == [] then r == Ok(None)
              else match LexToken(t)
                   case Ok((token, rest)) => r == Ok(Some(token)) && src[pos..] == rest && pos > old(pos)
                   case Err(code) => r == Err(code)
    {
      hide LexToken, Run;
      ghost var here := src[pos..];
      var blank := Scan(IsSpace);
      assert here[Run(IsSpace, here)..] == src[pos..];
      if pos >= |src| {
        return Ok(None);
      }
      var token :- Next();
      return Ok(Some(token));
    }

    method Tokenize() returns (r: Result<seq<Token>>)
      requires Valid()
      modifies `pos
      ensures Valid() && r == Lex(src[old(pos)..])
    {
      hide LexToken, Lex, Run;
      var tokens: seq<Token> := [];
      PrefixedNone(Lex(src[pos..]));
      while true
        invariant Valid() && Prefixed(tokens, Lex(src[pos..])) == Lex(src[old(pos)..])
        decreases |src| - pos
      {
        LexStep(src[pos..]);
        var token :- NextToken();
        if token.None? {
          return Ok(tokens + [END]);
        }
        PrefixedMore(tokens, token.value, Lex(src[pos..]));
        tokens := tokens + [token.value];
      }
    }
  }

  /** A lexer's result with the tokens already read in front. */
  function Prefixed(tokens: seq<Token>, r: Result<seq<Token>>): Result<seq<Token>> {
    match r
    case Ok(tail) => Ok(tokens + tail)
    case Err(code) => Err(code)
  }

  lemma PrefixedNone(r: Result<seq<Token>>)
    ensures Prefixed([], r) == r
  {
    if r.Ok? {
      assert [] + r.value == r.value;
    }
  }

  lemma PrefixedMore(tokens: seq<Token>, token: Token, r: Result<seq<Token>>)
    ensures Prefixed(tokens, Prefixed([token], r)) == Prefixed(tokens + [token], r)
  {
    if r.Ok? {
      assert tokens + ([token] + r.value) == tokens + [token] + r.value;
    }
  }
}
