/** The query grammar: a recursive-descent parser with three levels of
    precedence, a printer with as few parentheses as the grammar allows, and
    the proof that parsing inverts printing. */
module QueryParser {
  import opened Basics
  import opened QueryLexer

  datatype Rhs = TextRhs(text: Text) | IntRhs(value: I64)

  /** Expression trees. The last two constructors are not produced by parsing. */
  datatype Expr =
    | Or(left: Expr, right: Expr)
    | And(left: Expr, right: Expr)
    | Not(inner: Expr)
    | KindMatch(name: Text)
    | FieldCmp(name: Text, op: CmpOp, rhs: Rhs)
    | HasChild(name: Text)
    | HasRef(name: Text)
    | AnyAlive
    | True
    | Literal

  /** What a parser may assume of its input: the lexer's end marker is last. */
  predicate Ends(toks: seq<Token>) {
    |toks| > 0 && toks[|toks| - 1] == END
  }

  type Parse = Result<(Expr, nat)>

  // ----- the parser as functions from cursor to cursor -----

  function ParseName(toks: seq<Token>, c: nat): (r: Result<(Text, nat)>)
    requires Ends(toks) && c < |toks|
    ensures r.Ok? ==> c < r.value.1 < |toks|
  {
    if toks[c] != COLON then Err(BadValue)
    else if !toks[c + 1].IDENT? then Err(BadValue)
    else Ok((toks[c + 1].name, c + 2))
  }

  function ParseField(toks: seq<Token>, c: nat): (r: Parse)
    requires Ends(toks) && c < |toks|
    ensures r.Ok? ==> c < r.value.1 < |toks|
  {
    var (name, c1) :- ParseName(toks, c);
    if !toks[c1].CMP? then Err(BadValue)
    else
      match toks[c1 + 1]
      case STRING(text) => Ok((FieldCmp(name, toks[c1].op, TextRhs(text)), c1 + 2))
      case INTEGER(i) => Ok((FieldCmp(name, toks[c1].op, IntRhs(i)), c1 + 2))
      case _ => Err(BadValue)
  }

  function ParseAtom(toks: seq<Token>, c: nat): (r: Parse)
    requires Ends(toks) && c < |toks|
    ensures r.Ok? ==> c < r.value.1 < |toks|
    decreases |toks| - c, 0
  {
    match toks[c]
    case LPAREN =>
      var (e, c1) :- ParseOr(toks, c + 1);
      if toks[c1] == RPAREN then Ok((e, c1 + 1)) else Err(BadValue)
    case ALIVE => Ok((AnyAlive, c + 1))
    case ANY => Ok((AnyAlive, c + 1))
    case KIND => var (name, c1) :- ParseName(toks, c + 1); Ok((KindMatch(name), c1))
    case HAS_CHILD => var (name, c1) :- ParseName(toks, c + 1); Ok((HasChild(name), c1))
    case HAS_REF => var (name, c1) :- ParseName(toks, c + 1); Ok((HasRef(name), c1))
    case FIELD => ParseField(toks, c + 1)
    case _ => Err(BadValue)
  }

  function ParseNot(toks: seq<Token>, c: nat): (r: Parse)
    requires Ends(toks) && c < |toks|
    ensures r.Ok? ==> c < r.value.1 < |toks|
    decreases |toks| - c, 1
  {
    if toks[c] == NOT then
      var (e, c1) :- ParseNot(toks, c + 1);
      Ok((Not(e), c1))
    else ParseAtom(toks, c)
  }

  /** The conjuncts that follow one already parsed, folded to the left. */
  function AndTail(toks: seq<Token>, lhs: Expr, c: nat): (r: Parse)
    requires Ends(toks) && c < |toks|
    ensures r.Ok? ==> c <= r.value.1 < |toks|
    decreases |toks| - c, 2
  {
    if toks[c] == AND then
      var (rhs, c1) :- ParseNot(toks, c + 1);
      AndTail(toks, And(lhs, rhs), c1)
    else Ok((lhs, c))
  }

  function ParseAnd(toks: seq<Token>, c: nat): (r: Parse)
    requires Ends(toks) && c < |toks|
    ensures r.Ok? ==> c < r.value.1 < |toks|
    decreases |toks| - c, 3
  {
    var (lhs, c1) :- ParseNot(toks, c);
    AndTail(toks, lhs, c1)
  }

  function OrTail(toks: seq<Token>, lhs: Expr, c: nat): (r: Parse)
    requires Ends(toks) && c < |toks|
    ensures r.Ok? ==> c <= r.value.1 < |toks|
    decreases |toks| - c, 4
  {
    if toks[c] == OR then
      var (rhs, c1) :- ParseAnd(toks, c + 1);
      OrTail(toks, Or(lhs, rhs), c1)
    else Ok((lhs, c))
  }

  function ParseOr(toks: seq<Token>, c: nat): (r: Parse)
    requires Ends(toks) && c < |toks|
    ensures r.Ok? ==> c < r.value.1 < |toks|
    decreases |toks| - c, 5
  {
    var (lhs, c1) :- ParseAnd(toks, c);
    OrTail(toks, lhs, c1)
  }

  function ParseTokens(toks: seq<Token>): Result<Expr>
    requires Ends(toks)
  {
    var (e, c) :- ParseOr(toks, 0);
    if toks[c] == END then Ok(e) else Err(BadValue)
  }

  function ParseQuery(text: Text): Result<Expr> {
    var toks :- Lex(text);
    ParseTokens(toks)
  }

  // ----- printing -----

  predicate ShapeRhs(rhs: Rhs) {
    rhs.TextRhs? ==> forall i :: 0 <= i < |rhs.text| ==> NotQuote(rhs.text[i])
  }

  /** Trees the parser can build. */
  predicate Shape(e: Expr) {
    match e
    case Or(l, r) => Shape(l) && Shape(r)
    case And(l, r) => Shape(l) && Shape(r)
    case Not(x) => Shape(x)
    case KindMatch(name) => IsName(name)
    case FieldCmp(name, _, rhs) => IsName(name) && ShapeRhs(rhs)
    case HasChild(name) => IsName(name)
    case HasRef(name) => IsName(name)
    case AnyAlive => true
    case _ => false
  }

  function RhsToken(rhs: Rhs): Token {
    match rhs
    case TextRhs(text) => STRING(text)
    case IntRhs(i) => INTEGER(i)
  }

  /** The grammar level an expression belongs to: 0 for OR, 1 for AND, 2 for the rest. */
  function Level(e: Expr): nat {
    if e.Or? then 0 else if e.And? then 1 else 2
  }

  function Bracket(inner: seq<Token>): seq<Token> {
    [LPAREN] + inner + [RPAREN]
  }

  /** Print where the grammar expects the given level; brackets only when the
      expression belongs to a looser one. */
  function Print(e: Expr, level: nat): (toks: seq<Token>)
    requires Shape(e)
    ensures toks != []
    decreases e
  {
    match e
    case Or(l, r) =>
      var inner := Print(l, 0) + [OR] + Print(r, 1);
      if level > 0 then Bracket(inner) else inner
    case And(l, r) =>
      var inner := Print(l, 1) + [AND] + Print(r, 2);
      if level > 1 then Bracket(inner) else inner
    case Not(x) => [NOT] + Print(x, 2)
    case KindMatch(name) => [KIND, COLON, IDENT(name)]
    case FieldCmp(name, op, rhs) => [FIELD, COLON, IDENT(name), CMP(op), RhsToken(rhs)]
    case HasChild(name) => [HAS_CHILD, COLON, IDENT(name)]
    case HasRef(name) => [HAS_REF, COLON, IDENT(name)]
    case AnyAlive => [ALIVE]
  }

  function PrintQuery(e: Expr): Text
    requires Shape(e)
  {
    Render(Print(e, 0))
  }

  // ----- parsing what was printed -----

  /** The printed form of e stands at c, and something follows it. */
  ghost predicate At(toks: seq<Token>, c: nat, printed: seq<Token>) {
    Ends(toks) && c + |printed| < |toks| && toks[c..c + |printed|] == printed
  }

  lemma AtPart(toks: seq<Token>, c: nat, a: seq<Token>, b: seq<Token>)
    requires At(toks, c, a + b)
    ensures At(toks, c + |a|, b)
    ensures b != [] ==> At(toks, c, a)
  {
    assert toks[c..c + |a| + |b|][..|a|] == toks[c..c + |a|];
    assert toks[c..c + |a| + |b|][|a|..] == toks[c + |a|..c + |a| + |b|];
    assert (a + b)[..|a|] == a && (a + b)[|a|..] == b;
  }

  /** An operand, an operator and an operand, each in its place. */
  lemma AtBinary(toks: seq<Token>, c: nat, a: seq<Token>, t: Token, b: seq<Token>)
    requires At(toks, c, a + [t] + b)
    ensures At(toks, c, a) && toks[c + |a|] == t && At(toks, c + |a| + 1, b)
  {
    assert a + [t] + b == a + ([t] + b);
    AtPart(toks, c, a, [t] + b);
    AtPart(toks, c + |a|, [t], b);
    assert toks[c + |a|..c + |a| + |[t] + b|][0] == ([t] + b)[0];
  }

  lemma AtIndex(toks: seq<Token>, c: nat, printed: seq<Token>, k: nat)
    requires At(toks, c, printed) && k < |printed|
    ensures toks[c + k] == printed[k]
  {
    assert toks[c..c + |printed|][k] == toks[c + k];
  }

  /** The order in which the mutual lemmas below hand one expression around:
      a bracketed expression is parsed from the top, a leaf from the bottom. */
  function Turn(e: Expr, level: nat): nat {
    match e
    case Or(_, _) => if level == 0 then 1 else 3
    case And(_, _) => if level == 0 then 1 else if level == 1 then 0 else 3
    case _ => if level == 0 then 2 else if level == 1 then 1 else 0
  }

  lemma ParsePrintedLeaf(toks: seq<Token>, c: nat, e: Expr)
    requires Shape(e) && Level(e) == 2 && !e.Not? && At(toks, c, Print(e, 2))
    ensures ParseNot(toks, c) == Ok((e, c + |Print(e, 2)|))
  {
    hide IsName, ShapeRhs, At;
    var p := Print(e, 2);
    AtInside(toks, c, p);
    AtIndex(toks, c, p, 0);
    if !e.AnyAlive? {
      AtIndex(toks, c, p, 1);
      AtIndex(toks, c, p, 2);
      if e.FieldCmp? {
        AtIndex(toks, c, p, 3);
        AtIndex(toks, c, p, 4);
      }
    }
  }

  lemma AtInside(toks: seq<Token>, c: nat, printed: seq<Token>)
    requires At(toks, c, printed)
    ensures Ends(toks) && c + |printed| < |toks|
  {
  }

  lemma ParseNotPrefix(toks: seq<Token>, c: nat, x: Expr, n: nat)
    requires Ends(toks) && c + 1 < |toks| && toks[c] == NOT && ParseNot(toks, c + 1) == Ok((x, n))
    ensures ParseNot(toks, c) == Ok((Not(x), n))
  {
  }

  lemma {:induction false} ParsePrintedNot(toks: seq<Token>, c: nat, e: Expr)
    requires Shape(e) && At(toks, c, Print(e, 2))
    ensures ParseNot(toks, c) == Ok((e, c + |Print(e, 2)|))
    decreases e, Turn(e, 2)
  {
    hide At, ParseNot, IsName;
    if Level(e) < 2 {
      ParseBracketed(toks, c, e);
    } else if e.Not? {
      AtInside(toks, c, Print(e, 2));
      AtIndex(toks, c, Print(e, 2), 0);
      AtPart(toks, c, [NOT], Print(e.inner, 2));
      ParsePrintedNot(toks, c + 1, e.inner);
      ParseNotPrefix(toks, c, e.inner, c + |Print(e, 2)|);
    } else {
      ParsePrintedLeaf(toks, c, e);
    }
  }

  lemma ParseParens(toks: seq<Token>, c: nat, e: Expr, n: nat)
    requires Ends(toks) && c < n < |toks| && toks[c] == LPAREN && ParseOr(toks, c + 1) == Ok((e, n)) && toks[n] == RPAREN
    ensures ParseNot(toks, c) == Ok((e, n + 1))
  {
  }

  lemma OrTailStops(toks: seq<Token>, e: Expr, c: nat)
    requires Ends(toks) && c < |toks| && toks[c] != OR
    ensures OrTail(toks, e, c) == Ok((e, c))
  {
  }

  lemma {:induction false} ParseBracketed(toks: seq<Token>, c: nat, e: Expr)
    requires Shape(e) && Level(e) < 2 && At(toks, c, Bracket(Print(e, 0)))
    ensures ParseNot(toks, c) == Ok((e, c + |Print(e, 0)| + 2))
    decreases e, 2
  {
    hide Print, At, ParseNot, ParseOr, OrTail;
    var inner := Print(e, 0);
    var n := c + 1 + |inner|;
    AtInside(toks, c, Bracket(inner));
    AtIndex(toks, c, Bracket(inner), 0);
    AtIndex(toks, c, Bracket(inner), 1 + |inner|);
    AtPart(toks, c, [LPAREN] + inner, [RPAREN]);
    AtPart(toks, c, [LPAREN], inner);
    ParsePrintedOr(toks, c + 1, e);
    OrTailStops(toks, e, n);
    ParseParens(toks, c, e, n);
  }

  lemma AndTailMore(toks: seq<Token>, l: Expr, c: nat, r: Expr, n: nat)
    requires Ends(toks) && c < n < |toks| && toks[c] == AND && ParseNot(toks, c + 1) == Ok((r, n))
    ensures AndTail(toks, l, c) == AndTail(toks, And(l, r), n)
  {
  }

  lemma OneConjunct(toks: seq<Token>, c: nat, e: Expr, n: nat)
    requires Ends(toks) && c < n < |toks| && ParseNot(toks, c) == Ok((e, n))
    ensures ParseAnd(toks, c) == AndTail(toks, e, n)
  {
  }

  lemma {:induction false} ParsePrintedAnd(toks: seq<Token>, c: nat, e: Expr)
    requires Shape(e) && At(toks, c, Print(e, 1))
    ensures c + |Print(e, 1)| < |toks| && Ends(toks)
    ensures ParseAnd(toks, c) == AndTail(toks, e, c + |Print(e, 1)|)
    decreases e, Turn(e, 1)
  {
    hide At, ParseNot, ParseAnd, AndTail, IsName;
    AtInside(toks, c, Print(e, 1));
    var n := c + |Print(e, 1)|;
    if e.And? {
      var mid := c + |Print(e.left, 1)|;
      AtBinary(toks, c, Print(e.left, 1), AND, Print(e.right, 2));
      ParsePrintedAnd(toks, c, e.left);
      ParsePrintedNot(toks, mid + 1, e.right);
      AndTailMore(toks, e.left, mid, e.right, n);
    } else if e.Or? {
      ParseBracketed(toks, c, e);
      OneConjunct(toks, c, e, n);
    } else {
      assert Print(e, 1) == Print(e, 2);
      ParsePrintedNot(toks, c, e);
      OneConjunct(toks, c, e, n);
    }
  }

  lemma AndTailStops(toks: seq<Token>, e: Expr, c: nat)
    requires Ends(toks) && c < |toks| && toks[c] != AND
    ensures AndTail(toks, e, c) == Ok((e, c))
  {
  }

  lemma OrTailMore(toks: seq<Token>, l: Expr, c: nat, r: Expr, n: nat)
    requires Ends(toks) && c < n < |toks| && toks[c] == OR && ParseAnd(toks, c + 1) == Ok((r, n))
    ensures OrTail(toks, l, c) == OrTail(toks, Or(l, r), n)
  {
  }

  lemma OneDisjunct(toks: seq<Token>, c: nat, e: Expr, n: nat)
    requires Ends(toks) && c < n < |toks| && ParseAnd(toks, c) == Ok((e, n))
    ensures ParseOr(toks, c) == OrTail(toks, e, n)
  {
  }

  lemma {:induction false} ParsePrintedOr(toks: seq<Token>, c: nat, e: Expr)
    requires Shape(e) && At(toks, c, Print(e, 0))
    requires c + |Print(e, 0)| < |toks| && toks[c + |Print(e, 0)|] != AND
    ensures Ends(toks) && ParseOr(toks, c) == OrTail(toks, e, c + |Print(e, 0)|)
    decreases e, Turn(e, 0)
  {
    hide At, ParseAnd, ParseOr, AndTail, OrTail, IsName;
    AtInside(toks, c, Print(e, 0));
    var n := c + |Print(e, 0)|;
    AndTailStops(toks, e, n);
    if e.Or? {
      var mid := c + |Print(e.left, 0)|;
      AtBinary(toks, c, Print(e.left, 0), OR, Print(e.right, 1));
      ParsePrintedOr(toks, c, e.left);
      ParsePrintedAnd(toks, mid + 1, e.right);
      AndTailStops(toks, e.right, n);
      OrTailMore(toks, e.left, mid, e.right, n);
    } else {
      assert Print(e, 0) == Print(e, 1);
      ParsePrintedAnd(toks, c, e);
      OneDisjunct(toks, c, e, n);
    }
  }

  /** Parsing inverts printing, on tokens. */
  lemma ParsePrinted(e: Expr)
    requires Shape(e)
    ensures ParseTokens(Print(e, 0) + [END]) == Ok(e)
  {
    hide Print, ParseOr, OrTail;
    var p := Print(e, 0);
    var toks := p + [END];
    assert toks[0..0 + |p|] == p && toks[|p|] == END;
    ParsePrintedOr(toks, 0, e);
    OrTailStops(toks, e, |p|);
  }

  lemma {:induction false} PrintedLexable(e: Expr, level: nat)
    requires Shape(e)
    ensures forall t :: t in Print(e, level) ==> Lexable(t)
    decreases e
  {
    hide IsName;
    match e {
      case Or(l, r) => PrintedLexable(l, 0); PrintedLexable(r, 1);
      case And(l, r) => PrintedLexable(l, 1); PrintedLexable(r, 2);
      case Not(x) => PrintedLexable(x, 2);
      case _ =>
    }
  }

  /** Parsing inverts printing, on text: the minimally bracketed text of a tree
      lexes and parses back to exactly that tree. */
  lemma ParseInvertsPrint(e: Expr)
    requires Shape(e)
    ensures ParseQuery(PrintQuery(e)) == Ok(e)
  {
    hide Print, Lex, Render, Lexable, ParseTokens;
    PrintedLexable(e, 0);
    LexRender(Print(e, 0));
    ParsePrinted(e);
  }

  // ----- everything parsed has a printable shape -----

  ghost predicate GoodTokens(toks: seq<Token>) {
    Ends(toks) && forall i :: 0 <= i < |toks| - 1 ==> Lexable(toks[i])
  }

  lemma {:induction false} AtomShape(toks: seq<Token>, c: nat)
    requires GoodTokens(toks) && c < |toks|
    ensures ParseAtom(toks, c).Ok? ==> Shape(ParseAtom(toks, c).value.0)
    decreases |toks| - c, 0
  {
    hide IsName;
    if toks[c] == LPAREN {
      OrShape(toks, c + 1);
    } else if toks[c] in {KIND, HAS_CHILD, HAS_REF, FIELD} && c + 2 < |toks| - 1 {
      assert Lexable(toks[c + 2]);
      if c + 4 < |toks| - 1 {
        assert Lexable(toks[c + 4]);
      }
    }
  }

  lemma {:induction false} NotShape(toks: seq<Token>, c: nat)
    requires GoodTokens(toks) && c < |toks|
    ensures ParseNot(toks, c).Ok? ==> Shape(ParseNot(toks, c).value.0)
    decreases |toks| - c, 1
  {
    if toks[c] == NOT {
      NotShape(toks, c + 1);
    } else {
      AtomShape(toks, c);
    }
  }

  lemma {:induction false} AndTailShape(toks: seq<Token>, lhs: Expr, c: nat)
    requires GoodTokens(toks) && c < |toks| && Shape(lhs)
    ensures AndTail(toks, lhs, c).Ok? ==> Shape(AndTail(toks, lhs, c).value.0)
    decreases |toks| - c, 2
  {
    if toks[c] == AND {
      NotShape(toks, c + 1);
      var r := ParseNot(toks, c + 1);
      if r.Ok? {
        AndTailShape(toks, And(lhs, r.value.0), r.value.1);
      }
    }
  }

  lemma {:induction false} AndShape(toks: seq<Token>, c: nat)
    requires GoodTokens(toks) && c < |toks|
    ensures ParseAnd(toks, c).Ok? ==> Shape(ParseAnd(toks, c).value.0)
    decreases |toks| - c, 3
  {
    NotShape(toks, c);
    var r := ParseNot(toks, c);
    if r.Ok? {
      AndTailShape(toks, r.value.0, r.value.1);
    }
  }

  lemma {:induction false} OrTailShape(toks: seq<Token>, lhs: Expr, c: nat)
    requires GoodTokens(toks) && c < |toks| && Shape(lhs)
    ensures OrTail(toks, lhs, c).Ok? ==> Shape(OrTail(toks, lhs, c).value.0)
    decreases |toks| - c, 4
  {
    if toks[c] == OR {
      AndShape(toks, c + 1);
      var r := ParseAnd(toks, c + 1);
      if r.Ok? {
        OrTailShape(toks, Or(lhs, r.value.0), r.value.1);
      }
    }
  }

  lemma {:induction false} OrShape(toks: seq<Token>, c: nat)
    requires GoodTokens(toks) && c < |toks|
    ensures ParseOr(toks, c).Ok? ==> Shape(ParseOr(toks, c).value.0)
    decreases |toks| - c, 5
  {
    AndShape(toks, c);
    var r := ParseAnd(toks, c);
    if r.Ok? {
      OrTailShape(toks, r.value.0, r.value.1);
    }
  }

  /** Any query that parses can be printed, and its printed text means the same tree. */
  lemma PrintNormalizes(text: Text)
    requires ParseQuery(text).Ok?
    ensures var e := ParseQuery(text).value;
      Shape(e) && ParseQuery(PrintQuery(e)) == Ok(e)
  {
    hide Lexable, ParseOr, Shape;
    var toks := Lex(text).value;
    LexedAreLexable(text);
    OrShape(toks, 0);
    ParseInvertsPrint(ParseOr(toks, 0).value.0);
  }

  // ----- the parser as an object -----

  class Parser {
    const toks: seq<Token>
    var cursor: nat

    ghost predicate Valid()
      reads this
    {
      Ends(toks) && cursor < |toks|
    }

    /** Follow the specification from where the cursor stood. */
    ghost predicate Follows(spec: Parse, r: Result<Expr>)
      reads this
    {
      && Valid()
      && match spec
         case Ok(pair) => r == Ok(pair.0) && cursor == pair.1
         case Err(code) => r == Err(code)
    }

    constructor (tokens: seq<Token>)
      requires Ends(tokens)
      ensures Valid() && toks == tokens && cursor == 0
    {
      toks := tokens;
      cursor := 0;
    }

    /** Take the current token; the end marker is never passed. */
    method Consume() returns (t: Token)
      requires Valid()
      modifies `cursor
      ensures Valid() && t == toks[old(cursor)]
      ensures cursor == if old(cursor) + 1 < |toks| then old(cursor) + 1 else old(cursor)
    {
      t := toks[cursor];
      if cursor + 1 < |toks| {
        cursor := cursor + 1;
      }
    }

    method Name() returns (r: Result<Text>)
      requires Valid()
      modifies `cursor
      ensures Valid()
      ensures match ParseName(toks, old(cursor))
              case Ok(pair) => r == Ok(pair.0) && cursor == pair.1
              case Err(code) => r == Err(code)
    {
      if toks[cursor] != COLON {
        return Err(BadValue);
      }
      var colon := Consume();
      if !toks[cursor].IDENT? {
        return Err(BadValue);
      }
      var t := Consume();
      return Ok(t.name);
    }

    method Field() returns (r: Result<Expr>)
      requires Valid()
      modifies `cursor
      ensures Follows(ParseField(toks, old(cursor)), r)
    {
      var name :- Name();
      if !toks[cursor].CMP? {
        return Err(BadValue);
      }
      var t := Consume();
      var rhs;
      match toks[cursor] {
        case STRING(text) => rhs := TextRhs(text);
        case INTEGER(i) => rhs := IntRhs(i);
        case _ => return Err(BadValue);
      }
      var used := Consume();
      return Ok(FieldCmp(name, t.op, rhs));
    }

    method Atom() returns (r: Result<Expr>)
      requires Valid()
      modifies `cursor
      ensures Follows(ParseAtom(toks, old(cursor)), r)
      decreases |toks| - cursor, 0
    {
      var t := toks[cursor];
      if t !in {LPAREN, ALIVE, ANY, KIND, HAS_CHILD, HAS_REF, FIELD} {
        return Err(BadValue);
      }
      var used := Consume();
      match t {
        case LPAREN =>
          var e :- OrExpr();
          if toks[cursor] != RPAREN {
            return Err(BadValue);
          }
          used := Consume();
          return Ok(e);
        case KIND =>
          var name :- Name();
          return Ok(KindMatch(name));
        case HAS_CHILD =>
          var name :- Name();
          return Ok(HasChild(name));
        case HAS_REF =>
          var name :- Name();
          return Ok(HasRef(name));
        case FIELD =>
          r := Field();
        case _ =>
          return Ok(AnyAlive);
      }
    }

    method NotExpr() returns (r: Result<Expr>)
      requires Valid()
      modifies `cursor
      ensures Follows(ParseNot(toks, old(cursor)), r)
      decreases |toks| - cursor, 1
    {
      if toks[cursor] == NOT {
        var used := Consume();
        var e :- NotExpr();
        return Ok(Not(e));
      }
      r := Atom();
    }

    method AndExpr() returns (r: Result<Expr>)
      requires Valid()
      modifies `cursor
      ensures Follows(ParseAnd(toks, old(cursor)), r)
      decreases |toks| - cursor, 2
    {
      var lhs :- NotExpr();
      while toks[cursor] == AND
        invariant Valid() && old(cursor) < cursor
        invariant ParseAnd(toks, old(cursor)) == AndTail(toks, lhs, cursor)
        decreases |toks| - cursor
      {
        var used := Consume();
        var rhs :- NotExpr();
        lhs := And(lhs, rhs);
      }
      return Ok(lhs);
    }

    method OrExpr() returns (r: Result<Expr>)
      requires Valid()
      modifies `cursor
      ensures Follows(ParseOr(toks, old(cursor)), r)
      decreases |toks| - cursor, 3
    {
      var lhs :- AndExpr();
      while toks[cursor] == OR
        invariant Valid() && old(cursor) < cursor
        invariant ParseOr(toks, old(cursor)) == OrTail(toks, lhs, cursor)
        decreases |toks| - cursor
      {
        var used := Consume();
        var rhs :- AndExpr();
        lhs := Or(lhs, rhs);
      }
      return Ok(lhs);
    }

    /** Parse the whole token list; it terminates with the cursor inside it. */
    method Run() returns (r: Result<Expr>)
      requires Valid() && cursor == 0
      modifies `cursor
      ensures Valid() && r == ParseTokens(toks)
    {
      var e :- OrExpr();
      if toks[cursor] != END {
        return Err(BadValue);
      }
      return Ok(e);
    }
  }

  method RunQuery(text: Text) returns (r: Result<Expr>)
    ensures r == ParseQuery(text)
  {
    var lexer := new Lexer(text);
    assert text[0..] == text;
    var toks :- lexer.Tokenize();
    var parser := new Parser(toks);
    r := parser.Run();
  }
}
