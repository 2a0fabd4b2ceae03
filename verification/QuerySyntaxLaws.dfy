/** The spelling and the grammar of queries: which characters make which token,
    what a number's digits amount to, and how operators bind. */
module QuerySyntaxLaws {
  import opened Basics
  import opened QueryLexer
  import opened QueryParser

  // ----- spelling -----

  /** The symbols, each followed by a blank and anything. */
  lemma SymbolLaw(rest: Text)
    ensures LexToken([0x3D, 0x20] + rest) == Ok((CMP(Eq), [0x20] + rest))           // =
    ensures LexToken([0x3C, 0x20] + rest) == Ok((CMP(Lt), [0x20] + rest))           // <
    ensures LexToken([0x3E, 0x20] + rest) == Ok((CMP(Gt), [0x20] + rest))           // >
    ensures LexToken([0x21, 0x3D] + rest) == Ok((CMP(Neq), rest))                   // !=
    ensures LexToken([0x3C, 0x3D] + rest) == Ok((CMP(Le), rest))                    // <=
    ensures LexToken([0x3E, 0x3D] + rest) == Ok((CMP(Ge), rest))                    // >=
    ensures LexToken([0x3A] + rest) == Ok((COLON, rest))                            // :
    ensures LexToken([0x28] + rest) == Ok((LPAREN, rest))                           // (
    ensures LexToken([0x29] + rest) == Ok((RPAREN, rest))                           // )
    ensures LexToken([0x22, 0x61, 0x22] + rest) == Ok((STRING([0x61]), rest))       // "a"
  {
    hide Classify, NumberOf;
    assert ([0x3D, 0x20] + rest)[1..] == [0x20] + rest;
    assert ([0x3C, 0x20] + rest)[1..] == [0x20] + rest;
    assert ([0x3E, 0x20] + rest)[1..] == [0x20] + rest;
    assert ([0x21, 0x3D] + rest)[2..] == rest;
    assert ([0x3C, 0x3D] + rest)[2..] == rest;
    assert ([0x3E, 0x3D] + rest)[2..] == rest;
    assert ([0x3A] + rest)[1..] == rest;
    assert ([0x28] + rest)[1..] == rest;
    assert ([0x29] + rest)[1..] == rest;
    StringOfOne(rest);
  }

  lemma StringOfOne(rest: Text)
    ensures LexToken([0x22, 0x61, 0x22] + rest) == Ok((STRING([0x61]), rest))
  {
    var s: Text := [0x22, 0x61, 0x22] + rest;
    assert s[1..] == [0x61] + [0x22] + rest;
    RunExact(NotQuote, [0x61], 0x22, rest);
    assert s[1..2] == [0x61] && s[3..] == rest;
  }

  /** The same letters, whatever their case. */
  predicate SameLetters(w: Text, upper: Text) {
    |w| == |upper| && forall i :: 0 <= i < |w| ==> w[i] == upper[i] || (w[i] as int) == (upper[i] as int) + 0x20
  }

  /** kind, field, has_child, has_ref, alive and any are keywords as written;
      AND, OR and NOT are in any case; every other word is a name. */
  lemma WordLaw(w: Text)
    ensures Classify([0x6B, 0x69, 0x6E, 0x64]) == KIND
    ensures Classify([0x66, 0x69, 0x65, 0x6C, 0x64]) == FIELD
    ensures Classify([0x68, 0x61, 0x73, 0x5F, 0x63, 0x68, 0x69, 0x6C, 0x64]) == HAS_CHILD
    ensures Classify([0x68, 0x61, 0x73, 0x5F, 0x72, 0x65, 0x66]) == HAS_REF
    ensures Classify([0x61, 0x6C, 0x69, 0x76, 0x65]) == ALIVE
    ensures Classify([0x61, 0x6E, 0x79]) == ANY
    ensures Classify(w) == AND <==> SameLetters(w, [0x41, 0x4E, 0x44])
    ensures Classify(w) == OR <==> SameLetters(w, [0x4F, 0x52])
    ensures Classify(w) == NOT <==> SameLetters(w, [0x4E, 0x4F, 0x54])
    ensures Classify(w) in {KIND, FIELD, HAS_CHILD, HAS_REF, ALIVE, ANY, AND, OR, NOT, IDENT(w)}
  {
    UpperIff(w, [0x41, 0x4E, 0x44]);
    UpperIff(w, [0x4F, 0x52]);
    UpperIff(w, [0x4E, 0x4F, 0x54]);
    hide Upper, SameLetters;
    assert KIND_WORD[0] != FIELD_WORD[0] && HAS_CHILD_WORD[4] != HAS_REF_WORD[4] && |ALIVE_WORD| != |ANY_WORD|;
    OnlyTheseWords(w);
  }

  lemma UpperIff(w: Text, upper: Text)
    requires forall i :: 0 <= i < |upper| ==> 0x41 <= upper[i] <= 0x5A
    ensures Upper(w) == upper <==> SameLetters(w, upper)
  {
    if SameLetters(w, upper) {
      forall i | 0 <= i < |w| ensures Upper(w)[i] == upper[i] {
      }
    }
    if Upper(w) == upper {
      forall i | 0 <= i < |w| ensures w[i] == upper[i] || (w[i] as int) == (upper[i] as int) + 0x20 {
        assert Upper(w)[i] == upper[i];
      }
    }
  }

  lemma OnlyTheseWords(w: Text)
    ensures Upper(w) == AND_WORD ==> Classify(w) == AND
    ensures Upper(w) == OR_WORD ==> Classify(w) == OR
    ensures Upper(w) == NOT_WORD ==> Classify(w) == NOT
  {
    hide Upper;
    UpperLength(w);
    if w == ANY_WORD {
      AnyIsNoOperator();
    }
  }

  lemma UpperLength(w: Text)
    ensures |Upper(w)| == |w|
  {
  }

  lemma AnyIsNoOperator()
    ensures Upper(ANY_WORD)[2] == 0x59
  {
  }

  // ----- blanks, words and strays -----

  predicate Blank(c: Byte) {
    c == 0x20 || c == 0x09 || c == 0x0A || c == 0x0B || c == 0x0C || c == 0x0D
  }

  /** Blanks in front of a token are skipped. */
  lemma {:induction false} BlanksLaw(w: Text, t: Text)
    requires forall i :: 0 <= i < |w| ==> Blank(w[i])
    ensures Lex(w + t) == Lex(t)
  {
    if w == [] {
      assert w + t == t;
    } else {
      assert (w + t)[1..] == w[1..] + t;
      BlanksLaw(w[1..], t);
      SkipOne(w + t);
    }
  }

  lemma SkipOne(s: Text)
    requires s != [] && Blank(s[0])
    ensures Lex(s) == Lex(s[1..])
  {
    hide LexToken;
    assert s[Run(IsSpace, s)..] == s[1..][Run(IsSpace, s[1..])..];
  }

  predicate Letter(c: Byte) {
    0x41 <= c <= 0x5A || 0x61 <= c <= 0x7A || c == 0x5F
  }

  predicate Digit(c: Byte) {
    0x30 <= c <= 0x39
  }

  /** A word takes every letter, digit and underscore there is. */
  lemma WordTakesAll(w: Text, rest: Text)
    requires w != [] && Letter(w[0]) && (forall i :: 0 <= i < |w| ==> Letter(w[i]) || Digit(w[i]))
    requires rest == [] || !(Letter(rest[0]) || Digit(rest[0]))
    ensures LexToken(w + rest) == Ok((Classify(w), rest))
  {
    RunOver(IsWordChar, w, rest);
    assert (w + rest)[..|w|] == w && (w + rest)[|w|..] == rest;
    hide Classify, Run;
  }

  lemma {:induction false} RunOver(p: Byte -> bool, w: Text, rest: Text)
    requires (forall i :: 0 <= i < |w| ==> p(w[i])) && (rest == [] || !p(rest[0]))
    ensures Run(p, w + rest) == |w|
  {
    if w != [] {
      RunOver(p, w[1..], rest);
      assert (w + rest)[1..] == w[1..] + rest;
    } else {
      assert w + rest == rest;
    }
  }

  /** Nothing else starts a token: not a lone '!', not a '-' without a digit,
      and no other character. */
  lemma StraysAreRefused(c: Byte, rest: Text)
    requires !(Blank(c) || Letter(c) || Digit(c) || c in {0x22, 0x28, 0x29, 0x3A, 0x3C, 0x3D, 0x3E})
    requires c == 0x21 ==> rest == [] || rest[0] != 0x3D
    requires c == 0x2D ==> rest == [] || !Digit(rest[0])
    ensures Lex([c] + rest) == Err(BadValue)
  {
    var s := [c] + rest;
    assert Run(IsSpace, s) == 0 && s[0..] == s;
    assert |rest| > 0 ==> s[1] == rest[0];
    hide Run, Classify, IntegerToken;
  }

  // ----- numbers -----

  function Pow10(k: nat): nat {
    if k == 0 then 1 else 10 * Pow10(k - 1)
  }

  /** Decimal notation: a digit stands for itself, and a longer run for its
      first part, shifted by the length of the second, plus the second. */
  lemma {:induction false} DecimalLaw(a: Text, b: Text)
    requires forall i :: 0 <= i < |a + b| ==> 0x30 <= (a + b)[i] <= 0x39
    ensures forall i :: 0 <= i < |a| ==> IsDigit(a[i])
    ensures forall i :: 0 <= i < |b| ==> IsDigit(b[i])
    ensures NumberOf(a + b) == NumberOf(a) * Pow10(|b|) + NumberOf(b)
    ensures |b| == 1 ==> NumberOf(b) == b[0] - 0x30
    decreases |b|
  {
    assert forall i :: 0 <= i < |a| ==> a[i] == (a + b)[i];
    assert forall i :: 0 <= i < |b| ==> b[i] == (a + b)[|a| + i];
    if b == [] {
      assert a + b == a;
    } else {
      var m := |b| - 1;
      assert (a + b)[..|a + b| - 1] == a + b[..m];
      DecimalLaw(a, b[..m]);
      assert Pow10(|b|) == 10 * Pow10(m);
      Distribute(NumberOf(a), Pow10(m));
    }
  }

  lemma Distribute(x: nat, p: nat)
    ensures x * (10 * p) == 10 * (x * p)
  {
  }

  // ----- grammar -----

  /** A token list that is one leaf and the end marker. */
  lemma LeafParses(toks: seq<Token>, e: Expr, c: nat)
    requires Ends(toks) && toks[0] != NOT && c < |toks| && toks[c] == END && ParseAtom(toks, 0) == Ok((e, c))
    ensures ParseTokens(toks) == Ok(e)
  {
    hide ParseAtom;
    assert ParseNot(toks, 0) == Ok((e, c));
    assert ParseAnd(toks, 0) == AndTail(toks, e, c) == Ok((e, c));
    assert ParseOr(toks, 0) == OrTail(toks, e, c) == Ok((e, c));
  }

  /** The leaves of the grammar. */
  lemma LeafLaw(name: Text, op: CmpOp, v: I64, text: Text)
    ensures ParseTokens([KIND, COLON, IDENT(name), END]) == Ok(KindMatch(name))
    ensures ParseTokens([HAS_CHILD, COLON, IDENT(name), END]) == Ok(HasChild(name))
    ensures ParseTokens([HAS_REF, COLON, IDENT(name), END]) == Ok(HasRef(name))
    ensures ParseTokens([FIELD, COLON, IDENT(name), CMP(op), INTEGER(v), END]) == Ok(FieldCmp(name, op, IntRhs(v)))
    ensures ParseTokens([FIELD, COLON, IDENT(name), CMP(op), STRING(text), END]) == Ok(FieldCmp(name, op, TextRhs(text)))
    ensures ParseTokens([ALIVE, END]) == Ok(AnyAlive) && ParseTokens([ANY, END]) == Ok(AnyAlive)
  {
    hide ParseTokens;
    LeafParses([KIND, COLON, IDENT(name), END], KindMatch(name), 3);
    LeafParses([HAS_CHILD, COLON, IDENT(name), END], HasChild(name), 3);
    LeafParses([HAS_REF, COLON, IDENT(name), END], HasRef(name), 3);
    LeafParses([FIELD, COLON, IDENT(name), CMP(op), INTEGER(v), END], FieldCmp(name, op, IntRhs(v)), 5);
    LeafParses([FIELD, COLON, IDENT(name), CMP(op), STRING(text), END], FieldCmp(name, op, TextRhs(text)), 5);
    LeafParses([ALIVE, END], AnyAlive, 1);
    LeafParses([ANY, END], AnyAlive, 1);
  }

  /** Expressions printed without brackets wherever they stand: leaves and
      negations. */
  predicate Tight(e: Expr) {
    Shape(e) && !e.Or? && !e.And?
  }

  function Tokens(e: Expr): seq<Token>
    requires Tight(e)
  {
    Print(e, 2)
  }

  lemma AnyLevel(e: Expr, level: nat)
    requires Tight(e)
    ensures Print(e, level) == Tokens(e)
  {
  }

  /** AND binds tighter than OR on either side. */
  lemma AndBindsTighter(x: Expr, y: Expr, z: Expr)
    requires Tight(x) && Tight(y) && Tight(z)
    ensures ParseTokens(Tokens(x) + [OR] + (Tokens(y) + [AND] + Tokens(z)) + [END]) == Ok(Or(x, And(y, z)))
    ensures ParseTokens((Tokens(x) + [AND] + Tokens(y)) + [OR] + Tokens(z) + [END]) == Ok(Or(And(x, y), z))
  {
    Pairs(x, y);
    Pairs(y, z);
    AnyLevel(x, 0);
    AnyLevel(z, 1);
    ParsePrinted(Or(x, And(y, z)));
    ParsePrinted(Or(And(x, y), z));
    hide ParseTokens, Tokens;
    assert Print(Or(x, And(y, z)), 0) == Print(x, 0) + [OR] + Print(And(y, z), 1);
    assert Print(Or(And(x, y), z), 0) == Print(And(x, y), 0) + [OR] + Print(z, 1);
  }

  lemma Pairs(x: Expr, y: Expr)
    requires Tight(x) && Tight(y)
    ensures Print(And(x, y), 0) == Print(And(x, y), 1) == Tokens(x) + [AND] + Tokens(y)
    ensures Print(Or(x, y), 0) == Tokens(x) + [OR] + Tokens(y)
    ensures Print(Or(x, y), 1) == [LPAREN] + (Tokens(x) + [OR] + Tokens(y)) + [RPAREN]
  {
    AnyLevel(x, 0);
    AnyLevel(x, 1);
    AnyLevel(y, 1);
    hide Tokens, Shape;
  }

  /** Both operators group to the left, and brackets override. */
  lemma GroupsToTheLeft(x: Expr, y: Expr, z: Expr)
    requires Tight(x) && Tight(y) && Tight(z)
    ensures ParseTokens((Tokens(x) + [OR] + Tokens(y)) + [OR] + Tokens(z) + [END]) == Ok(Or(Or(x, y), z))
    ensures ParseTokens((Tokens(x) + [AND] + Tokens(y)) + [AND] + Tokens(z) + [END]) == Ok(And(And(x, y), z))
    ensures ParseTokens(([LPAREN] + (Tokens(x) + [OR] + Tokens(y)) + [RPAREN]) + [AND] + Tokens(z) + [END]) == Ok(And(Or(x, y), z))
  {
    Pairs(x, y);
    AnyLevel(z, 1);
    AnyLevel(z, 2);
    ParsePrinted(Or(Or(x, y), z));
    ParsePrinted(And(And(x, y), z));
    ParsePrinted(And(Or(x, y), z));
    hide ParseTokens, Tokens;
    assert Print(Or(Or(x, y), z), 0) == Print(Or(x, y), 0) + [OR] + Print(z, 1);
    assert Print(And(And(x, y), z), 0) == Print(And(x, y), 1) + [AND] + Print(z, 2);
    assert Print(And(Or(x, y), z), 0) == Print(Or(x, y), 1) + [AND] + Print(z, 2);
  }

  /** NOT applies to the leaf or negation that follows it and to no more. */
  lemma NotBindsTightest(x: Expr, y: Expr)
    requires Tight(x) && Tight(y)
    ensures Tokens(Not(x)) == [NOT] + Tokens(x)
    ensures ParseTokens(([NOT] + Tokens(x)) + [AND] + Tokens(y) + [END]) == Ok(And(Not(x), y))
    ensures ParseTokens(([NOT] + Tokens(x)) + [OR] + Tokens(y) + [END]) == Ok(Or(Not(x), y))
  {
    Pairs(Not(x), y);
    ParsePrinted(And(Not(x), y));
    ParsePrinted(Or(Not(x), y));
    hide ParseTokens;
  }

  /** The tokens of a leaf are the words written for it. */
  lemma LeafTokens(name: Text, op: CmpOp, v: I64, text: Text)
    requires IsName(name) && forall i :: 0 <= i < |text| ==> text[i] != 0x22
    ensures Tokens(KindMatch(name)) == [KIND, COLON, IDENT(name)]
    ensures Tokens(HasChild(name)) == [HAS_CHILD, COLON, IDENT(name)]
    ensures Tokens(HasRef(name)) == [HAS_REF, COLON, IDENT(name)]
    ensures Tokens(FieldCmp(name, op, IntRhs(v))) == [FIELD, COLON, IDENT(name), CMP(op), INTEGER(v)]
    ensures Tokens(FieldCmp(name, op, TextRhs(text))) == [FIELD, COLON, IDENT(name), CMP(op), STRING(text)]
  {
    hide IsName;
  }
}
