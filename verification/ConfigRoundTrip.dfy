/** Printing and parsing undo each other. */
module ConfigRoundTrip {
  import opened Text
  import opened ConfigTree
  import opened ConfigLexer
  import opened ConfigMachine

  lemma {:induction false} SkipBlanks(b: string, s: string)
    requires forall i | 0 <= i < |b| :: b[i] in BLANKS
    ensures Skip(b + s, BLANKS) == Skip(s, BLANKS)
  {
    if b == "" {
      assert b + s == s;
    } else {
      assert (b + s)[1..] == b[1..] + s && (b + s)[0] == b[0];
      assert b[0] in BLANKS;
      SkipBlanks(b[1..], s);
    }
  }

  lemma LexSame(s: string, s': string)
    requires NextToken(s) == NextToken(s')
    ensures Lex(s) == Lex(s')
  {
  }

  lemma BlanksVanish(b: string, s: string)
    requires forall i | 0 <= i < |b| :: b[i] in BLANKS
    ensures Lex(b + s) == Lex(s)
  {
    SkipBlanks(b, s);
    LexSame(b + s, s);
  }

  lemma LexToken(s: string, n: Lexeme)
    requires NextToken(s) == n && n.IsToken()
    ensures Lex(s) == Lex(n.rest).After([TokenOf(n)])
  {
  }

  lemma ReadBareWord(w: string, s: string)
    requires BareWord(w) && s != "" && s[0] in WORD_ENDS
    ensures Resume(IN_WORD, [w[0]], w[1..] + s) == Lexeme(NORMAL, w, s)
  {
    var r := w[1..] + s;
    SpanIs(r, WORD_ENDS, |w| - 1);
    assert [w[0]] + r[..|w|-1] == w && r[|w|-1..] == s;
  }

  lemma ReadQuotedWord(q: char, w: string, s: string)
    requires QuotedWord(w, q) && (q == '\"' || q == '\'')
    ensures Resume(if q == '\"' then DOUBLE_QUOTE else SINGLE_QUOTE, [q], w[1..] + s) == Lexeme(NORMAL, w, s)
  {
    var r := w[1..] + s;
    SpanIs(r, {q}, |w| - 2);
    assert [q] + r[..|w|-1] == w && r[|w|-1..] == s;
  }

  lemma ReadWord(w: string, s: string)
    requires ValidWord(w) && s != "" && s[0] in WORD_ENDS
    ensures NextToken(w + s) == Lexeme(NORMAL, w, s)
  {
    hide Resume, Skip, Free;
    var t := w + s;
    assert !IsBlank(t[0]);
    SkipFirst(t);
    assert t[1..] == w[1..] + s;
    if QuotedWord(w, '\"') {
      ReadQuotedWord('\"', w, s);
    } else if QuotedWord(w, '\'') {
      ReadQuotedWord('\'', w, s);
    } else {
      ReadBareWord(w, s);
    }
  }

  lemma LexWord(w: string, s: string)
    requires ValidWord(w) && s != "" && s[0] in WORD_ENDS
    ensures Lex(w + s) == Lex(s).After([Word(w)])
  {
    ReadWord(w, s);
    LexToken(w + s, Lexeme(NORMAL, w, s));
  }

  lemma LexMark(c: char, s: string)
    requires c == ';' || c == '{' || c == '}'
    ensures Lex([c] + s) == Lex(s).After([if c == ';' then Semi else if c == '{' then Open else Close])
  {
    hide Resume, Skip;
    assert ([c] + s)[1..] == s;
    assert Skip([c] + s, BLANKS) == [c] + s by { SkipFirst([c] + s); }
    var kind := if c == ';' then STATEMENT_END else if c == '{' then START_BLOCK else END_BLOCK;
    assert NextToken([c] + s) == Lexeme(kind, [c], s);
    LexToken([c] + s, Lexeme(kind, [c], s));
  }

  lemma AfterTwice(l: Lexed, a: seq<Token>, b: seq<Token>)
    ensures l.After(b).After(a) == l.After(a + b)
  {
  }

  lemma {:induction false} LexWords(ws: seq<string>, s: string)
    requires ws != [] && forall i | 0 <= i < |ws| :: ValidWord(ws[i])
    requires s != "" && s[0] in WORD_ENDS
    ensures Lex(Join(ws, " ") + s) == Lex(s).After(Words(ws))
  {
    hide Lex, NextToken, Words, ValidWord;
    if |ws| == 1 {
      LexWord(ws[0], s);
      WordsCons(ws);
      assert ws[1..] == [];
      WordsNone();
    } else {
      var later := Join(ws[1..], " ") + s;
      Regroup4(ws[0], " ", Join(ws[1..], " "), s);
      WordsCons(ws);
      LexWord(ws[0], " " + later);
      BlanksVanish(" ", later);
      LexWords(ws[1..], s);
      AfterTwice(Lex(s), [Word(ws[0])], Words(ws[1..]));
    }
  }

  lemma WordsNone()
    ensures Words([]) == []
    ensures forall l: Lexed :: l.After([]) == l
  {
  }

  /** A printed block after its words, grouped the way it is read. */
  function BlockText(inner: string, indent: string, rest: string): string {
    " " + ("{" + ("\n" + (inner + (indent + ("}" + rest)))))
  }

  lemma BlockIsText(inner: string, indent: string, rest: string)
    ensures " {\n" + inner + indent + "}" + rest == BlockText(inner, indent, rest)
  {
  }

  /** Printing a tree writes out its derivation. */
  lemma {:induction false} LexPrint(c: Config, depth: int, s: string)
    requires WellFormed(c)
    ensures Lex(Print(c, depth) + s) == Lex(s).After(Yield(c))
    decreases c, 1
  {
    hide Lex, PrintStatement, YieldStatement, WellFormedStatement;
    if c == [] {
      assert Print(c, depth) + s == s;
      assert Lex(s).After([]) == Lex(s);
    } else {
      assert Print(c, depth) + s == PrintStatement(c[0], depth) + (Print(c[1..], depth) + s);
      LexPrintStatement(c[0], depth, Print(c[1..], depth) + s);
      LexPrint(c[1..], depth, s);
      AfterTwice(Lex(s), YieldStatement(c[0]), Yield(c[1..]));
    }
  }

  lemma {:induction false} LexPrintStatement(st: Statement, depth: int, s: string)
    requires WellFormedStatement(st)
    ensures Lex(PrintStatement(st, depth) + s) == Lex(s).After(YieldStatement(st))
    decreases st, 0
  {
    hide Lex, Join, Words, ValidWord;
    IndentIsBlank(depth);
    var line := "\n" + s;
    BlanksVanish("\n", s);
    var ending := match st
      case Leaf(_) => ";" + line
      case Block(_, children) => BlockText(Print(children, depth + 1), Indent(depth), line);
    match st {
      case Leaf(_) =>
        Regroup(Indent(depth) + Join(st.tokens, " ") + ";", "\n", s);
        Regroup4(Indent(depth), Join(st.tokens, " "), ";", line);
      case Block(_, children) =>
        var block := " {\n" + Print(children, depth + 1) + Indent(depth) + "}";
        Regroup(Indent(depth) + Join(st.tokens, " ") + block, "\n", s);
        Regroup4(Indent(depth), Join(st.tokens, " "), block, line);
        BlockIsText(Print(children, depth + 1), Indent(depth), line);
    }
    BlanksVanish(Indent(depth), Join(st.tokens, " ") + ending);
    LexWords(st.tokens, ending);
    match st
    case Leaf(_) =>
      LexMark(';', line);
      AfterTwice(Lex(s), Words(st.tokens), [Semi]);
    case Block(_, children) =>
      LexBlock(children, depth, line);
      AfterTwice(Lex(line), Words(st.tokens), [Open] + Yield(children) + [Close]);
  }

  lemma {:induction false} LexBlock(children: Config, depth: int, s: string)
    requires WellFormed(children)
    ensures Lex(BlockText(Print(children, depth + 1), Indent(depth), s)) ==
            Lex(s).After([Open] + Yield(children) + [Close])
    decreases children, 2
  {
    hide Lex, Yield, Print, WellFormed;
    IndentIsBlank(depth);
    var closing := Indent(depth) + ("}" + s);
    var body := Print(children, depth + 1) + closing;
    BlanksVanish(" ", "{" + ("\n" + body));
    LexMark('{', "\n" + body);
    BlanksVanish("\n", body);
    LexPrint(children, depth + 1, closing);
    BlanksVanish(Indent(depth), "}" + s);
    LexMark('}', s);
    AfterTwice(Lex(s), Yield(children), [Close]);
    AfterTwice(Lex(s), [Open], Yield(children) + [Close]);
    Regroup([Open], Yield(children), [Close]);
  }

  predicate ValidTokens(ts: seq<Token>) {
    forall i | 0 <= i < |ts| :: ts[i].Word? ==> ValidWord(ts[i].text)
  }

  lemma {:induction false} LexedWordsAreValid(s: string)
    ensures ValidTokens(Lex(s).tokens)
    decreases |s|
  {
    TokenLiesInText(s);
    LexUnfolds(s);
    hide NextToken, Lex, ValidWord;
    var n := NextToken(s);
    if n.IsToken() || n.kind == COMMENT {
      LexedWordsAreValid(n.rest);
    }
  }

  lemma LexUnfolds(s: string)
    ensures var n := NextToken(s);
            Lex(s) == if n.IsToken() then Lex(n.rest).After([TokenOf(n)])
                      else if n.kind == COMMENT then Lex(n.rest)
                      else Lexed([], n.kind == EOF)
  {
  }

  lemma {:induction false} YieldOfValidTokens(c: Config, before: seq<Token>, after: seq<Token>)
    requires Headed(c) && ValidTokens(before + Yield(c) + after)
    ensures WellFormed(c)
    decreases c, 1
  {
    if c != [] {
      var (first, rest) := (YieldStatement(c[0]), Yield(c[1..]));
      assert before + Yield(c) + after == before + first + (rest + after) == before + first + rest + after;
      YieldOfValidStatement(c[0], before, rest + after);
      YieldOfValidTokens(c[1..], before + first, after);
    }
  }

  lemma {:induction false} YieldOfValidStatement(s: Statement, before: seq<Token>, after: seq<Token>)
    requires HeadedStatement(s) && ValidTokens(before + YieldStatement(s) + after)
    ensures WellFormedStatement(s)
    decreases s, 0
  {
    var ts := before + YieldStatement(s) + after;
    forall i | 0 <= i < |s.tokens| ensures ValidWord(s.tokens[i]) {
      assert ts[|before| + i] == Words(s.tokens)[i];
    }
    if s.Block? {
      var inner := before + Words(s.tokens) + [Open];
      assert ts == inner + Yield(s.children) + ([Close] + after);
      YieldOfValidTokens(s.children, inner, [Close] + after);
    }
  }

  lemma {:induction false} WellFormedIsHeaded(c: Config)
    requires WellFormed(c)
    ensures Headed(c)
  {
    forall i | 0 <= i < |c| ensures HeadedStatement(c[i]) {
      if c[i].Block? { WellFormedIsHeaded(c[i].children); }
    }
  }

  /** Whatever the parser accepts is a non-empty tree of well-shaped words. */
  lemma ParsedIsWellFormed(s: string)
    requires ParseText(s).ok
    ensures ParseText(s).tree != [] && WellFormed(ParseText(s).tree)
  {
    hide Lex, ParseText, WellFormed, Headed, Yield;
    var c := ParseText(s).tree;
    ParserIsGrammar(s, c);
    LexedWordsAreValid(s);
    assert [] + Yield(c) + [] == Lex(s).tokens;
    YieldOfValidTokens(c, [], []);
  }

  lemma LexNothing()
    ensures Lex("") == Lexed([], true)
  {
    assert Skip("", BLANKS) == "";
    assert NextToken("") == Lexeme(EOF, "", "");
  }

  /** The parser recovers a tree from its printed form, at any starting depth, exactly when the tree
      is one the parser could have produced. */
  lemma PrintThenParse(c: Config, depth: int)
    ensures ParseText(Print(c, depth)) == Outcome(true, c) <==> c != [] && WellFormed(c)
  {
    hide Lex, ParseText, WellFormed, Headed, Yield, Print;
    if ParseText(Print(c, depth)) == Outcome(true, c) {
      ParsedIsWellFormed(Print(c, depth));
    }
    if c != [] && WellFormed(c) {
      LexPrint(c, depth, "");
      assert Print(c, depth) + "" == Print(c, depth);
      LexNothing();
      assert Yield(c) + [] == Yield(c);
      WellFormedIsHeaded(c);
      ParserIsGrammar(Print(c, depth), c);
    }
  }

  /** Printing and parsing again changes nothing in what was parsed once. */
  lemma ParseThenPrint(s: string, depth: int)
    requires ParseText(s).ok
    ensures ParseText(Print(ParseText(s).tree, depth)) == ParseText(s)
  {
    hide ParseText, Print, WellFormed;
    ParsedIsWellFormed(s);
    PrintThenParse(ParseText(s).tree, depth);
  }
}
