/** The lexer character by character: for every text, by its first character, which token comes next, what it
    holds, and where it ends. */
module ConfigLexicon {
  import opened Text
  import opened ConfigTree
  import opened ConfigLexer

  /** Blanks, tabs, line feeds and carriage returns between tokens are skipped. */
  lemma BlanksSkipped(c: char, s: string)
    requires c == ' ' || c == '\t' || c == '\n' || c == '\r'
    ensures NextToken([c] + s) == NextToken(s)
  {
    hide TokenAt, Skip;
    SkipFirst([c] + s);
    assert ([c] + s)[1..] == s;
  }

  lemma FirstStays(c: char, s: string)
    requires c != ' ' && c != '\t' && c != '\n' && c != '\r'
    ensures NextToken([c] + s) == TokenAt([c] + s) && ([c] + s)[1..] == s
  {
    hide TokenAt, Skip;
    SkipFirst([c] + s);
  }

  /** The three marks are tokens by themselves, and the end of the text is one. */
  lemma MarkTokens(s: string)
    ensures NextToken("{" + s) == Lexeme(START_BLOCK, "{", s)
    ensures NextToken("}" + s) == Lexeme(END_BLOCK, "}", s)
    ensures NextToken(";" + s) == Lexeme(STATEMENT_END, ";", s)
    ensures NextToken("") == Lexeme(EOF, "", "")
  {
    hide NextToken;
    OneMark('{', s);
    OneMark('}', s);
    OneMark(';', s);
    NoText();
  }

  lemma OneMark(c: char, s: string)
    requires c == '{' || c == '}' || c == ';'
    ensures NextToken([c] + s) ==
            Lexeme(if c == '{' then START_BLOCK else if c == '}' then END_BLOCK else STATEMENT_END, [c], s)
  {
    hide NextToken, Resume;
    FirstStays(c, s);
  }

  lemma NoText()
    ensures NextToken("") == Lexeme(EOF, "", "")
  {
    hide Skip;
    NothingLeft();
  }

  lemma UpToStop(stop: set<char>, keep: nat, eat: nat, full: TokenType, short: TokenType, v: string, inner: string,
                 c: char, s: string)
    requires keep <= 1 && eat <= 1 && Free(inner, stop) && c in stop
    ensures UpTo(stop, keep, eat, full, short, v, inner + [c] + s) ==
            Lexeme(full, v + (inner + if keep == 1 then [c] else ""), if eat == 1 then s else [c] + s)
    ensures UpTo(stop, keep, eat, full, short, v, inner) == Lexeme(short, v + inner, "")
  {
    var r := inner + [c] + s;
    SpanIs(r, stop, |inner|);
    SpanIs(inner, stop, |inner|);
    hide Span;
    Around(inner, c, s);
  }

  lemma Around(inner: string, c: char, s: string)
    ensures var r := inner + [c] + s;
            && |r| == |inner| + 1 + |s| && r[..|inner|+1] == inner + [c] && r[..|inner|] == inner + ""
            && r[|inner|+1..] == s && r[|inner|..] == [c] + s
  {
  }

  /** A number sign at the start of a token opens a comment, up to a line feed or carriage return, which it takes;
      a comment cut off by the end of the text ends it. */
  lemma CommentToken(inner: string, c: char, s: string)
    requires forall i | 0 <= i < |inner| :: inner[i] != '\n' && inner[i] != '\r'
    requires c == '\n' || c == '\r'
    ensures NextToken("#" + (inner + [c] + s)) == Lexeme(COMMENT, "#" + inner, s)
    ensures NextToken("#" + inner) == Lexeme(EOF, "#" + inner, "")
  {
    hide UpTo;
    FirstStays('#', inner + [c] + s);
    FirstStays('#', inner);
    assert inner + "" == inner;
    UpToStop({'\n', '\r'}, 0, 1, COMMENT, EOF, "#", inner, c, s);
  }

  /** A quote at the start of a token opens a quoted word, up to the same quote, whatever stands in between; a quote
      left open is an error. */
  lemma QuoteToken(q: char, inner: string, s: string)
    requires q == '\"' || q == '\''
    requires forall i | 0 <= i < |inner| :: inner[i] != q
    ensures NextToken([q] + (inner + [q] + s)) == Lexeme(NORMAL, [q] + (inner + [q]), s)
    ensures NextToken([q] + inner) == Lexeme(ERROR, [q] + inner, "")
  {
    hide UpTo;
    FirstStays(q, inner + [q] + s);
    FirstStays(q, inner);
    UpToStop({q}, 1, 1, NORMAL, ERROR, [q], inner, q, s);
  }

  lemma WordStart(c: char, r: string)
    requires c != ' ' && c != '\t' && c != '\n' && c != '\r' && c != '{' && c != '}' && c != ';'
    requires c != '#' && c != '\"' && c != '\''
    ensures NextToken([c] + r) == UpTo(WORD_ENDS, 0, 0, NORMAL, EOF, [c], r)
  {
    hide UpTo;
    FirstStays(c, r);
  }

  lemma InsideWord(inner: string, e: char)
    requires forall i | 0 <= i < |inner| ::
               inner[i] != ' ' && inner[i] != '\t' && inner[i] != '\n' && inner[i] != ';' && inner[i] != '{' && inner[i] != '}'
    requires e == ' ' || e == '\t' || e == '\n' || e == ';' || e == '{' || e == '}'
    ensures Free(inner, WORD_ENDS) && e in WORD_ENDS
  {
  }

  /** Any other character starts a word, up to a blank, tab, line feed, semicolon or brace, which stays. A carriage
      return, a number sign or a quote inside a word is part of it. A word cut off by the end of the text is lost. */
  lemma WordToken(c: char, inner: string, e: char, s: string)
    requires c != ' ' && c != '\t' && c != '\n' && c != '\r' && c != '{' && c != '}' && c != ';'
    requires c != '#' && c != '\"' && c != '\''
    requires forall i | 0 <= i < |inner| ::
               inner[i] != ' ' && inner[i] != '\t' && inner[i] != '\n' && inner[i] != ';' && inner[i] != '{' && inner[i] != '}'
    requires e == ' ' || e == '\t' || e == '\n' || e == ';' || e == '{' || e == '}'
    ensures NextToken([c] + (inner + [e] + s)) == Lexeme(NORMAL, [c] + inner, [e] + s)
    ensures NextToken([c] + inner) == Lexeme(EOF, [c] + inner, "")
  {
    hide NextToken, UpTo;
    WordStart(c, inner + [e] + s);
    WordStart(c, inner);
    assert inner + "" == inner;
    InsideWord(inner, e);
    hide Free;
    UpToStop(WORD_ENDS, 0, 0, NORMAL, EOF, [c], inner, e, s);
  }

  /** What a text lexes to, token by token: blanks and comments count for nothing, each other token goes in front of
      those that follow, and only an open quote leaves a text that cannot be read. */
  lemma LexBlank(c: char, s: string)
    requires c == ' ' || c == '\t' || c == '\n' || c == '\r'
    ensures Lex([c] + s) == Lex(s)
  {
    hide NextToken, Lex;
    BlanksSkipped(c, s);
    LexIs([c] + s);
    LexIs(s);
  }

  lemma LexComment(inner: string, c: char, s: string)
    requires forall i | 0 <= i < |inner| :: inner[i] != '\n' && inner[i] != '\r'
    requires c == '\n' || c == '\r'
    ensures Lex("#" + (inner + [c] + s)) == Lex(s) && Lex("#" + inner) == Lexed([], true)
  {
    hide NextToken, Lex;
    CommentToken(inner, c, s);
    LexIs("#" + (inner + [c] + s));
    LexIs("#" + inner);
  }

  lemma LexQuote(q: char, inner: string, s: string)
    requires q == '\"' || q == '\''
    requires forall i | 0 <= i < |inner| :: inner[i] != q
    ensures Lex([q] + (inner + [q] + s)) == Lex(s).After([Word([q] + (inner + [q]))])
    ensures Lex([q] + inner) == Lexed([], false)
  {
    hide NextToken, Lex;
    QuoteToken(q, inner, s);
    LexIs([q] + (inner + [q] + s));
    LexIs([q] + inner);
  }

  lemma LexMarks(s: string)
    ensures Lex("{" + s) == Lex(s).After([Open]) && Lex("}" + s) == Lex(s).After([Close])
    ensures Lex(";" + s) == Lex(s).After([Semi]) && Lex("") == Lexed([], true)
  {
    hide NextToken, Lex;
    MarkTokens(s);
    LexIs("{" + s);
    LexIs("}" + s);
    LexIs(";" + s);
    LexIs("");
  }

  lemma LexIs(s: string)
    ensures var n := NextToken(s);
            Lex(s) ==
            match n.kind
            case NORMAL => Lex(n.rest).After([Word(n.value)])
            case START_BLOCK => Lex(n.rest).After([Open])
            case END_BLOCK => Lex(n.rest).After([Close])
            case STATEMENT_END => Lex(n.rest).After([Semi])
            case COMMENT => Lex(n.rest)
            case _ => Lexed([], n.kind == EOF)
  {
    TokenLiesInText(s);
    hide NextToken, ReadOff;
  }
}
