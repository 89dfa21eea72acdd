/** Configuration trees as values, their token yield, and their printed form. */
module ConfigTree {
  import opened Text

  datatype Statement =
    | Leaf(tokens: seq<string>)
    | Block(tokens: seq<string>, children: seq<Statement>)

  type Config = seq<Statement>

  const BLANKS := {' ', '\t', '\n', '\r'}
  const WORD_ENDS := {' ', '\t', '\n', ';', '{', '}'}

  /** A quoted word, or a bare word. A carriage return cannot start a bare word but may be inside. */
  predicate ValidWord(w: string) {
    QuotedWord(w, '\"') || QuotedWord(w, '\'') || BareWord(w)
  }

  predicate QuotedWord(w: string, quote: char) {
    |w| >= 2 && w[0] == quote && w[|w|-1] == quote && Free(w[1..|w|-1], {quote})
  }

  predicate BareWord(w: string) {
    w != "" && StartsWord(w[0]) && Free(w[1..], WORD_ENDS)
  }

  predicate StartsWord(c: char) {
    && c != ' ' && c != '\t' && c != '\n' && c != '\r'
    && c != '{' && c != '}' && c != '#' && c != '\"' && c != '\'' && c != ';'
  }

  predicate WellFormed(c: Config) {
    forall i | 0 <= i < |c| :: WellFormedStatement(c[i])
  }

  predicate WellFormedStatement(s: Statement) {
    s.tokens != [] && (forall i | 0 <= i < |s.tokens| :: ValidWord(s.tokens[i])) &&
    (s.Block? ==> WellFormed(s.children))
  }

  /** What a derivation in the grammar needs of a tree: a statement starts with a word. */
  predicate Headed(c: Config) {
    forall i | 0 <= i < |c| :: HeadedStatement(c[i])
  }

  predicate HeadedStatement(s: Statement) {
    s.tokens != [] && (s.Block? ==> Headed(s.children))
  }

  datatype Token = Word(text: string) | Semi | Open | Close

  function Words(ws: seq<string>): (ts: seq<Token>)
    ensures |ts| == |ws| && forall i | 0 <= i < |ws| :: ts[i] == Word(ws[i])
  {
    seq(|ws|, i requires 0 <= i < |ws| => Word(ws[i]))
  }

  lemma WordsCons(ws: seq<string>)
    requires ws != []
    ensures Words(ws) == [Word(ws[0])] + Words(ws[1..])
  {
  }

  /** The grammar Stmt = WORD+ (';' | '{' Stmt* '}'), given by the tokens each tree derives. */
  function Yield(c: Config): seq<Token> {
    if c == [] then [] else YieldStatement(c[0]) + Yield(c[1..])
  }

  function YieldStatement(s: Statement): seq<Token> {
    Words(s.tokens) +
    match s
    case Leaf(_) => [Semi]
    case Block(_, children) => [Open] + Yield(children) + [Close]
  }

  lemma LeafYield(ws: seq<string>, rest: seq<Token>)
    ensures ws != [] ==> HeadedStatement(Leaf(ws))
    ensures YieldStatement(Leaf(ws)) + rest == Words(ws) + ([Semi] + rest)
  {
    Regroup(Words(ws), [Semi], rest);
  }

  lemma BlockYield(ws: seq<string>, c: Config, rest: seq<Token>)
    ensures ws != [] && Headed(c) ==> HeadedStatement(Block(ws, c))
    ensures YieldStatement(Block(ws, c)) + rest == Words(ws) + ([Open] + (Yield(c) + ([Close] + rest)))
  {
    hide Words, Yield, Headed;
    Regroup(Words(ws), [Open] + Yield(c) + [Close], rest);
    Regroup4([Open], Yield(c), [Close], rest);
  }

  function Indent(depth: int): string {
    if depth <= 0 then "" else "    " + Indent(depth - 1)
  }

  lemma {:induction false} IndentIsBlank(depth: int)
    ensures forall i | 0 <= i < |Indent(depth)| :: Indent(depth)[i] == ' '
    decreases depth
  {
    if depth > 0 { IndentIsBlank(depth - 1); }
  }

  function Print(c: Config, depth: int): string {
    if c == [] then "" else PrintStatement(c[0], depth) + Print(c[1..], depth)
  }

  function PrintStatement(s: Statement, depth: int): string {
    Indent(depth) + Join(s.tokens, " ") +
    (match s
     case Leaf(_) => ";"
     case Block(_, children) => " {\n" + Print(children, depth + 1) + Indent(depth) + "}") +
    "\n"
  }

  lemma {:induction false} YieldAppend(a: Config, b: Config)
    ensures Yield(a + b) == Yield(a) + Yield(b)
  {
    if a == [] {
      assert a + b == b;
    } else {
      assert (a + b)[1..] == a[1..] + b;
      YieldAppend(a[1..], b);
      assert Yield(a + b) == YieldStatement(a[0]) + (Yield(a[1..]) + Yield(b));
    }
  }

  lemma {:induction false} PrintAppend(a: Config, b: Config, depth: int)
    ensures Print(a + b, depth) == Print(a, depth) + Print(b, depth)
  {
    if a == [] {
      assert a + b == b;
    } else {
      assert (a + b)[1..] == a[1..] + b;
      PrintAppend(a[1..], b, depth);
    }
  }

  lemma YieldSnoc(a: Config, s: Statement)
    ensures Yield(a + [s]) == Yield(a) + YieldStatement(s)
  {
    YieldAppend(a, [s]);
    assert Yield([s]) == YieldStatement(s) + Yield([]);
  }
}
