/** The parser's stack machine over tokens, and the proof that it accepts exactly the grammar. */
module ConfigMachine {
  import opened Text
  import opened ConfigTree
  import opened ConfigLexer

  /** An open block: its finished statements, and the words of the one being read. */
  datatype Frame = Frame(done: Config, head: seq<string>)

  datatype Machine = Machine(below: seq<Frame>, top: Frame, last: TokenType, brackets: int) {
    ghost predicate Inv() {
      && brackets == |below|
      && (last.START? || last.NORMAL? || last.STATEMENT_END? || last.START_BLOCK? || last.END_BLOCK?)
      && (forall k | 0 <= k < |below| :: below[k].head != [] && Headed(below[k].done))
      && (top.head != [] <==> last == NORMAL)
      && Headed(top.done)
      && (last.STATEMENT_END? || last.END_BLOCK? ==> top.done != [])
    }

    /** May the input end here? */
    predicate Accepting() {
      (last.STATEMENT_END? || last.END_BLOCK?) && brackets == 0
    }

    function Step(t: Token): (r: Option<Machine>)
      requires Inv()
      ensures r.Some? ==> r.value.Inv()
    {
      match t
      case Word(w) => Some(this.(top := Frame(top.done, top.head + [w]), last := NORMAL))
      case Semi =>
        if last != NORMAL then None
        else Some(this.(top := Frame(top.done + [Leaf(top.head)], []), last := STATEMENT_END))
      case Open =>
        if last != NORMAL then None
        else Some(Machine(below + [top], Frame([], []), START_BLOCK, brackets + 1))
      case Close =>
        if !(last.STATEMENT_END? || last.END_BLOCK? || last.START_BLOCK?) || brackets - 1 < 0 then None
        else
          var outer := below[|below|-1];
          Some(Machine(below[..|below|-1], Frame(outer.done + [Block(outer.head, top.done)], []),
                       END_BLOCK, brackets - 1))
    }

    /** The tree read so far, unfinished statements included. */
    function Tree(): Config {
      Wrap(below, Partial(top))
    }

    /** What has been read so far. */
    function Consumed(): seq<Token> {
      Opened(below) + Yield(top.done) + Words(top.head)
    }
  }

  const START_MACHINE := Machine([], Frame([], []), START, 0)

  function Partial(f: Frame): Config {
    f.done + (if f.head == [] then [] else [Leaf(f.head)])
  }

  function Wrap(below: seq<Frame>, inner: Config): Config {
    if below == [] then inner else
      var outer := below[|below|-1];
      Wrap(below[..|below|-1], outer.done + [Block(outer.head, inner)])
  }

  function Opened(below: seq<Frame>): seq<Token> {
    if below == [] then [] else
      var outer := below[|below|-1];
      Opened(below[..|below|-1]) + Yield(outer.done) + Words(outer.head) + [Open]
  }

  datatype Outcome = Outcome(ok: bool, tree: Config)

  /** The machine over a text: the verdict, and the tree left behind whether it accepts or not. */
  function ParseFrom(s: string, m: Machine): Outcome
    requires m.Inv()
    decreases |s|
  {
    TokenLiesInText(s);
    var n := NextToken(s);
    if n.IsToken() then
      match m.Step(TokenOf(n))
      case None => Outcome(false, m.Tree())
      case Some(m') => ParseFrom(n.rest, m')
    else if n.kind == COMMENT then ParseFrom(n.rest, m)
    else Outcome(n.kind == EOF && m.Accepting(), m.Tree())
  }

  function ParseText(s: string): Outcome { ParseFrom(s, START_MACHINE) }

  /** `c` is what the grammar Config = Stmt+ makes of the text. */
  predicate Derives(s: string, c: Config) {
    Lex(s).clean && c != [] && Headed(c) && Yield(c) == Lex(s).tokens
  }

  lemma NoTokens()
    ensures Words([]) == [] && Yield([]) == []
  {
  }

  lemma WordsAppend(a: seq<string>, b: seq<string>)
    ensures Words(a + b) == Words(a) + Words(b)
    ensures Words([]) == []
  {
  }

  lemma CloseRegroup(o: seq<Token>, d: seq<Token>, h: seq<Token>, inner: seq<Token>)
    ensures o + (d + (h + ([Open] + inner + [Close]))) + [] == o + d + h + [Open] + inner + [] + [Close]
  {
  }

  /** Every step reads exactly its token. */
  lemma StepConsumes(m: Machine, t: Token)
    requires m.Inv() && m.Step(t).Some?
    ensures m.Step(t).value.Consumed() == m.Consumed() + [t]
  {
    hide Headed, Yield;
    NoTokens();
    match t
    case Word(w) =>
      WordsAppend(m.top.head, [w]);
      assert Words([w]) == [t];
      Regroup(Opened(m.below) + Yield(m.top.done), Words(m.top.head), [t]);
    case Semi =>
      YieldSnoc(m.top.done, Leaf(m.top.head));
      var (o, d, h) := (Opened(m.below), Yield(m.top.done), Words(m.top.head));
      assert o + (d + (h + [Semi])) + [] == o + d + h + [Semi];
    case Open =>
      assert (m.below + [m.top])[..|m.below|] == m.below;
    case Close =>
      var outer := m.below[|m.below|-1];
      YieldSnoc(outer.done, Block(outer.head, m.top.done));
      CloseRegroup(Opened(m.below[..|m.below|-1]), Yield(outer.done), Words(outer.head), Yield(m.top.done));
  }

  lemma {:induction false} Sound(s: string, m: Machine)
    requires m.Inv() && ParseFrom(s, m).ok
    ensures Lex(s).clean && Yield(ParseFrom(s, m).tree) == m.Consumed() + Lex(s).tokens
    ensures ParseFrom(s, m).tree != [] && Headed(ParseFrom(s, m).tree)
    decreases |s|
  {
    TokenLiesInText(s);
    var n := NextToken(s);
    if n.IsToken() {
      var t := TokenOf(n);
      StepConsumes(m, t);
      Sound(n.rest, m.Step(t).value);
      Regroup(m.Consumed(), [t], Lex(n.rest).tokens);
    } else if n.kind == COMMENT {
      Sound(n.rest, m);
    } else {
      WordsAppend([], []);
      assert m.Tree() == m.top.done;
    }
  }

  /** The machine over tokens alone. */
  function RunTokens(m: Machine, ts: seq<Token>): (r: Option<Machine>)
    requires m.Inv()
    ensures r.Some? ==> r.value.Inv()
    decreases ts
  {
    if ts == [] then Some(m) else
      match m.Step(ts[0])
      case None => None
      case Some(m') => RunTokens(m', ts[1..])
  }

  lemma {:induction false} ParseRunsTokens(s: string, m: Machine)
    requires m.Inv() && Lex(s).clean
    requires RunTokens(m, Lex(s).tokens).Some?
    ensures var m' := RunTokens(m, Lex(s).tokens).value;
            ParseFrom(s, m) == Outcome(m'.Accepting(), m'.Tree())
    decreases |s|
  {
    TokenLiesInText(s);
    var n := NextToken(s);
    if n.IsToken() {
      assert Lex(s).tokens[1..] == Lex(n.rest).tokens;
      ParseRunsTokens(n.rest, m.Step(TokenOf(n)).value);
    } else if n.kind == COMMENT {
      ParseRunsTokens(n.rest, m);
    }
  }

  function Reading(m: Machine, ws: seq<string>): Machine {
    m.(top := Frame(m.top.done, m.top.head + ws), last := NORMAL)
  }

  lemma {:induction false} RunWords(m: Machine, ws: seq<string>, rest: seq<Token>)
    requires m.Inv() && ws != []
    ensures Reading(m, ws).Inv()
    ensures RunTokens(m, Words(ws) + rest) == RunTokens(Reading(m, ws), rest)
    decreases ws
  {
    var ts := Words(ws) + rest;
    var m' := m.Step(ts[0]).value;
    if |ws| == 1 {
      assert ts[1..] == rest && ws == [ws[0]];
    } else {
      assert ts[1..] == Words(ws[1..]) + rest;
      RunWords(m', ws[1..], rest);
      assert m.top.head + ws == m'.top.head + ws[1..];
    }
  }

  /** The machine after the statements of `c` were added to the innermost open block. */
  function Added(m: Machine, c: Config): Machine {
    m.(top := Frame(m.top.done + c, []),
       last := if c == [] then m.last else if c[|c|-1].Leaf? then STATEMENT_END else END_BLOCK)
  }

  /** From between two statements, a derivation's tokens add its tree to the innermost block. */
  lemma {:induction false} RunYield(m: Machine, c: Config, rest: seq<Token>)
    requires m.Inv() && m.last != NORMAL && Headed(c)
    ensures Added(m, c).Inv()
    ensures RunTokens(m, Yield(c) + rest) == RunTokens(Added(m, c), rest)
    decreases c, 1
  {
    hide RunTokens, YieldStatement;
    if c == [] {
      assert Yield(c) + rest == rest;
      assert m.top.done + c == m.top.done;
    } else {
      var later := Yield(c[1..]) + rest;
      assert Yield(c) + rest == YieldStatement(c[0]) + later;
      RunYieldStatement(m, c[0], later);
      RunYield(Added(m, [c[0]]), c[1..], rest);
      assert m.top.done + c == m.top.done + [c[0]] + c[1..];
    }
  }

  lemma {:induction false} RunYieldStatement(m: Machine, s: Statement, rest: seq<Token>)
    requires m.Inv() && m.last != NORMAL && HeadedStatement(s)
    ensures Added(m, [s]).Inv()
    ensures RunTokens(m, YieldStatement(s) + rest) == RunTokens(Added(m, [s]), rest)
    decreases s, 0
  {
    hide RunTokens, Words, Yield, YieldStatement, Headed;
    var read := Reading(m, s.tokens);
    assert m.top.head + s.tokens == s.tokens;
    match s
    case Leaf(_) =>
      LeafYield(s.tokens, rest);
      RunWords(m, s.tokens, [Semi] + rest);
      RunOne(read, Semi, rest);
    case Block(_, children) =>
      var inner := Yield(children) + ([Close] + rest);
      BlockYield(s.tokens, children, rest);
      RunWords(m, s.tokens, [Open] + inner);
      RunBlock(read, children, rest);
  }

  lemma RunOne(m: Machine, t: Token, rest: seq<Token>)
    requires m.Inv() && m.Step(t).Some?
    ensures RunTokens(m, [t] + rest) == RunTokens(m.Step(t).value, rest)
  {
    assert ([t] + rest)[1..] == rest;
  }

  lemma {:induction false} RunBlock(m: Machine, children: Config, rest: seq<Token>)
    requires m.Inv() && m.last == NORMAL && Headed(children)
    ensures Added(m, [Block(m.top.head, children)]).Inv()
    ensures RunTokens(m, [Open] + (Yield(children) + ([Close] + rest))) ==
            RunTokens(Added(m, [Block(m.top.head, children)]), rest)
    decreases children, 2
  {
    hide RunTokens, Yield;
    var inside := m.Step(Open).value;
    RunOne(m, Open, Yield(children) + ([Close] + rest));
    RunYield(inside, children, [Close] + rest);
    RunOne(Added(inside, children), Close, rest);
    assert (m.below + [m.top])[..|m.below|] == m.below;
    assert [] + children == children;
  }

  lemma NothingConsumed()
    ensures START_MACHINE.Consumed() == []
  {
  }

  lemma Complete(s: string, c: Config)
    requires Derives(s, c)
    ensures ParseText(s) == Outcome(true, c)
  {
    hide Lex, ParseFrom, Yield;
    var m := Added(START_MACHINE, c);
    assert RunTokens(START_MACHINE, Yield(c)) == Some(m) by {
      RunYield(START_MACHINE, c, []);
      Regroup(Yield(c), [], []);
    }
    assert [] + c + [] == c;
    assert m.Accepting() && m.Tree() == c;
    ParseRunsTokens(s, START_MACHINE);
  }

  /** The stack parser accepts a text exactly when the grammar derives it, and then builds the
      derivation's tree, of which there is only one. */
  lemma ParserIsGrammar(s: string, c: Config)
    ensures ParseText(s) == Outcome(true, c) <==> Derives(s, c)
    ensures ParseText(s).ok <==> exists t :: Derives(s, t)
  {
    hide Lex, ParseFrom, Yield;
    if ParseText(s).ok {
      Sound(s, START_MACHINE);
      WordsAppend([], []);
      assert START_MACHINE.Consumed() == [] by { NothingConsumed(); }
      assert Derives(s, ParseText(s).tree);
    }
    forall t | Derives(s, t) ensures ParseText(s) == Outcome(true, t) {
      Complete(s, t);
    }
  }
}
