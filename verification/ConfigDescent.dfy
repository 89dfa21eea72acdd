/** A recursive-descent parser for the same grammar, and the proof that the stack parser builds its trees. */
module ConfigDescent {
  import opened Text
  import opened ConfigTree
  import opened ConfigLexer
  import opened ConfigMachine

  /** The words a token sequence starts with. */
  function LeadingWords(ts: seq<Token>): (ws: seq<string>)
    ensures |ws| <= |ts| && forall i | 0 <= i < |ws| :: ts[i] == Word(ws[i])
    ensures |ws| < |ts| ==> !ts[|ws|].Word?
  {
    if ts == [] || !ts[0].Word? then [] else [ts[0].text] + LeadingWords(ts[1..])
  }

  lemma LeadingWordsSplit(ts: seq<Token>)
    ensures ts == Words(LeadingWords(ts)) + ts[|LeadingWords(ts)|..]
  {
    hide LeadingWords;
  }

  /** Stmt*: statements as long as the next token is a word, and what is left. */
  function Descend(ts: seq<Token>): (r: Option<(Config, seq<Token>)>)
    ensures r.Some? ==> |r.value.1| <= |ts|
    decreases |ts|, 1
  {
    if ts == [] || !ts[0].Word? then Some(([], ts))
    else
      match DescendStatement(ts)
      case None => None
      case Some((s, rest)) =>
        match Descend(rest)
        case None => None
        case Some((c, rest')) => Some(([s] + c, rest'))
  }

  /** WORD+ and then a semicolon, or a block in braces. */
  function DescendStatement(ts: seq<Token>): (r: Option<(Statement, seq<Token>)>)
    ensures r.Some? ==> |r.value.1| < |ts|
    decreases |ts|, 0
  {
    var ws := LeadingWords(ts);
    var n := |ws|;
    if n == 0 || n == |ts| then None
    else
      match ts[n]
      case Semi => Some((Leaf(ws), ts[n+1..]))
      case Open =>
        (match Descend(ts[n+1..])
         case None => None
         case Some((c, rest)) =>
           if rest != [] && rest[0] == Close then Some((Block(ws, c), rest[1..])) else None)
      case _ => None
  }

  /** What is left after statements cannot start another one. */
  predicate Ends(rest: seq<Token>) { rest == [] || !rest[0].Word? }

  lemma {:induction false} DescendSound(ts: seq<Token>)
    requires Descend(ts).Some?
    ensures var (c, rest) := Descend(ts).value; Headed(c) && ts == Yield(c) + rest && Ends(rest)
    decreases |ts|, 1
  {
    if ts != [] && ts[0].Word? {
      var (s, rest) := DescendStatement(ts).value;
      DescendStatementSound(ts);
      DescendSound(rest);
      var (c, rest') := Descend(rest).value;
      assert ([s] + c)[1..] == c;
      Regroup(YieldStatement(s), Yield(c), rest');
    }
  }

  lemma {:induction false} DescendStatementSound(ts: seq<Token>)
    requires DescendStatement(ts).Some?
    ensures var (s, rest) := DescendStatement(ts).value; HeadedStatement(s) && ts == YieldStatement(s) + rest
    decreases |ts|, 0
  {
    hide LeadingWords, Words, Descend, Yield, YieldStatement, HeadedStatement, Headed;
    var ws := LeadingWords(ts);
    var n := |ws|;
    LeadingWordsSplit(ts);
    FirstOf(ts[n..]);
    if ts[n] == Open {
      DescendSound(ts[n+1..]);
      var (c, rest) := Descend(ts[n+1..]).value;
      FirstOf(rest);
      BlockYield(ws, c, rest[1..]);
    } else {
      LeafYield(ws, ts[n+1..]);
    }
  }

  lemma FirstOf(ts: seq<Token>)
    requires ts != []
    ensures ts == [ts[0]] + ts[1..]
  {
  }

  lemma {:induction false} WordsLead(ws: seq<string>, rest: seq<Token>)
    requires Ends(rest)
    ensures LeadingWords(Words(ws) + rest) == ws
  {
    if ws == [] {
      assert Words(ws) + rest == rest;
    } else {
      assert ws == [ws[0]] + ws[1..];
      WordsCons(ws);
      var ts := Words(ws) + rest;
      assert ts[1..] == Words(ws[1..]) + rest;
      WordsLead(ws[1..], rest);
    }
  }

  lemma {:induction false} DescendComplete(c: Config, rest: seq<Token>)
    requires Headed(c) && Ends(rest)
    ensures Descend(Yield(c) + rest) == Some((c, rest))
    decreases c, 1
  {
    hide DescendStatement, YieldStatement, HeadedStatement;
    if c == [] {
      assert Yield(c) + rest == rest;
    } else {
      var later := Yield(c[1..]) + rest;
      Regroup(YieldStatement(c[0]), Yield(c[1..]), rest);
      DescendStatementComplete(c[0], later);
      DescendComplete(c[1..], rest);
      assert c == [c[0]] + c[1..];
      StartsWithWord(c[0], later);
    }
  }

  lemma StartsWithWord(s: Statement, rest: seq<Token>)
    requires HeadedStatement(s)
    ensures (YieldStatement(s) + rest) != [] && (YieldStatement(s) + rest)[0] == Word(s.tokens[0])
  {
  }

  lemma {:induction false} DescendStatementComplete(s: Statement, rest: seq<Token>)
    requires HeadedStatement(s)
    ensures DescendStatement(YieldStatement(s) + rest) == Some((s, rest))
    decreases s, 0
  {
    hide LeadingWords, Words, Yield, YieldStatement, Descend;
    var ws := s.tokens;
    var ts := YieldStatement(s) + rest;
    match s
    case Leaf(_) =>
      LeafYield(ws, rest);
      WordsLead(ws, [Semi] + rest);
      SplitsAt(Words(ws), Semi, rest);
    case Block(_, children) =>
      var tail := Yield(children) + ([Close] + rest);
      BlockYield(ws, children, rest);
      WordsLead(ws, [Open] + tail);
      SplitsAt(Words(ws), Open, tail);
      DescendComplete(children, [Close] + rest);
      assert ([Close] + rest)[1..] == rest;
  }

  lemma SplitsAt(a: seq<Token>, t: Token, b: seq<Token>)
    ensures (a + ([t] + b))[|a|] == t && (a + ([t] + b))[|a|+1..] == b
  {
  }

  /** The stack parser accepts exactly the texts a recursive-descent parser reads to the end, and builds the
      same tree. */
  lemma StackIsDescent(s: string, c: Config)
    ensures ParseText(s) == Outcome(true, c) <==>
            Lex(s).clean && c != [] && Descend(Lex(s).tokens) == Some((c, []))
  {
    hide Lex, ParseText, Descend, Headed, Yield;
    ParserIsGrammar(s, c);
    var ts := Lex(s).tokens;
    if Derives(s, c) {
      DescendComplete(c, []);
      Regroup(Yield(c), [], []);
    }
    if Descend(ts) == Some((c, [])) {
      DescendSound(ts);
      Regroup(Yield(c), [], []);
    }
  }
}
