/** The parser's own objects: configurations and statements on the heap, built in place by the stack
    parser and printed by the recursive printer. */
module NginxConfigs {
  import opened Text
  import opened ConfigTree
  import opened ConfigLexer
  import opened ConfigMachine
  import opened Lookup
  import opened Numerals
  import opened Routing

  class NginxConfigStatement {
    var tokens_: seq<string>
    var child_block_: NginxConfig?

    constructor ()
      ensures tokens_ == [] && child_block_ == null
    {
      tokens_ := [];
      child_block_ := null;
    }

    method ToString(depth: int, ghost value: Statement, ghost nodes: set<object>) returns (serialized: string)
      requires RepStatement(this, value, nodes)
      ensures serialized == PrintStatement(value, depth)
      decreases value, 0
    {
      hide Join, Indent, Print, RepConfig;
      var indent := MakeIndent(depth);
      JoinNone(" ");
      serialized := indent;
      for i := 0 to |tokens_|
        invariant serialized == indent + Join(tokens_[..i], " ")
      {
        ghost var before := tokens_[..i];
        if i != 0 {
          serialized := serialized + " ";
        }
        serialized := serialized + tokens_[i];
        assert tokens_[..i+1] == before + [tokens_[i]];
        JoinSnoc(before, tokens_[i], " ");
      }
      assert tokens_[..|tokens_|] == value.tokens;
      if child_block_ != null {
        serialized := serialized + " {\n";
        var inner := child_block_.ToString(depth + 1, value.children, nodes);
        serialized := serialized + inner + indent + "}";
      } else {
        serialized := serialized + ";";
      }
      serialized := serialized + "\n";
    }
  }

  method MakeIndent(depth: int) returns (indent: string)
    ensures indent == Indent(depth)
  {
    indent := "";
    var i := 0;
    while i < depth
      invariant 0 <= i && (i <= depth || i == 0)
      invariant indent + Indent(depth - i) == Indent(depth)
    {
      indent := indent + "    ";
      i := i + 1;
    }
  }

  lemma JoinNone(sep: string)
    ensures Join([], sep) == ""
  {
  }

  lemma {:induction false} JoinSnoc(pieces: seq<string>, last: string, sep: string)
    ensures Join(pieces + [last], sep) == if pieces == [] then last else Join(pieces, sep) + sep + last
  {
    if |pieces| > 1 {
      assert (pieces + [last])[1..] == pieces[1..] + [last];
      JoinSnoc(pieces[1..], last, sep);
    } else if |pieces| == 1 {
      assert (pieces + [last])[1..] == [last];
    }
  }

  class NginxConfig {
    var statements_: seq<NginxConfigStatement>

    constructor ()
      ensures statements_ == []
    {
      statements_ := [];
    }

    method ToString(depth: int, ghost value: Config, ghost nodes: set<object>) returns (serialized: string)
      requires RepConfig(this, value, nodes)
      ensures serialized == Print(value, depth)
      decreases value, 1
    {
      serialized := "";
      for i := 0 to |statements_|
        invariant serialized == Print(value[..i], depth)
      {
        var line := statements_[i].ToString(depth, value[i], nodes);
        serialized := serialized + line;
        PrintSnoc(value, i, depth);
      }
      assert value[..|statements_|] == value;
    }

    method GetPort(ghost value: Config, ghost nodes: set<object>) returns (port: int)
      requires RepConfig(this, value, nodes)
      ensures port == PortOf(Print(value, 0))
    {
      var config_string := "";
      for i := 0 to |statements_|
        invariant config_string == Print(value[..i], 0)
      {
        var line := statements_[i].ToString(0, value[i], nodes);
        config_string := config_string + line;
        PrintSnoc(value, i, 0);
      }
      assert value[..|statements_|] == value;
      port := ReadPort(config_string);
    }

    method GetAttribute(attr: string, ghost value: Config, ghost nodes: set<object>) returns (result: string)
      requires RepConfig(this, value, nodes)
      requires Contains(Print(value, 0), attr)
      ensures result == AttributeText(Print(value, 0), attr)
    {
      var config_string := "";
      for i := 0 to |statements_|
        invariant config_string == Print(value[..i], 0)
      {
        var line := statements_[i].ToString(0, value[i], nodes);
        config_string := config_string + line;
        PrintSnoc(value, i, 0);
      }
      assert value[..|statements_|] == value;
      result := ReadAttribute(config_string, attr);
    }

    /** Enters every handler below this configuration in the tables, inner ones first, never replacing
        an entry. */
    method ParseString(depth: int, tables: Tables, ghost value: Config, ghost nodes: set<object>)
      requires RepConfig(this, value, nodes) && Indexable(value) && tables !in nodes
      modifies tables
      ensures tables.Extends(old(tables.configTable_), old(tables.handlerTable_), old(tables.url_handlers_map_),
                             HandlersOf(value), nodes)
      decreases value, 1
    {
      hide Indexable, HandlersOf, RepConfig, NamesAdded, BlocksAdded;
      ghost var blocks, names, urls := tables.configTable_, tables.handlerTable_, tables.url_handlers_map_;
      NoHandlers();
      tables.Unchanged(nodes);
      RepParts(this, value, nodes);
      for i := 0 to |statements_|
        invariant Indexable(value[..i]) && tables.Extends(blocks, names, urls, HandlersOf(value[..i]), nodes)
      {
        ghost var blocks', names', urls' := tables.configTable_, tables.handlerTable_, tables.url_handlers_map_;
        HandlersSnoc(value, i);
        EnterStatement(statements_[i], depth, tables, value[i], nodes);
        tables.Compose(blocks, names, urls, blocks', names', urls', HandlersOf(value[..i]),
                       HandlersOfStatement(value[i]), nodes);
      }
      assert value[..|statements_|] == value;
    }

    method EnterStatement(statement: NginxConfigStatement, depth: int, tables: Tables,
                          ghost value: Statement, ghost nodes: set<object>)
      requires RepStatement(statement, value, nodes) && IndexableStatement(value) && tables !in nodes
      modifies tables
      ensures tables.Extends(old(tables.configTable_), old(tables.handlerTable_), old(tables.url_handlers_map_),
                             HandlersOfStatement(value), nodes)
      decreases value, 0
    {
      hide Indexable, HandlersOf, RepConfig, PeekDefined, PeekedUrl, FirstMatch, Print, NamesAdded, BlocksAdded;
      ghost var blocks, names, urls := tables.configTable_, tables.handlerTable_, tables.url_handlers_map_;
      ghost var hs: seq<Handler> := [];
      tables.Unchanged(nodes);
      if statement.child_block_ != null {
        statement.child_block_.ParseString(depth + 1, tables, value.children, nodes);
        hs := HandlersOf(value.children);
      }
      if statement.tokens_[0] == "handler" {
        ghost var blocks', names', urls' := tables.configTable_, tables.handlerTable_, tables.url_handlers_map_;
        var block := statement.child_block_.ToString(0, value.children, nodes);
        var url := PeekURL(block);
        ghost var h := Handler(url, value.children, value.tokens[1]);
        tables.Insert(url, statement.child_block_, statement.tokens_[1], h, nodes);
        tables.Compose(blocks, names, urls, blocks', names', urls', hs, [h], nodes);
        hs := hs + [h];
      }
      assert hs == HandlersOfStatement(value);
    }
  }

  lemma RepParts(c: NginxConfig, value: Config, nodes: set<object>)
    requires RepConfig(c, value, nodes) && Indexable(value)
    ensures |c.statements_| == |value|
    ensures forall i | 0 <= i < |value| :: RepStatement(c.statements_[i], value[i], nodes) && IndexableStatement(value[i])
  {
  }

  lemma PrintSnoc(value: Config, i: nat, depth: int)
    requires i < |value|
    ensures Print(value[..i+1], depth) == Print(value[..i], depth) + PrintStatement(value[i], depth)
  {
    assert value[..i+1] == value[..i] + [value[i]];
    PrintAppend(value[..i], [value[i]], depth);
    assert Print([value[i]], depth) == PrintStatement(value[i], depth) + Print([], depth);
  }

  /** How far it is from `from` to the next semicolon; nothing when the text ends before one. */
  method ToSemicolon(s: string, from: nat) returns (ending_pos: Option<nat>)
    requires from <= |s|
    ensures ending_pos == var k := Span(s[from..], {';'}); if k == |s| - from then None else Some(k)
  {
    var k := 0;
    while from + k >= |s| || s[from + k] != ';'
      invariant from + k <= |s|
      invariant forall i | 0 <= i < k :: s[from..][i] != ';'
      decreases |s| - from - k
    {
      if from + k >= |s| {
        SpanIs(s[from..], {';'}, k);
        return None;
      }
      k := k + 1;
    }
    SpanIs(s[from..], {';'}, k);
    return Some(k);
  }

  method ReadAttribute(config_string: string, attr: string) returns (result: string)
    requires Contains(config_string, attr)
    ensures result == AttributeText(config_string, attr)
  {
    hide Span, Find, CString;
    var from := Find(config_string, attr).value + |attr|;
    var ending_pos := ToSemicolon(config_string, from);
    match ending_pos
    case None =>
      return "";
    case Some(k) =>
      return CString(Substr(config_string, from + 1, k - 1));
  }

  method ReadPort(config_string: string) returns (port: int)
    ensures port == PortOf(config_string)
  {
    hide Span, Find, CString;
    match Find(config_string, "listen")
    case None =>
      return 0;
    case Some(index) =>
      var ending_pos := ToSemicolon(config_string, index + 6);
      match ending_pos {
        case None =>
          return 0;
        case Some(k) =>
          return Atoi(CString(Substr(config_string, index + 7, k)));
      }
  }

  method PeekURL(s: string) returns (url: string)
    requires PeekDefined(s)
    ensures url == PeekedUrl(s)
  {
    hide Find, Substr;
    match Find(s, "url")
    case None =>
      return "";
    case Some(found) =>
      var i := found + 3;
      var j := 0;
      ghost var semicolon := Find(s[i..], ";").value;
      OccursLetters(s[i..], ";", semicolon);
      while s[i + j] != ';' && j < |s|
        invariant j <= semicolon
        decreases semicolon - j
      {
        j := j + 1;
      }
      NotYet(s[i..], semicolon, j);
      return Substr(s, i + 1, j - 1);
  }

  lemma NotYet(s: string, semicolon: nat, j: nat)
    requires Find(s, ";") == Some(semicolon) && j <= semicolon
    ensures semicolon < |s| && (j < semicolon ==> s[j] != ';') && s[semicolon] == ';'
  {
    hide Find;
    OccursLetters(s, ";", semicolon);
    assert j < |s| && s[j] == ';' ==> OccursAt(s, ";", j);
  }

  /** The tables the dispatcher hands to ParseString, and the process-wide one of the status page. */
  class Tables {
    var configTable_: map<string, NginxConfig>
    var handlerTable_: map<string, string>
    var url_handlers_map_: map<string, string>

    constructor (urls: map<string, string>)
      ensures configTable_ == map[] && handlerTable_ == map[] && url_handlers_map_ == urls
    {
      configTable_ := map[];
      handlerTable_ := map[];
      url_handlers_map_ := urls;
    }

    /** The tables are the given ones with the handlers `hs` entered in order. */
    ghost predicate Extends(blocks: map<string, NginxConfig>, names: map<string, string>, urls: map<string, string>,
                            hs: seq<Handler>, nodes: set<object>)
      reads this, nodes
    {
      && BlocksAdded(blocks, configTable_, hs, nodes)
      && NamesAdded(names, handlerTable_, hs)
      && NamesAdded(urls, url_handlers_map_, hs)
    }

    lemma Unchanged(nodes: set<object>)
      ensures Extends(configTable_, handlerTable_, url_handlers_map_, [], nodes)
    {
    }

    method Insert(url: string, config: NginxConfig, name: string, ghost h: Handler, ghost nodes: set<object>)
      requires h.url == url && h.name == name && RepConfig(config, h.block, nodes) && this !in nodes
      modifies this
      ensures Extends(old(configTable_), old(handlerTable_), old(url_handlers_map_), [h], nodes)
    {
      OneName(handlerTable_, h);
      OneName(url_handlers_map_, h);
      OneBlock(configTable_, config, h, nodes);
      hide NamesAdded, BlocksAdded, RepConfig;
      if url !in configTable_ {
        configTable_ := configTable_[url := config];
      }
      if url !in handlerTable_ {
        handlerTable_ := handlerTable_[url := name];
      }
      if url !in url_handlers_map_ {
        url_handlers_map_ := url_handlers_map_[url := name];
      }
    }

    lemma Compose(blocks: map<string, NginxConfig>, names: map<string, string>, urls: map<string, string>,
                  blocks': map<string, NginxConfig>, names': map<string, string>, urls': map<string, string>,
                  hs: seq<Handler>, gs: seq<Handler>, nodes: set<object>)
      requires BlocksAdded(blocks, blocks', hs, nodes) && NamesAdded(names, names', hs) && NamesAdded(urls, urls', hs)
      requires Extends(blocks', names', urls', gs, nodes)
      ensures Extends(blocks, names, urls, hs + gs, nodes)
    {
      BlocksCompose(blocks, blocks', configTable_, hs, gs, nodes);
      NamesCompose(names, names', handlerTable_, hs, gs);
      NamesCompose(urls, urls', url_handlers_map_, hs, gs);
    }
  }

  ghost predicate BlocksAdded(before: map<string, NginxConfig>, after: map<string, NginxConfig>,
                              hs: seq<Handler>, nodes: set<object>)
    reads nodes
  {
    && (forall k :: k in after <==> k in before || FirstMatch(hs, k).Some?)
    && (forall k | k in after ::
          if k in before then after[k] == before[k]
          else RepConfig(after[k], FirstMatch(hs, k).value.block, nodes))
  }

  lemma OneMatch(h: Handler)
    ensures forall k :: FirstMatch([h], k) == if k == h.url then Some(h) else None
  {
  }

  lemma OneName(before: map<string, string>, h: Handler)
    ensures NamesAdded(before, if h.url in before then before else before[h.url := h.name], [h])
  {
    OneMatch(h);
    hide FirstMatch;
  }

  lemma OneBlock(before: map<string, NginxConfig>, c: NginxConfig, h: Handler, nodes: set<object>)
    requires RepConfig(c, h.block, nodes)
    ensures BlocksAdded(before, if h.url in before then before else before[h.url := c], [h], nodes)
  {
    OneMatch(h);
    hide FirstMatch, RepConfig;
  }

  lemma BlocksCompose(a: map<string, NginxConfig>, b: map<string, NginxConfig>, c: map<string, NginxConfig>,
                      hs: seq<Handler>, gs: seq<Handler>, nodes: set<object>)
    requires BlocksAdded(a, b, hs, nodes) && BlocksAdded(b, c, gs, nodes)
    ensures BlocksAdded(a, c, hs + gs, nodes)
  {
    forall k ensures k in c <==> k in a || FirstMatch(hs + gs, k).Some? { FirstMatchAppend(hs, gs, k); }
    forall k | k in c
      ensures if k in a then c[k] == a[k] else RepConfig(c[k], FirstMatch(hs + gs, k).value.block, nodes)
    {
      FirstMatchAppend(hs, gs, k);
    }
  }

  /** The object `c` and what hangs below it are the tree `value`, all within `nodes`. */
  ghost predicate RepConfig(c: NginxConfig, value: Config, nodes: set<object>)
    reads nodes
    decreases value, 1
  {
    c in nodes && |c.statements_| == |value| &&
    forall i | 0 <= i < |value| :: RepStatement(c.statements_[i], value[i], nodes)
  }

  ghost predicate RepStatement(s: NginxConfigStatement, value: Statement, nodes: set<object>)
    reads nodes
    decreases value, 0
  {
    s in nodes && s.tokens_ == value.tokens &&
    match value
    case Leaf(_) => s.child_block_ == null
    case Block(_, children) => s.child_block_ != null && RepConfig(s.child_block_, children, nodes)
  }

  ghost predicate RepStatements(ss: seq<NginxConfigStatement>, value: Config, nodes: set<object>)
    reads nodes
  {
    |ss| == |value| && forall i | 0 <= i < |value| :: RepStatement(ss[i], value[i], nodes)
  }

  lemma {:induction false} RepGrows(s: NginxConfigStatement, value: Statement, nodes: set<object>, more: set<object>)
    requires RepStatement(s, value, nodes) && nodes <= more
    ensures RepStatement(s, value, more)
    decreases value
  {
    if value.Block? {
      var c := s.child_block_;
      forall i | 0 <= i < |value.children| ensures RepStatement(c.statements_[i], value.children[i], more) {
        RepGrows(c.statements_[i], value.children[i], nodes, more);
      }
    }
  }

  lemma RepAllGrow(ss: seq<NginxConfigStatement>, value: Config, nodes: set<object>, more: set<object>)
    requires RepStatements(ss, value, nodes) && nodes <= more
    ensures RepStatements(ss, value, more)
  {
    forall i | 0 <= i < |value| ensures RepStatement(ss[i], value[i], more) {
      RepGrows(ss[i], value[i], nodes, more);
    }
  }

  /** One object of the parser's stack: after the `skip` earlier statements come the finished ones of
      `f`, and then the one whose words are being read or whose block, `child`, is open. */
  ghost predicate Level(c: NginxConfig, skip: nat, f: Frame, child: NginxConfig?, done: set<object>, mine: set<object>)
    reads c, c.statements_, done
  {
    && c !in done
    && |c.statements_| == skip + |f.done| + (if f.head == [] then 0 else 1)
    && RepStatements(c.statements_[skip..skip+|f.done|], f.done, done)
    && (f.head != [] ==>
          var open := c.statements_[|c.statements_|-1];
          open in mine && open !in done && open.tokens_ == f.head && open.child_block_ == child)
  }

  ghost predicate LevelAt(stack: seq<NginxConfig>, skip: nat, m: Machine, k: nat, done: set<object>, mine: set<object>)
    requires k < |stack| && |stack| == |m.below| + 1
    reads stack[k], stack[k].statements_, done
  {
    Level(stack[k], if k == 0 then skip else 0, if k == |m.below| then m.top else m.below[k],
          if k == |m.below| then null else stack[k+1], done, mine)
  }

  /** The objects the parser uses: `prefix` was there before, all others but the outermost configuration
      are in `mine`, and `done` holds those of finished statements. */
  ghost predicate Footprint(stack: seq<NginxConfig>, prefix: seq<NginxConfigStatement>, done: set<object>, mine: set<object>)
    reads stack
  {
    && stack != [] && done <= mine && stack[0] !in mine
    && prefix <= stack[0].statements_ && (forall i | 0 <= i < |prefix| :: prefix[i] !in mine)
    && (forall j, k | 0 <= j < k < |stack| :: stack[j] != stack[k])
    && (forall k | 0 < k < |stack| :: stack[k] in mine)
  }

  /** The parser's stack of objects stands for the machine's frames. */
  ghost predicate Stacked(stack: seq<NginxConfig>, prefix: seq<NginxConfigStatement>, m: Machine,
                          done: set<object>, mine: set<object>)
    reads *
  {
    && |stack| == |m.below| + 1 && m.Inv()
    && Footprint(stack, prefix, done, mine)
    && (forall k {:trigger LevelAt(stack, |prefix|, m, k, done, mine)} | 0 <= k < |stack| ::
          LevelAt(stack, |prefix|, m, k, done, mine))
  }

  /** The innermost open statement is referred to by no other entry of the stack. */
  lemma OpenIsApart(stack: seq<NginxConfig>, prefix: seq<NginxConfigStatement>, m: Machine,
                    done: set<object>, mine: set<object>, o: NginxConfigStatement)
    requires Stacked(stack, prefix, m, done, mine)
    requires o in mine - done && o.child_block_ == null
    ensures forall k | 0 <= k < |m.below| :: o !in stack[k].statements_
  {
    forall k | 0 <= k < |m.below| ensures o !in stack[k].statements_ {
      assert LevelAt(stack, |prefix|, m, k, done, mine);
      var c, skip, f := stack[k], (if k == 0 then |prefix| else 0), m.below[k];
      forall i | 0 <= i < |c.statements_| ensures c.statements_[i] != o {
        if i < skip {
          assert c.statements_[i] == prefix[i];
        } else if i < skip + |f.done| {
          assert c.statements_[i] == c.statements_[skip..skip+|f.done|][i - skip];
          assert RepStatement(c.statements_[i], f.done[i - skip], done);
        }
      }
    }
  }

  /** A word after a finished statement or a brace starts a statement in the innermost block. */
  method StartStatement(config_stack: seq<NginxConfig>, token: string, ghost prefix: seq<NginxConfigStatement>,
                        ghost m: Machine, ghost done: set<object>, ghost mine: set<object>)
    returns (ghost mine': set<object>)
    requires m.last != NORMAL && Stacked(config_stack, prefix, m, done, mine)
    modifies config_stack[|config_stack|-1]
    ensures mine <= mine' && fresh(mine' - mine)
    ensures Stacked(config_stack, prefix, m.Step(Word(token)).value, done, mine')
  {
    hide RepStatements;
    var top := config_stack[|config_stack|-1];
    ghost var n, m' := |m.below|, m.Step(Word(token)).value;
    assert LevelAt(config_stack, |prefix|, m, n, done, mine);
    var statement := new NginxConfigStatement();
    statement.tokens_ := statement.tokens_ + [token];
    top.statements_ := top.statements_ + [statement];
    mine' := mine + {statement};
    forall k | 0 <= k < |config_stack| ensures LevelAt(config_stack, |prefix|, m', k, done, mine') {
      if k < n {
        assert old(LevelAt(config_stack, |prefix|, m, k, done, mine));
        assert config_stack[k] != top;
      } else {
        ghost var skip := if n == 0 then |prefix| else 0;
        assert top.statements_[skip..skip+|m.top.done|] == old(top.statements_[skip..skip+|m.top.done|]);
      }
    }
  }

  /** A word after a word goes on with the innermost open statement. */
  method ContinueStatement(config_stack: seq<NginxConfig>, token: string, ghost prefix: seq<NginxConfigStatement>,
                           ghost m: Machine, ghost done: set<object>, ghost mine: set<object>)
    requires m.last == NORMAL && Stacked(config_stack, prefix, m, done, mine)
    modifies mine - done
    ensures Stacked(config_stack, prefix, m.Step(Word(token)).value, done, mine)
  {
    var top := config_stack[|config_stack|-1];
    ghost var n, m' := |m.below|, m.Step(Word(token)).value;
    assert LevelAt(config_stack, |prefix|, m, n, done, mine);
    var statement := top.statements_[|top.statements_|-1];
    OpenIsApart(config_stack, prefix, m, done, mine, statement);
    statement.tokens_ := statement.tokens_ + [token];
    forall k | 0 <= k < |config_stack| ensures LevelAt(config_stack, |prefix|, m', k, done, mine) {
      assert old(LevelAt(config_stack, |prefix|, m, k, done, mine));
    }
  }

  /** A level stands for its frame still when other statements have been finished. */
  lemma LevelGrows(c: NginxConfig, skip: nat, f: Frame, child: NginxConfig?,
                   done: set<object>, more: set<object>, mine: set<object>)
    requires Level(c, skip, f, child, done, mine) && done <= more && c !in more
    requires f.head != [] ==> c.statements_[|c.statements_|-1] !in more
    ensures Level(c, skip, f, child, more, mine)
  {
    hide RepStatement;
    RepAllGrow(c.statements_[skip..skip+|f.done|], f.done, done, more);
  }

  /** A level gains its open statement, once that one is finished. */
  lemma LevelGains(c: NginxConfig, skip: nat, f: Frame, child: NginxConfig?, s: Statement, next: NginxConfig?,
                   done: set<object>, more: set<object>, mine: set<object>)
    requires Level(c, skip, f, child, done, mine) && f.head != [] && done <= more && c !in more
    requires RepStatement(c.statements_[|c.statements_|-1], s, more)
    ensures Level(c, skip, Frame(f.done + [s], []), next, more, mine)
  {
    hide RepStatement;
    var n := skip + |f.done|;
    RepAllGrow(c.statements_[skip..n], f.done, done, more);
    assert c.statements_[skip..n+1] == c.statements_[skip..n] + [c.statements_[n]];
  }

  /** A semicolon changes no object: the open statement becomes a finished one. */
  lemma FinishStatement(config_stack: seq<NginxConfig>, prefix: seq<NginxConfigStatement>,
                        m: Machine, done: set<object>, mine: set<object>)
    requires m.last == NORMAL && Stacked(config_stack, prefix, m, done, mine)
    ensures var top := config_stack[|config_stack|-1];
            && top.statements_ != []
            && Stacked(config_stack, prefix, m.Step(Semi).value, done + {top.statements_[|top.statements_|-1]}, mine)
  {
    var top := config_stack[|config_stack|-1];
    var n, m' := |m.below|, m.Step(Semi).value;
    assert LevelAt(config_stack, |prefix|, m, n, done, mine);
    var statement := top.statements_[|top.statements_|-1];
    OpenIsApart(config_stack, prefix, m, done, mine, statement);
    var more := done + {statement};
    forall k | 0 <= k < |config_stack| ensures LevelAt(config_stack, |prefix|, m', k, more, mine) {
      var skip := if k == 0 then |prefix| else 0;
      assert LevelAt(config_stack, |prefix|, m, k, done, mine);
      if k == n {
        LevelGains(top, skip, m.top, null, Leaf(m.top.head), null, done, more, mine);
      } else {
        LevelGrows(config_stack[k], skip, m.below[k], config_stack[k+1], done, more, mine);
      }
    }
  }

  /** An opening brace hangs a new configuration below the open statement and enters it. */
  method OpenBlock(config_stack: seq<NginxConfig>, ghost prefix: seq<NginxConfigStatement>,
                   ghost m: Machine, ghost done: set<object>, ghost mine: set<object>)
    returns (stack': seq<NginxConfig>, ghost mine': set<object>)
    requires m.last == NORMAL && Stacked(config_stack, prefix, m, done, mine)
    modifies mine - done
    ensures mine <= mine' && fresh(mine' - mine) && config_stack <= stack'
    ensures Stacked(stack', prefix, m.Step(Open).value, done, mine')
  {
    var top := config_stack[|config_stack|-1];
    ghost var n, m' := |m.below|, m.Step(Open).value;
    assert LevelAt(config_stack, |prefix|, m, n, done, mine);
    var statement := top.statements_[|top.statements_|-1];
    OpenIsApart(config_stack, prefix, m, done, mine, statement);
    hide RepStatement;
    var new_config := new NginxConfig();
    statement.child_block_ := new_config;
    stack' := config_stack + [new_config];
    mine' := mine + {new_config};
    forall k | 0 <= k < |stack'| ensures LevelAt(stack', |prefix|, m', k, done, mine') {
      if k <= n {
        assert old(LevelAt(config_stack, |prefix|, m, k, done, mine));
      }
    }
  }

  /** A closing brace leaves the innermost block: it and its statement are finished. */
  lemma CloseBlock(config_stack: seq<NginxConfig>, prefix: seq<NginxConfigStatement>,
                   m: Machine, done: set<object>, mine: set<object>) returns (more: set<object>)
    requires Stacked(config_stack, prefix, m, done, mine) && m.Step(Close).Some?
    ensures Stacked(config_stack[..|config_stack|-1], prefix, m.Step(Close).value, more, mine)
  {
    var n, m' := |m.below|, m.Step(Close).value;
    var stack' := config_stack[..n];
    assert LevelAt(config_stack, |prefix|, m, n, done, mine);
    assert LevelAt(config_stack, |prefix|, m, n - 1, done, mine);
    var inner, outer := config_stack[n], config_stack[n-1];
    var statement := outer.statements_[|outer.statements_|-1];
    more := done + {inner, statement};
    BlockIsFinished(inner, statement, m.top.done, done, more);
    forall k | 0 <= k < n ensures LevelAt(stack', |prefix|, m', k, more, mine) {
      var skip := if k == 0 then |prefix| else 0;
      assert LevelAt(config_stack, |prefix|, m, k, done, mine);
      if k == n - 1 {
        LevelGains(outer, skip, m.below[k], inner, Block(m.below[k].head, m.top.done), null, done, more, mine);
      } else {
        LevelGrows(config_stack[k], skip, m.below[k], config_stack[k+1], done, more, mine);
      }
    }
  }

  lemma BlockIsFinished(inner: NginxConfig, s: NginxConfigStatement, children: Config, done: set<object>, more: set<object>)
    requires s.child_block_ == inner && done <= more && inner in more && s in more
    requires |inner.statements_| == |children| && RepStatements(inner.statements_[0..|children|], children, done)
    ensures RepStatement(s, Block(s.tokens_, children), more)
  {
    assert inner.statements_[0..|children|] == inner.statements_;
    RepAllGrow(inner.statements_, children, done, more);
  }

  /** Whenever the parser stops, what was added to the given configuration is the machine's tree. */
  lemma {:induction false} StackIsTree(stack: seq<NginxConfig>, skip: nat, m: Machine, n: nat, inner: Config,
                                       done: set<object>, mine: set<object>)
    requires |stack| == |m.below| + 1 && n <= |m.below| && done <= mine && stack[0] !in mine
    requires forall k | 0 < k < |stack| :: stack[k] in mine
    requires forall k {:trigger LevelAt(stack, skip, m, k, done, mine)} | 0 <= k < n ::
               LevelAt(stack, skip, m, k, done, mine) && m.below[k].head != []
    requires skip <= |stack[0].statements_|
    requires RepStatements(stack[n].statements_[if n == 0 then skip else 0..], inner, mine)
    ensures RepStatements(stack[0].statements_[skip..], Wrap(m.below[..n], inner), mine)
    decreases n
  {
    if n > 0 {
      var c, f := stack[n-1], m.below[n-1];
      var from := if n == 1 then skip else 0;
      assert LevelAt(stack, skip, m, n - 1, done, mine);
      RepAllGrow(c.statements_[from..from+|f.done|], f.done, done, mine);
      var statement := c.statements_[|c.statements_|-1];
      assert stack[n].statements_[0..] == stack[n].statements_;
      assert RepStatement(statement, Block(f.head, inner), mine);
      assert c.statements_[from..] == c.statements_[from..from+|f.done|] + [statement];
      assert m.below[..n][..n-1] == m.below[..n-1];
      StackIsTree(stack, skip, m, n - 1, f.done + [Block(f.head, inner)], done, mine);
    }
  }

  lemma StackedIsTree(stack: seq<NginxConfig>, prefix: seq<NginxConfigStatement>, m: Machine,
                      done: set<object>, mine: set<object>)
    requires Stacked(stack, prefix, m, done, mine)
    ensures RepStatements(stack[0].statements_[|prefix|..], m.Tree(), mine)
  {
    var n := |m.below|;
    var top := stack[n];
    var from := if n == 0 then |prefix| else 0;
    assert LevelAt(stack, |prefix|, m, n, done, mine);
    RepAllGrow(top.statements_[from..from+|m.top.done|], m.top.done, done, mine);
    assert top.statements_[from..] == top.statements_[from..from+|m.top.done|] +
      (if m.top.head == [] then [] else [top.statements_[|top.statements_|-1]]);
    assert m.below[..n] == m.below;
    StackIsTree(stack, |prefix|, m, n, Partial(m.top), done, mine);
  }

  /** Reading a token touches no configuration. */
  method ReadToken(config_file: CharStream, stack: seq<NginxConfig>, ghost prefix: seq<NginxConfigStatement>,
                   ghost m: Machine, ghost done: set<object>, ghost mine: set<object>)
    returns (kind: TokenType, value: string)
    requires config_file.Valid() && config_file !in mine && Stacked(stack, prefix, m, done, mine)
    modifies config_file
    ensures config_file.Valid()
    ensures kind != START
    ensures kind == EOF || kind == ERROR || |config_file.Remaining()| < |old(config_file.Remaining())|
    ensures Stacked(stack, prefix, m, done, mine)
    ensures ParseFrom(old(config_file.Remaining()), m) == Verdict(m, kind, value, config_file.Remaining())
  {
    hide NextToken, ParseFrom, Verdict;
    TokenLiesInText(config_file.Remaining());
    VerdictIs(config_file.Remaining(), m);
    kind, value := ParseToken(config_file);
    forall k | 0 <= k < |stack| ensures LevelAt(stack, |prefix|, m, k, done, mine) {
      assert old(LevelAt(stack, |prefix|, m, k, done, mine));
    }
  }

  /** The outcome once the next token is known. */
  ghost function Verdict(m: Machine, kind: TokenType, value: string, rest: string): Outcome
    requires m.Inv() && kind != START
  {
    if Lexeme(kind, value, "").IsToken() then
      match m.Step(TokenOf(Lexeme(kind, value, "")))
      case None => Outcome(false, m.Tree())
      case Some(m') => ParseFrom(rest, m')
    else if kind == COMMENT then ParseFrom(rest, m)
    else Outcome(kind == EOF && m.Accepting(), m.Tree())
  }

  lemma VerdictIs(s: string, m: Machine)
    requires m.Inv()
    ensures var n := NextToken(s); n.kind != START && ParseFrom(s, m) == Verdict(m, n.kind, n.value, n.rest)
  {
    hide NextToken, ReadOff;
    TokenLiesInText(s);
    NeverStart(s);
    SameToken(NextToken(s));
    hide TokenOf;
  }

  lemma NeverStart(s: string)
    ensures NextToken(s).kind != START
  {
    hide NextToken;
    TokenLiesInText(s);
  }

  lemma SameToken(n: Lexeme)
    ensures var n' := Lexeme(n.kind, n.value, ""); n'.IsToken() == n.IsToken() && (n.IsToken() ==> TokenOf(n') == TokenOf(n))
  {
  }

  datatype Control = Proceed(brackets: int) | Stop(accept: bool)

  /** A configuration that was empty before is, after parsing, the whole of the tree. */
  lemma ParsedIntoEmpty(config: NginxConfig, tree: Config, built: set<object>)
    requires RepStatements(config.statements_, tree, built)
    ensures RepConfig(config, tree, built + {config})
  {
    RepAllGrow(config.statements_, tree, built, built + {config});
  }

  class NginxConfigParser {
    constructor () {
    }

    /** What the loop does with a token other than a comment or an error. */
    method Advance(config_stack: seq<NginxConfig>, last_token_type: TokenType, bracket_count: int,
                   token_type: TokenType, token: string, ghost config_file: CharStream,
                   ghost prefix: seq<NginxConfigStatement>, ghost m: Machine, ghost done: set<object>, ghost mine: set<object>)
      returns (control: Control, stack': seq<NginxConfig>, ghost done': set<object>, ghost mine': set<object>)
      requires Stacked(config_stack, prefix, m, done, mine) && config_file !in mine
      requires m.last == last_token_type && m.brackets == bracket_count
      requires token_type != START && token_type != COMMENT && token_type != ERROR
      modifies config_stack[|config_stack|-1], mine - done
      ensures stack' != [] && stack'[0] == config_stack[0] && mine <= mine' && fresh(mine' - mine)
      ensures unchanged(config_file)
      ensures control.Stop? ==> stack' == config_stack && Stacked(stack', prefix, m, done', mine')
      ensures token_type == EOF ==> control == Stop(m.Accepting())
      ensures token_type != EOF ==>
                var next := m.Step(TokenOf(Lexeme(token_type, token, "")));
                match next
                case None => control == Stop(false)
                case Some(m') =>
                  control == Proceed(m'.brackets) && m'.last == token_type && Stacked(stack', prefix, m', done', mine')
    {
      stack', done', mine' := config_stack, done, mine;
      match token_type {
        case NORMAL =>
          if last_token_type != NORMAL {
            mine' := StartStatement(config_stack, token, prefix, m, done, mine);
          } else {
            ContinueStatement(config_stack, token, prefix, m, done, mine);
          }
          return Proceed(bracket_count), stack', done', mine';
        case STATEMENT_END =>
          if last_token_type != NORMAL {
            return Stop(false), stack', done', mine';
          }
          FinishStatement(config_stack, prefix, m, done, mine);
          ghost var top := config_stack[|config_stack|-1];
          return Proceed(bracket_count), stack', done + {top.statements_[|top.statements_|-1]}, mine;
        case START_BLOCK =>
          if last_token_type != NORMAL {
            return Stop(false), stack', done', mine';
          }
          stack', mine' := OpenBlock(config_stack, prefix, m, done, mine);
          return Proceed(bracket_count + 1), stack', done', mine';
        case END_BLOCK =>
          if last_token_type != STATEMENT_END && last_token_type != END_BLOCK && last_token_type != START_BLOCK {
            return Stop(false), stack', done', mine';
          }
          if bracket_count - 1 < 0 {
            return Stop(false), stack', done', mine';
          }
          done' := CloseBlock(config_stack, prefix, m, done, mine);
          return Proceed(bracket_count - 1), config_stack[..|config_stack|-1], done', mine';
        case EOF =>
          if last_token_type != STATEMENT_END && last_token_type != END_BLOCK {
            return Stop(false), stack', done', mine';
          }
          return Stop(bracket_count == 0), stack', done', mine';
      }
    }

    /** One turn of the loop: read a token and act on it. */
    method Turn(config_file: CharStream, config_stack: seq<NginxConfig>, last_token_type: TokenType, bracket_count: int,
                ghost prefix: seq<NginxConfigStatement>, ghost m: Machine, ghost done: set<object>, ghost mine: set<object>)
      returns (control: Control, stack': seq<NginxConfig>, last': TokenType,
               ghost m': Machine, ghost done': set<object>, ghost mine': set<object>)
      requires config_file.Valid() && config_file !in mine && Stacked(config_stack, prefix, m, done, mine)
      requires m.last == last_token_type && m.brackets == bracket_count
      modifies config_file, config_stack[|config_stack|-1], mine - done
      ensures config_file.Valid() && Stacked(stack', prefix, m', done', mine')
      ensures stack'[0] == config_stack[0] && mine <= mine' && fresh(mine' - mine)
      ensures match control
              case Stop(accept) => ParseFrom(old(config_file.Remaining()), m) == Outcome(accept, m'.Tree())
              case Proceed(brackets) =>
                && |config_file.Remaining()| < |old(config_file.Remaining())|
                && ParseFrom(old(config_file.Remaining()), m) == ParseFrom(config_file.Remaining(), m')
                && m'.last == last' && m'.brackets == brackets
    {
      hide ParseFrom, NextToken;
      stack', last', m', done', mine' := config_stack, last_token_type, m, done, mine;
      var token_type, token := ReadToken(config_file, config_stack, prefix, m, done, mine);
      if token_type == ERROR {
        return Stop(false), stack', last', m', done', mine';
      }
      if token_type == COMMENT {
        return Proceed(bracket_count), stack', last', m', done', mine';
      }
      ghost var t := Lexeme(token_type, token, "");
      control, stack', done', mine' :=
        Advance(config_stack, last_token_type, bracket_count, token_type, token, config_file, prefix, m, done, mine);
      if control.Proceed? {
        m' := m.Step(TokenOf(t)).value;
        last' := token_type;
      }
    }

    /** Accepts exactly the texts of the grammar, adding the derived tree. Whatever the verdict, earlier
        statements stay as they were, and what follows them is the machine's tree, built from new objects. */
    method Parse(config_file: CharStream, config: NginxConfig) returns (ok: bool, ghost built: set<object>)
      requires config_file.Valid()
      modifies config_file, config
      ensures fresh(built)
      ensures old(config.statements_) <= config.statements_
      ensures var outcome := ParseText(old(config_file.Remaining()));
              ok == outcome.ok &&
              RepStatements(config.statements_[|old(config.statements_)|..], outcome.tree, built)
      ensures ok <==> exists c :: Derives(old(config_file.Remaining()), c)
      ensures ok ==> Derives(old(config_file.Remaining()), ParseText(old(config_file.Remaining())).tree)
    {
      hide ParseFrom, Derives;
      ParserIsGrammar(config_file.Remaining(), ParseText(config_file.Remaining()).tree);
      var config_stack := [config];
      var last_token_type := START;
      var bracket_count := 0;
      built := {};
      ghost var done: set<object>, m, prefix := {}, START_MACHINE, config.statements_;
      ghost var goal := ParseText(config_file.Remaining());
      assert LevelAt(config_stack, |prefix|, m, 0, done, built);
      while true
        invariant config_file.Valid()
        invariant Stacked(config_stack, prefix, m, done, built)
        invariant m.last == last_token_type && m.brackets == bracket_count
        invariant ParseFrom(config_file.Remaining(), m) == goal
        invariant config_stack[0] == config && fresh(built)
        decreases |config_file.Remaining()|
      {
        ghost var top := config_stack[|config_stack|-1];
        assert top == config || top in built;
        var control;
        control, config_stack, last_token_type, m, done, built :=
          Turn(config_file, config_stack, last_token_type, bracket_count, prefix, m, done, built);
        match control {
          case Stop(accept) =>
            StackedIsTree(config_stack, prefix, m, done, built);
            return accept, built;
          case Proceed(brackets) =>
            bracket_count := brackets;
        }
      }
    }
  }
}
