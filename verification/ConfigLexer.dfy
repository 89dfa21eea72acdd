/** The character-level lexer of the configuration parser: what the next token of a text is, and the
    loop with one character of look-ahead that finds it. */
module ConfigLexer {
  import opened Text
  import opened ConfigTree

  datatype TokenType =
    | START | NORMAL | START_BLOCK | END_BLOCK | COMMENT | STATEMENT_END | EOF | ERROR

  datatype Lexeme = Lexeme(kind: TokenType, value: string, rest: string) {
    predicate IsToken() { kind.NORMAL? || kind.START_BLOCK? || kind.END_BLOCK? || kind.STATEMENT_END? }
  }

  /** The next token of `s`: skip blanks, then decide by the first character alone. */
  function NextToken(s: string): Lexeme {
    TokenAt(Skip(s, BLANKS))
  }

  function TokenAt(t: string): Lexeme {
    if t == "" then Lexeme(EOF, "", "") else
      var (v, r) := ([t[0]], t[1..]);
      match t[0]
      case '{' => Lexeme(START_BLOCK, v, r)
      case '}' => Lexeme(END_BLOCK, v, r)
      case ';' => Lexeme(STATEMENT_END, v, r)
      case '#' => Resume(IN_COMMENT, v, r)
      case '\"' => Resume(DOUBLE_QUOTE, v, r)
      case '\'' => Resume(SINGLE_QUOTE, v, r)
      case _ => Resume(IN_WORD, v, r)
  }

  datatype State = INITIAL | SINGLE_QUOTE | DOUBLE_QUOTE | IN_COMMENT | IN_WORD

  /** The token that began with `v` and goes on in `r`: where it ends, and what is left. */
  function Resume(state: State, v: string, r: string): Lexeme
    requires !state.INITIAL?
  {
    match state
    case SINGLE_QUOTE => UpTo({'\''}, 1, 1, NORMAL, ERROR, v, r)
    case DOUBLE_QUOTE => UpTo({'\"'}, 1, 1, NORMAL, ERROR, v, r)
    case IN_COMMENT => UpTo({'\n', '\r'}, 0, 1, COMMENT, EOF, v, r)
    case IN_WORD => UpTo(WORD_ENDS, 0, 0, NORMAL, EOF, v, r)
  }

  /** A token running up to the first of `stop`: `keep` characters of the terminator belong to the
      value and `eat` of them are consumed. A text that ends first gives `short`. */
  function UpTo(stop: set<char>, keep: nat, eat: nat, full: TokenType, short: TokenType, v: string, r: string): Lexeme
    requires keep <= 1 && eat <= 1
  {
    var k := Span(r, stop);
    if k == |r| then Lexeme(short, v + r, "") else Lexeme(full, v + r[..k+keep], r[k+eat..])
  }

  lemma UpToExtend(stop: set<char>, keep: nat, eat: nat, full: TokenType, short: TokenType, v: string, r: string)
    requires keep <= 1 && eat <= 1 && r != "" && r[0] !in stop
    ensures UpTo(stop, keep, eat, full, short, v + [r[0]], r[1..]) == UpTo(stop, keep, eat, full, short, v, r)
  {
    var k := Span(r[1..], stop);
    assert Span(r, stop) == k + 1;
    hide Span;
    if k < |r[1..]| {
      TakeOneMore(v, r, k + keep);
      DropOneMore(r, k + eat);
    } else {
      FirstMoves(v, r);
    }
  }

  lemma DropOneMore(r: string, n: nat)
    requires n < |r|
    ensures r[1..][n..] == r[n+1..]
  {
  }

  lemma FirstMoves(v: string, r: string)
    requires r != ""
    ensures v + [r[0]] + r[1..] == v + r
  {
  }

  lemma TakeOneMore(v: string, r: string, n: nat)
    requires n < |r|
    ensures v + [r[0]] + r[1..][..n] == v + r[..n+1]
  {
    assert r[..n+1] == [r[0]] + r[1..][..n];
  }

  /** The lexer as a machine that sees one character at a time. */
  function Scan(state: State, v: string, r: string): Lexeme
    decreases r
  {
    if r == "" then Lexeme(if state.SINGLE_QUOTE? || state.DOUBLE_QUOTE? then ERROR else EOF, v, "")
    else
      var c := r[0];
      match state
      case INITIAL =>
        if c == '{' then Lexeme(START_BLOCK, [c], r[1..])
        else if c == '}' then Lexeme(END_BLOCK, [c], r[1..])
        else if c == ';' then Lexeme(STATEMENT_END, [c], r[1..])
        else if c == '#' then Scan(IN_COMMENT, [c], r[1..])
        else if c == '\"' then Scan(DOUBLE_QUOTE, [c], r[1..])
        else if c == '\'' then Scan(SINGLE_QUOTE, [c], r[1..])
        else if c == ' ' || c == '\t' || c == '\n' || c == '\r' then Scan(INITIAL, v, r[1..])
        else Scan(IN_WORD, v + [c], r[1..])
      case SINGLE_QUOTE => if c == '\'' then Lexeme(NORMAL, v + [c], r[1..]) else Scan(state, v + [c], r[1..])
      case DOUBLE_QUOTE => if c == '\"' then Lexeme(NORMAL, v + [c], r[1..]) else Scan(state, v + [c], r[1..])
      case IN_COMMENT => if c == '\n' || c == '\r' then Lexeme(COMMENT, v, r[1..]) else Scan(state, v + [c], r[1..])
      case IN_WORD =>
        if c == ' ' || c == '\t' || c == '\n' || c == ';' || c == '{' || c == '}' then Lexeme(NORMAL, v, r)
        else Scan(state, v + [c], r[1..])
  }

  lemma {:induction false} ScanIsUpTo(state: State, v: string, r: string)
    requires !state.INITIAL?
    ensures Scan(state, v, r) == Resume(state, v, r)
    decreases r
  {
    if r == "" {
      assert v + r == v;
    } else {
      var c := r[0];
      match state
      case SINGLE_QUOTE =>
        if c != '\'' { UpToExtend({'\''}, 1, 1, NORMAL, ERROR, v, r); ScanIsUpTo(state, v + [c], r[1..]); }
      case DOUBLE_QUOTE =>
        if c != '\"' { UpToExtend({'\"'}, 1, 1, NORMAL, ERROR, v, r); ScanIsUpTo(state, v + [c], r[1..]); }
      case IN_COMMENT =>
        if c !in {'\n', '\r'} { UpToExtend({'\n', '\r'}, 0, 1, COMMENT, EOF, v, r); ScanIsUpTo(state, v + [c], r[1..]); }
      case IN_WORD =>
        if c !in WORD_ENDS { UpToExtend(WORD_ENDS, 0, 0, NORMAL, EOF, v, r); ScanIsUpTo(state, v + [c], r[1..]); }
    }
  }

  /** The machine finds the token the definition names. */
  lemma {:induction false} ScanIsNextToken(s: string)
    ensures Scan(INITIAL, "", s) == NextToken(s)
  {
    hide TokenAt, Scan, Skip;
    if s == "" {
      NothingLeft();
    } else {
      SkipFirst(s);
      if IsBlank(s[0]) {
        ScanBlank(s);
        ScanIsNextToken(s[1..]);
      } else {
        ScanIsTokenAt(s);
      }
    }
  }

  lemma NothingLeft()
    ensures Skip("", BLANKS) == ""
    ensures TokenAt("") == Scan(INITIAL, "", "") == Lexeme(EOF, "", "")
  {
  }

  lemma ScanBlank(s: string)
    requires s != "" && IsBlank(s[0])
    ensures Scan(INITIAL, "", s) == Scan(INITIAL, "", s[1..])
  {
  }

  lemma ScanIsTokenAt(t: string)
    requires t != "" && !IsBlank(t[0])
    ensures Scan(INITIAL, "", t) == TokenAt(t)
  {
    hide Resume;
    var (c, r) := (t[0], t[1..]);
    assert "" + [c] == [c];
    ScanIsUpTo(IN_COMMENT, [c], r);
    ScanIsUpTo(DOUBLE_QUOTE, [c], r);
    ScanIsUpTo(SINGLE_QUOTE, [c], r);
    ScanIsUpTo(IN_WORD, [c], r);
  }

  predicate IsBlank(c: char) { c == ' ' || c == '\t' || c == '\n' || c == '\r' }

  lemma SkipFirst(s: string)
    requires s != ""
    ensures Skip(s, BLANKS) == if IsBlank(s[0]) then Skip(s[1..], BLANKS) else s
  {
    assert s[0] in BLANKS <==> IsBlank(s[0]);
  }

  function TokenOf(n: Lexeme): Token
    requires n.IsToken()
  {
    match n.kind
    case NORMAL => Word(n.value)
    case START_BLOCK => Open
    case END_BLOCK => Close
    case STATEMENT_END => Semi
  }

  /** `n` is read off the front of `t`: a token is exactly the text in front of the rest, a comment also
      takes its line end, and words have the word shape. */
  predicate ReadOff(t: string, n: Lexeme) {
    match n.kind
    case START => false
    case EOF => n.rest == "" && t == n.value
    case ERROR => n.rest == "" && t == n.value
    case COMMENT =>
      |n.value| < |t| && n.value == t[..|n.value|] && (t[|n.value|] == '\n' || t[|n.value|] == '\r') &&
      n.rest == t[|n.value|+1..]
    case NORMAL => ValidWord(n.value) && t == n.value + n.rest
    case _ => n.value != "" && t == n.value + n.rest
  }

  lemma QuoteReadOff(state: State, q: char, r: string)
    requires (state == SINGLE_QUOTE && q == '\'') || (state == DOUBLE_QUOTE && q == '\"')
    ensures ReadOff([q] + r, Resume(state, [q], r))
  {
    var k := Span(r, {q});
    hide Span;
    if k < |r| {
      assert [q] + r[..k+1] == [q] + r[..k] + [q];
      QuotedShape(q, r[..k]);
      assert [q] + r == [q] + r[..k+1] + r[k+1..];
    }
  }

  lemma QuotedShape(q: char, inner: string)
    requires Free(inner, {q})
    ensures QuotedWord([q] + inner + [q], q)
  {
    assert ([q] + inner + [q])[1..|inner|+1] == inner;
  }

  lemma WordReadOff(c: char, r: string)
    requires StartsWord(c)
    ensures ReadOff([c] + r, Resume(IN_WORD, [c], r))
  {
    var k := Span(r, WORD_ENDS);
    hide Span;
    if k < |r| {
      assert ([c] + r[..k])[1..] == r[..k];
      assert BareWord([c] + r[..k]);
      assert [c] + r == [c] + r[..k] + r[k..];
    }
  }

  lemma CommentReadOff(c: char, r: string)
    ensures ReadOff([c] + r, Resume(IN_COMMENT, [c], r))
  {
    var n := Resume(IN_COMMENT, [c], r);
    var k := Span(r, {'\n', '\r'});
    if k < |r| {
      assert n.value == ([c] + r)[..k+1] && n.rest == ([c] + r)[k+2..];
    }
  }

  /** Where a token lies in its text. Every token but the last takes at least one character. */
  lemma TokenLiesInText(s: string)
    ensures ReadOff(Skip(s, BLANKS), NextToken(s))
    ensures NextToken(s).kind.EOF? || NextToken(s).kind.ERROR? || |NextToken(s).rest| < |s|
  {
    hide TokenAt, ReadOff;
    var t := Skip(s, BLANKS);
    if t == "" {
      NothingLeft();
      assert ReadOff("", Lexeme(EOF, "", "")) by { NothingReadOff(); }
    } else {
      assert t[0] in BLANKS <==> IsBlank(t[0]);
      hide Skip;
      TokenAtReadOff(t);
      ReadOffShorter(t, TokenAt(t));
    }
  }

  lemma NothingReadOff()
    ensures ReadOff("", Lexeme(EOF, "", ""))
  {
  }

  lemma TokenAtReadOff(t: string)
    requires t != "" && !IsBlank(t[0])
    ensures ReadOff(t, TokenAt(t))
  {
    hide Resume, ValidWord;
    var (c, r) := (t[0], t[1..]);
    assert t == [c] + r;
    if c == '#' {
      CommentReadOff(c, r);
    } else if c == '\"' {
      QuoteReadOff(DOUBLE_QUOTE, c, r);
    } else if c == '\'' {
      QuoteReadOff(SINGLE_QUOTE, c, r);
    } else if StartsWord(c) {
      WordReadOff(c, r);
    }
  }

  lemma ReadOffShorter(t: string, n: Lexeme)
    requires ReadOff(t, n) && t != ""
    ensures n.kind.EOF? || n.kind.ERROR? || |n.rest| < |t|
  {
  }

  datatype Lexed = Lexed(tokens: seq<Token>, clean: bool) {
    function After(ts: seq<Token>): Lexed { Lexed(ts + tokens, clean) }
  }

  /** The comment-free tokens of a text; not clean when a quote is left open. */
  function Lex(s: string): Lexed
    decreases |s|
  {
    TokenLiesInText(s);
    var n := NextToken(s);
    if n.IsToken() then Lex(n.rest).After([TokenOf(n)])
    else if n.kind == COMMENT then Lex(n.rest)
    else Lexed([], n.kind == EOF)
  }

  /** A text open for reading: std::istream restricted to get, unget and good. */
  class CharStream {
    const data: string
    var pos: nat
    var good: bool

    ghost predicate Valid() reads this { pos <= |data| }

    /** What is still to be read. */
    ghost function Remaining(): string
      requires Valid()
      reads this
    {
      if good then data[pos..] else ""
    }

    constructor (text: string)
      ensures Valid() && Remaining() == text && data == text
    {
      data := text;
      pos := 0;
      good := true;
    }

    /** Past the last character the stream stops being good and the result means nothing. */
    method Get() returns (c: char)
      requires Valid() && good
      modifies this
      ensures Valid()
      ensures good == (old(Remaining()) != "")
      ensures good ==> c == old(Remaining())[0] && Remaining() == old(Remaining())[1..]
      ensures good ==> pos == old(pos) + 1 && c == data[old(pos)]
    {
      if pos < |data| {
        c := data[pos];
        pos := pos + 1;
      } else {
        c := '\0';
        good := false;
      }
    }

    method Unget()
      requires Valid() && good && pos > 0
      modifies this
      ensures Valid() && good && pos == old(pos) - 1
      ensures Remaining() == [data[pos]] + old(Remaining())
    {
      pos := pos - 1;
    }
  }

  method ParseToken(input: CharStream) returns (kind: TokenType, value: string)
    requires input.Valid()
    modifies input
    ensures input.Valid()
    ensures Lexeme(kind, value, input.Remaining()) == NextToken(old(input.Remaining()))
  {
    hide NextToken;
    var state := INITIAL;
    value := "";
    ghost var rest := input.Remaining();
    ghost var goal := Scan(INITIAL, "", rest);
    ScanIsNextToken(rest);
    while input.good
      invariant input.Valid() && input.Remaining() == rest
      invariant state.INITIAL? ==> value == ""
      invariant Scan(state, value, rest) == goal
      decreases |rest|, input.good
    {
      var c := input.Get();
      if !input.good {
        break;
      }
      rest := rest[1..];
      match state {
        case INITIAL =>
          if c == '{' {
            value := [c];
            return START_BLOCK, value;
          } else if c == '}' {
            value := [c];
            return END_BLOCK, value;
          } else if c == '#' {
            value := [c];
            state := IN_COMMENT;
          } else if c == '\"' {
            value := [c];
            state := DOUBLE_QUOTE;
          } else if c == '\'' {
            value := [c];
            state := SINGLE_QUOTE;
          } else if c == ';' {
            value := [c];
            return STATEMENT_END, value;
          } else if c == ' ' || c == '\t' || c == '\n' || c == '\r' {
          } else {
            value := value + [c];
            state := IN_WORD;
          }
        case SINGLE_QUOTE =>
          value := value + [c];
          if c == '\'' {
            return NORMAL, value;
          }
        case DOUBLE_QUOTE =>
          value := value + [c];
          if c == '\"' {
            return NORMAL, value;
          }
        case IN_COMMENT =>
          if c == '\n' || c == '\r' {
            return COMMENT, value;
          }
          value := value + [c];
        case IN_WORD =>
          if c == ' ' || c == '\t' || c == '\n' || c == '\t' || c == ';' || c == '{' || c == '}' {
            input.Unget();
            return NORMAL, value;
          }
          value := value + [c];
      }
    }
    if state == SINGLE_QUOTE || state == DOUBLE_QUOTE {
      return ERROR, value;
    }
    return EOF, value;
  }
}
