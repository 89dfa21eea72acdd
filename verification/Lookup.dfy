/** How attributes are found in configurations: by searching the printed text, and what that search means
    for the tree. */
module Lookup {
  import opened Text
  import opened ConfigTree
  import opened Numerals

  // ---------- reading behind a word that was found ----------

  /** std::string::substr, where a length below zero has wrapped round and takes everything. */
  function Substr(s: string, pos: nat, n: int): string
    requires pos <= |s|
  {
    if n < 0 || pos + n > |s| then s[pos..] else s[pos..pos+n]
  }

  /** PeekURL's reading of the text behind a position, found by counting up to the next semicolon: None when
      there is none and the count runs out of the text. */
  function PeekBehind(s: string, from: nat): Option<string>
    requires from <= |s|
  {
    match Find(s[from..], ";")
    case None => None
    case Some(j) => Some(Substr(s, from + 1, j - 1))
  }

  predicate PeekDefined(s: string) {
    match Find(s, "url")
    case None => true
    case Some(i) => PeekBehind(s, i + 3).Some?
  }

  function PeekedUrl(s: string): string
    requires PeekDefined(s)
  {
    match Find(s, "url")
    case None => ""
    case Some(i) => PeekBehind(s, i + 3).value
  }

  /** GetAttribute's reading: its own check for the end, and a C string. */
  function AttributeBehind(s: string, from: nat): string
    requires from <= |s|
  {
    var k := Span(s[from..], {';'});
    if k == |s| - from then "" else CString(Substr(s, from + 1, k - 1))
  }

  /** The attribute found in a printed configuration that mentions it. */
  function AttributeText(s: string, attr: string): string
    requires Find(s, attr).Some?
  {
    AttributeBehind(s, Find(s, attr).value + |attr|)
  }

  /** What stands behind "listen", one character on and semicolon included; "" without a semicolon. */
  function PortText(s: string): string {
    match Find(s, "listen")
    case None => ""
    case Some(i) =>
      var k := Span(s[i+6..], {';'});
      if k == |s| - (i + 6) then "" else CString(Substr(s, i + 7, k))
  }

  /** The port a printed configuration asks for, 0 for none. */
  function PortOf(s: string): int { Atoi(PortText(s)) }

  /** The first semicolon, by search and by counting. */
  lemma SemicolonFound(s: string)
    ensures Find(s, ";") == if Span(s, {';'}) == |s| then None else Some(Span(s, {';'}))
  {
    var k := Span(s, {';'});
    forall j: nat | j < k ensures !OccursAt(s, ";", j) {
      if OccursAt(s, ";", j) { OccursLetters(s, ";", j); }
    }
    if k < |s| {
      assert OccursAt(s, ";", k);
      FindIs(s, ";", k);
    } else if j: nat :| OccursAt(s, ";", j) {
      OccursLetters(s, ";", j);
      assert false;
    }
  }

  lemma ReadersAgree(s: string, from: nat)
    requires from <= |s|
    ensures AttributeBehind(s, from) == match PeekBehind(s, from) case None => "" case Some(url) => CString(url)
  {
    hide Find, Span, CString, Substr;
    SemicolonFound(s[from..]);
  }

  /** PeekURL and GetAttribute("url") read the same text, but for what follows a NUL; where PeekURL would run
      out of the text, GetAttribute returns nothing. */
  lemma PeekIsAttribute(s: string)
    requires Find(s, "url").Some?
    ensures AttributeText(s, "url") == if PeekDefined(s) then CString(PeekedUrl(s)) else ""
  {
    hide Find, PeekBehind, AttributeBehind, CString;
    ReadersAgree(s, Find(s, "url").value + 3);
  }

  /** PeekURL gives nothing for a text without "url"; behind the first one it skips a character and takes what comes
      up to the semicolon. With the semicolon right behind "url" it takes everything after it. */
  lemma PeekedUrlIs(before: string, c: char, value: string, after: string)
    requires Free(value, {';'}) && c != ';'
    ensures !Contains(before, "url") ==> PeekDefined(before) && PeekedUrl(before) == ""
    ensures var s := before + ("url" + ([c] + value + ";" + after));
            Find(s, "url") == Some(|before|) ==> PeekDefined(s) && PeekedUrl(s) == value
    ensures var s := before + ("url" + (";" + after));
            Find(s, "url") == Some(|before|) ==> PeekDefined(s) && PeekedUrl(s) == after
  {
    hide Find, PeekBehind;
    Regroup(before, "url", [c] + value + ";" + after);
    Regroup(before, "url", ";" + after);
    PeekBehindIs(before + "url", c, value, after);
  }

  lemma PeekBehindIs(front: string, c: char, value: string, after: string)
    requires Free(value, {';'}) && c != ';'
    ensures PeekBehind(front + ([c] + value + ";" + after), |front|) == Some(value)
    ensures PeekBehind(front + (";" + after), |front|) == Some(after)
  {
    SemicolonAfter(front, [c] + value, after);
    SemicolonAfter(front, "", after);
    assert "" + ";" + after == ";" + after;
    hide Find;
  }

  lemma SemicolonAfter(front: string, inner: string, after: string)
    requires Free(inner, {';'})
    ensures var s := front + (inner + ";" + after);
            && Find(s[|front|..], ";") == Some(|inner|)
            && |s| == |front| + |inner| + 1 + |after|
            && Substr(s, |front| + 1, |inner| - 1) == if inner == "" then after else inner[1..]
  {
    hide Find;
    var s := front + (inner + ";" + after);
    var tail := inner + ";" + after;
    assert s[|front|..] == tail;
    SpanIs(tail, {';'}, |inner|);
    SemicolonFound(tail);
    assert inner == "" ==> s[|front|+1..] == after;
    assert inner != "" ==> s[|front|+1..|front|+|inner|] == inner[1..];
  }

  // ---------- where a word stands first ----------

  lemma OccursLetters(s: string, w: string, i: nat)
    requires OccursAt(s, w, i)
    ensures i + |w| <= |s| && forall p | i <= p < i + |w| :: s[p] == w[p-i]
  {
    assert w == s[i..][..|w|];
  }

  lemma OccursFits(s: string, w: string, i: nat)
    requires OccursAt(s, w, i)
    ensures i + |w| <= |s|
  {
  }

  /** No occurrence of `w` reaches over the end of `a`. */
  predicate Apart(a: string, b: string, w: string) {
    a == "" || b == "" || a[|a|-1] !in w || b[0] !in w
  }

  lemma OccursInParts(a: string, b: string, w: string, i: nat)
    requires w != "" && Apart(a, b, w) && OccursAt(a + b, w, i)
    ensures if i < |a| then OccursAt(a, w, i) else OccursAt(b, w, i - |a|)
  {
    OccursLetters(a + b, w, i);
    assert forall p | i <= p < i + |w| :: (a + b)[p] in w;
    if i < |a| {
      assert (a + b)[|a|-1] == a[|a|-1] && (b != "" ==> (a + b)[|a|] == b[0]);
      assert a[i..][..|w|] == (a + b)[i..][..|w|];
    } else {
      assert (a + b)[i..] == b[i-|a|..];
    }
  }

  lemma NotInParts(a: string, b: string, w: string)
    requires w != "" && Apart(a, b, w) && !Contains(a, w) && !Contains(b, w)
    ensures !Contains(a + b, w)
  {
    if i: nat :| OccursAt(a + b, w, i) { OccursInParts(a, b, w, i); }
  }

  lemma OccursBehind(a: string, b: string, w: string, i: nat)
    requires i <= |b|
    ensures OccursAt(a + b, w, |a| + i) <==> OccursAt(b, w, i)
  {
    assert (a + b)[|a|+i..] == b[i..];
  }

  lemma OccursInFront(a: string, b: string, w: string, i: nat)
    requires i + |w| <= |a|
    ensures OccursAt(a + b, w, i) <==> OccursAt(a, w, i)
  {
    assert (a + b)[i..][..|w|] == a[i..][..|w|];
  }

  lemma FindBehind(a: string, b: string, w: string)
    requires w != "" && Apart(a, b, w) && !Contains(a, w) && Find(b, w).Some?
    ensures Find(a + b, w) == Some(|a| + Find(b, w).value)
  {
    hide Find, OccursAt, Apart;
    var i := Find(b, w).value;
    OccursFits(b, w, i);
    OccursBehind(a, b, w, i);
    forall j: nat | j < |a| + i ensures !OccursAt(a + b, w, j) {
      if OccursAt(a + b, w, j) { OccursInParts(a, b, w, j); }
    }
    FindIs(a + b, w, |a| + i);
  }

  lemma FindInFront(a: string, b: string, w: string)
    requires Find(a, w).Some?
    ensures Find(a + b, w) == Find(a, w)
  {
    hide Find;
    var i := Find(a, w).value;
    OccursLetters(a, w, i);
    OccursInFront(a, b, w, i);
    forall j: nat | j < i ensures !OccursAt(a + b, w, j) { OccursInFront(a, b, w, j); }
    hide OccursAt;
    FindIs(a + b, w, i);
  }

  /** The first `w` in `s` is followed by a blank, the text `value` and a semicolon. */
  predicate Reads(s: string, w: string, value: string) {
    match Find(s, w)
    case None => false
    case Some(i) => OccursAt(s, Line(value), i + |w|)
  }

  lemma ReadsAt(s: string, w: string, value: string, i: nat)
    requires Find(s, w) == Some(i) && OccursAt(s, Line(value), i + |w|)
    ensures Reads(s, w, value)
  {
  }

  function Line(value: string): string { " " + value + ";" }

  lemma ReadsWhere(s: string, w: string, value: string) returns (i: nat)
    requires Reads(s, w, value)
    ensures Find(s, w) == Some(i) && OccursAt(s, Line(value), i + |w|) && i + |w| + |Line(value)| <= |s|
  {
    i := Find(s, w).value;
    OccursFits(s, Line(value), i + |w|);
  }

  lemma ReadsBehind(a: string, b: string, w: string, value: string)
    requires w != "" && Apart(a, b, w) && !Contains(a, w) && Reads(b, w, value)
    ensures Reads(a + b, w, value)
  {
    hide Find, Contains, OccursAt, Apart, Line, Reads;
    var i := ReadsWhere(b, w, value);
    FindBehind(a, b, w);
    var (j, k) := (|a| + i, i + |w|);
    OccursBehind(a, b, Line(value), k);
    assert |a| + k == j + |w|;
    ReadsAt(a + b, w, value, j);
  }

  lemma ReadsInFront(a: string, b: string, w: string, value: string)
    requires Reads(a, w, value)
    ensures Reads(a + b, w, value)
  {
    hide Find, Contains, OccursAt, Line, Reads;
    var i := ReadsWhere(a, w, value);
    FindInFront(a, b, w);
    OccursInFront(a, b, Line(value), i + |w|);
    ReadsAt(a + b, w, value, i);
  }

  lemma LeafReads(w: string, values: seq<string>)
    requires w != "" && values != []
    ensures Reads(PrintStatement(Leaf([w] + values), 0), w, Join(values, " "))
  {
    var line := " " + Join(values, " ") + ";";
    var s := PrintStatement(Leaf([w] + values), 0);
    LeafText(w, values);
    assert s == w + (line + "\n");
    assert s[0..] == s;
    FindIs(s, w, 0);
    assert s[|w|..] == line + "\n";
  }

  lemma LeafText(w: string, values: seq<string>)
    requires values != []
    ensures PrintStatement(Leaf([w] + values), 0) == w + (" " + Join(values, " ") + ";" + "\n")
  {
    assert ([w] + values)[1..] == values;
    var (line, value) := (Join([w] + values, " "), Join(values, " "));
    assert line == w + " " + value;
    hide Join;
    assert PrintStatement(Leaf([w] + values), 0) == line + ";" + "\n";
    Regroup(line, ";", "\n");
    Regroup4(w, " ", value, ";" + "\n");
    Regroup4(" ", value, ";", "\n");
    Regroup(" " + value, ";", "\n");
  }

  // ---------- what the three readers make of it ----------

  lemma LineAhead(s: string, from: nat, value: string)
    requires from <= |s| && " " + value + ";" <= s[from..] && Free(value, {';'})
    ensures from + |value| + 2 <= |s| && Span(s[from..], {';'}) == |value| + 1
    ensures Substr(s, from + 1, |value|) == value && Substr(s, from + 1, |value| + 1) == value + ";"
  {
    var (line, tail) := (" " + value + ";", s[from..]);
    assert tail[..|line|] == line;
    assert forall i | 0 <= i < |line| :: tail[i] == line[i];
    SpanIs(tail, {';'}, |value| + 1);
    assert s[from+1..from+1+|value|] == line[1..|value|+1] == value;
    assert s[from+1..from+2+|value|] == line[1..] == value + ";";
  }

  lemma AttributeIs(s: string, w: string, value: string)
    requires Reads(s, w, value) && Free(value, {';', '\0'})
    ensures Find(s, w).Some? && AttributeText(s, w) == value
  {
    hide Span, Find, Substr;
    LineAhead(s, Find(s, w).value + |w|, value);
    CStringIsWhole(value);
    hide CString;
  }

  lemma UrlIs(s: string, value: string)
    requires Reads(s, "url", value) && Free(value, {';'})
    ensures PeekDefined(s) && PeekedUrl(s) == value
  {
    hide Span, Find;
    var from := Find(s, "url").value + 3;
    LineAhead(s, from, value);
    SemicolonFound(s[from..]);
  }

  /** The number at the front of the value is the port, whatever stands behind it. */
  lemma PortIs(s: string, n: string, rest: string)
    requires Reads(s, "listen", n + rest) && Free(n + rest, {';'})
    requires n != "" && Digits(n) && (rest == "" || rest[0] == ' ')
    ensures PortOf(s) == Value(n)
  {
    hide Span, Find, Atoi, CString, Substr;
    LineAhead(s, Find(s, "listen").value + 6, n + rest);
    assert PortText(s) == CString(n + rest + ";");
    NumberInFront(n, rest);
  }

  lemma NumberInFront(n: string, rest: string)
    requires n != "" && Digits(n) && (rest == "" || rest[0] == ' ')
    ensures Atoi(CString(n + rest + ";")) == Value(n)
  {
    hide CString, Atoi;
    Regroup(n, rest, ";");
    CStringAfter(n, rest + ";");
    CStringStart(rest + ";");
    AtoiOfDigits(n, CString(rest + ";"));
  }

  lemma CStringStart(s: string)
    ensures CString(s) == "" || CString(s)[0] == s[0]
  {
  }

  lemma NoPort(s: string)
    requires !Contains(s, "listen")
    ensures PortOf(s) == 0
  {
  }

  // ---------- on the top level of a tree ----------

  lemma EndsInLineFeed(c: Config, depth: int)
    ensures Print(c, depth) != "" ==> Print(c, depth)[|Print(c, depth)|-1] == '\n'
  {
    if c != [] { EndsInLineFeed(c[1..], depth); }
  }

  lemma {:induction false} NoneBefore(c: Config, w: string)
    requires w != "" && Free(w, {'\n'})
    requires forall j | 0 <= j < |c| :: !Contains(PrintStatement(c[j], 0), w)
    ensures !Contains(Print(c, 0), w)
  {
    if c != [] {
      NoneBefore(c[1..], w);
      NotInParts(PrintStatement(c[0], 0), Print(c[1..], 0), w);
    }
  }

  lemma {:induction false} JoinFree(pieces: seq<string>, stop: set<char>)
    requires ' ' !in stop && forall i | 0 <= i < |pieces| :: Free(pieces[i], stop)
    ensures Free(Join(pieces, " "), stop)
  {
    if |pieces| > 1 { JoinFree(pieces[1..], stop); }
  }

  lemma PrintAround(c: Config, i: nat)
    requires i < |c|
    ensures Print(c, 0) == Print(c[..i], 0) + (PrintStatement(c[i], 0) + Print(c[i+1..], 0))
  {
    var tail := c[i..];
    assert c == c[..i] + tail;
    PrintAppend(c[..i], tail, 0);
    assert tail[1..] == c[i+1..];
  }

  /** Text search finds the attribute the tree means: the first statement that mentions `attr` is the
      leaf `attr v1 .. vn`, and its values come back joined by blanks. */
  lemma LookupAgrees(c: Config, i: nat, attr: string, values: seq<string>)
    requires i < |c| && c[i] == Leaf([attr] + values) && values != []
    requires attr != "" && Free(attr, {'\n'})
    requires forall k | 0 <= k < |values| :: Free(values[k], {';', '\0'})
    requires forall j | 0 <= j < i :: !Contains(PrintStatement(c[j], 0), attr)
    ensures Find(Print(c, 0), attr).Some? && AttributeText(Print(c, 0), attr) == Join(values, " ")
  {
    hide Join, PrintStatement, Find, AttributeText, Print, Reads, Contains;
    var (before, line, after) := (Print(c[..i], 0), PrintStatement(c[i], 0), Print(c[i+1..], 0));
    PrintAround(c, i);
    NoneBefore(c[..i], attr);
    EndsInLineFeed(c[..i], 0);
    LeafReads(attr, values);
    ReadsInFront(line, after, attr, Join(values, " "));
    ReadsBehind(before, line + after, attr, Join(values, " "));
    JoinFree(values, {';', '\0'});
    AttributeIs(Print(c, 0), attr, Join(values, " "));
  }

  // ---------- anywhere in a tree ----------

  /** A word no part of which the printer could have put there itself. */
  predicate Plain(w: string) { w != "" && Free(w, {' ', '\n', ';', '{', '}'}) }

  ghost predicate AmongWords(words: seq<string>, w: string) {
    exists i :: 0 <= i < |words| && Contains(words[i], w)
  }

  ghost predicate Mentions(c: Config, w: string) {
    exists i :: 0 <= i < |c| && StatementMentions(c[i], w)
  }

  ghost predicate StatementMentions(s: Statement, w: string) {
    AmongWords(s.tokens, w) || (s.Block? && Mentions(s.children, w))
  }

  /** The values of `w`: the first statement that mentions it, blocks read from outside in, is a leaf
      `w v1 .. vn`. */
  ghost function Declared(c: Config, w: string): Option<seq<string>>
    decreases c
  {
    if c == [] then None
    else if !StatementMentions(c[0], w) then Declared(c[1..], w)
    else
      match c[0]
      case Leaf(tokens) => if |tokens| >= 2 && tokens[0] == w then Some(tokens[1..]) else None
      case Block(tokens, children) => if AmongWords(tokens, w) then None else Declared(children, w)
  }

  lemma NotInFirsts(s: string, w: string)
    requires w != "" && w[0] !in s
    ensures !Contains(s, w)
  {
    if i: nat :| OccursAt(s, w, i) { OccursLetters(s, w, i); }
  }

  lemma NotInIndent(depth: int, w: string)
    requires Plain(w)
    ensures !Contains(Indent(depth), w)
  {
    IndentIsBlank(depth);
    assert w[0] != ' ';
    NotInFirsts(Indent(depth), w);
  }

  lemma {:induction false} NotInJoin(words: seq<string>, w: string)
    requires Plain(w) && !AmongWords(words, w)
    ensures !Contains(Join(words, " "), w)
  {
    hide Contains;
    if words == [] {
      NotInFirsts("", w);
    } else if |words| > 1 {
      NotInJoin(words[1..], w);
      NotInFirsts(" ", w);
      NotInParts(words[0], " ", w);
      NotInParts(words[0] + " ", Join(words[1..], " "), w);
    }
  }

  lemma NotInLine(depth: int, words: seq<string>, tail: string, w: string)
    requires Plain(w) && !AmongWords(words, w) && tail != "" && tail[0] !in w && !Contains(tail, w)
    ensures !Contains(Indent(depth) + Join(words, " ") + tail, w)
  {
    hide Contains, Join, AmongWords;
    NotInIndent(depth, w);
    IndentIsBlank(depth);
    NotInJoin(words, w);
    hide Indent;
    NotInParts(Indent(depth), Join(words, " "), w);
    NotInParts(Indent(depth) + Join(words, " "), tail, w);
  }

  lemma {:induction false} NotInPrint(c: Config, depth: int, w: string)
    requires Plain(w) && !Mentions(c, w)
    ensures !Contains(Print(c, depth), w)
    decreases c, 1
  {
    if c == [] {
      NotInFirsts("", w);
    } else {
      hide Contains, PrintStatement, StatementMentions;
      assert !Mentions(c[1..], w);
      NotInStatement(c[0], depth, w);
      NotInPrint(c[1..], depth, w);
      StatementEnds(c[0], depth);
      NotInParts(PrintStatement(c[0], depth), Print(c[1..], depth), w);
    }
  }

  lemma StatementEnds(s: Statement, depth: int)
    ensures var p := PrintStatement(s, depth); p != "" && p[|p|-1] == '\n'
  {
  }

  lemma {:induction false} NotInStatement(s: Statement, depth: int, w: string)
    requires Plain(w) && !StatementMentions(s, w)
    ensures !Contains(PrintStatement(s, depth), w)
    decreases s, 0
  {
    hide Contains, Join, AmongWords, Mentions;
    match s
    case Leaf(tokens) =>
      NotInFirsts(";", w);
      NotInLine(depth, tokens, ";", w);
      NotInFirsts("\n", w);
      NotInParts(Indent(depth) + Join(tokens, " ") + ";", "\n", w);
    case Block(tokens, children) =>
      var inner := Print(children, depth + 1);
      NotInPrint(children, depth + 1, w);
      NotInHead(tokens, depth, w);
      NotInIndent(depth, w);
      NotInFirsts("}\n", w);
      hide Print, Indent;
      BlockLines(s, depth);
      EndsInLineFeed(children, depth + 1);
      NotInParts(Indent(depth), "}\n", w);
      NotInParts(inner, Indent(depth) + "}\n", w);
      NotInParts(Head(tokens, depth), inner + (Indent(depth) + "}\n"), w);
  }

  /** The line that opens a block. */
  function Head(tokens: seq<string>, depth: int): string {
    Indent(depth) + Join(tokens, " ") + " {\n"
  }

  lemma NotInHead(tokens: seq<string>, depth: int, w: string)
    requires Plain(w) && !AmongWords(tokens, w)
    ensures !Contains(Head(tokens, depth), w) && Head(tokens, depth)[|Head(tokens, depth)|-1] == '\n'
  {
    hide AmongWords, Join, Indent;
    assert forall i | 0 <= i < |w| :: w[i] != ' ' && w[i] != '{' && w[i] != '\n';
    NotInFirsts(" {\n", w);
    NotInLine(depth, tokens, " {\n", w);
  }

  lemma BlockLines(s: Statement, depth: int)
    requires s.Block?
    ensures PrintStatement(s, depth) ==
            Head(s.tokens, depth) + (Print(s.children, depth + 1) + (Indent(depth) + "}\n"))
  {
    hide Join, Print, Indent;
    var (a, inner, indent) := (Indent(depth) + Join(s.tokens, " "), Print(s.children, depth + 1), Indent(depth));
    assert PrintStatement(s, depth) == a + (" {\n" + inner + indent + "}") + "\n";
    BlockParts(a, inner, indent);
  }

  lemma BlockParts(a: string, inner: string, indent: string)
    ensures a + (" {\n" + inner + indent + "}") + "\n" == a + " {\n" + (inner + (indent + "}\n"))
  {
    assert indent + "}" + "\n" == indent + "}\n";
    Regroup4(" {\n", inner, indent, "}");
    Regroup(a, " {\n" + inner + indent + "}", "\n");
    Regroup4(" {\n", inner, indent + "}", "\n");
    Regroup(a, " {\n", inner + (indent + "}\n"));
    Regroup(" {\n" + inner, indent, "}");
  }

  /** Wherever in the tree it stands and at whatever depth it is printed: a declared word is found first in
      front of its values. */
  lemma {:induction false} DeclaredReads(c: Config, depth: int, w: string)
    requires Plain(w) && Declared(c, w).Some?
    ensures Reads(Print(c, depth), w, Join(Declared(c, w).value, " "))
    decreases c, 1
  {
    hide Reads, PrintStatement, StatementMentions, Join, AmongWords;
    var value := Join(Declared(c, w).value, " ");
    if StatementMentions(c[0], w) {
      DeclaredIn(c[0], depth, w, Declared(c, w).value, c);
      ReadsInFront(PrintStatement(c[0], depth), Print(c[1..], depth), w, value);
    } else {
      NotInStatement(c[0], depth, w);
      StatementEnds(c[0], depth);
      DeclaredReads(c[1..], depth, w);
      ReadsBehind(PrintStatement(c[0], depth), Print(c[1..], depth), w, value);
    }
  }

  lemma {:induction false} DeclaredIn(s: Statement, depth: int, w: string, values: seq<string>, c: Config)
    requires Plain(w) && c != [] && c[0] == s && StatementMentions(s, w) && Declared(c, w) == Some(values)
    ensures Reads(PrintStatement(s, depth), w, Join(values, " "))
    decreases c, 0
  {
    hide Reads, Print, Join, AmongWords, Indent;
    match s
    case Leaf(tokens) =>
      NotInIndent(depth, w);
      IndentIsBlank(depth);
      assert tokens == [w] + values;
      LeafReads(w, values);
      ReadsBehind(Indent(depth), PrintStatement(s, 0), w, Join(values, " "));
      LeafAtDepth(tokens, depth);
    case Block(tokens, children) =>
      NotInHead(tokens, depth, w);
      DeclaredReads(children, depth + 1, w);
      BlockLines(s, depth);
      var inner := Print(children, depth + 1);
      ReadsInFront(inner, Indent(depth) + "}\n", w, Join(values, " "));
      ReadsBehind(Head(tokens, depth), inner + (Indent(depth) + "}\n"), w, Join(values, " "));
  }

  /** The printed form: four blanks for each level, the words with one blank between them, and a semicolon, or the
      block in braces on lines of its own. */
  lemma Layout(s: Statement, depth: nat)
    ensures var indent := seq(4 * depth, _ => ' ');
            PrintStatement(s, depth) ==
            match s
            case Leaf(tokens) => indent + (Join(tokens, " ") + ";" + "\n")
            case Block(tokens, children) =>
              (indent + Join(tokens, " ") + " {\n") + (Print(children, depth + 1) + (indent + "}\n"))
  {
    IndentWidth(depth);
    hide Indent, Join, Print;
    match s
    case Leaf(tokens) =>
      Regroup4(Indent(depth), Join(tokens, " "), ";", "\n");
      Regroup(Join(tokens, " "), ";", "\n");
    case Block(_, _) => BlockLines(s, depth);
  }

  lemma {:induction false} IndentWidth(depth: nat)
    ensures Indent(depth) == seq(4 * depth, _ => ' ')
  {
    if depth > 0 {
      IndentWidth(depth - 1);
      assert Indent(depth) == "    " + seq(4 * (depth - 1), _ => ' ');
    }
  }

  lemma LeafAtDepth(tokens: seq<string>, depth: int)
    ensures PrintStatement(Leaf(tokens), depth) == Indent(depth) + PrintStatement(Leaf(tokens), 0)
  {
    var line := Join(tokens, " ");
    assert Indent(0) == "";
    assert "" + line + ";" + "\n" == line + ";" + "\n";
    hide Indent;
    Regroup4(Indent(depth), line, ";", "\n");
    Regroup(line, ";", "\n");
  }

  predicate FreeWords(words: seq<string>, stop: set<char>) {
    forall k | 0 <= k < |words| :: Free(words[k], stop)
  }

  /** An attribute declared anywhere in the tree is the one text search returns. */
  lemma NestedLookupAgrees(c: Config, attr: string)
    requires Plain(attr) && Declared(c, attr).Some? && FreeWords(Declared(c, attr).value, {';', '\0'})
    ensures Find(Print(c, 0), attr).Some? && AttributeText(Print(c, 0), attr) == Join(Declared(c, attr).value, " ")
  {
    hide Join, Print, AttributeText, Find, Declared, Reads;
    DeclaredReads(c, 0, attr);
    JoinFree(Declared(c, attr).value, {';', '\0'});
    AttributeIs(Print(c, 0), attr, Join(Declared(c, attr).value, " "));
  }

  /** The port is the number declared first behind `listen`, and 0 when no word of the tree holds "listen". */
  lemma PortIsDeclared(c: Config, n: string, more: seq<string>)
    requires n != "" && Digits(n) && FreeWords(more, {';'})
    ensures Declared(c, "listen") == Some([n] + more) ==> PortOf(Print(c, 0)) == Value(n)
    ensures !Mentions(c, "listen") ==> PortOf(Print(c, 0)) == 0
  {
    hide Print, PortOf, Mentions, Reads, Declared;
    assert Plain("listen");
    if Declared(c, "listen") == Some([n] + more) {
      DeclaredReads(c, 0, "listen");
      var rest := if more == [] then "" else " " + Join(more, " ");
      FirstOfJoin(n, more);
      JoinFree(more, {';'});
      PortIs(Print(c, 0), n, rest);
    }
    if !Mentions(c, "listen") {
      NotInPrint(c, 0, "listen");
      NoPort(Print(c, 0));
    }
  }

  lemma FirstOfJoin(first: string, more: seq<string>)
    ensures Join([first] + more, " ") == first + (if more == [] then "" else " " + Join(more, " "))
  {
    assert ([first] + more)[1..] == more;
  }

  /** The url a block declares. */
  ghost function DeclaredUrl(block: Config): Option<string> {
    match Declared(block, "url")
    case None => None
    case Some(values) => if FreeWords(values, {';'}) then Some(Join(values, " ")) else None
  }

  lemma UrlIsDeclared(block: Config)
    requires DeclaredUrl(block).Some?
    ensures PeekDefined(Print(block, 0)) && PeekedUrl(Print(block, 0)) == DeclaredUrl(block).value
  {
    hide Join, Print, PeekDefined, PeekedUrl, Reads, Declared;
    assert Plain("url");
    var values := Declared(block, "url").value;
    DeclaredReads(block, 0, "url");
    JoinFree(values, {';'});
    UrlIs(Print(block, 0), Join(values, " "));
  }
}
