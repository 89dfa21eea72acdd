/** The parts of std::string and boost::algorithm::string the server relies on: substring search,
    replace-all, and splitting with compressed delimiters. */
module Text {
  datatype Option<+T> = None | Some(value: T)

  /** `w` stands in `s` at position `i`. */
  predicate OccursAt(s: string, w: string, i: nat) {
    i <= |s| && w <= s[i..]
  }

  ghost predicate Contains(s: string, w: string) {
    exists i: nat :: OccursAt(s, w, i)
  }

  /** std::string::find: the first position of `w`, None standing for npos. */
  function Find(s: string, w: string): (r: Option<nat>)
    ensures r.Some? ==> OccursAt(s, w, r.value) && forall j: nat | j < r.value :: !OccursAt(s, w, j)
    ensures r.None? <==> !Contains(s, w)
  {
    if w <= s then
      assert OccursAt(s, w, 0);
      Some(0)
    else if s == "" then None
    else
      OccursShift(s, w);
      match Find(s[1..], w)
      case None => None
      case Some(i) => Some(i + 1)
  }

  lemma OccursShift(s: string, w: string)
    requires s != ""
    ensures OccursAt(s, w, 0) <==> w <= s
    ensures forall j: nat | 0 < j :: OccursAt(s, w, j) <==> OccursAt(s[1..], w, j - 1)
    ensures forall j: nat :: OccursAt(s[1..], w, j) ==> OccursAt(s, w, j + 1)
  {
    assert s[0..] == s;
    forall j: nat | 0 < j ensures OccursAt(s, w, j) <==> OccursAt(s[1..], w, j - 1) {
      if j <= |s| { assert s[j..] == s[1..][j-1..]; }
    }
  }

  lemma FindIs(s: string, w: string, i: nat)
    requires OccursAt(s, w, i)
    requires forall j: nat | j < i :: !OccursAt(s, w, j)
    ensures Find(s, w) == Some(i)
  {
  }

  lemma ContainsPrefix(s: string, w: string)
    requires w <= s
    ensures Contains(s, w)
  {
    assert OccursAt(s, w, 0);
  }

  lemma ContainsTail(s: string, w: string)
    requires s != "" && Contains(s[1..], w)
    ensures Contains(s, w)
  {
    var i: nat :| OccursAt(s[1..], w, i);
    assert s[1..][i..] == s[i+1..];
    assert OccursAt(s, w, i + 1);
  }

  lemma ContainsCases(s: string, w: string)
    requires w != ""
    ensures Contains(s, w) <==> s != "" && (w <= s || Contains(s[1..], w))
  {
    if Contains(s, w) {
      var i: nat :| OccursAt(s, w, i);
      if i > 0 {
        assert s[i..] == s[1..][i-1..];
        assert OccursAt(s[1..], w, i - 1);
      }
    }
    if s != "" && w <= s { ContainsPrefix(s, w); }
    if s != "" && Contains(s[1..], w) { ContainsTail(s, w); }
  }

  /** boost::replace_all: every occurrence met from left to right, never looking again at what was
      put in. */
  function ReplaceAll(s: string, w: string, subst: string): string
    requires w != ""
  {
    if s == "" then ""
    else if w <= s then subst + ReplaceAll(s[|w|..], w, subst)
    else [s[0]] + ReplaceAll(s[1..], w, subst)
  }

  /** Replacing by something shorter keeps the length exactly when there was nothing to replace. */
  lemma {:induction false} ReplaceAllShrinks(s: string, w: string, subst: string)
    requires |subst| < |w|
    ensures |ReplaceAll(s, w, subst)| <= |s|
    ensures |ReplaceAll(s, w, subst)| == |s| ==> ReplaceAll(s, w, subst) == s
    ensures |ReplaceAll(s, w, subst)| == |s| <==> !Contains(s, w)
  {
    ContainsCases(s, w);
    if s == "" {
    } else if w <= s {
      ReplaceAllShrinks(s[|w|..], w, subst);
    } else {
      ReplaceAllShrinks(s[1..], w, subst);
    }
  }

  lemma {:induction false} ReplaceAllGrows(s: string, w: string, subst: string)
    requires w != "" && |subst| > |w|
    ensures |ReplaceAll(s, w, subst)| >= |s|
    ensures |ReplaceAll(s, w, subst)| == |s| <==> !Contains(s, w)
  {
    ContainsCases(s, w);
    if s == "" {
    } else if w <= s {
      ReplaceAllGrows(s[|w|..], w, subst);
    } else {
      ReplaceAllGrows(s[1..], w, subst);
    }
  }

  lemma {:induction false} ReplaceAllSameLength(s: string, w: string, subst: string)
    requires w != "" && |subst| == |w|
    ensures ReplaceAll(s, w, subst) == s <==> !Contains(s, w) || subst == w
    decreases |s|
  {
    ContainsCases(s, w);
    hide ReplaceAll, Contains;
    if s == "" {
      ReplaceInNothing(w, subst);
    } else if w <= s {
      var rest := s[|w|..];
      assert s == w + rest;
      ReplaceAllSameLength(rest, w, subst);
      ReplaceHead(w, rest, subst);
      SameFront(subst, ReplaceAll(rest, w, subst), w, rest);
    } else {
      var (front, rest) := ([s[0]], s[1..]);
      assert s == front + rest;
      ReplaceAllSameLength(rest, w, subst);
      ReplaceNotHere(s[0], rest, w, subst);
      SameFront(front, ReplaceAll(rest, w, subst), front, rest);
    }
  }

  lemma SameFront<T>(a: seq<T>, b: seq<T>, c: seq<T>, d: seq<T>)
    requires |a| == |c|
    ensures a + b == c + d <==> a == c && b == d
  {
    assert (a + b)[..|a|] == a && (a + b)[|a|..] == b;
    assert (c + d)[..|c|] == c && (c + d)[|c|..] == d;
  }

  /** Replacing changes a text exactly when it holds the word and the word is not replaced by itself. */
  lemma ReplaceAllFixes(s: string, w: string, subst: string)
    requires w != ""
    ensures ReplaceAll(s, w, subst) == s <==> !Contains(s, w) || subst == w
  {
    hide ReplaceAll, Contains;
    if !Contains(s, w) {
      ReplaceAbsent(s, w, subst);
    } else if |subst| < |w| {
      ReplaceAllShrinks(s, w, subst);
    } else if |subst| > |w| {
      ReplaceAllGrows(s, w, subst);
    } else {
      ReplaceAllSameLength(s, w, subst);
    }
  }

  /** Replacing skips what cannot start an occurrence. */
  lemma {:induction false} ReplaceSkips(a: string, s: string, w: string, r: string)
    requires w != "" && forall i | 0 <= i < |a| :: !(w <= (a + s)[i..])
    ensures ReplaceAll(a + s, w, r) == a + ReplaceAll(s, w, r)
  {
    if a == "" {
      assert a + s == s;
    } else {
      assert (a + s)[0..] == a + s;
      assert (a + s)[1..] == a[1..] + s;
      forall i | 0 <= i < |a[1..]| ensures !(w <= (a[1..] + s)[i..]) {
        assert (a + s)[i+1..] == (a[1..] + s)[i..];
      }
      ReplaceSkips(a[1..], s, w, r);
    }
  }

  lemma {:induction false} ReplaceAbsent(s: string, w: string, subst: string)
    requires w != "" && !Contains(s, w)
    ensures ReplaceAll(s, w, subst) == s
  {
    ContainsCases(s, w);
    if s != "" {
      ReplaceAbsent(s[1..], w, subst);
      assert s == [s[0]] + s[1..];
    }
  }

  /** Replace-all is the loop over find: what stands before the first occurrence stays, and the search goes
      on behind it. */
  lemma ReplaceAt(s: string, w: string, subst: string, i: nat)
    requires w != "" && OccursAt(s, w, i) && forall j: nat | j < i :: !OccursAt(s, w, j)
    ensures i + |w| <= |s| && ReplaceAll(s, w, subst) == s[..i] + (subst + ReplaceAll(s[i+|w|..], w, subst))
  {
    hide ReplaceAll;
    var (a, rest) := (s[..i], s[i..]);
    assert a + rest == s;
    forall j | 0 <= j < |a| ensures !(w <= (a + rest)[j..]) { assert !OccursAt(s, w, j); }
    ReplaceSkips(a, rest, w, subst);
    assert rest == w + rest[|w|..] && rest[|w|..] == s[i+|w|..];
    ReplaceHead(w, rest[|w|..], subst);
  }

  lemma ReplaceHead(w: string, s: string, r: string)
    requires w != ""
    ensures ReplaceAll(w + s, w, r) == r + ReplaceAll(s, w, r)
  {
    assert (w + s)[|w|..] == s;
    assert w <= w + s;
  }

  lemma ReplaceNotHere(c: char, s: string, w: string, r: string)
    requires w != "" && !(w <= [c] + s)
    ensures ReplaceAll([c] + s, w, r) == [c] + ReplaceAll(s, w, r)
  {
    assert ([c] + s)[1..] == s;
  }

  lemma ReplaceInNothing(w: string, r: string)
    requires w != ""
    ensures ReplaceAll("", w, r) == ""
  {
  }

  lemma PrefixHead(w: string, d: char, s: string)
    requires w != ""
    ensures w <= [d] + s <==> w[0] == d && w[1..] <= s
  {
    assert w == [w[0]] + w[1..];
    assert ([d] + s)[1..] == s;
  }

  /** Longest prefix of `s` free of the delimiters, as a length. */
  function Span(s: string, stop: set<char>): (k: nat)
    ensures k <= |s|
    ensures forall i | 0 <= i < k :: s[i] !in stop
    ensures k < |s| ==> s[k] in stop
  {
    if s == "" || s[0] in stop then 0 else 1 + Span(s[1..], stop)
  }

  lemma SpanIs(s: string, stop: set<char>, k: nat)
    requires k <= |s|
    requires forall i | 0 <= i < k :: s[i] !in stop
    requires k < |s| ==> s[k] in stop
    ensures Span(s, stop) == k
  {
  }

  /** Removes the leading characters that are in `blank`. */
  function Skip(s: string, blank: set<char>): (r: string)
    ensures |r| <= |s| && r == s[|s| - |r|..]
    ensures forall i | 0 <= i < |s| - |r| :: s[i] in blank
    ensures r != "" ==> r[0] !in blank
  {
    if s == "" || s[0] !in blank then s else Skip(s[1..], blank)
  }

  predicate Free(s: string, chars: set<char>) {
    forall i | 0 <= i < |s| :: s[i] !in chars
  }

  /** A std::string read back through c_str(): cut at the first NUL. */
  function CString(s: string): string {
    s[..Span(s, {'\0'})]
  }

  lemma {:induction false} CStringIsWhole(s: string)
    ensures CString(s) == s <==> Free(s, {'\0'})
  {
    if Free(s, {'\0'}) { SpanIs(s, {'\0'}, |s|); }
  }

  lemma CStringAfter(a: string, b: string)
    requires Free(a, {'\0'})
    ensures CString(a + b) == a + CString(b)
  {
    var k := Span(b, {'\0'});
    assert (a + b)[|a| + k..] == b[k..];
    SpanIs(a + b, {'\0'}, |a| + k);
  }

  /** boost::split(..., is_any_of(d), token_compress_on): a run of delimiters separates once; a run
      at either end leaves an empty piece there. */
  function Split(s: string, d: set<char>): (r: seq<string>)
    ensures |r| >= 1
    decreases |s|
  {
    var k := Span(s, d);
    if k == |s| then [s] else [s[..k]] + Split(Skip(s[k+1..], d), d)
  }

  /** No piece holds a delimiter, and only the first and the last can be empty. */
  lemma {:induction false} SplitPieces(s: string, d: set<char>)
    ensures forall i | 0 <= i < |Split(s, d)| :: Free(Split(s, d)[i], d)
    ensures forall i | 0 < i < |Split(s, d)| - 1 :: Split(s, d)[i] != ""
    ensures |Split(s, d)| > 1 && s != "" && s[0] !in d ==> Split(s, d)[0] != ""
    decreases |s|
  {
    hide Skip, Span;
    var k := Span(s, d);
    if k == |s| {
      assert Split(s, d) == [s];
    } else {
      var rest := Skip(s[k+1..], d);
      SplitPieces(rest, d);
      if rest == "" { assert Split(rest, d) == [rest]; }
      assert Free(s[..k], d);
      var (r, tail) := (Split(s, d), Split(rest, d));
      assert r == [s[..k]] + tail;
      forall i | 0 < i < |r| - 1 ensures r[i] != "" {
        assert r[i] == tail[i-1];
      }
    }
  }

  /** A piece, a run of delimiters, and a remainder not starting with one: one split step. */
  lemma SplitStep(piece: string, run: string, rest: string, d: set<char>)
    requires Free(piece, d)
    requires run != "" && forall i | 0 <= i < |run| :: run[i] in d
    requires rest != "" ==> rest[0] !in d
    ensures Split(piece + run + rest, d) == [piece] + Split(rest, d)
  {
    hide Span, Skip, Split;
    var s := piece + run + rest;
    PieceEnds(piece, run, rest);
    FirstPiece(s, d, |piece|);
    SkipRun(run[1..], rest, d);
  }

  lemma PieceEnds(piece: string, run: string, rest: string)
    requires run != ""
    ensures var s := piece + run + rest;
            s[..|piece|] == piece && s[|piece|] == run[0] && s[|piece|+1..] == run[1..] + rest
  {
  }

  lemma SplitUnfolds(s: string, d: set<char>)
    ensures var k := Span(s, d);
            Split(s, d) == if k == |s| then [s] else [s[..k]] + Split(Skip(s[k+1..], d), d)
  {
    hide Span, Skip;
  }

  lemma FirstPiece(s: string, d: set<char>, k: nat)
    requires k < |s| && Free(s[..k], d) && s[k] in d
    ensures Split(s, d) == [s[..k]] + Split(Skip(s[k+1..], d), d)
  {
    hide Split, Skip;
    assert forall i | 0 <= i < k :: s[i] == s[..k][i];
    SpanIs(s, d, k);
    SplitUnfolds(s, d);
  }

  lemma {:induction false} SkipRun(run: string, rest: string, d: set<char>)
    requires forall i | 0 <= i < |run| :: run[i] in d
    requires rest != "" ==> rest[0] !in d
    ensures Skip(run + rest, d) == rest
  {
    if run == "" {
      assert run + rest == rest;
    } else {
      assert (run + rest)[1..] == run[1..] + rest;
      SkipRun(run[1..], rest, d);
    }
  }

  lemma SplitWhole(s: string, d: set<char>)
    requires Free(s, d)
    ensures Split(s, d) == [s]
  {
    SpanIs(s, d, |s|);
  }

  /** Concatenation is associative. */
  lemma Regroup<T>(a: seq<T>, b: seq<T>, c: seq<T>)
    ensures a + b + c == a + (b + c)
    ensures a + [] == a
  {
  }

  lemma Regroup4<T>(a: seq<T>, b: seq<T>, c: seq<T>, d: seq<T>)
    ensures a + b + c + d == a + (b + (c + d))
  {
    Regroup(a + b, c, d);
    Regroup(a, b, c + d);
  }

  /** Pieces put together with a separator between neighbours. */
  function Join(pieces: seq<string>, sep: string): string {
    if pieces == [] then ""
    else if |pieces| == 1 then pieces[0]
    else pieces[0] + sep + Join(pieces[1..], sep)
  }
}
