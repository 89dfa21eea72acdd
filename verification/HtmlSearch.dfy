/** Searching encoded fields for an encoded term: the encoder is an injective prefix code, and exactly
    which terms a search finds only where the raw field holds them. */
module HtmlSearch {
  import opened Text
  import opened UrlCodec

  lemma {:induction false} EncodeAppend(a: string, b: string)
    ensures HtmlEncoded(a + b) == HtmlEncoded(a) + HtmlEncoded(b)
  {
    hide Encode;
    if a == "" {
      assert a + b == b;
      NothingEncoded();
    } else {
      EncodeAppend(a[1..], b);
      assert a + b == [a[0]] + (a[1..] + b) && a == [a[0]] + a[1..];
      EncodeHead(a[0], a[1..] + b, ALL);
      EncodeHead(a[0], a[1..], ALL);
      Regroup(Code(a[0], ALL), HtmlEncoded(a[1..]), HtmlEncoded(b));
    }
  }

  /** The code words of different characters differ before either ends. */
  lemma CodesDiffer(c: char, d: char, t: string, s: string)
    requires c != d
    ensures !(Code(c, ALL) + t <= Code(d, ALL) + s)
  {
    var (x, y) := (Code(c, ALL) + t, Code(d, ALL) + s);
    if IsSpecial(c) && IsSpecial(d) {
      var (v, w) := (Entity(c), Entity(d));
      assert v[1] != w[1] || v[2] != w[2];
      assert x[1] == v[1] && x[2] == v[2] && y[1] == w[1] && y[2] == w[2];
    } else {
      assert x[0] != y[0];
    }
  }

  lemma CancelPrefix(w: string, a: string, b: string)
    ensures w + a <= w + b <==> a <= b
  {
    assert (w + a)[|w|..] == a && (w + b)[|w|..] == b;
  }

  /** The encoder is a prefix code: prefixes of encoded texts are encoded prefixes. */
  lemma {:induction false} PrefixCode(t: string, s: string)
    ensures HtmlEncoded(t) <= HtmlEncoded(s) <==> t <= s
  {
    if t != "" && s != "" {
      hide Code;
      if t[0] == s[0] {
        CancelPrefix(Code(t[0], ALL), HtmlEncoded(t[1..]), HtmlEncoded(s[1..]));
        PrefixCode(t[1..], s[1..]);
        assert t <= s <==> t[1..] <= s[1..] by {
          assert t == [t[0]] + t[1..] && s == [t[0]] + s[1..];
          CancelPrefix([t[0]], t[1..], s[1..]);
        }
      } else {
        CodesDiffer(t[0], s[0], HtmlEncoded(t[1..]), HtmlEncoded(s[1..]));
      }
    }
  }

  lemma EncodeInjective(a: string, b: string)
    requires HtmlEncoded(a) == HtmlEncoded(b)
    ensures a == b
  {
    PrefixCode(a, b);
    PrefixCode(b, a);
  }

  /** A field that holds the term is always found. */
  lemma SearchFinds(field: string, term: string)
    requires Contains(field, term)
    ensures Contains(HtmlEncoded(field), HtmlEncoded(term))
  {
    hide Encode;
    var i: nat :| OccursAt(field, term, i);
    var (a, b) := (field[..i], field[i+|term|..]);
    assert field == a + (term + b);
    EncodeAppend(a, term + b);
    EncodeAppend(term, b);
    var e := HtmlEncoded(a);
    assert HtmlEncoded(field)[|e|..] == HtmlEncoded(term) + HtmlEncoded(b);
    assert OccursAt(HtmlEncoded(field), HtmlEncoded(term), |e|);
  }

  /** The tail of an entity agrees with the start of the term as far as the shorter of them goes. */
  predicate Overlaps(c: char, k: nat, term: string)
    requires IsSpecial(c) && 0 < k < |Entity(c)|
  {
    term <= Entity(c)[k..] || Entity(c)[k..] <= term
  }

  /** No entity can run into the term from the left. */
  ghost predicate Aligned(term: string) {
    term == "" ||
    forall c, k: nat | IsSpecial(c) && 0 < k < |Entity(c)| :: !Overlaps(c, k, term)
  }

  lemma {:induction false} AlignedOccurrence(field: string, term: string, p: nat)
    requires term != "" && Aligned(term) && OccursAt(HtmlEncoded(field), HtmlEncoded(term), p)
    ensures Contains(field, term)
  {
    hide Encode;
    EncodedNotEmpty(term);
    NothingEncoded();
    if field != "" {
      var (code, later) := (Code(field[0], ALL), HtmlEncoded(field[1..]));
      assert field == [field[0]] + field[1..];
      EncodeHead(field[0], field[1..], ALL);
      if p == 0 {
        assert HtmlEncoded(field)[0..] == HtmlEncoded(field);
        PrefixCode(term, field);
        ContainsPrefix(field, term);
      } else if p >= |code| {
        assert (code + later)[p..] == later[p-|code|..];
        AlignedOccurrence(field[1..], term, p - |code|);
        ContainsTail(field, term);
      } else {
        assert (code + later)[p..] == code[p..] + later;
        InsideEntity(field[0], p, term, later);
      }
    }
  }

  lemma {:induction false} EncodedNotEmpty(s: string)
    ensures |HtmlEncoded(s)| >= |s|
  {
    if s != "" { EncodedNotEmpty(s[1..]); }
  }

  lemma InsideEntity(c: char, k: nat, term: string, later: string)
    requires 0 < k < |Code(c, ALL)| && HtmlEncoded(term) <= Code(c, ALL)[k..] + later
    ensures IsSpecial(c) && Overlaps(c, k, term)
  {
    hide Encode;
    var (tail, e) := (Entity(c)[k..], HtmlEncoded(term));
    if |tail| <= |e| {
      assert tail == (tail + later)[..|tail|] == e[..|tail|];
      PlainPrefix(tail, term, ALL);
    } else {
      assert e == (tail + later)[..|e|] == tail[..|e|];
      PlainEncoded(term);
    }
  }

  /** An encoded text without special characters is the text itself. */
  lemma {:induction false} PlainEncoded(s: string)
    requires forall i | 0 <= i < |HtmlEncoded(s)| :: !IsSpecial(HtmlEncoded(s)[i])
    ensures HtmlEncoded(s) == s
  {
    if s != "" {
      var (e, code) := (HtmlEncoded(s), Code(s[0], ALL));
      assert e[0] == code[0] && code == [s[0]];
      assert e[1..] == HtmlEncoded(s[1..]);
      forall i | 0 <= i < |e[1..]| ensures !IsSpecial(HtmlEncoded(s[1..])[i]) {
        assert e[1..][i] == e[i+1];
      }
      PlainEncoded(s[1..]);
    }
  }

  /** A search finds a term in some encoded field whose raw text does not hold it, exactly when an
      entity can run into the term: such terms, and no others, give false hits. */
  lemma SearchIsExact(term: string)
    ensures (forall field :: Contains(HtmlEncoded(field), HtmlEncoded(term)) ==> Contains(field, term)) <==> Aligned(term)
  {
    if Aligned(term) {
      forall field | Contains(HtmlEncoded(field), HtmlEncoded(term)) ensures Contains(field, term) {
        if term == "" {
          ContainsPrefix(field, term);
        } else {
          var p: nat :| OccursAt(HtmlEncoded(field), HtmlEncoded(term), p);
          AlignedOccurrence(field, term, p);
        }
      }
    } else {
      var c, k: nat :| IsSpecial(c) && 0 < k < |Entity(c)| && Overlaps(c, k, term);
      var field := FalseHit(c, k, term);
    }
  }

  lemma FalseHit(c: char, k: nat, term: string) returns (field: string)
    requires term != "" && IsSpecial(c) && 0 < k < |Entity(c)| && Overlaps(c, k, term)
    ensures Contains(HtmlEncoded(field), HtmlEncoded(term)) && !Contains(field, term)
  {
    hide Encode;
    var tail := Entity(c)[k..];
    var rest := if tail <= term then term[|tail|..] else "";
    field := [c] + rest;
    EncodeHead(c, rest, ALL);
    assert HtmlEncoded(field)[k..] == tail + HtmlEncoded(rest);
    if tail <= term {
      assert term == tail + rest;
      EncodePlain(tail, rest, ALL);
    } else {
      assert term == tail[..|term|] == term + "";
      EncodePlain(term, "", ALL);
      NothingEncoded();
    }
    assert OccursAt(HtmlEncoded(field), HtmlEncoded(term), k);
    assert term[0] == tail[0] != field[0];
    NotInShorter(field, term);
  }

  lemma NotInShorter(s: string, w: string)
    requires |s| <= |w| && s != w
    ensures !Contains(s, w)
  {
    assert s[0..] == s;
  }

  /** The two common kinds of terms that give no false hits. */
  lemma SafeTerms(term: string)
    requires term != ""
    requires IsSpecial(term[0]) ||
             forall c, k: nat | IsSpecial(c) && k < |Entity(c)| :: Entity(c)[k] != term[0]
    ensures Aligned(term)
  {
    forall c, k: nat | IsSpecial(c) && 0 < k < |Entity(c)| ensures !Overlaps(c, k, term) {
      assert Entity(c)[k..][0] == Entity(c)[k];
    }
  }
}
