/** The codecs of the URL parser: percent-decoding, and the HTML encoder and decoder. */
module UrlCodec {
  import opened Text

  // ---------- percent-decoding ----------

  predicate IsHex(c: char) {
    '0' <= c <= '9' || 'a' <= c <= 'f' || 'A' <= c <= 'F'
  }

  function HexValue(c: char): (v: nat)
    requires IsHex(c)
    ensures v < 16
  {
    if '0' <= c <= '9' then c as int - '0' as int
    else if 'a' <= c <= 'f' then c as int - 'a' as int + 10
    else c as int - 'A' as int + 10
  }

  /** Every percent sign is followed by two hex digits; on other texts the decoder's result is undefined. */
  predicate WellEscaped(e: string) {
    e == "" ||
    (if e[0] == '%' then |e| >= 3 && IsHex(e[1]) && IsHex(e[2]) && WellEscaped(e[3..]) else WellEscaped(e[1..]))
  }

  function UrlDecoded(e: string): string
    requires WellEscaped(e)
  {
    if e == "" then ""
    else if e[0] == '%' then [(16 * HexValue(e[1]) + HexValue(e[2])) as char] + UrlDecoded(e[3..])
    else [e[0]] + UrlDecoded(e[1..])
  }

  /** `c` is the hex digit of value `v`, in either case. */
  predicate DigitOf(c: char, v: nat)
    requires v < 16
  {
    c == "0123456789ABCDEF"[v] || c == "0123456789abcdef"[v]
  }

  /** The two digits after a percent sign that stand for `c`. */
  predicate EscapeOf(high: char, low: char, c: char) {
    c as int < 256 && DigitOf(high, c as int / 16) && DigitOf(low, c as int % 16)
  }

  /** The value of a digit is its place in the table of digits. */
  lemma HexTable(c: char, v: nat)
    requires v < 16
    ensures IsHex(c) && HexValue(c) == v <==> DigitOf(c, v)
  {
    if IsHex(c) && HexValue(c) == v {
      assert v < 10 ==> c as int == '0' as int + v;
    }
  }

  lemma EscapeValue(high: char, low: char, c: char)
    ensures EscapeOf(high, low, c) <==> IsHex(high) && IsHex(low) && 16 * HexValue(high) + HexValue(low) == c as int
  {
    hide DigitOf, IsHex, HexValue;
    if c as int < 256 {
      HexTable(high, c as int / 16);
      HexTable(low, c as int % 16);
    }
  }

  /** `e` is a percent-encoding of `s`: each character stands for itself or, in either hex case, as an
      escape. A percent sign never stands for itself. */
  predicate Encodes(e: string, s: string)
    decreases |s|
  {
    if s == "" then e == ""
    else
      (e != "" && e[0] == s[0] && s[0] != '%' && Encodes(e[1..], s[1..])) ||
      (|e| >= 3 && e[0] == '%' && EscapeOf(e[1], e[2], s[0]) && Encodes(e[3..], s[1..]))
  }

  function Escapes(e: string): nat
    requires WellEscaped(e)
  {
    if e == "" then 0 else if e[0] == '%' then 1 + Escapes(e[3..]) else Escapes(e[1..])
  }

  /** Decoding inverts encoding, whichever characters were escaped, and inverts nothing else. */
  lemma {:induction false} DecodeInvertsEncode(e: string, s: string)
    ensures Encodes(e, s) <==> WellEscaped(e) && UrlDecoded(e) == s
    ensures Encodes(e, s) ==> |s| == |e| - 2 * Escapes(e)
    decreases |e|
  {
    hide EscapeOf, IsHex, HexValue;
    if e != "" {
      if s != "" {
        if e[0] == '%' {
          if |e| >= 3 {
            EscapeValue(e[1], e[2], s[0]);
            DecodeInvertsEncode(e[3..], s[1..]);
          }
        } else {
          DecodeInvertsEncode(e[1..], s[1..]);
        }
      }
    }
  }

  /** An escaper: every character `keep` does not spare, and every percent sign, as a percent sign and its two
      digits from the table. */
  function Escaped(s: string, keep: char -> bool, digits: string): string
    requires |digits| == 16 && forall i | 0 <= i < |s| :: s[i] as int < 256
  {
    if s == "" then ""
    else
      (if keep(s[0]) && s[0] != '%' then [s[0]] else "%" + [digits[s[0] as int / 16], digits[s[0] as int % 16]]) +
      Escaped(s[1..], keep, digits)
  }

  /** What any such escaper writes is decoded back. */
  lemma EscapeRoundTrip(s: string, keep: char -> bool, digits: string)
    requires digits == "0123456789ABCDEF" || digits == "0123456789abcdef"
    requires forall i | 0 <= i < |s| :: s[i] as int < 256
    ensures var e := Escaped(s, keep, digits); WellEscaped(e) && UrlDecoded(e) == s
  {
    EscapedEncodes(s, keep, digits);
    DecodeInvertsEncode(Escaped(s, keep, digits), s);
  }

  lemma {:induction false} EscapedEncodes(s: string, keep: char -> bool, digits: string)
    requires digits == "0123456789ABCDEF" || digits == "0123456789abcdef"
    requires forall i | 0 <= i < |s| :: s[i] as int < 256
    ensures Encodes(Escaped(s, keep, digits), s)
  {
    if s != "" {
      var later := Escaped(s[1..], keep, digits);
      EscapedEncodes(s[1..], keep, digits);
      if keep(s[0]) && s[0] != '%' {
        assert ([s[0]] + later)[1..] == later;
      } else {
        var (h, l) := (digits[s[0] as int / 16], digits[s[0] as int % 16]);
        assert ("%" + [h, l] + later)[3..] == later;
      }
    }
  }

  method UrlDecode(eString: string) returns (ret: string)
    requires WellEscaped(eString)
    ensures ret == UrlDecoded(eString)
  {
    hide WellEscaped, UrlDecoded, HexValue, IsHex;
    NothingDecoded();
    ret := "";
    var i := 0;
    assert eString[0..] == eString;
    while i < |eString|
      invariant i <= |eString| && WellEscaped(eString[i..])
      invariant ret + UrlDecoded(eString[i..]) == UrlDecoded(eString)
    {
      DecodeStep(eString, i, ret);
      if eString[i] == '%' {
        var j := 16 * HexValue(eString[i+1]) + HexValue(eString[i+2]);
        ret := ret + [j as char];
        i := i + 2;
      } else {
        ret := ret + [eString[i]];
      }
      i := i + 1;
    }
    assert eString[i..] == "" && ret + "" == ret;
  }

  lemma NothingDecoded()
    ensures WellEscaped("") && UrlDecoded("") == ""
  {
  }

  /** What one turn of the loop does: it reads an escape or a character. */
  lemma DecodeStep(e: string, i: nat, ret: string)
    requires i < |e| && WellEscaped(e[i..])
    ensures if e[i] == '%' then
              && i + 3 <= |e| && IsHex(e[i+1]) && IsHex(e[i+2]) && WellEscaped(e[i+3..])
              && ret + UrlDecoded(e[i..]) ==
                 ret + [(16 * HexValue(e[i+1]) + HexValue(e[i+2])) as char] + UrlDecoded(e[i+3..])
            else
              WellEscaped(e[i+1..]) && ret + UrlDecoded(e[i..]) == ret + [e[i]] + UrlDecoded(e[i+1..])
  {
    hide HexValue, IsHex;
    var rest := e[i..];
    if e[i] == '%' {
      assert rest[3..] == e[i+3..] && rest[1] == e[i+1] && rest[2] == e[i+2];
      Regroup(ret, [(16 * HexValue(e[i+1]) + HexValue(e[i+2])) as char], UrlDecoded(e[i+3..]));
    } else {
      assert rest[1..] == e[i+1..];
      Regroup(ret, [e[i]], UrlDecoded(e[i+1..]));
    }
  }

  // ---------- the HTML encoder ----------

  predicate IsSpecial(c: char) {
    c == '&' || c == '\"' || c == '\'' || c == '<' || c == '>' || c == ' '
  }

  function Entity(c: char): (e: string)
    requires IsSpecial(c)
    ensures |e| >= 4 && e[0] == '&' && e[|e|-1] == ';'
    ensures forall i | 1 <= i < |e| :: !IsSpecial(e[i])
  {
    match c
    case '&' => "&amp;"
    case '\"' => "&quot;"
    case '\'' => "&apos;"
    case '<' => "&lt;"
    case '>' => "&gt;"
    case _ => "&nbsp;"
  }

  /** The code word of a character while only the characters of `todo` are written as entities. */
  function Code(c: char, todo: set<char>): (w: string)
    ensures w != ""
  {
    if c in todo && IsSpecial(c) then Entity(c) else [c]
  }

  function Encode(s: string, todo: set<char>): string {
    if s == "" then "" else Code(s[0], todo) + Encode(s[1..], todo)
  }

  const ALL := {'&', '\"', '\'', '<', '>', ' '}

  function HtmlEncoded(s: string): string { Encode(s, ALL) }

  function HtmlDecoded(s: string): string {
    LaterDecoded(ReplaceAll(s, "&amp;", "&"))
  }

  /** The five replacements after the first. */
  function LaterDecoded(s: string): string {
    var s2 := ReplaceAll(s, "&quot;", "\"");
    var s3 := ReplaceAll(s2, "&apos;", "\'");
    var s4 := ReplaceAll(s3, "&lt;", "<");
    var s5 := ReplaceAll(s4, "&gt;", ">");
    ReplaceAll(s5, "&nbsp;", " ")
  }

  method HtmlEncode(data: string) returns (buffer: string)
    ensures buffer == HtmlEncoded(data)
  {
    hide Encode;
    buffer := "";
    assert data[0..] == data;
    NothingEncoded();
    for pos := 0 to |data|
      invariant buffer + HtmlEncoded(data[pos..]) == HtmlEncoded(data)
    {
      assert data[pos..] == [data[pos]] + data[pos+1..];
      EncodeHead(data[pos], data[pos+1..], ALL);
      ghost var before := buffer;
      match data[pos] {
      case '&' => buffer := buffer + "&amp;";
      case '\"' => buffer := buffer + "&quot;";
      case '\'' => buffer := buffer + "&apos;";
      case '<' => buffer := buffer + "&lt;";
      case '>' => buffer := buffer + "&gt;";
      case ' ' => buffer := buffer + "&nbsp;";
      case _ => buffer := buffer + [data[pos]];
      }
      assert buffer == before + Code(data[pos], ALL);
      Regroup(before, Code(data[pos], ALL), HtmlEncoded(data[pos+1..]));
    }
  }

  lemma NothingEncoded()
    ensures Encode("", ALL) == ""
  {
  }

  method HtmlDecode(data: string) returns (buffer: string)
    ensures buffer == HtmlDecoded(data)
  {
    buffer := data;
    buffer := ReplaceAll(buffer, "&amp;", "&");
    buffer := ReplaceAll(buffer, "&quot;", "\"");
    buffer := ReplaceAll(buffer, "&apos;", "\'");
    buffer := ReplaceAll(buffer, "&lt;", "<");
    buffer := ReplaceAll(buffer, "&gt;", ">");
    buffer := ReplaceAll(buffer, "&nbsp;", " ");
  }

  // ---------- decoding what was encoded ----------

  /** Letters other than special ones are left alone by the encoder, so they start an encoded text
      exactly when they start the text. */
  lemma {:induction false} PlainPrefix(w: string, s: string, todo: set<char>)
    requires forall i | 0 <= i < |w| :: !IsSpecial(w[i])
    ensures w <= Encode(s, todo) <==> w <= s
  {
    if w != "" && s != "" {
      var e := Encode(s, todo);
      assert e[0] == Code(s[0], todo)[0];
      if Code(s[0], todo) == [s[0]] {
        assert e[1..] == Encode(s[1..], todo);
        PlainPrefix(w[1..], s[1..], todo);
        assert w <= e <==> w[0] == e[0] && w[1..] <= e[1..];
        assert w <= s <==> w[0] == s[0] && w[1..] <= s[1..];
      }
    }
  }

  lemma EntitiesDiffer(c: char, d: char, s: string)
    requires IsSpecial(c) && IsSpecial(d) && c != d
    ensures !(Entity(c) <= Entity(d) + s)
  {
    var (v, w, t) := (Entity(c), Entity(d), Entity(d) + s);
    assert v[1] != w[1] || v[2] != w[2];
    assert t[1] == w[1] && t[2] == w[2];
  }

  /** No other entity can begin inside an entity. */
  lemma EntitySkips(c: char, d: char, s: string, r: string)
    requires IsSpecial(c) && IsSpecial(d) && c != d
    ensures ReplaceAll(Entity(d) + s, Entity(c), r) == Entity(d) + ReplaceAll(s, Entity(c), r)
  {
    var (w, a) := (Entity(c), Entity(d));
    forall i | 0 <= i < |a| ensures !(w <= (a + s)[i..]) {
      if i == 0 {
        EntitiesDiffer(c, d, s);
        assert (a + s)[0..] == a + s;
      } else {
        assert (a + s)[i..][0] == a[i] != '&';
      }
    }
    ReplaceSkips(a, s, w, r);
  }

  lemma EncodeHead(c: char, s: string, todo: set<char>)
    ensures Encode([c] + s, todo) == Code(c, todo) + Encode(s, todo)
  {
    assert ([c] + s)[1..] == s;
  }

  lemma {:induction false} EncodePlain(w: string, s: string, todo: set<char>)
    requires forall i | 0 <= i < |w| :: !(w[i] in todo && IsSpecial(w[i]))
    ensures Encode(w + s, todo) == w + Encode(s, todo)
  {
    hide Encode, Entity, Code;
    if w == "" {
      assert w + s == s && w + Encode(s, todo) == Encode(s, todo);
    } else {
      EncodePlain(w[1..], s, todo);
      assert w == [w[0]] + w[1..];
      Regroup([w[0]], w[1..], s);
      EncodeHead(w[0], w[1..] + s, todo);
      CodePlain(w[0], todo);
      Regroup([w[0]], w[1..], Encode(s, todo));
    }
  }

  lemma CodePlain(c: char, todo: set<char>)
    requires !(c in todo && IsSpecial(c))
    ensures Code(c, todo) == [c]
  {
  }

  /** The first pass takes off the code of the ampersand, and nothing else. */
  lemma {:induction false} AmpersandPass(s: string, todo: set<char>)
    requires '&' in todo
    ensures ReplaceAll(Encode(s, todo), "&amp;", "&") == Encode(s, todo - {'&'})
  {
    if s != "" {
      hide ReplaceAll;
      var c, e := s[0], Encode(s[1..], todo);
      AmpersandPass(s[1..], todo);
      if c == '&' {
        ReplaceHead("&amp;", e, "&");
      } else if c in todo && IsSpecial(c) {
        EntitySkips('&', c, e, "&");
      } else {
        assert "&amp;"[0] != ([c] + e)[0];
        ReplaceNotHere(c, e, "&amp;", "&");
      }
    }
  }

  /** A later pass on a text where the characters of `todo` are still entities: it takes off one code,
      and does to the text underneath what it would do to it directly. */
  lemma {:induction false} PassCommutes(s: string, c: char, todo: set<char>)
    requires IsSpecial(c) && c in todo && '&' !in todo
    ensures ReplaceAll(Encode(s, todo), Entity(c), [c]) == Encode(ReplaceAll(s, Entity(c), [c]), todo - {c})
    decreases |s|
  {
    hide Code, Entity;
    var w := Entity(c);
    if s == "" {
    } else if w <= s {
      LiteralEntity(s, c, todo);
      PassCommutes(s[|w|..], c, todo);
    } else {
      PassCommutes(s[1..], c, todo);
      OneCharacter(s, c, todo);
    }
  }

  lemma LiteralEntity(s: string, c: char, todo: set<char>)
    requires IsSpecial(c) && c in todo && '&' !in todo && Entity(c) <= s
    ensures var w := Entity(c);
            && ReplaceAll(Encode(s, todo), w, [c]) == [c] + ReplaceAll(Encode(s[|w|..], todo), w, [c])
            && Encode(ReplaceAll(s, w, [c]), todo - {c}) == [c] + Encode(ReplaceAll(s[|w|..], w, [c]), todo - {c})
  {
    var w := Entity(c);
    var rest := s[|w|..];
    assert s == w + rest;
    EncodePlain(w, rest, todo);
    ReplaceHead(w, Encode(rest, todo), [c]);
    EncodeHead(c, ReplaceAll(rest, w, [c]), todo - {c});
  }

  lemma OneCharacter(s: string, c: char, todo: set<char>)
    requires IsSpecial(c) && c in todo && '&' !in todo && s != "" && !(Entity(c) <= s)
    ensures var w := Entity(c);
            && ReplaceAll(Encode(s, todo), w, [c]) ==
               Code(s[0], todo - {c}) + ReplaceAll(Encode(s[1..], todo), w, [c])
            && Encode(ReplaceAll(s, w, [c]), todo - {c}) ==
               Code(s[0], todo - {c}) + Encode(ReplaceAll(s[1..], w, [c]), todo - {c})
  {
    hide Entity, Encode, ReplaceAll;
    var w, d, rest := Entity(c), s[0], s[1..];
    var e := Encode(rest, todo);
    assert s == [d] + rest;
    EncodeHead(d, rest, todo);
    ReplaceNotHere(d, rest, w, [c]);
    EncodeHead(d, ReplaceAll(rest, w, [c]), todo - {c});
    if d == c {
      ReplaceHead(w, e, [c]);
    } else if d in todo && IsSpecial(d) {
      EntitySkips(c, d, e, [c]);
    } else {
      NoNewMatch(c, d, rest, todo);
      ReplaceNotHere(d, e, w, [c]);
    }
  }

  /** Encoding what follows a character makes no entity appear at that character. */
  lemma NoNewMatch(c: char, d: char, rest: string, todo: set<char>)
    requires IsSpecial(c) && !(Entity(c) <= [d] + rest)
    ensures !(Entity(c) <= [d] + Encode(rest, todo))
  {
    hide Entity, Encode;
    var w, e := Entity(c), Encode(rest, todo);
    PlainPrefix(w[1..], rest, todo);
    PrefixHead(w, d, rest);
    PrefixHead(w, d, e);
  }

  lemma {:induction false} EncodeNothing(s: string)
    ensures Encode(s, {}) == s
  {
    if s != "" { EncodeNothing(s[1..]); }
  }

  /** Decoding what was encoded applies the five later replacements to the text itself. */
  lemma DecodeOfEncode(s: string)
    ensures HtmlDecoded(HtmlEncoded(s)) == LaterDecoded(s)
  {
    hide ReplaceAll, Encode;
    var s2 := ReplaceAll(s, "&quot;", "\"");
    var s3 := ReplaceAll(s2, "&apos;", "\'");
    var s4 := ReplaceAll(s3, "&lt;", "<");
    var s5 := ReplaceAll(s4, "&gt;", ">");
    var s6 := ReplaceAll(s5, "&nbsp;", " ");
    AmpersandPass(s, ALL);
    PassCommutes(s, '\"', ALL - {'&'});
    PassCommutes(s2, '\'', ALL - {'&'} - {'\"'});
    PassCommutes(s3, '<', ALL - {'&'} - {'\"'} - {'\''});
    PassCommutes(s4, '>', ALL - {'&'} - {'\"'} - {'\''} - {'<'});
    PassCommutes(s5, ' ', ALL - {'&'} - {'\"'} - {'\''} - {'<'} - {'>'});
    assert ALL - {'&'} - {'\"'} - {'\''} - {'<'} - {'>'} - {' '} == {};
    EncodeNothing(s6);
  }

  /** The text holds none of the five entities the decoder replaces after the ampersand's. */
  ghost predicate EntityFree(s: string) {
    !Contains(s, "&quot;") && !Contains(s, "&apos;") && !Contains(s, "&lt;") && !Contains(s, "&gt;") &&
    !Contains(s, "&nbsp;")
  }

  /** The later replacements never lengthen a text, and keep its length only by not changing it. */
  lemma LaterDecodedShrinks(s: string)
    ensures |LaterDecoded(s)| <= |s|
    ensures |LaterDecoded(s)| == |s| ==> LaterDecoded(s) == s
    ensures LaterDecoded(s) == s <==> EntityFree(s)
  {
    hide ReplaceAll;
    var s2 := ReplaceAll(s, "&quot;", "\"");
    var s3 := ReplaceAll(s2, "&apos;", "\'");
    var s4 := ReplaceAll(s3, "&lt;", "<");
    var s5 := ReplaceAll(s4, "&gt;", ">");
    ReplaceAllShrinks(s, "&quot;", "\"");
    ReplaceAllShrinks(s2, "&apos;", "\'");
    ReplaceAllShrinks(s3, "&lt;", "<");
    ReplaceAllShrinks(s4, "&gt;", ">");
    ReplaceAllShrinks(s5, "&nbsp;", " ");
  }

  /** The encoder writes each character as the table says, one after the other. */
  lemma EncoderTable(c: char, s: string)
    ensures HtmlEncoded("") == ""
    ensures HtmlEncoded([c] + s) ==
            (if c == '&' then "&amp;" else if c == '\"' then "&quot;" else if c == '\'' then "&apos;"
             else if c == '<' then "&lt;" else if c == '>' then "&gt;" else if c == ' ' then "&nbsp;" else [c]) +
            HtmlEncoded(s)
  {
    EncodeHead(c, s, ALL);
  }

  /** The decoder turns each of the table's entities back. */
  lemma DecoderTable()
    ensures HtmlDecoded("&amp;") == "&" && HtmlDecoded("&quot;") == "\"" && HtmlDecoded("&apos;") == "\'"
    ensures HtmlDecoded("&lt;") == "<" && HtmlDecoded("&gt;") == ">" && HtmlDecoded("&nbsp;") == " "
  {
    hide HtmlDecoded, HtmlEncoded;
    OneDecoded('&', "&amp;");
    OneDecoded('\"', "&quot;");
    OneDecoded('\'', "&apos;");
    OneDecoded('<', "&lt;");
    OneDecoded('>', "&gt;");
    OneDecoded(' ', "&nbsp;");
  }

  lemma OneDecoded(c: char, word: string)
    requires IsSpecial(c) && word == Entity(c)
    ensures HtmlDecoded(word) == [c]
  {
    hide HtmlDecoded, Entity;
    EncodeHead(c, "", ALL);
    NothingEncoded();
    assert [c] + "" == [c] && word + "" == word;
    NoEntityInOne(c);
    HtmlRoundTrip([c]);
  }

  lemma NoEntityInOne(c: char)
    ensures EntityFree([c])
  {
    TooShort([c], "&quot;");
    TooShort([c], "&apos;");
    TooShort([c], "&lt;");
    TooShort([c], "&gt;");
    TooShort([c], "&nbsp;");
  }

  lemma TooShort(s: string, w: string)
    requires |s| < |w|
    ensures !Contains(s, w)
  {
  }

  /** Decoding leaves a text alone exactly when it holds none of the six entities. */
  lemma DecodeLeavesAlone(s: string)
    ensures HtmlDecoded(s) == s <==> !Contains(s, "&amp;") && EntityFree(s)
    ensures |HtmlDecoded(s)| <= |s|
  {
    hide ReplaceAll, LaterDecoded, EntityFree;
    ReplaceAllShrinks(s, "&amp;", "&");
    LaterDecodedShrinks(ReplaceAll(s, "&amp;", "&"));
  }

  /** Encoding then decoding gives the text back exactly when it holds none of the five entities. */
  lemma HtmlRoundTrip(s: string)
    ensures HtmlDecoded(HtmlEncoded(s)) == s <==> EntityFree(s)
  {
    DecodeOfEncode(s);
    LaterDecodedShrinks(s);
  }

  /** A text on which the round trip fails: a literal entity comes back decoded. */
  lemma HtmlRoundTripFails()
    ensures HtmlDecoded(HtmlEncoded("&lt;")) != "&lt;"
  {
    HtmlRoundTrip("&lt;");
    ContainsPrefix("&lt;", "&lt;");
  }
}
