/** Posted forms: the body parser of the meme handler, and what it makes of a correctly encoded form. */
module FormBody {
  import opened Text
  import opened UrlCodec

  type Fields = map<string, string>

  /** std::map's operator[] on a missing key. */
  function Get(m: Fields, key: string): string {
    if key in m then m[key] else ""
  }

  function ReplaceFirst(s: string, w: string, r: string): string {
    match Find(s, w)
    case None => s
    case Some(i) => s[..i] + r + s[i+|w|..]
  }

  function PlusToSpace(s: string): (r: string)
    ensures |r| == |s| && forall i | 0 <= i < |s| :: r[i] == if s[i] == '+' then ' ' else s[i]
  {
    seq(|s|, i requires 0 <= i < |s| => if s[i] == '+' then ' ' else s[i])
  }

  /** What becomes of the text after the equals sign. */
  function FieldValue(e: string): string
    requires WellEscaped(e)
  {
    PlusToSpace(ReplaceFirst(UrlDecoded(e), "%2F", "/"))
  }

  function KeyValue(item: string): seq<string> { Split(item, {'='}) }

  /** Each item read has an equals sign and a well-escaped value; reading stops after the first item
      with more than one equals sign apart. On other bodies the parser's result is undefined. */
  predicate Readable(items: seq<string>) {
    items == [] ||
    var kv := KeyValue(items[0]);
    |kv| >= 2 && WellEscaped(kv[1]) && (|kv| == 2 ==> Readable(items[1..]))
  }

  datatype Form = Form(fields: Fields, deepfry: bool, cut: bool)

  function ReadItems(items: seq<string>, fields: Fields, deepfry: bool): Form
    requires Readable(items)
    decreases |items|
  {
    if items == [] then Form(fields, deepfry, false)
    else
      var kv := KeyValue(items[0]);
      if |kv| != 2 then Form(fields, deepfry, true)
      else
        var value := FieldValue(kv[1]);
        ReadItems(items[1..], fields[kv[0] := value], deepfry || (kv[0] == "deepfry" && value == "True"))
  }

  function Finished(form: Form): Fields {
    if form.cut then form.fields
    else
      var image := (if form.deepfry then "df-" else "") + Get(form.fields, "image");
      form.fields["image" := "meme_templates/" + image]
                 ["name" := HtmlEncoded(Get(form.fields, "name"))]
                 ["top" := HtmlEncoded(Get(form.fields, "top"))]
                 ["bottom" := HtmlEncoded(Get(form.fields, "bottom"))]
  }

  predicate BodyDefined(body: string) {
    var items := Split(body, {'&'});
    if |items| < 3 then Find(body, "access").Some? ==> |KeyValue(items[0])| >= 2 else Readable(items)
  }

  function ParsedBody(body: string): Fields
    requires BodyDefined(body)
  {
    var items := Split(body, {'&'});
    if |items| >= 3 then Finished(ReadItems(items, map[], false))
    else if Find(body, "access").Some? then map[KeyValue(items[0])[0] := KeyValue(items[0])[1]]
    else map[]
  }

  method SpacesForPluses(s: string) returns (value: string)
    ensures value == PlusToSpace(s)
  {
    value := s;
    var n := Span(value, {'+'});
    while n < |value|
      invariant n <= |value| && |value| == |s|
      invariant forall j | 0 <= j < |s| :: value[j] == if j < n && s[j] == '+' then ' ' else s[j]
      invariant forall j | 0 <= j < n :: value[j] != '+'
      invariant n < |value| ==> value[n] == '+'
    {
      value := value[n := ' '];
      n := n + 1;
      var step := Span(value[n..], {'+'});
      assert forall j | n <= j < n + step :: value[j] == value[n..][j-n];
      assert n + step < |value| ==> value[n+step] == value[n..][step];
      n := n + step;
    }
  }

  method parseRequestBody(body: string) returns (memeMap: Fields)
    requires BodyDefined(body)
    ensures memeMap == ParsedBody(body)
  {
    hide Split, ReplaceFirst, PlusToSpace, UrlDecoded, WellEscaped, HtmlEncoded, Find;
    memeMap := map[];
    var items := Split(body, {'&'});
    var deepfry := false;
    if |items| < 3 {
      if Find(body, "access") != None {
        var key_value := KeyValue(items[0]);
        memeMap := memeMap[key_value[0] := key_value[1]];
      }
      return;
    }
    ghost var goal := ReadItems(items, map[], false);
    assert items[0..] == items;
    for i := 0 to |items|
      invariant Readable(items[i..]) && ReadItems(items[i..], memeMap, deepfry) == goal
    {
      assert items[i..][1..] == items[i+1..] && items[i..][0] == items[i];
      var key_value := KeyValue(items[i]);
      var value := UrlDecode(key_value[1]);
      if |key_value| != 2 {
        return;
      }
      value := ReplaceFirst(value, "%2F", "/");
      value := SpacesForPluses(value);
      if key_value[0] == "deepfry" && value == "True" {
        deepfry := true;
      }
      memeMap := memeMap[key_value[0] := value];
    }
    assert items[|items|..] == [];
    memeMap := FinishForm(memeMap, deepfry);
  }

  method FinishForm(fields: Fields, deepfry: bool) returns (memeMap: Fields)
    ensures memeMap == Finished(Form(fields, deepfry, false))
  {
    hide HtmlEncoded;
    memeMap := fields;
    if deepfry {
      memeMap := memeMap["image" := "df-" + Get(memeMap, "image")];
    }
    assert Get(memeMap, "image") == (if deepfry then "df-" else "") + Get(fields, "image");
    memeMap := memeMap["image" := "meme_templates/" + Get(memeMap, "image")];
    var name := HtmlEncode(Get(memeMap, "name"));
    memeMap := memeMap["name" := name];
    var top := HtmlEncode(Get(memeMap, "top"));
    memeMap := memeMap["top" := top];
    var bottom := HtmlEncode(Get(memeMap, "bottom"));
    memeMap := memeMap["bottom" := bottom];
  }

  // ---------- correctly encoded forms ----------

  /** `e` is an application/x-www-form-urlencoded form of `s`: a blank may be written as a plus, and the
      characters with a meaning in forms are escaped. */
  predicate FormEncodes(e: string, s: string)
    decreases |s|
  {
    if s == "" then e == ""
    else
      (e != "" && e[0] == s[0] && s[0] !in {'%', '+', '&', '='} && FormEncodes(e[1..], s[1..])) ||
      (e != "" && e[0] == '+' && s[0] == ' ' && FormEncodes(e[1..], s[1..])) ||
      (|e| >= 3 && e[0] == '%' && EscapeOf(e[1], e[2], s[0]) && FormEncodes(e[3..], s[1..]))
  }

  lemma {:induction false} FormDecodes(e: string, s: string)
    requires FormEncodes(e, s)
    ensures Free(e, {'&', '='}) && WellEscaped(e) && PlusToSpace(UrlDecoded(e)) == PlusToSpace(s)
    decreases |s|
  {
    hide EscapeOf, IsHex, HexValue;
    if s != "" {
      var n := if e[0] == '%' then 3 else 1;
      if n == 3 { EscapeDigits(e[1], e[2], s[0]); }
      FormDecodes(e[n..], s[1..]);
      assert e == e[..n] + e[n..];
      var d := UrlDecoded(e);
      assert d == [d[0]] + UrlDecoded(e[n..]);
      assert s == [s[0]] + s[1..];
      PlusOfCons(d[0], UrlDecoded(e[n..]));
      PlusOfCons(s[0], s[1..]);
    }
  }

  lemma EscapeDigits(high: char, low: char, c: char)
    requires EscapeOf(high, low, c)
    ensures high !in {'&', '='} && low !in {'&', '='}
    ensures IsHex(high) && IsHex(low) && 16 * HexValue(high) + HexValue(low) == c as int
  {
    EscapeValue(high, low, c);
  }

  lemma PlusOfCons(c: char, s: string)
    ensures PlusToSpace([c] + s) == [if c == '+' then ' ' else c] + PlusToSpace(s)
  {
  }

  /** Turning pluses into blanks does not disturb the search for a slash escape. */
  lemma PlusCommutes(s: string)
    ensures PlusToSpace(ReplaceFirst(s, "%2F", "/")) == ReplaceFirst(PlusToSpace(s), "%2F", "/")
  {
    var t := PlusToSpace(s);
    forall i: nat ensures OccursAt(s, "%2F", i) <==> OccursAt(t, "%2F", i) {
      SlashAt(s, i);
      SlashAt(t, i);
    }
    hide Find, PlusToSpace;
    match Find(s, "%2F")
    case None =>
      assert Find(t, "%2F") == None;
    case Some(i) =>
      FindIs(t, "%2F", i);
      SlashAt(s, i);
      PlusAround(s, i);
  }

  lemma PlusAround(s: string, i: nat)
    requires i + 3 <= |s|
    ensures PlusToSpace(s[..i] + "/" + s[i+3..]) == PlusToSpace(s)[..i] + "/" + PlusToSpace(s)[i+3..]
  {
  }

  lemma SlashAt(s: string, i: nat)
    ensures OccursAt(s, "%2F", i) <==> i + 3 <= |s| && s[i] == '%' && s[i+1] == '2' && s[i+2] == 'F'
  {
    if i + 3 <= |s| {
      assert s[i..][..3] == [s[i], s[i+1], s[i+2]];
    }
  }

  /** The parsed value of an encoded one: blanks for pluses, and the first "%2F" turned into a slash. */
  lemma ParsedValue(e: string, s: string)
    requires FormEncodes(e, s)
    ensures WellEscaped(e) && FieldValue(e) == ReplaceFirst(PlusToSpace(s), "%2F", "/")
  {
    FormDecodes(e, s);
    PlusCommutes(UrlDecoded(e));
  }

  datatype Pair = Pair(key: string, encoded: string)

  predicate ValidPair(p: Pair) {
    Free(p.key, {'&', '='}) && Free(p.encoded, {'&', '='}) && WellEscaped(p.encoded)
  }

  function Item(p: Pair): string { p.key + "=" + p.encoded }

  function Items(form: seq<Pair>): (items: seq<string>)
    ensures |items| == |form| && forall i | 0 <= i < |form| :: items[i] == Item(form[i])
  {
    seq(|form|, i requires 0 <= i < |form| => Item(form[i]))
  }

  lemma KeyValueOfItem(p: Pair)
    requires ValidPair(p)
    ensures KeyValue(Item(p)) == [p.key, p.encoded]
  {
    hide Split, WellEscaped;
    assert Free(p.key, {'='}) && Free(p.encoded, {'='});
    assert p.encoded != "" ==> p.encoded[0] !in {'='};
    SplitStep(p.key, "=", p.encoded, {'='});
    SplitWhole(p.encoded, {'='});
  }

  lemma {:induction false} SplitJoin(items: seq<string>)
    requires items != [] && forall i | 0 <= i < |items| :: items[i] != "" && Free(items[i], {'&'})
    ensures Split(Join(items, "&"), {'&'}) == items
  {
    hide Split;
    if |items| == 1 {
      SplitWhole(items[0], {'&'});
    } else {
      var rest := Join(items[1..], "&");
      assert rest[0] == items[1][0] && items[1][0] !in {'&'};
      SplitStep(items[0], "&", rest, {'&'});
      SplitJoin(items[1..]);
    }
  }

  lemma SplitForm(form: seq<Pair>)
    requires form != [] && forall i | 0 <= i < |form| :: ValidPair(form[i])
    ensures Split(Join(Items(form), "&"), {'&'}) == Items(form)
  {
    SplitJoin(Items(form));
  }

  /** Reading the items of a valid form is never cut short; the last pair with a key decides. */
  lemma {:induction false} ReadForm(form: seq<Pair>, fields: Fields, deepfry: bool, key: string)
    requires forall i | 0 <= i < |form| :: ValidPair(form[i])
    ensures Readable(Items(form)) && !ReadItems(Items(form), fields, deepfry).cut
    ensures var got := ReadItems(Items(form), fields, deepfry).fields;
            match LastValue(form, key)
            case None => (key in got <==> key in fields) && (key in fields ==> got[key] == fields[key])
            case Some(e) => WellEscaped(e) && key in got && got[key] == FieldValue(e)
  {
    hide KeyValue, FieldValue, Free, WellEscaped, Item;
    if form != [] {
      var (p, items) := (form[0], Items(form));
      assert ValidPair(p);
      KeyValueOfItem(p);
      assert items[1..] == Items(form[1..]);
      var value := FieldValue(p.encoded);
      ReadForm(form[1..], fields[p.key := value], deepfry || (p.key == "deepfry" && value == "True"), key);
    }
  }

  function LastValue(form: seq<Pair>, key: string): Option<string> {
    if form == [] then None
    else match LastValue(form[1..], key)
      case Some(e) => Some(e)
      case None => if form[0].key == key then Some(form[0].encoded) else None
  }

  /** A form of at least three pairs keeps, under name, top and bottom, the HTML-encoded parsed value of
      the last pair with that key. */
  lemma PostedField(form: seq<Pair>, key: string, e: string, s: string)
    requires |form| >= 3 && forall i | 0 <= i < |form| :: ValidPair(form[i])
    requires key in {"name", "top", "bottom"} && LastValue(form, key) == Some(e) && FormEncodes(e, s)
    ensures var body := Join(Items(form), "&");
            BodyDefined(body) && Get(ParsedBody(body), key) == HtmlEncoded(ReplaceFirst(PlusToSpace(s), "%2F", "/"))
  {
    hide Split, WellEscaped, Readable, ReadItems, FormEncodes, Encode, ReplaceFirst, PlusToSpace, Join, LastValue, ValidPair;
    SplitForm(form);
    ReadForm(form, map[], false, key);
    ParsedValue(e, s);
  }

  // ---------- every field of a posted form ----------

  /** A well-escaped text is the encoding of exactly one text: its decoding with blanks for pluses read before. */
  lemma {:induction false} EncodesSomething(e: string) returns (s: string)
    requires WellEscaped(e) && Free(e, {'&', '='})
    ensures FormEncodes(e, s)
    decreases |e|
  {
    hide EscapeOf, IsHex, HexValue;
    if e == "" {
      s := "";
    } else {
      var n := if e[0] == '%' then 3 else 1;
      var later := EncodesSomething(e[n..]);
      var c := e[0];
      if e[0] == '%' {
        c := (16 * HexValue(e[1]) + HexValue(e[2])) as char;
        EscapeValue(e[1], e[2], c);
      } else if e[0] == '+' {
        c := ' ';
      }
      s := [c] + later;
      assert s[1..] == later;
    }
  }

  /** Words the parser does nothing to: without blanks, pluses, percent signs and slashes. */
  predicate PlainWord(w: string) { Free(w, {' ', '+', '%', '/'}) }

  /** The parsed value is a plain word exactly when that word was encoded. */
  lemma ValueIsWord(e: string, w: string)
    requires WellEscaped(e) && Free(e, {'&', '='}) && PlainWord(w)
    ensures FieldValue(e) == w <==> FormEncodes(e, w)
  {
    hide FieldValue, WellEscaped, FormEncodes, PlusToSpace, ReplaceFirst, Free;
    if FormEncodes(e, w) {
      ParsedValue(e, w);
      PlainStays(w);
    }
    if FieldValue(e) == w {
      var s := EncodesSomething(e);
      ParsedValue(e, s);
      PlainOnly(s, w);
    }
  }

  lemma PlainStays(w: string)
    requires PlainWord(w)
    ensures ReplaceFirst(PlusToSpace(w), "%2F", "/") == w
  {
    PlusToSpaceExact(w);
    hide PlusToSpace;
    forall i: nat ensures !OccursAt(w, "%2F", i) { SlashAt(w, i); }
    ReplaceFirstExact(w);
  }

  lemma PlainOnly(s: string, w: string)
    requires PlainWord(w) && ReplaceFirst(PlusToSpace(s), "%2F", "/") == w
    ensures s == w
  {
    var t := PlusToSpace(s);
    SlashMade(t);
    assert Find(t, "%2F") == None;
    forall i | 0 <= i < |s| ensures s[i] == t[i] { assert t[i] == w[i]; }
  }

  lemma SlashMade(t: string)
    ensures Find(t, "%2F").Some? ==> !PlainWord(ReplaceFirst(t, "%2F", "/"))
  {
    hide Find;
    if i :| Find(t, "%2F") == Some(i) {
      assert i + 3 <= |t|;
      assert ReplaceFirst(t, "%2F", "/")[i] == '/';
    }
  }

  /** Some pair of the form says `deepfry=True`. */
  ghost predicate Deepfried(form: seq<Pair>) {
    exists i :: 0 <= i < |form| && form[i].key == "deepfry" && FormEncodes(form[i].encoded, "True")
  }

  lemma {:induction false} ReadDeepfry(form: seq<Pair>, fields: Fields, deepfry: bool)
    requires forall i | 0 <= i < |form| :: ValidPair(form[i])
    ensures Readable(Items(form))
    ensures ReadItems(Items(form), fields, deepfry).deepfry <==> deepfry || Deepfried(form)
  {
    hide KeyValue, FieldValue, Free, WellEscaped, Item, FormEncodes;
    ReadForm(form, fields, deepfry, "");
    if form != [] {
      var (p, items) := (form[0], Items(form));
      assert ValidPair(p);
      KeyValueOfItem(p);
      assert items[1..] == Items(form[1..]);
      var value := FieldValue(p.encoded);
      TrueIsPlain();
      ValueIsWord(p.encoded, "True");
      ReadDeepfry(form[1..], fields[p.key := value], deepfry || (p.key == "deepfry" && value == "True"));
      DeepfriedHead(form);
    }
  }

  lemma TrueIsPlain()
    ensures PlainWord("True")
  {
  }

  lemma DeepfriedHead(form: seq<Pair>)
    requires form != []
    ensures Deepfried(form) <==> (form[0].key == "deepfry" && FormEncodes(form[0].encoded, "True")) || Deepfried(form[1..])
  {
    hide FormEncodes;
    if i :| 0 <= i < |form[1..]| && form[1..][i].key == "deepfry" && FormEncodes(form[1..][i].encoded, "True") {
      assert form[i+1] == form[1..][i];
    }
    if i :| 0 <= i < |form| && form[i].key == "deepfry" && FormEncodes(form[i].encoded, "True") {
      assert i > 0 ==> form[1..][i-1] == form[i];
    }
  }

  /** The parsed value of the last pair with a key; "" without one. */
  function LastParsed(form: seq<Pair>, key: string): string
    requires forall i | 0 <= i < |form| :: ValidPair(form[i])
  {
    LastIsValid(form, key);
    match LastValue(form, key)
    case None => ""
    case Some(e) => FieldValue(e)
  }

  lemma {:induction false} LastIsValid(form: seq<Pair>, key: string)
    requires forall i | 0 <= i < |form| :: ValidPair(form[i])
    ensures LastValue(form, key).Some? ==>
              WellEscaped(LastValue(form, key).value) && Free(LastValue(form, key).value, {'&', '='})
  {
    if form != [] { LastIsValid(form[1..], key); }
  }

  /** Every field of a posted form of at least three pairs: the image goes into its directory, marked when some
      pair asked for frying; the three texts are HTML-encoded; all others keep their parsed value. */
  lemma PostedFields(form: seq<Pair>, key: string)
    requires |form| >= 3 && forall i | 0 <= i < |form| :: ValidPair(form[i])
    ensures var body := Join(Items(form), "&");
            && BodyDefined(body)
            && Get(ParsedBody(body), key) ==
               if key == "image" then "meme_templates/" + (if Deepfried(form) then "df-" else "") + LastParsed(form, "image")
               else if key == "name" || key == "top" || key == "bottom" then HtmlEncoded(LastParsed(form, key))
               else LastParsed(form, key)
  {
    hide Split, WellEscaped, Readable, ReadItems, FieldValue, Encode, Join, LastValue, ValidPair, Deepfried;
    SplitForm(form);
    ReadForm(form, map[], false, key);
    ReadForm(form, map[], false, "image");
    ReadForm(form, map[], false, "name");
    ReadForm(form, map[], false, "top");
    ReadForm(form, map[], false, "bottom");
    ReadDeepfry(form, map[], false);
  }

  /** A form with an item of more than one equals sign apart is cut short there: the pairs before it are kept as
      parsed, without encoding and without image directory, and what follows is not read. */
  lemma CutForm(form: seq<Pair>, bad: string, rest: seq<string>, key: string)
    requires |form| + 1 + |rest| >= 3 && forall i | 0 <= i < |form| :: ValidPair(form[i])
    requires Free(bad, {'&'}) && |KeyValue(bad)| > 2 && WellEscaped(KeyValue(bad)[1])
    requires forall i | 0 <= i < |rest| :: rest[i] != "" && Free(rest[i], {'&'})
    ensures var body := Join(Items(form) + [bad] + rest, "&");
            BodyDefined(body) && Get(ParsedBody(body), key) == LastParsed(form, key)
  {
    hide Split, WellEscaped, Readable, ReadItems, FieldValue, Join, LastValue, ValidPair, KeyValue;
    CutItems(form, bad, rest);
    ReadUpTo(form, [bad] + rest, map[], false, key);
    Regroup(Items(form), [bad], rest);
    hide Items;
  }

  lemma CutItems(form: seq<Pair>, bad: string, rest: seq<string>)
    requires forall i | 0 <= i < |form| :: ValidPair(form[i])
    requires Free(bad, {'&'}) && |KeyValue(bad)| > 2
    requires forall i | 0 <= i < |rest| :: rest[i] != "" && Free(rest[i], {'&'})
    ensures var items := Items(form) + [bad] + rest; Split(Join(items, "&"), {'&'}) == items
  {
    hide Split, Join, ValidPair, Free, KeyValue;
    ItemsAreItems(form);
    BadIsNotEmpty(bad);
    hide Items;
    SplitJoin(Items(form) + [bad] + rest);
  }

  lemma ItemsAreItems(form: seq<Pair>)
    requires forall i | 0 <= i < |form| :: ValidPair(form[i])
    ensures forall i | 0 <= i < |form| :: Items(form)[i] != "" && Free(Items(form)[i], {'&'})
  {
    forall i | 0 <= i < |form| ensures Items(form)[i] != "" && Free(Items(form)[i], {'&'}) {
      assert ValidPair(form[i]) && Items(form)[i] == Item(form[i]);
    }
  }

  lemma BadIsNotEmpty(bad: string)
    requires |KeyValue(bad)| > 2
    ensures bad != ""
  {
    if bad == "" { SplitWhole(bad, {'='}); }
  }

  lemma {:induction false} ReadUpTo(form: seq<Pair>, bad: seq<string>, fields: Fields, deepfry: bool, key: string)
    requires forall i | 0 <= i < |form| :: ValidPair(form[i])
    requires bad != [] && |KeyValue(bad[0])| > 2 && WellEscaped(KeyValue(bad[0])[1])
    ensures Readable(Items(form) + bad) && ReadItems(Items(form) + bad, fields, deepfry).cut
    ensures var got := ReadItems(Items(form) + bad, fields, deepfry).fields;
            match LastValue(form, key)
            case None => (key in got <==> key in fields) && (key in fields ==> got[key] == fields[key])
            case Some(e) => WellEscaped(e) && key in got && got[key] == FieldValue(e)
  {
    hide KeyValue, FieldValue, Free, WellEscaped, Item;
    var items := Items(form) + bad;
    if form == [] {
      assert items == bad;
    } else {
      var p := form[0];
      assert ValidPair(p);
      KeyValueOfItem(p);
      assert items[0] == Item(p) && items[1..] == Items(form[1..]) + bad;
      var value := FieldValue(p.encoded);
      ReadUpTo(form[1..], bad, fields[p.key := value], deepfry || (p.key == "deepfry" && value == "True"), key);
    }
  }

  /** A body of fewer than three items gives nothing, unless it mentions "access": then its first item, as it
      stands. */
  lemma ShortBody(items: seq<string>)
    requires 1 <= |items| <= 2 && forall i | 0 <= i < |items| :: items[i] != "" && Free(items[i], {'&'})
    ensures var body := Join(items, "&");
            && (!Contains(body, "access") ==> BodyDefined(body) && ParsedBody(body) == map[])
            && (forall k, v | Contains(body, "access") && Free(k, {'='}) && Free(v, {'='}) && items[0] == k + "=" + v ::
                  BodyDefined(body) && ParsedBody(body) == map[k := v])
  {
    hide Split, Join, Find;
    SplitJoin(items);
    forall k, v | Free(k, {'='}) && Free(v, {'='}) && items[0] == k + "=" + v ensures KeyValue(items[0]) == [k, v] {
      SplitStep(k, "=", v, {'='});
      SplitWhole(v, {'='});
    }
  }

  /** Replacing the first slash escape leaves a text alone exactly when it holds none. */
  lemma ReplaceFirstExact(s: string)
    ensures var r := ReplaceFirst(s, "%2F", "/");
            |r| <= |s| && (|r| == |s| ==> r == s) && (r == s <==> !Contains(s, "%2F"))
  {
  }

  lemma PlusToSpaceExact(s: string)
    ensures PlusToSpace(s) == s <==> Free(s, {'+'})
  {
    if PlusToSpace(s) == s {
      forall i | 0 <= i < |s| ensures s[i] != '+' {
        assert PlusToSpace(s)[i] == s[i];
      }
    }
  }
}
