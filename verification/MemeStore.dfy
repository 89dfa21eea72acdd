/** The meme table: how ids and access tokens are given out, what the statements of the meme handler do
    to the table, and what sequential runs of them keep. */
module MemeStore {
  import opened Text
  import opened Numerals
  import opened FormBody

  datatype Meme = Meme(name: string, image: string, top: string, bottom: string)
  datatype Row = Row(meme: Meme, token: string)
  type Table = map<string, Row>

  // ---------- ids ----------

  lemma {:induction false} TextMaxExists(ids: set<string>)
    requires ids != {}
    ensures exists m :: IsTextMax(m, ids)
    decreases |ids|
  {
    var x :| x in ids;
    var rest := ids - {x};
    if rest == {} {
      assert forall y | y in ids :: y !in rest ==> y == x;
      assert IsTextMax(x, ids);
    } else {
      TextMaxExists(rest);
      var m :| IsTextMax(m, rest);
      TextLessOrder(x, m);
      if TextLess(m, x) {
        forall y | y in ids ensures TextAtMost(y, x) {
          if y in rest && y != m { TextLessTransitive(y, m, x); }
        }
        assert IsTextMax(x, ids);
      } else {
        assert IsTextMax(m, ids);
      }
    }
  }

  /** SELECT MAX(MEME_ID): the greatest id as text. */
  ghost function TextMax(ids: set<string>): (m: string)
    requires ids != {}
    ensures IsTextMax(m, ids)
  {
    TextMaxExists(ids);
    var m :| IsTextMax(m, ids);
    m
  }

  lemma TextMaxAmong(ids: set<string>)
    requires ids != {}
    ensures TextMax(ids) in ids
  {
  }

  lemma TextMaxIs(m: string, ids: set<string>)
    requires IsTextMax(m, ids)
    ensures TextMax(ids) == m
  {
    TextMaxUnique(m, TextMax(ids), ids);
  }

  /** The number at the front of the greatest id; None when `stoi` throws. */
  ghost function LastNumber(ids: set<string>): Option<int>
    requires ids != {}
  {
    Stoi(CString(TextMax(ids)))
  }

  /** Counting up throws: the greatest id has no int in front. */
  ghost predicate Throws(ids: set<string>) { ids != {} && LastNumber(ids) == None }

  /** Counting up leaves the range of int. */
  ghost predicate Overflows(ids: set<string>) { ids != {} && LastNumber(ids) == Some(INT_MAX) }

  ghost predicate Countable(ids: set<string>) { !Throws(ids) && !Overflows(ids) }

  ghost function NextId(ids: set<string>): string
    requires Countable(ids)
  {
    if ids == {} then "10000" else ToText(LastNumber(ids).value + 1)
  }

  /** Counting on from whatever the greatest id is: from the number spelled out in front of it. */
  lemma NextIsCounted(ids: set<string>, n: int, blanks: string, sign: string, digits: string, rest: string)
    requires ids != {} && -2147483648 <= n < 2147483647
    requires Parts(CString(TextMax(ids)), blanks, sign, digits, rest, n)
    ensures Countable(ids) && NextId(ids) == ToText(n + 1)
  {
    hide LeadingNumber, CString, ToText, Parts, TextMax, IsTextMax;
    PartsNumber(CString(TextMax(ids)), blanks, sign, digits, rest, n);
  }

  /** Counting on from a numeral. */
  lemma NextOfNumeral(ids: set<string>)
    requires ids != {} && IsNumeral(TextMax(ids))
    ensures Countable(ids) <==> Value(TextMax(ids)) < INT_MAX
    ensures Countable(ids) ==> NextId(ids) == Numeral(Value(TextMax(ids)) + 1)
  {
    hide IsTextMax, CString, Stoi, Numeral, Value, IsNumeral;
    var m := TextMax(ids);
    CStringOfNumeral(m);
    NumeralOfValue(m);
    StoiOfText(Value(m));
  }

  /** Creating replaces an existing row in exactly one situation: the greatest id as text is all nines,
      and the numeral after it, which as text is smaller, is taken. */
  lemma CreateOverwrites(ids: set<string>)
    requires Countable(ids) && forall x | x in ids :: IsNumeral(x)
    ensures NextId(ids) in ids <==>
            ids != {} && AllNines(TextMax(ids)) && "1" + Zeros(|TextMax(ids)|) in ids
  {
    if ids != {} {
      var m := TextMax(ids);
      var n := Value(m);
      NumeralOfValue(m);
      NextOfNumeral(ids);
      hide Countable, NextId;
      Successor(n);
      SuccessorGrows(n);
      if NextId(ids) in ids {
        assert TextAtMost(NextId(ids), m);
        TextLessOrder(m, NextId(ids));
        ValueOfNumeral(n);
        ValueOfNumeral(n + 1);
      }
    }
  }

  ghost predicate IdsWithin(ids: set<string>, n: nat) {
    forall x | x in ids :: exists k: nat :: 10000 <= k < 10000 + n && x == Numeral(k)
  }

  lemma FiveDigitIds(ids: set<string>, n: nat, x: string) returns (k: nat)
    requires IdsWithin(ids, n) && n <= 90000 && x in ids
    ensures 10000 <= k < 10000 + n && x == Numeral(k) && |x| == 5 && Value(x) == k && IsNumeral(x)
  {
    k :| 10000 <= k < 10000 + n && x == Numeral(k);
    FiveDigits(k);
    ValueOfNumeral(k);
    NumeralShape(k);
  }

  /** While all ids are five-digit numerals the greatest text is the greatest number, and the next id is
      greater than every one of them; it has five digits too, but for the one after all of them. */
  lemma NextIdIsGreatest(ids: set<string>, n: nat)
    requires IdsWithin(ids, n) && n <= 90000
    ensures Countable(ids) && NextId(ids) !in ids
    ensures n < 90000 ==> |NextId(ids)| == 5
    ensures exists k: nat :: 10000 <= k < 10000 + (n + 1) && NextId(ids) == Numeral(k)
    ensures ids != {} ==> forall x | x in ids :: Digits(x) && Value(x) <= Value(TextMax(ids))
    ensures forall x | x in ids :: Digits(x) && Digits(NextId(ids)) && Value(x) < Value(NextId(ids))
  {
    if ids == {} {
      assert Numeral(10000) == "10000" by { TenThousand(); }
      assert NextId(ids) == Numeral(10000);
    } else {
      var k := LastOfFirst(ids, n);
      if n < 90000 { FiveDigits(k + 1); }
      hide Countable, NextId, IsTextMax, IdsWithin, Numeral, Value;
      forall x | x in ids ensures Digits(x) && Value(x) <= k {
        AtMostMax(ids, n, x);
      }
    }
  }

  lemma LastOfFirst(ids: set<string>, n: nat) returns (k: nat)
    requires IdsWithin(ids, n) && n <= 90000 && ids != {}
    ensures 10000 <= k < 10000 + n && TextMax(ids) == Numeral(k) && Value(TextMax(ids)) == k
    ensures Countable(ids) && NextId(ids) == Numeral(k + 1) && Value(NextId(ids)) == k + 1
  {
    assert TextMax(ids) in ids;
    hide Countable, NextId, IsTextMax, Numeral, Value;
    k := FiveDigitIds(ids, n, TextMax(ids));
    NextOfNumeral(ids);
    hide IdsWithin;
    ValueOfNumeral(k + 1);
  }

  lemma AtMostMax(ids: set<string>, n: nat, x: string)
    requires IdsWithin(ids, n) && n <= 90000 && x in ids
    ensures Digits(x) && Digits(TextMax(ids)) && Value(x) <= Value(TextMax(ids))
  {
    hide Numeral, Value;
    var j := FiveDigitIds(ids, n, x);
    var k := FiveDigitIds(ids, n, TextMax(ids));
    EqualLengthOrder(x, TextMax(ids));
  }

  lemma TenThousand()
    ensures Numeral(10000) == "10000"
  {
    assert Digit(0) == '0' && Numeral(1) == "1";
    hide Numeral;
    NumeralSnoc(1, 0);
    NumeralSnoc(10, 0);
    NumeralSnoc(100, 0);
    NumeralSnoc(1000, 0);
  }

  // ---------- tokens ----------

  predicate IsAlnum(c: char) { 'a' <= c <= 'z' || 'A' <= c <= 'Z' || '0' <= c <= '9' }

  function Alnum(r: nat): (c: char)
    requires r < 62
    ensures IsAlnum(c)
  {
    if r < 26 then ('a' as int + r) as char
    else if r < 52 then ('A' as int + r - 26) as char
    else ('0' as int + r - 52) as char
  }

  /** The random part of a token, from the numbers the generator gives. */
  function Scramble(n: nat, random: nat -> nat): (s: string)
    ensures |s| == n && forall i | 0 <= i < |s| :: IsAlnum(s[i])
  {
    if n == 0 then "" else Scramble(n - 1, random) + [Alnum(random(n - 1) % 62)]
  }

  const ALPHABET := "abcdefghijklm" + "nopqrstuvwxyz" + "ABCDEFGHIJKLM" + "NOPQRSTUVWXYZ" + "0123456789"

  /** Each letter is the one its random number picks from the alphabet. */
  lemma {:induction false} ScrambleLetters(n: nat, random: nat -> nat, i: nat)
    requires i < n
    ensures |ALPHABET| == 62 && Scramble(n, random)[i] == ALPHABET[random(i) % 62]
  {
    hide Alnum;
    if i < n - 1 { ScrambleLetters(n - 1, random, i); } else { AlnumTable(random(i) % 62); }
  }

  lemma AlnumTable(r: nat)
    requires r < 62
    ensures |ALPHABET| == 62 && Alnum(r) == ALPHABET[r]
  {
    RunOfLetters(r);
    if r < 13 { assert ALPHABET[r] == "abcdefghijklm"[r]; }
    else if r < 26 { assert ALPHABET[r] == "nopqrstuvwxyz"[r-13]; }
    else if r < 39 { assert ALPHABET[r] == "ABCDEFGHIJKLM"[r-26]; }
    else if r < 52 { assert ALPHABET[r] == "NOPQRSTUVWXYZ"[r-39]; }
    else { assert ALPHABET[r] == "0123456789"[r-52]; }
  }

  lemma RunOfLetters(r: nat)
    requires r < 62
    ensures r < 13 ==> "abcdefghijklm"[r] == Alnum(r)
    ensures 13 <= r < 26 ==> "nopqrstuvwxyz"[r-13] == Alnum(r)
    ensures 26 <= r < 39 ==> "ABCDEFGHIJKLM"[r-26] == Alnum(r)
    ensures 39 <= r < 52 ==> "NOPQRSTUVWXYZ"[r-39] == Alnum(r)
    ensures 52 <= r ==> "0123456789"[r-52] == Alnum(r)
  {
  }

  method gen_access_token(len: nat, random: nat -> nat) returns (scramble: string)
    ensures scramble == Scramble(len * 2, random)
  {
    scramble := "";
    for i := 0 to len * 2
      invariant scramble == Scramble(i, random)
    {
      var randomChar := random(i) % 62;
      if randomChar < 26 {
        scramble := scramble + [('a' as int + randomChar) as char];
      } else if randomChar < 52 {
        scramble := scramble + [('A' as int + randomChar - 26) as char];
      } else {
        scramble := scramble + [('0' as int + randomChar - 52) as char];
      }
    }
  }

  /** A token made for an id: the id, a dash, and twice as many letters and digits as the id has. */
  predicate TokenFor(id: string, token: string) {
    id + "-" <= token && |token| == 3 * |id| + 1 && forall i | |id| < i < |token| :: IsAlnum(token[i])
  }

  ghost predicate TokensFit(t: Table) {
    forall id | id in t :: IsNumeral(id) && TokenFor(id, t[id].token)
  }

  lemma TokenIsFor(id: string, random: nat -> nat)
    ensures TokenFor(id, id + "-" + Scramble(|id| * 2, random))
  {
  }

  lemma TokenSplits(id: string, token: string)
    requires IsNumeral(id) && TokenFor(id, token)
    ensures Split(token, {'-'})[0] == id && CString(token) == token && '-' in token && token != ""
    ensures Free(token, {'&', '='})
  {
    hide CString, Split;
    TokenLetters(id, token);
    SplitFirst(token, {'-'}, |id|);
    CStringIsWhole(token);
  }

  lemma TokenLetters(id: string, token: string)
    requires IsNumeral(id) && TokenFor(id, token)
    ensures |id| < |token| && token[..|id|] == id && token[|id|] == '-'
    ensures forall i | 0 <= i < |token| && i != |id| :: IsAlnum(token[i])
  {
    var start := id + "-";
    assert forall i | 0 <= i <= |id| :: token[i] == start[i];
  }

  lemma SplitFirst(s: string, d: set<char>, k: nat)
    requires k < |s| && s[k] in d && forall i | 0 <= i < k :: s[i] !in d
    ensures Split(s, d)[0] == s[..k]
  {
    SpanIs(s, d, k);
  }

  // ---------- the statements ----------

  datatype Op = Create(meme: Meme, random: nat -> nat) | Edit(id: string, meme: Meme) | Delete(id: string)

  /** What one request does to the table. */
  ghost function Apply(t: Table, op: Op): Table
    requires op.Create? ==> Countable(t.Keys)
  {
    match op
    case Create(meme, random) =>
      var id := NextId(t.Keys);
      t[id := Row(meme, id + "-" + Scramble(|id| * 2, random))]
    case Edit(id, meme) =>
      t[id := Row(meme, if id in t then CString(t[id].token) else "00001")]
    case Delete(id) => t - {id}
  }

  function Fetched(t: Table, id: string): Option<Row> {
    if id !in t then None else Some(Read(t[id]))
  }

  /** A row as it comes out of the database: every column cut at its first NUL. */
  function Read(r: Row): Row {
    Row(Meme(CString(r.meme.name), CString(r.meme.image), CString(r.meme.top), CString(r.meme.bottom)), CString(r.token))
  }

  /** The check of the delete and edit pages, as a statement about the table. */
  ghost predicate Authorized(t: Table, token: string) {
    token == "partialnotcomplete" ||
    (token != "" && '-' in token &&
     exists id :: id in t && CString(t[id].token) == token && CString(id) == Split(token, {'-'})[0])
  }

  /** `rows` are the rows of the ids in `order`, one for each, as they come out of the database. */
  ghost predicate Lists(rows: seq<(string, Row)>, t: Table, order: seq<string>) {
    && |rows| == |order|
    && (forall i | 0 <= i < |rows| :: order[i] in t && rows[i] == Listed(t, order[i]))
    && (forall i, j | 0 <= i < j < |order| :: order[i] != order[j])
  }

  function Listed(t: Table, id: string): (string, Row)
    requires id in t
  {
    (CString(id), Read(t[id]))
  }

  function MemeOf(m: Fields): Meme {
    Meme(Get(m, "name"), Get(m, "image"), Get(m, "top"), Get(m, "bottom"))
  }

  /** The operation a posted body asks for. */
  function PostedOp(body: string, random: nat -> nat): Op
    requires BodyDefined(body)
  {
    var m := ParsedBody(body);
    if Get(m, "posttype") == "edit" then Edit(Get(m, "meme_id"), MemeOf(m)) else Create(MemeOf(m), random)
  }

  /** The id an operation writes its row under. */
  ghost function TargetId(t: Table, op: Op): string
    requires op.Create? ==> Countable(t.Keys)
  {
    if op.Create? then NextId(t.Keys) else op.id
  }

  /** A created meme is fetched as it was posted exactly when none of its fields holds a NUL, and every other
      row is fetched as before. */
  lemma CreatedIsFetched(t: Table, meme: Meme, random: nat -> nat, other: string)
    requires Countable(t.Keys)
    ensures var (t', id) := (Apply(t, Create(meme, random)), NextId(t.Keys));
            && Fetched(t', id).Some?
            && (Fetched(t', id).value.meme == meme <==>
                Free(meme.name, {'\0'}) && Free(meme.image, {'\0'}) && Free(meme.top, {'\0'}) && Free(meme.bottom, {'\0'}))
            && (other != id ==> Fetched(t', other) == Fetched(t, other))
  {
    hide Countable, NextId, CString;
    CStringIsWhole(meme.name);
    CStringIsWhole(meme.image);
    CStringIsWhole(meme.top);
    CStringIsWhole(meme.bottom);
  }

  /** Deleting what was just created leaves the table as it was exactly when the creation replaced nothing:
      unless the greatest id was all nines and the numeral after it was taken. */
  lemma DeleteUndoesCreate(t: Table, meme: Meme, random: nat -> nat)
    requires Countable(t.Keys) && forall id | id in t :: IsNumeral(id)
    ensures var id := NextId(t.Keys);
            Apply(Apply(t, Create(meme, random)), Delete(id)) == t <==>
            !(t.Keys != {} && AllNines(TextMax(t.Keys)) && "1" + Zeros(|TextMax(t.Keys)|) in t)
  {
    hide Countable, NextId, AllNines;
    CreateOverwrites(t.Keys);
    var id := NextId(t.Keys);
    var t' := Apply(Apply(t, Create(meme, random)), Delete(id));
    assert id !in t';
    if id !in t { assert t' == t; }
  }

  /** A listed row shows id, texts, image and token as they were stored, when these hold no NUL. */
  lemma ListedColumns(t: Table, id: string)
    requires id in t && Free(id, {'\0'}) && Whole(t[id])
    ensures Listed(t, id) == (id, t[id]) && Fetched(t, id) == Some(t[id])
  {
    hide CString, Free;
    CStringIsWhole(id);
    WholeIsRead(t[id]);
  }

  predicate Whole(r: Row) {
    && Free(r.meme.name, {'\0'}) && Free(r.meme.image, {'\0'}) && Free(r.meme.top, {'\0'})
    && Free(r.meme.bottom, {'\0'}) && Free(r.token, {'\0'})
  }

  lemma WholeIsRead(r: Row)
    ensures Read(r) == r <==> Whole(r)
  {
    hide CString, Free;
    CStringIsWhole(r.meme.name);
    CStringIsWhole(r.meme.image);
    CStringIsWhole(r.meme.top);
    CStringIsWhole(r.meme.bottom);
    CStringIsWhole(r.token);
  }

  /** Whatever the table holds: a token with text in front of a dash is accepted exactly when a row with that text
      as id holds it; a token without a dash only if it is the master token. */
  lemma AuthorizedExactly(t: Table, front: string, back: string)
    requires front != "" && Free(front, {'-'})
    ensures Authorized(t, front) <==> front == "partialnotcomplete"
    ensures Authorized(t, front + "-" + back) <==>
            exists id :: id in t && CString(id) == front && CString(t[id].token) == front + "-" + back
    ensures !Authorized(t, "")
  {
    hide CString, Split;
    var token := front + "-" + back;
    assert token[|front|] == '-' && token[..|front|] == front;
    SplitFirst(token, {'-'}, |front|);
    assert '-' !in "partialnotcomplete" && '-' in token;
  }

  class MemeDatabase {
    var table: Table
    var locked: bool

    /** Adds a row under a fresh id, or writes the row with the given id anew, keeping its token. None stands
        for the exception that leaves the table alone when the greatest id cannot be counted up. */
    method AddToDatabase(meme_id: string, meme: Meme, newmeme: bool, random: nat -> nat) returns (written: Option<string>)
      requires newmeme ==> !Overflows(table.Keys)
      modifies this`table
      ensures written == None <==> newmeme && Throws(old(table).Keys)
      ensures written == None ==> table == old(table)
      ensures written.Some? ==>
                && written.value == (if newmeme then NextId(old(table).Keys) else meme_id)
                && table == Apply(old(table), if newmeme then Create(meme, random) else Edit(meme_id, meme))
    {
      hide CString, Stoi, ToText, Scramble;
      var id := "10000";
      var atoken := "00001";
      if newmeme {
        if table.Keys != {} {
          var max := SelectMax(table.Keys);
          TextMaxIs(max, table.Keys);
          var last := Stoi(CString(max));
          if last == None {
            return None;
          }
          id := ToText(last.value + 1);
        }
        var scramble := gen_access_token(|id|, random);
        atoken := id + "-" + scramble;
      } else {
        id := meme_id;
        if id in table {
          atoken := CString(table[id].token);
        }
      }
      table := table[id := Row(meme, atoken)];
      return Some(id);
    }

    /** The branch of the handler that stores a posted meme: over the row it names when the form says "edit",
        as a new one otherwise. An exception passes it by, and the lock stays taken. */
    method HandlePost(body: string, random: nat -> nat) returns (redirect_id: Option<string>)
      requires !locked
      requires BodyDefined(body) && (Get(ParsedBody(body), "posttype") != "edit" ==> !Overflows(table.Keys))
      modifies this
      ensures var m := ParsedBody(body);
              var meme := Meme(Get(m, "name"), Get(m, "image"), Get(m, "top"), Get(m, "bottom"));
              if Get(m, "posttype") == "edit" then
                && !locked && redirect_id == Some(Get(m, "meme_id"))
                && table == Apply(old(table), Edit(Get(m, "meme_id"), meme))
              else if Throws(old(table).Keys) then
                locked && redirect_id == None && table == old(table)
              else
                && !locked && redirect_id == Some(NextId(old(table).Keys))
                && table == Apply(old(table), Create(meme, random))
    {
      hide ParsedBody, BodyDefined, Throws, Overflows, NextId, Apply;
      var memeMap := parseRequestBody(body);
      var newMeme := true;
      if Get(memeMap, "posttype") == "edit" {
        newMeme := false;
      }
      locked := true;
      redirect_id := AddToDatabase(Get(memeMap, "meme_id"), MemeOf(memeMap), newMeme, random);
      if redirect_id.Some? {
        locked := false;
      }
    }

    method MemeDelete(meme_id: string)
      requires IsNumeral(meme_id)
      modifies this`table
      ensures table == Apply(old(table), Delete(meme_id))
    {
      table := table - {meme_id};
    }

    method GetMemeFromDatabase(id: string) returns (row: Option<Row>)
      ensures row == Fetched(table, id)
    {
      if id in table {
        return Some(Read(table[id]));
      }
      return None;
    }

    /** Every row once, in whatever order the database gives them. */
    method GetAllFromDatabase() returns (rows: seq<(string, Row)>, ghost order: seq<string>)
      ensures Lists(rows, table, order)
      ensures forall id :: id in order <==> id in table
      ensures |rows| == |table|
    {
      hide CString, Read, Listed;
      rows, order := [], [];
      var rest := table.Keys;
      while rest != {}
        invariant rest <= table.Keys && Lists(rows, table, order)
        invariant forall id :: id in order <==> id in table && id !in rest
        invariant |rows| + |rest| == |table|
        decreases |rest|
      {
        var id :| id in rest;
        rows := rows + [Listed(table, id)];
        order := order + [id];
        rest := rest - {id};
      }
    }

    method verifyTokenAuthentication(body: string) returns (isAuthorized: bool)
      requires BodyDefined(body)
      ensures isAuthorized == Authorized(table, Get(ParsedBody(body), "access-token"))
    {
      hide ParsedBody, CString, Split, Lists, BodyDefined;
      var memeMap := parseRequestBody(body);
      var token := Get(memeMap, "access-token");
      if |token| > 0 && token == "partialnotcomplete" {
        return true;
      }
      isAuthorized := |token| > 0 && '-' in token;
      if isAuthorized {
        var our_memes, order := GetAllFromDatabase();
        isAuthorized := false;
        var meme_id := Split(token, {'-'})[0];
        for i := 0 to |our_memes|
          invariant isAuthorized <==> exists j :: 0 <= j < i && our_memes[j].1.token == token && our_memes[j].0 == meme_id
        {
          if our_memes[i].1.token == token && our_memes[i].0 == meme_id {
            isAuthorized := true;
          }
        }
        RowsDecide(table, token, meme_id, our_memes, order);
      }
    }
  }

  lemma RowsDecide(t: Table, token: string, meme_id: string, rows: seq<(string, Row)>, order: seq<string>)
    requires Lists(rows, t, order) && forall id :: id in order <==> id in t
    ensures (exists j :: 0 <= j < |rows| && rows[j].1.token == token && rows[j].0 == meme_id) <==>
            exists id :: id in t && CString(t[id].token) == token && CString(id) == meme_id
  {
    hide CString;
    if id :| id in t && CString(t[id].token) == token && CString(id) == meme_id {
      var j :| 0 <= j < |order| && order[j] == id;
      assert rows[j].1.token == token && rows[j].0 == meme_id;
    }
    if j :| 0 <= j < |rows| && rows[j].1.token == token && rows[j].0 == meme_id {
      assert order[j] in t;
    }
  }

  lemma CStringOfNumeral(s: string)
    requires IsNumeral(s)
    ensures CString(s) == s
  {
    CStringIsWhole(s);
  }
}
