/** Sequential runs of the meme handler: what any number of requests, one after the other, keeps of the
    table, and where the textual counting of ids breaks down. */
module MemeRuns {
  import opened Text
  import opened UrlCodec
  import opened FormBody
  import opened Numerals
  import opened MemeStore

  function Creates(ops: seq<Op>): (n: nat)
    ensures n <= |ops|
  {
    if ops == [] then 0 else Creates(ops[..|ops|-1]) + (if ops[|ops|-1].Create? then 1 else 0)
  }

  /** The table after a run from the empty table; None once a create finds no id to count up from: then it
      throws and keeps the lock, or leaves the range of int. */
  ghost function Run(ops: seq<Op>): Option<Table> {
    if ops == [] then Some(map[])
    else
      match Run(ops[..|ops|-1])
      case None => None
      case Some(t) =>
        var op := ops[|ops|-1];
        if op.Create? && !Countable(t.Keys) then None else Some(Apply(t, op))
  }

  /** Every edit of the run names an id that is live at that moment. */
  ghost predicate EditsLive(ops: seq<Op>) {
    ops != [] ==>
      var (before, op) := (ops[..|ops|-1], ops[|ops|-1]);
      EditsLive(before) && (op.Edit? && Run(before).Some? ==> op.id in Run(before).value)
  }

  /** Deletes that met their row. */
  ghost function Deleted(ops: seq<Op>): (n: nat)
    ensures n <= |ops|
  {
    if ops == [] then 0
    else
      var (before, op) := (ops[..|ops|-1], ops[|ops|-1]);
      Deleted(before) + (if op.Delete? && Run(before).Some? && op.id in Run(before).value then 1 else 0)
  }

  /** Sequential runs of at most 90001 creates: every live id is a numeral of the range given out so far,
      every token is made for its row's id, and no row was ever lost but by a delete. */
  lemma {:induction false} RunKeeps(ops: seq<Op>)
    requires EditsLive(ops) && Creates(ops) <= 90001
    ensures Run(ops).Some?
    ensures var t := Run(ops).value;
            IdsWithin(t.Keys, Creates(ops)) && TokensFit(t) && |t| == Creates(ops) - Deleted(ops)
  {
    hide IdsWithin, TokensFit, Apply, Countable;
    if ops != [] {
      var (before, op) := (ops[..|ops|-1], ops[|ops|-1]);
      RunKeeps(before);
      var (t, n) := (Run(before).value, Creates(before));
      match op
      case Create(meme, random) => CreateKeeps(t, n, meme, random);
      case Edit(id, meme) => EditKeeps(t, n, id, meme);
      case Delete(id) => DeleteKeeps(t, n, id);
    } else {
      NothingYet();
      assert Run(ops).value.Keys == {};
    }
  }

  lemma RunIdsHaveFiveDigits(ops: seq<Op>)
    requires EditsLive(ops) && Creates(ops) <= 90000
    ensures Run(ops).Some? && forall id | id in Run(ops).value :: |id| == 5
  {
    hide IdsWithin, TokensFit, Run, EditsLive;
    RunKeeps(ops);
    forall id | id in Run(ops).value ensures |id| == 5 {
      var k := FiveDigitIds(Run(ops).value.Keys, Creates(ops), id);
    }
  }

  lemma NothingYet()
    ensures IdsWithin({}, 0) && TokensFit(map[])
  {
  }

  lemma CreateKeeps(t: Table, n: nat, meme: Meme, random: nat -> nat)
    requires IdsWithin(t.Keys, n) && TokensFit(t) && n <= 90000
    ensures Countable(t.Keys)
    ensures var t' := Apply(t, Create(meme, random));
            IdsWithin(t'.Keys, n + 1) && TokensFit(t') && |t'| == |t| + 1
  {
    hide Countable, NextId, IsNumeral, TokenFor, Scramble, TokensFit, IdsWithin, Numeral;
    NextIdIsGreatest(t.Keys, n);
    var id := NextId(t.Keys);
    var k: nat :| 10000 <= k < 10000 + (n + 1) && id == Numeral(k);
    NumeralShape(k);
    TokenIsFor(id, random);
    IdAdded(t.Keys, n, k);
    var t' := Apply(t, Create(meme, random));
    TokensStay(t, id, t'[id]);
    assert t'.Keys == t.Keys + {id};
  }

  lemma TokensStay(t: Table, id: string, row: Row)
    requires TokensFit(t) && IsNumeral(id) && TokenFor(id, row.token)
    ensures TokensFit(t[id := row])
  {
    hide IsNumeral, TokenFor;
  }

  lemma IdAdded(ids: set<string>, n: nat, k: nat)
    requires IdsWithin(ids, n) && 10000 <= k < 10000 + (n + 1)
    ensures IdsWithin(ids + {Numeral(k)}, n + 1)
  {
    forall x | x in ids + {Numeral(k)} ensures exists j: nat :: 10000 <= j < 10000 + (n + 1) && x == Numeral(j) {
      if x in ids {
        var j: nat :| 10000 <= j < 10000 + n && x == Numeral(j);
      }
    }
  }

  lemma EditKeeps(t: Table, n: nat, id: string, meme: Meme)
    requires IdsWithin(t.Keys, n) && TokensFit(t) && id in t
    ensures var t' := Apply(t, Edit(id, meme));
            IdsWithin(t'.Keys, n) && TokensFit(t') && |t'| == |t| && t'[id].token == t[id].token
  {
    hide IdsWithin, IsNumeral, TokenFor, CString;
    TokenSplits(id, t[id].token);
    var t' := Apply(t, Edit(id, meme));
    TokensStay(t, id, t'[id]);
    assert t'.Keys == t.Keys;
  }

  lemma DeleteKeeps(t: Table, n: nat, id: string)
    requires IdsWithin(t.Keys, n) && TokensFit(t)
    ensures var t' := Apply(t, Delete(id));
            IdsWithin(t'.Keys, n) && TokensFit(t') && |t'| == |t| - (if id in t then 1 else 0)
  {
    hide IsNumeral, TokenFor, Numeral;
    var t' := Apply(t, Delete(id));
    assert t'.Keys == t.Keys - {id};
    assert id in t ==> |t.Keys - {id}| == |t.Keys| - 1;
    assert id !in t ==> t.Keys - {id} == t.Keys;
  }

  // ---------- past the bound ----------

  ghost function FirstIds(n: nat): set<string> {
    set k: nat | 10000 <= k < 10000 + n :: Numeral(k)
  }

  lemma NinetyNine()
    ensures Numeral(99999) == "99999" && AllNines("99999") && Numeral(100000) == "100000"
    ensures Value("99999") == 99999 && IsNumeral("99999") && "1" + Zeros(5) == "100000"
  {
    assert Digit(9) == '9' && Digit(0) == '0' && Numeral(9) == "9";
    hide Numeral, Value, IsNumeral, AllNines, Zeros;
    NumeralSnoc(9, 9);
    NumeralSnoc(99, 9);
    NumeralSnoc(999, 9);
    NumeralSnoc(9999, 9);
    TenThousand();
    NumeralSnoc(10000, 0);
    ValueOfNumeral(99999);
    NumeralShape(99999);
    Nines();
  }

  lemma Nines()
    ensures AllNines("99999") && "1" + Zeros(5) == "100000"
  {
    assert Zeros(5) == "00000";
  }

  /** The greatest text among the ids given out first. From the 90001st on it stays "99999". */
  lemma FirstIdsMax(n: nat)
    requires 0 < n <= 90001
    ensures FirstIds(n) != {} && TextMax(FirstIds(n)) == Numeral(if n <= 90000 then 9999 + n else 99999)
  {
    var top := if n <= 90000 then 9999 + n else 99999;
    var m := Numeral(top);
    forall x | x in FirstIds(n) ensures TextAtMost(x, m) {
      var k := AmongFirst(x, n);
      AtMostTop(k, top);
    }
    assert m in FirstIds(n);
    TextMaxIs(m, FirstIds(n));
  }

  lemma AtMostTop(k: nat, top: nat)
    requires 10000 <= k <= 100000 && 10000 <= top <= 99999 && (k <= top || (k == 100000 && top == 99999))
    ensures TextAtMost(Numeral(k), Numeral(top))
  {
    FiveDigits(top);
    hide Numeral;
    if k < 100000 {
      FiveDigits(k);
      EqualLengthOrder(Numeral(k), Numeral(top));
      ValueOfNumeral(k);
      ValueOfNumeral(top);
    } else {
      NinetyNine();
    }
  }

  lemma FirstIdsNext(n: nat)
    requires n <= 90001
    ensures Countable(FirstIds(n)) && NextId(FirstIds(n)) == Numeral(if n <= 90000 then 10000 + n else 100000)
  {
    if n == 0 {
      TenThousand();
      assert FirstIds(0) == {};
    } else {
      var top := if n <= 90000 then 9999 + n else 99999;
      FirstIdsMax(n);
      assert Numeral(top) in FirstIds(n);
      ValueOfNumeral(top);
      NumeralShape(top);
      NextOfNumeral(FirstIds(n));
    }
  }

  lemma {:induction false} OnlyCreates(ops: seq<Op>)
    requires |ops| <= 90001 && forall i | 0 <= i < |ops| :: ops[i].Create?
    ensures Run(ops).Some? && Run(ops).value.Keys == FirstIds(|ops|) && EditsLive(ops)
  {
    if ops == [] {
      assert FirstIds(0) == {};
    } else {
      hide Countable, NextId;
      var (before, op) := (ops[..|ops|-1], ops[|ops|-1]);
      OnlyCreates(before);
      FirstIdsNext(|before|);
      FirstIdsGrow(|before|);
      var t := Run(before).value;
      assert Apply(t, op).Keys == t.Keys + {NextId(t.Keys)};
    }
  }

  lemma FirstIdsGrow(n: nat)
    ensures FirstIds(n) + {Numeral(10000 + n)} == FirstIds(n + 1)
  {
    var (ids, more) := (FirstIds(n), FirstIds(n + 1));
    forall x | x in more ensures x in ids + {Numeral(10000 + n)} {
      var k: nat :| 10000 <= k < 10000 + (n + 1) && x == Numeral(k);
    }
  }

  /** The next create after those 90001 can be given an id that is live: with nothing else done, its row
      replaces the one there. */
  lemma NextCreateOverwrites(ops: seq<Op>, meme: Meme, random: nat -> nat)
    requires |ops| == 90001 && forall i | 0 <= i < |ops| :: ops[i].Create?
    ensures Run(ops).Some? && Countable(Run(ops).value.Keys)
    ensures var t := Run(ops).value;
            NextId(t.Keys) == "100000" && "100000" in t && Apply(t, Create(meme, random)).Keys == t.Keys
  {
    hide Countable, Run, NextId;
    OnlyCreates(ops);
    FirstIdsNext(90001);
    NinetyNine();
    assert Numeral(100000) in FirstIds(90001);
  }

  // ---------- ids given out again ----------

  /** The ids given out by the creates of a run. */
  ghost function Issued(ops: seq<Op>): set<string> {
    if ops == [] then {}
    else
      var (before, op) := (ops[..|ops|-1], ops[|ops|-1]);
      Issued(before) +
      (if op.Create? && Run(before).Some? && Countable(Run(before).value.Keys) then {NextId(Run(before).value.Keys)} else {})
  }

  /** Every edit of the run names an id given out before, live or not. */
  ghost predicate EditsIssued(ops: seq<Op>) {
    ops != [] ==>
      var (before, op) := (ops[..|ops|-1], ops[|ops|-1]);
      EditsIssued(before) && (op.Edit? ==> op.id in Issued(before))
  }

  lemma AmongFirst(x: string, m: nat) returns (k: nat)
    requires x in FirstIds(m)
    ensures 10000 <= k < 10000 + m && x == Numeral(k)
  {
    hide Numeral;
    k :| 10000 <= k < 10000 + m && x == Numeral(k);
  }

  /** Among ids from the first `m`, the next one is among them again unless the greatest is the last of them. */
  lemma NextAmongFirst(ids: set<string>, m: nat) returns (j: nat)
    requires ids <= FirstIds(m) && Countable(ids)
    ensures j <= m && NextId(ids) == Numeral(10000 + j)
    ensures j == m <==> m == 0 || (ids != {} && TextMax(ids) == Numeral(9999 + m))
  {
    hide Countable, Numeral, FirstIds, IsTextMax, Value;
    TenThousand();
    if ids == {} {
      j := 0;
    } else {
      hide NextId;
      TextMaxAmong(ids);
      var k := AmongFirst(TextMax(ids), m);
      NumeralShape(k);
      NextOfNumeral(ids);
      ValueOfNumeral(k);
      ValueOfNumeral(9999 + m);
      j := k + 1 - 10000;
    }
  }

  lemma InFirst(m: nat, j: nat)
    ensures Numeral(10000 + j) in FirstIds(m) <==> j < m
  {
    hide Numeral;
    if j < m { assert Numeral(10000 + j) in FirstIds(m); }
    if Numeral(10000 + j) in FirstIds(m) {
      var k: nat :| 10000 <= k < 10000 + m && Numeral(10000 + j) == Numeral(k);
      ValueOfNumeral(k);
      ValueOfNumeral(10000 + j);
    }
  }

  lemma KeysAfter(t: Table, op: Op)
    requires op.Create? ==> Countable(t.Keys)
    ensures Apply(t, op).Keys == if op.Delete? then t.Keys - {op.id} else t.Keys + {TargetId(t, op)}
  {
    hide Countable, NextId, Scramble, CString;
  }

  lemma LastStep(ops: seq<Op>)
    requires ops != [] && Run(ops).Some?
    ensures var (before, op) := (ops[..|ops|-1], ops[|ops|-1]);
            && Run(before).Some?
            && (op.Create? ==> Countable(Run(before).value.Keys))
            && Run(ops).value == Apply(Run(before).value, op)
            && Issued(ops) == Issued(before) + if op.Create? then {NextId(Run(before).value.Keys)} else {}
  {
    hide Countable, NextId, Apply;
  }

  /** Whatever was deleted and edited in between, the ids given out are the first ones, without a gap, in a run
      of any length. */
  lemma {:induction false} IssuedAreFirst(ops: seq<Op>) returns (m: nat)
    requires EditsIssued(ops) && Run(ops).Some?
    ensures Issued(ops) == FirstIds(m) && Run(ops).value.Keys <= Issued(ops) && m <= Creates(ops)
  {
    hide Countable, NextId, FirstIds, Numeral, Apply, Run, Issued;
    if ops == [] {
      m := 0;
      NothingIssued();
    } else {
      var (before, op) := (ops[..|ops|-1], ops[|ops|-1]);
      LastStep(ops);
      m := IssuedAreFirst(before);
      var t := Run(before).value;
      KeysAfter(t, op);
      if op.Create? {
        var j := NextAmongFirst(t.Keys, m);
        InFirst(m, j);
        FirstIdsGrow(m);
        if j == m {
          m := m + 1;
        }
      }
    }
  }

  lemma NothingIssued()
    ensures FirstIds(0) == {} && Issued([]) == {} && Run([]) == Some(map[])
  {
  }

  /** An id given out before is given out again exactly when something was given out and the greatest live id as
      text is not the last of what was. Here `m` ids have been given out, the last of them 9999 + m. */
  lemma IdGivenOutAgain(ops: seq<Op>) returns (m: nat)
    requires EditsIssued(ops) && Run(ops).Some? && Countable(Run(ops).value.Keys)
    ensures Issued(ops) == FirstIds(m) && m <= Creates(ops)
    ensures var live := Run(ops).value.Keys;
            NextId(live) in Issued(ops) <==> m > 0 && !(live != {} && TextMax(live) == Numeral(9999 + m))
  {
    hide Countable, NextId, Run, EditsIssued, Issued, Numeral;
    m := IssuedAreFirst(ops);
    var j := NextAmongFirst(Run(ops).value.Keys, m);
    InFirst(m, j);
  }

  lemma {:induction false} EarlyRunsGoOn(ops: seq<Op>)
    requires EditsIssued(ops) && Creates(ops) <= 90001
    ensures Run(ops).Some?
    ensures Creates(ops) <= 90000 ==> Countable(Run(ops).value.Keys)
  {
    if ops == [] {
      assert Run(ops).value.Keys == {};
    } else {
      hide Countable;
      EarlyRunsGoOn(ops[..|ops|-1]);
      if Creates(ops) <= 90000 {
        var m := IssuedAreFirst(ops);
        NextIdIsGreatest(Run(ops).value.Keys, m);
      }
    }
  }

  /** Up to the 90000th create that is the case exactly when the greatest id given out is no longer live. */
  lemma EarlyIdGivenOutAgain(ops: seq<Op>)
    requires EditsIssued(ops) && Creates(ops) <= 90000
    ensures Run(ops).Some? && Countable(Run(ops).value.Keys)
    ensures var t := Run(ops).value;
            NextId(t.Keys) in Issued(ops) <==> Issued(ops) != {} && TextMax(Issued(ops)) !in t
  {
    hide Countable, NextId, Run, EditsIssued, Issued, Numeral;
    EarlyRunsGoOn(ops);
    var m := IdGivenOutAgain(ops);
    var ids := Run(ops).value.Keys;
    assert ids <= FirstIds(m) by { var m' := IssuedAreFirst(ops); }
    if m == 0 {
      assert FirstIds(0) == {};
    } else {
      FirstIdsMax(m);
      LastIsGreatest(ids, m);
    }
  }

  /** Among five-digit ids the last of the first `m` is live exactly when it is the greatest live one. */
  lemma LastIsGreatest(ids: set<string>, m: nat)
    requires ids <= FirstIds(m) && 0 < m <= 90000
    ensures Numeral(9999 + m) in ids <==> ids != {} && TextMax(ids) == Numeral(9999 + m)
  {
    hide Numeral, Countable, NextId;
    FirstIdsMax(m);
    if Numeral(9999 + m) in ids {
      TextMaxIs(Numeral(9999 + m), ids);
    }
  }

  /** A run in which it happens: the only meme is deleted, and its id is given out again. */
  lemma DeletedIdReturns(meme: Meme, random: nat -> nat)
    ensures var ops := [Create(meme, random), Delete("10000")];
            && EditsIssued(ops) && Run(ops).Some? && Countable(Run(ops).value.Keys)
            && "10000" in Issued(ops) && NextId(Run(ops).value.Keys) == "10000"
  {
    var create := Create(meme, random);
    var ops := [create, Delete("10000")];
    assert ops[..1] == [create] && [create][..0] == [];
    assert Run([]) == Some(map[]) && Countable({});
    assert Run([create]).value.Keys == {"10000"};
    assert Run(ops).value.Keys == {};
    assert Issued([create]) == {"10000"};
  }

  // ---------- creates that throw ----------

  ghost predicate Edited(ops: seq<Op>, x: string) {
    exists k :: 0 <= k < |ops| && ops[k].Edit? && ops[k].id == x
  }

  lemma EditedMore(ops: seq<Op>, op: Op, x: string)
    ensures Edited(ops + [op], x) <==> Edited(ops, x) || (op.Edit? && op.id == x)
  {
    var more := ops + [op];
    if k :| 0 <= k < |ops| && ops[k].Edit? && ops[k].id == x {
      assert more[k] == ops[k];
    }
    assert more[|ops|] == op;
  }

  /** Every id a create gives out can be counted on from, up to the limit of int. */
  lemma GivenOutReads(ids: set<string>)
    requires Countable(ids)
    ensures Stoi(CString(NextId(ids))).Some?
  {
    hide CString, Numeral, Stoi;
    if ids == {} {
      TenThousand();
      GivenOutIsWhole(10000);
    } else {
      StoiFits(CString(TextMax(ids)));
      GivenOutIsWhole(LastNumber(ids).value + 1);
    }
  }

  lemma StoiFits(s: string)
    ensures Stoi(s).Some? ==> FitsInt(Stoi(s).value)
  {
  }

  lemma GivenOutIsWhole(n: int)
    requires FitsInt(n)
    ensures Stoi(CString(ToText(n))) == Some(n)
  {
    hide Stoi, Numeral, CString;
    assert Digits(Numeral(if n < 0 then -n else n));
    CStringIsWhole(ToText(n));
    StoiOfText(n);
  }

  /** After any run, an id that cannot be read was written by an edit. */
  lemma {:induction false} LiveIdsRead(ops: seq<Op>)
    requires Run(ops).Some?
    ensures forall x | x in Run(ops).value :: Edited(ops, x) || Stoi(CString(x)).Some?
  {
    hide Countable, NextId, Apply, Run, CString, Stoi, Edited;
    if ops == [] {
      NothingIssued();
    } else {
      var (before, op) := (ops[..|ops|-1], ops[|ops|-1]);
      assert ops == before + [op];
      LastStep(ops);
      LiveIdsRead(before);
      KeysAfter(Run(before).value, op);
      if op.Create? { GivenOutReads(Run(before).value.Keys); }
      forall x | x in Run(ops).value ensures Edited(ops, x) || Stoi(CString(x)).Some? {
        EditedMore(before, op, x);
      }
    }
  }

  /** After any run, with edits naming any text, the next create throws, and the lock stays taken, exactly when
      the greatest live id was written by an edit and has no int in front. */
  lemma CreateThrowsExactly(ops: seq<Op>)
    requires Run(ops).Some?
    ensures var live := Run(ops).value.Keys;
            Throws(live) <==> exists x :: IsTextMax(x, live) && Edited(ops, x) && Stoi(CString(x)) == None
  {
    hide Run, CString, Stoi, Edited, IsTextMax;
    LiveIdsRead(ops);
    var live := Run(ops).value.Keys;
    if Throws(live) {
      TextMaxAmong(live);
      assert IsTextMax(TextMax(live), live) && Edited(ops, TextMax(live));
    }
    if x :| IsTextMax(x, live) && Edited(ops, x) && Stoi(CString(x)) == None {
      TextMaxIs(x, live);
      InTextMax(x, live);
    }
  }

  /** A run after which it does: an edit names an id without digits. */
  lemma EditBlocksCreates(meme: Meme)
    ensures Run([Edit("x", meme)]).Some? && Throws(Run([Edit("x", meme)]).value.Keys)
  {
    hide Stoi, CString, TextMax;
    var ops := [Edit("x", meme)];
    assert ops[..0] == [] && Run([]) == Some(map[]);
    assert Run(ops).value.Keys == {"x"};
    TextMaxIs("x", {"x"});
    LetterUnread();
  }

  lemma LetterUnread()
    ensures Stoi(CString("x")) == None
  {
    hide CString, LeadingNumber;
    CStringIsWhole("x");
    LetterInFront("x");
  }

  lemma InTextMax(x: string, ids: set<string>)
    requires IsTextMax(x, ids)
    ensures x in ids
  {
  }

  // ---------- tokens ----------

  /** When every token is made for its row, a token other than the master token is accepted exactly when
      a live row holds it, and no two rows hold the same. */
  lemma TokenDecides(t: Table, token: string)
    requires TokensFit(t) && token != "partialnotcomplete"
    ensures Authorized(t, token) <==> exists id :: id in t && t[id].token == token
    ensures forall a, b | a in t && b in t && t[a].token == t[b].token :: a == b
  {
    hide Split, CString;
    forall id | id in t
      ensures CString(t[id].token) == t[id].token && CString(id) == id && Split(t[id].token, {'-'})[0] == id
      ensures t[id].token != "" && '-' in t[id].token
    {
      TokenSplits(id, t[id].token);
      CStringOfNumeral(id);
    }
  }

  /** The body of an edit or delete form that carries a token is read back as that token. */
  lemma TokenBody(token: string)
    requires Free(token, {'&', '='})
    ensures var body := "access-token=" + token;
            BodyDefined(body) && Get(ParsedBody(body), "access-token") == token
  {
    hide Split, Find;
    var body := "access-token=" + token;
    SplitWhole(body, {'&'});
    TokenItem(token);
    AccessMentioned(token);
  }

  lemma TokenItem(token: string)
    requires Free(token, {'&', '='})
    ensures KeyValue("access-token=" + token) == ["access-token", token]
  {
    hide Split;
    assert "access-token=" + token == "access-token" + "=" + token;
    assert Free(token, {'='}) && Free("access-token", {'='});
    SplitStep("access-token", "=", token, {'='});
    SplitWhole(token, {'='});
  }

  lemma AccessMentioned(token: string)
    ensures Contains("access-token=" + token, "access")
  {
    var body := "access-token=" + token;
    assert body[..6] == "access";
    ContainsPrefix(body, "access");
  }

  // ---------- from the form to the edit page ----------

  lemma {:induction false} CStringOfEncoded(s: string)
    ensures CString(HtmlEncoded(s)) == HtmlEncoded(CString(s))
  {
    hide Encode, Span;
    CStringEnds(s);
    CStringEnds(HtmlEncoded(s));
    NothingEncoded();
    if s != "" && s[0] == '\0' {
      assert s == [s[0]] + s[1..];
      EncodeHead(s[0], s[1..], ALL);
    } else if s != "" {
      CStringOfEncoded(s[1..]);
      var (code, later) := (Code(s[0], ALL), HtmlEncoded(s[1..]));
      assert s == [s[0]] + s[1..];
      EncodeHead(s[0], s[1..], ALL);
      CStringAfter(code, later);
      CStringAfter([s[0]], s[1..]);
      EncodeHead(s[0], CString(s[1..]), ALL);
    }
  }

  lemma CStringEnds(s: string)
    ensures s == "" || s[0] == '\0' ==> CString(s) == ""
  {
  }

  /** What the edit page shows for a posted value. */
  function Shown(value: string): string {
    LaterDecoded(CString(ReplaceFirst(PlusToSpace(value), "%2F", "/")))
  }

  /** The page shows the posted text exactly when it holds no plus, no literal "%2F", no NUL, and none of
      the five entities. */
  lemma ShownExactly(value: string)
    ensures Shown(value) == value <==>
            Free(value, {'+', '\0'}) && !Contains(value, "%2F") && EntityFree(value)
  {
    hide LaterDecoded, CString, ReplaceFirst, PlusToSpace, EntityFree, Contains, Free;
    var spaced := PlusToSpace(value);
    var slashed := ReplaceFirst(spaced, "%2F", "/");
    var cut := CString(slashed);
    assert |spaced| == |value|;
    ReplaceFirstExact(spaced);
    CStringShrinks(slashed);
    LaterDecodedShrinks(cut);
    PlusToSpaceExact(value);
    FreeBoth(value);
  }

  lemma FreeBoth(s: string)
    ensures Free(s, {'+', '\0'}) <==> Free(s, {'+'}) && Free(s, {'\0'})
  {
  }

  lemma CStringShrinks(s: string)
    ensures |CString(s)| <= |s| && (|CString(s)| == |s| ==> CString(s) == s)
    ensures CString(s) == s <==> Free(s, {'\0'})
  {
    CStringIsWhole(s);
  }

  /** A correctly encoded form of at least three pairs is posted, stored as a new meme or over an old one,
      fetched by its id and shown for editing: name, top and bottom text come back as `Shown` says. */
  lemma FormToEditPage(form: seq<Pair>, t: Table, random: nat -> nat,
                       name: string, top: string, bottom: string, e1: string, e2: string, e3: string)
    requires |form| >= 3 && forall i | 0 <= i < |form| :: ValidPair(form[i])
    requires LastValue(form, "name") == Some(e1) && FormEncodes(e1, name)
    requires LastValue(form, "top") == Some(e2) && FormEncodes(e2, top)
    requires LastValue(form, "bottom") == Some(e3) && FormEncodes(e3, bottom)
    requires var body := Join(Items(form), "&");
             BodyDefined(body) && PostedOp(body, random).Create? ==> Countable(t.Keys)
    ensures var body := Join(Items(form), "&");
            && BodyDefined(body)
            && var op := PostedOp(body, random);
               var row := Fetched(Apply(t, op), TargetId(t, op));
            && row.Some?
            && HtmlDecoded(row.value.meme.name) == Shown(name)
            && HtmlDecoded(row.value.meme.top) == Shown(top)
            && HtmlDecoded(row.value.meme.bottom) == Shown(bottom)
  {
    hide ParsedBody, BodyDefined, ValidPair, FormEncodes, HtmlDecoded, HtmlEncoded, LaterDecoded, CString,
         Countable, Join, NextId, LastValue, ReplaceFirst, PlusToSpace;
    PostedField(form, "name", e1, name);
    PostedField(form, "top", e2, top);
    PostedField(form, "bottom", e3, bottom);
    StoredField(ReplaceFirst(PlusToSpace(name), "%2F", "/"));
    StoredField(ReplaceFirst(PlusToSpace(top), "%2F", "/"));
    StoredField(ReplaceFirst(PlusToSpace(bottom), "%2F", "/"));
  }

  lemma StoredField(s: string)
    ensures HtmlDecoded(CString(HtmlEncoded(s))) == LaterDecoded(CString(s))
  {
    CStringOfEncoded(s);
    DecodeOfEncode(CString(s));
  }
}
