/** Filling a page: the placeholders of a meme are replaced one kind after another, each time all over the page.
    That is what replacing all of them at once would give exactly when no later replacement changes a value
    that is already on the page. */
module PageTemplate {
  import opened Text

  datatype Slot = Id | Name | Img | Top | Bot | Atoken

  const ALL_SLOTS := {Id, Name, Img, Top, Bot, Atoken}

  function Placeholder(s: Slot): (p: string)
    ensures 14 <= |p| <= 18 && p[0] == 'm' && p[..12] == "meme_object_"
    ensures Letters(p)
  {
    match s
    case Id => "meme_object_id"
    case Name => "meme_object_name"
    case Img => "meme_object_img"
    case Top => "meme_object_top"
    case Bot => "meme_object_bot"
    case Atoken => "meme_object_atoken"
  }

  datatype Values = Values(id: string, name: string, img: string, top: string, bot: string, atoken: string) {
    function Of(s: Slot): string {
      match s
      case Id => id
      case Name => name
      case Img => img
      case Top => top
      case Bot => bot
      case Atoken => atoken
    }
  }

  predicate IsLetter(c: char) { 'a' <= c <= 'z' || c == '_' }

  predicate Letters(s: string) { forall i | 0 <= i < |s| :: IsLetter(s[i]) }

  /** The slot whose placeholder starts the page. */
  function SlotAt(page: string): (r: Option<Slot>)
    ensures r.Some? ==> Placeholder(r.value) <= page
    ensures r.None? ==> forall s :: !(Placeholder(s) <= page)
  {
    if Placeholder(Id) <= page then Some(Id)
    else if Placeholder(Name) <= page then Some(Name)
    else if Placeholder(Img) <= page then Some(Img)
    else if Placeholder(Top) <= page then Some(Top)
    else if Placeholder(Bot) <= page then Some(Bot)
    else if Placeholder(Atoken) <= page then Some(Atoken)
    else None
  }

  /** Simultaneous substitution: every placeholder of a slot in `done` becomes that slot's value. */
  function Fill(page: string, done: set<Slot>, v: Values): string {
    if page == "" then ""
    else
      match SlotAt(page)
      case Some(s) =>
        var p := Placeholder(s);
        (if s in done then v.Of(s) else p) + Fill(page[|p|..], done, v)
      case None => [page[0]] + Fill(page[1..], done, v)
  }

  /** One replacement after the other, in the given order. */
  function FillInOrder(page: string, order: seq<Slot>, v: Values): string {
    if order == [] then page
    else
      var last := order[|order|-1];
      ReplaceAll(FillInOrder(page, order[..|order|-1], v), Placeholder(last), v.Of(last))
  }

  /** Every placeholder stands between characters that occur in no placeholder; `start` says whether the
      page itself may begin with one. */
  ghost predicate Bracketed(page: string, start: bool) {
    forall i: nat, s {:trigger OccursAt(page, Placeholder(s), i)} | OccursAt(page, Placeholder(s), i) ::
      BracketedAt(page, start, i, |Placeholder(s)|)
  }

  predicate BracketedAt(page: string, start: bool, i: nat, n: nat)
    requires i + n <= |page|
  {
    (if i == 0 then start else !IsLetter(page[i-1])) && (i + n == |page| || !IsLetter(page[i+n]))
  }

  lemma BracketedRest(page: string, start: bool, n: nat)
    requires Bracketed(page, start) && 0 < n <= |page|
    ensures Bracketed(page[n..], !IsLetter(page[n-1]))
  {
    var rest := page[n..];
    forall i: nat, s | OccursAt(rest, Placeholder(s), i)
      ensures BracketedAt(rest, !IsLetter(page[n-1]), i, |Placeholder(s)|)
    {
      assert rest[i..] == page[n+i..];
      assert OccursAt(page, Placeholder(s), n + i);
    }
  }

  lemma {:induction false} FillNone(page: string, v: Values)
    ensures Fill(page, {}, v) == page
  {
    hide Placeholder;
    if page != "" {
      match SlotAt(page)
      case Some(s) =>
        var p := Placeholder(s);
        assert page == p + page[|p|..];
        FillNone(page[|p|..], v);
      case None =>
        assert page == [page[0]] + page[1..];
        FillNone(page[1..], v);
    }
  }

  /** Right after a letter no placeholder is filled in, so letters in front stay what they were. */
  lemma {:induction false} LettersStay(w: string, page: string, done: set<Slot>, v: Values)
    requires Letters(w) && Bracketed(page, false) && w <= Fill(page, done, v)
    ensures w <= page
  {
    if w != "" {
      NotFirst(page, false);
      var filled := Fill(page[1..], done, v);
      assert w == [w[0]] + w[1..] && page == [page[0]] + page[1..];
      assert Fill(page, done, v) == [page[0]] + filled;
      assert w[1..] <= filled by { assert ([page[0]] + filled)[1..] == filled; }
      BracketedRest(page, false, 1);
      assert Letters(w[1..]);
      LettersStay(w[1..], page[1..], done, v);
    }
  }

  lemma NotFirst(page: string, start: bool)
    requires Bracketed(page, start) && !start
    ensures SlotAt(page).None?
  {
    assert page[0..] == page;
    if SlotAt(page).Some? {
      var s := SlotAt(page).value;
      assert OccursAt(page, Placeholder(s), 0);
      assert false;
    }
  }

  predicate Stops(s: string) { s == "" || !IsLetter(s[0]) }

  lemma FillStops(page: string, done: set<Slot>, v: Values)
    requires Stops(page)
    ensures Stops(Fill(page, done, v))
  {
  }

  lemma LettersAt(w: string, s: string, i: nat)
    requires i <= |s| && w <= s[i..]
    ensures forall j | i <= j < i + |w| :: s[j] == w[j-i]
  {
  }

  /** A placeholder cannot reach from a text into what follows it, if that does not begin with a letter. */
  lemma WithinText(x: string, later: string, k: Slot, i: nat)
    requires Stops(later) && i < |x| && Placeholder(k) <= (x + later)[i..]
    ensures i + |Placeholder(k)| <= |x| && Placeholder(k) <= x[i..]
  {
    var p := Placeholder(k);
    LettersAt(p, x + later, i);
    assert later != "" ==> (x + later)[|x|] == later[0];
    assert i + |p| <= |x|;
    assert x[i..][..|p|] == (x + later)[i..][..|p|];
  }

  lemma NotInPlaceholder(j: Slot, k: Slot, i: nat)
    requires i < |Placeholder(j)| && Placeholder(k) <= Placeholder(j)[i..]
    ensures i == 0 && j == k
  {
    OnlyAtStart(j, k, i);
    var (p, q) := (Placeholder(j), Placeholder(k));
    assert p[0..] == p;
    assert q[12] == p[12] && q[13] == p[13];
  }

  lemma OnlyAtStart(j: Slot, k: Slot, i: nat)
    requires i < |Placeholder(j)| && Placeholder(k) <= Placeholder(j)[i..]
    ensures i == 0
  {
    hide Placeholder;
    var (p, q) := (Placeholder(j), Placeholder(k));
    assert |q| <= |p| - i && i <= 4;
    assert q == p[i..][..|q|];
    assert q[0] == p[i] && q[2] == p[i+2];
    assert p[1] == p[..12][1] && p[3] == p[..12][3] && p[4] == p[..12][4] && q[2] == q[..12][2];
  }

  /** A pass over a text and what follows it works on each of them alone. */
  lemma {:induction false} PassSplits(x: string, later: string, k: Slot, r: string)
    requires Stops(later)
    ensures ReplaceAll(x + later, Placeholder(k), r) ==
            ReplaceAll(x, Placeholder(k), r) + ReplaceAll(later, Placeholder(k), r)
    decreases |x|
  {
    hide ReplaceAll, Placeholder;
    var p := Placeholder(k);
    if x == "" {
      ReplaceInNothing(p, r);
      assert x + later == later;
    } else if p <= x {
      var rest := x[|p|..];
      PassSplits(rest, later, k, r);
      assert x == p + rest;
      Regroup(p, rest, later);
      ReplaceHead(p, rest, r);
      ReplaceHead(p, rest + later, r);
      Regroup(r, ReplaceAll(rest, p, r), ReplaceAll(later, p, r));
    } else {
      if p <= x + later {
        assert (x + later)[0..] == x + later && x[0..] == x;
        WithinText(x, later, k, 0);
      }
      PassSplits(x[1..], later, k, r);
      assert x == [x[0]] + x[1..];
      Regroup([x[0]], x[1..], later);
      ReplaceNotHere(x[0], x[1..], p, r);
      ReplaceNotHere(x[0], x[1..] + later, p, r);
      Regroup([x[0]], ReplaceAll(x[1..], p, r), ReplaceAll(later, p, r));
    }
  }

  /** A pass for one slot leaves the placeholders of the others alone. */
  lemma OtherPlaceholder(j: Slot, k: Slot, r: string)
    requires j != k
    ensures ReplaceAll(Placeholder(j), Placeholder(k), r) == Placeholder(j)
  {
    forall i: nat ensures !OccursAt(Placeholder(j), Placeholder(k), i) {
      if i < |Placeholder(j)| && Placeholder(k) <= Placeholder(j)[i..] { NotInPlaceholder(j, k, i); }
    }
    ReplaceAbsent(Placeholder(j), Placeholder(k), r);
  }

  /** The values after a pass for slot `k` over those that are on the page already. */
  function Passed(v: Values, done: set<Slot>, k: Slot): Values {
    Values(PassedOf(v, done, k, Id), PassedOf(v, done, k, Name), PassedOf(v, done, k, Img),
           PassedOf(v, done, k, Top), PassedOf(v, done, k, Bot), PassedOf(v, done, k, Atoken))
  }

  function PassedOf(v: Values, done: set<Slot>, k: Slot, s: Slot): string {
    if s in done then ReplaceAll(v.Of(s), Placeholder(k), v.Of(k)) else v.Of(s)
  }

  lemma PassedIs(v: Values, done: set<Slot>, k: Slot, s: Slot)
    ensures Passed(v, done, k).Of(s) == PassedOf(v, done, k, s)
  {
    hide PassedOf;
  }

  /** One pass over a page in which some slots are already filled fills exactly one more, and does to the
      values that are there what it would do to each of them alone. Nothing is asked of the values. */
  lemma {:induction false} PassFillsSlot(page: string, start: bool, done: set<Slot>, k: Slot, v: Values)
    requires Bracketed(page, start) && k !in done
    ensures ReplaceAll(Fill(page, done, v), Placeholder(k), v.Of(k)) == Fill(page, done + {k}, Passed(v, done, k))
    decreases |page|
  {
    hide ReplaceAll, Placeholder;
    if page == "" {
      ReplaceInNothing(Placeholder(k), v.Of(k));
    } else {
      match SlotAt(page)
      case Some(s) =>
        var p := Placeholder(s);
        var rest := page[|p|..];
        var later := Fill(rest, done, v);
        BracketedRest(page, start, |p|);
        AfterPlaceholder(page, start, s);
        FillStops(rest, done, v);
        PassFillsSlot(rest, !IsLetter(page[|p|-1]), done, k, v);
        PassedIs(v, done, k, s);
        hide Passed;
        if s == k {
          ReplaceHead(p, later, v.Of(k));
        } else {
          PassSplits(if s in done then v.Of(s) else p, later, k, v.Of(k));
          OtherPlaceholder(s, k, v.Of(k));
        }
      case None =>
        BracketedRest(page, start, 1);
        PassFillsSlot(page[1..], !IsLetter(page[0]), done, k, v);
        NoNewPlaceholder(page, start, done, k, v);
        ReplaceNotHere(page[0], Fill(page[1..], done, v), Placeholder(k), v.Of(k));
    }
  }

  lemma AfterPlaceholder(page: string, start: bool, s: Slot)
    requires Bracketed(page, start) && Placeholder(s) <= page
    ensures Stops(page[|Placeholder(s)|..])
  {
    assert page[0..] == page;
    assert OccursAt(page, Placeholder(s), 0);
  }

  /** Filling later parts of a page completes no placeholder before them. */
  lemma NoNewPlaceholder(page: string, start: bool, done: set<Slot>, k: Slot, v: Values)
    requires page != "" && Bracketed(page, start) && SlotAt(page).None?
    ensures !(Placeholder(k) <= [page[0]] + Fill(page[1..], done, v))
  {
    hide Fill, Placeholder;
    var (p, filled) := (Placeholder(k), Fill(page[1..], done, v));
    PrefixHead(p, page[0], filled);
    PrefixHead(p, page[0], page[1..]);
    assert page == [page[0]] + page[1..];
    if p[0] == page[0] {
      assert IsLetter(p[0]) && Letters(p[1..]);
      BracketedRest(page, start, 1);
      if p[1..] <= filled {
        LettersStay(p[1..], page[1..], done, v);
      }
    }
  }

  predicate Distinct(order: seq<Slot>) {
    forall i, j | 0 <= i < j < |order| :: order[i] != order[j]
  }

  function SlotsOf(order: seq<Slot>): set<Slot> { set s | s in order }

  /** What the values are once all passes are through: each has gone through the passes after its own. */
  function Settled(order: seq<Slot>, v: Values): Values {
    if order == [] then v
    else
      var (first, last) := (order[..|order|-1], order[|order|-1]);
      Passed(Settled(first, v), SlotsOf(first), last)
  }

  lemma {:induction false} SettledOf(order: seq<Slot>, v: Values)
    requires Distinct(order)
    ensures forall s | s !in order :: Settled(order, v).Of(s) == v.Of(s)
    ensures forall i | 0 <= i < |order| :: Settled(order, v).Of(order[i]) == FillInOrder(v.Of(order[i]), order[i+1..], v)
  {
    hide FillInOrder, Settled, PassedOf, SlotsOf;
    if order == [] {
      NothingSettled(v);
    } else {
      var (first, last) := (order[..|order|-1], order[|order|-1]);
      assert order == first + [last];
      SettledOf(first, v);
      forall s ensures Settled(order, v).Of(s) == PassedOf(Settled(first, v), SlotsOf(first), last, s) {
        SettledStep(first, last, v, s);
      }
      forall s | s !in order ensures Settled(order, v).Of(s) == v.Of(s) { NotPassed(Settled(first, v), first, last, s); }
      forall i | 0 <= i < |order|
        ensures Settled(order, v).Of(order[i]) == FillInOrder(v.Of(order[i]), order[i+1..], v)
      {
        if i < |first| {
          assert order[i+1..] == first[i+1..] + [last];
          OnePassMore(v.Of(first[i]), first[i+1..], last, v);
          HasPassed(Settled(first, v), first, last, first[i]);
        } else {
          assert order[i+1..] == [];
          NotPassed(Settled(first, v), first, last, last);
          NoPass(v.Of(last), v);
        }
      }
    }
  }

  lemma NothingSettled(v: Values)
    ensures Settled([], v) == v
  {
  }

  lemma SettledStep(first: seq<Slot>, last: Slot, v: Values, s: Slot)
    ensures Settled(first + [last], v).Of(s) == PassedOf(Settled(first, v), SlotsOf(first), last, s)
  {
    assert (first + [last])[..|first|] == first;
    PassedIs(Settled(first, v), SlotsOf(first), last, s);
  }

  lemma NotPassed(w: Values, first: seq<Slot>, k: Slot, s: Slot)
    requires s !in first
    ensures PassedOf(w, SlotsOf(first), k, s) == w.Of(s)
  {
  }

  lemma HasPassed(w: Values, first: seq<Slot>, k: Slot, s: Slot)
    requires s in first
    ensures PassedOf(w, SlotsOf(first), k, s) == ReplaceAll(w.Of(s), Placeholder(k), w.Of(k))
  {
  }

  lemma NoPass(page: string, v: Values)
    ensures FillInOrder(page, [], v) == page
  {
  }

  lemma OnePassMore(page: string, first: seq<Slot>, last: Slot, v: Values)
    ensures FillInOrder(page, first + [last], v) == ReplaceAll(FillInOrder(page, first, v), Placeholder(last), v.Of(last))
  {
    assert (first + [last])[..|first|] == first;
  }

  /** Replacing one kind of placeholder after another, in any order and for any values, fills every slot with
      what the later passes make of its value. */
  lemma {:induction false} AnyOrder(page: string, order: seq<Slot>, v: Values)
    requires Bracketed(page, true) && Distinct(order)
    ensures FillInOrder(page, order, v) == Fill(page, SlotsOf(order), Settled(order, v))
  {
    hide ReplaceAll, Fill, Bracketed, Passed, Placeholder;
    if order == [] {
      assert SlotsOf(order) == {};
      FillNone(page, v);
    } else {
      var (first, last) := (order[..|order|-1], order[|order|-1]);
      AnyOrder(page, first, v);
      SettledOf(first, v);
      assert last !in first;
      PassFillsSlot(page, true, SlotsOf(first), last, Settled(first, v));
      assert order == first + [last];
      assert SlotsOf(order) == SlotsOf(first) + {last};
    }
  }

  lemma {:induction false} FillDepends(page: string, done: set<Slot>, v: Values, w: Values)
    requires forall s | s in done :: v.Of(s) == w.Of(s)
    ensures Fill(page, done, v) == Fill(page, done, w)
  {
    hide Placeholder;
    if page != "" {
      match SlotAt(page)
      case Some(s) => FillDepends(page[|Placeholder(s)|..], done, v, w);
      case None => FillDepends(page[1..], done, v, w);
    }
  }

  /** No later pass changes a value that is on the page. */
  predicate Undisturbed(order: seq<Slot>, v: Values) {
    forall i | 0 <= i < |order| :: FillInOrder(v.Of(order[i]), order[i+1..], v) == v.Of(order[i])
  }

  ghost predicate Simultaneous(order: seq<Slot>, v: Values) {
    forall page | Bracketed(page, true) :: FillInOrder(page, order, v) == Fill(page, SlotsOf(order), v)
  }

  lemma PlaceholderAlone(s: Slot, done: set<Slot>, v: Values)
    ensures Bracketed(Placeholder(s), true)
    ensures s in done ==> Fill(Placeholder(s), done, v) == v.Of(s)
  {
    var p := Placeholder(s);
    forall i: nat, k | OccursAt(p, Placeholder(k), i) ensures BracketedAt(p, true, i, |Placeholder(k)|) {
      NotInPlaceholder(s, k, i);
    }
    SlotOfPlaceholder(s);
    assert p[|p|..] == "";
    assert v.Of(s) + "" == v.Of(s);
  }

  lemma SlotOfPlaceholder(s: Slot)
    ensures SlotAt(Placeholder(s)) == Some(s)
  {
    var r := SlotAt(Placeholder(s));
    assert Placeholder(s) <= Placeholder(s);
    assert Placeholder(s)[0..] == Placeholder(s);
    NotInPlaceholder(s, r.value, 0);
  }

  /** The passes are one simultaneous substitution on every page exactly when they leave the values alone. */
  lemma SimultaneousExactly(order: seq<Slot>, v: Values)
    requires Distinct(order)
    ensures Simultaneous(order, v) <==> Undisturbed(order, v)
  {
    hide Fill, FillInOrder, Settled, Bracketed, Placeholder;
    SettledOf(order, v);
    if Undisturbed(order, v) {
      forall page | Bracketed(page, true) ensures FillInOrder(page, order, v) == Fill(page, SlotsOf(order), v) {
        AnyOrder(page, order, v);
        FillDepends(page, SlotsOf(order), Settled(order, v), v);
      }
    }
    if Simultaneous(order, v) {
      forall i | 0 <= i < |order| ensures FillInOrder(v.Of(order[i]), order[i+1..], v) == v.Of(order[i]) {
        var s := order[i];
        PlaceholderAlone(s, SlotsOf(order), v);
        PlaceholderAlone(s, SlotsOf(order), Settled(order, v));
        AnyOrder(Placeholder(s), order, v);
      }
    }
  }

  /** An easy test: no value holds the placeholder of a slot filled after it. */
  lemma {:induction false} NoneLaterInside(x: string, later: seq<Slot>, v: Values)
    requires forall j | 0 <= j < |later| :: !Contains(x, Placeholder(later[j]))
    ensures FillInOrder(x, later, v) == x
  {
    if later != [] {
      hide Contains;
      NoneLaterInside(x, later[..|later|-1], v);
      ReplaceAbsent(x, Placeholder(later[|later|-1]), v.Of(later[|later|-1]));
    }
  }

  lemma CleanIsUndisturbed(order: seq<Slot>, v: Values)
    requires forall i, j | 0 <= i < j < |order| :: !Contains(v.Of(order[i]), Placeholder(order[j]))
    ensures Undisturbed(order, v)
  {
    hide Contains, Placeholder;
    forall i | 0 <= i < |order| ensures FillInOrder(v.Of(order[i]), order[i+1..], v) == v.Of(order[i]) {
      NoneLaterInside(v.Of(order[i]), order[i+1..], v);
    }
  }

  /** For the last two slots the test is exact, unless the later value is its own placeholder. */
  lemma LastTwoExactly(a: Slot, b: Slot, v: Values)
    requires a != b
    ensures Simultaneous([a, b], v) <==> !Contains(v.Of(a), Placeholder(b)) || v.Of(b) == Placeholder(b)
  {
    hide Contains, Placeholder, Simultaneous, ReplaceAll, FillInOrder;
    SimultaneousExactly([a, b], v);
    var order := [a, b];
    assert order[0] == a && order[1] == b && order[0+1..] == [b] && order[1+1..] == [] && [] + [b] == [b];
    assert Undisturbed(order, v) <==> FillInOrder(v.Of(a), [b], v) == v.Of(a) && FillInOrder(v.Of(b), [], v) == v.Of(b);
    NoPass(v.Of(b), v);
    NoPass(v.Of(a), v);
    OnePassMore(v.Of(a), [], b, v);
    ReplaceAllFixes(v.Of(a), Placeholder(b), v.Of(b));
  }

  /** A value that looks like the placeholder of a later slot is itself filled in. */
  lemma UncleanValueIsFilled(v: Values)
    requires v.name == "meme_object_top" && v.top != "meme_object_top"
    ensures !Simultaneous([Name, Top], v)
    ensures FillInOrder("meme_object_name", [Name, Top], v) == v.top
    ensures Fill("meme_object_name", {Name, Top}, v) == "meme_object_top"
  {
    PlaceholderAlone(Name, {Name, Top}, v);
    WholePlaceholder(Name, v.name);
    WholePlaceholder(Top, v.top);
    assert [Name, Top][..1] == [Name] && [Name][..0] == [];
    assert FillInOrder("meme_object_name", [Name], v) == "meme_object_top";
    assert SlotsOf([Name, Top]) == {Name, Top};
  }

  lemma WholePlaceholder(s: Slot, value: string)
    ensures ReplaceAll(Placeholder(s), Placeholder(s), value) == value
  {
    var p := Placeholder(s);
    assert p + "" == p && value + "" == value;
    ReplaceHead(p, "", value);
    ReplaceInNothing(p, value);
  }

  const SOURCE_ORDER := [Id, Name, Img, Top, Bot, Atoken]

  /** The six replacements of the view, result and edit pages. */
  method FillPage(memebody: string, v: Values) returns (page: string)
    ensures page == FillInOrder(memebody, SOURCE_ORDER, v)
    ensures Bracketed(memebody, true) ==> page == Fill(memebody, ALL_SLOTS, Settled(SOURCE_ORDER, v))
    ensures Bracketed(memebody, true) && Undisturbed(SOURCE_ORDER, v) ==> page == Fill(memebody, ALL_SLOTS, v)
  {
    hide ReplaceAll, Fill, FillInOrder, Settled, Bracketed;
    page := memebody;
    page := ReplaceAll(page, "meme_object_id", v.id);
    page := ReplaceAll(page, "meme_object_name", v.name);
    page := ReplaceAll(page, "meme_object_img", v.img);
    page := ReplaceAll(page, "meme_object_top", v.top);
    page := ReplaceAll(page, "meme_object_bot", v.bot);
    page := ReplaceAll(page, "meme_object_atoken", v.atoken);
    SixPasses(memebody, v);
    if Bracketed(memebody, true) {
      AnyOrder(memebody, SOURCE_ORDER, v);
      if Undisturbed(SOURCE_ORDER, v) { FillInPlace(memebody, v); }
      assert SlotsOf(SOURCE_ORDER) == ALL_SLOTS;
    }
  }

  lemma FillInPlace(page: string, v: Values)
    requires Bracketed(page, true) && Undisturbed(SOURCE_ORDER, v)
    ensures FillInOrder(page, SOURCE_ORDER, v) == Fill(page, SlotsOf(SOURCE_ORDER), v)
  {
    hide Fill, FillInOrder, Bracketed, Undisturbed;
    SimultaneousExactly(SOURCE_ORDER, v);
  }

  lemma SixPasses(page: string, v: Values)
    ensures ReplaceAll(ReplaceAll(ReplaceAll(ReplaceAll(ReplaceAll(ReplaceAll(page,
              "meme_object_id", v.id), "meme_object_name", v.name), "meme_object_img", v.img),
              "meme_object_top", v.top), "meme_object_bot", v.bot), "meme_object_atoken", v.atoken) ==
            FillInOrder(page, SOURCE_ORDER, v)
  {
    hide ReplaceAll, FillInOrder;
    NoPass(page, v);
    OnePassMore(page, [], Id, v);
    OnePassMore(page, [Id], Name, v);
    OnePassMore(page, [Id, Name], Img, v);
    OnePassMore(page, [Id, Name, Img], Top, v);
    OnePassMore(page, [Id, Name, Img, Top], Bot, v);
    OnePassMore(page, [Id, Name, Img, Top, Bot], Atoken, v);
    assert [] + [Id] == [Id] && [Id] + [Name] == [Id, Name] && [Id, Name] + [Img] == [Id, Name, Img];
    assert [Id, Name, Img] + [Top] == [Id, Name, Img, Top];
    assert [Id, Name, Img, Top] + [Bot] == [Id, Name, Img, Top, Bot];
    assert [Id, Name, Img, Top, Bot] + [Atoken] == SOURCE_ORDER;
  }
}
