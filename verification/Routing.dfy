/** The handlers a configuration declares, and the tables that index them. */
module Routing {
  import opened Text
  import opened ConfigTree
  import opened Lookup

  /** A `handler NAME { ... }` statement: the url its block gives, the block, the name. */
  datatype Handler = Handler(url: string, block: Config, name: string)

  /** What the source demands of a configuration it indexes: each handler statement is a block with a
      name whose url can be read, and no statement is without words. */
  predicate Indexable(c: Config) {
    forall i | 0 <= i < |c| :: IndexableStatement(c[i])
  }

  predicate IndexableStatement(s: Statement) {
    && s.tokens != []
    && (s.tokens[0] == "handler" ==> s.Block? && |s.tokens| >= 2 && PeekDefined(Print(s.children, 0)))
    && (s.Block? ==> Indexable(s.children))
  }

  /** All handlers of a tree, those inside a block before the block's own. */
  function HandlersOf(c: Config): seq<Handler>
    requires Indexable(c)
  {
    if c == [] then [] else HandlersOf(c[..|c|-1]) + HandlersOfStatement(c[|c|-1])
  }

  function HandlersOfStatement(s: Statement): seq<Handler>
    requires IndexableStatement(s)
  {
    (if s.Block? then HandlersOf(s.children) else []) +
    (if s.tokens[0] == "handler" then [Handler(PeekedUrl(Print(s.children, 0)), s.children, s.tokens[1])] else [])
  }

  lemma NoHandlers()
    ensures Indexable([]) && HandlersOf([]) == []
  {
  }

  lemma HandlersSnoc(c: Config, i: nat)
    requires Indexable(c) && i < |c|
    ensures Indexable(c[..i]) && Indexable(c[..i+1]) && IndexableStatement(c[i])
    ensures HandlersOf(c[..i+1]) == HandlersOf(c[..i]) + HandlersOfStatement(c[i])
  {
    assert c[..i+1][..i] == c[..i];
  }

  /** A statement anywhere in a tree. */
  ghost predicate Below(c: Config, s: Statement) {
    exists i :: 0 <= i < |c| && (c[i] == s || (c[i].Block? && Below(c[i].children, s)))
  }

  ghost predicate IsHandler(s: Statement) {
    s.Block? && |s.tokens| >= 2 && s.tokens[0] == "handler" && PeekDefined(Print(s.children, 0))
  }

  /** The handlers of a tree are those of the handler statements anywhere in it, no others. */
  lemma {:induction false} HandlersComplete(c: Config, h: Handler)
    requires Indexable(c)
    ensures h in HandlersOf(c) <==>
            exists s :: Below(c, s) && IsHandler(s) && h == Handler(PeekedUrl(Print(s.children, 0)), s.children, s.tokens[1])
    decreases c
  {
    hide PeekDefined, PeekedUrl, Print;
    if c != [] {
      var (front, last) := (c[..|c|-1], c[|c|-1]);
      assert c == front + [last];
      assert IndexableStatement(last);
      HandlersComplete(front, h);
      if last.Block? { HandlersComplete(last.children, h); }
      forall s ensures Below(c, s) <==> Below(front, s) || last == s || (last.Block? && Below(last.children, s)) {
        BelowSnoc(front, last, s);
      }
    }
  }

  lemma BelowSnoc(front: Config, last: Statement, s: Statement)
    ensures Below(front + [last], s) <==> Below(front, s) || last == s || (last.Block? && Below(last.children, s))
  {
    var c := front + [last];
    if Below(front, s) {
      var i :| 0 <= i < |front| && (front[i] == s || (front[i].Block? && Below(front[i].children, s)));
      assert c[i] == front[i];
    }
    assert c[|front|] == last;
  }

  /** The linear scan: the first handler for a url. */
  function FirstMatch(hs: seq<Handler>, url: string): (r: Option<Handler>)
    ensures r.Some? ==> exists i :: 0 <= i < |hs| && hs[i] == r.value && hs[i].url == url &&
                                    forall j | 0 <= j < i :: hs[j].url != url
    ensures r.None? ==> forall j | 0 <= j < |hs| :: hs[j].url != url
  {
    if hs == [] then None
    else if hs[0].url == url then assert hs[0] == hs[0]; Some(hs[0])
    else
      var r := FirstMatch(hs[1..], url);
      assert r.Some? ==> exists i :: 0 <= i < |hs| && hs[i] == r.value && hs[i].url == url &&
                                    forall j | 0 <= j < i :: hs[j].url != url by {
        if r.Some? {
          var i :| 0 <= i < |hs[1..]| && hs[1..][i] == r.value && hs[1..][i].url == url &&
                   forall j | 0 <= j < i :: hs[1..][j].url != url;
          assert hs[i+1] == r.value;
          assert forall j | 0 < j < i + 1 :: hs[j] == hs[1..][j-1];
        }
      }
      r
  }

  lemma {:induction false} FirstMatchAppend(a: seq<Handler>, b: seq<Handler>, url: string)
    ensures FirstMatch(a + b, url) == if FirstMatch(a, url).Some? then FirstMatch(a, url) else FirstMatch(b, url)
  {
    if a == [] {
      assert a + b == b;
    } else {
      assert (a + b)[1..] == a[1..] + b;
      FirstMatchAppend(a[1..], b, url);
    }
  }

  /** `after` is `before` with the handlers inserted in order, a url already present keeping its name. */
  ghost predicate NamesAdded(before: map<string, string>, after: map<string, string>, hs: seq<Handler>) {
    && (forall k :: k in after <==> k in before || FirstMatch(hs, k).Some?)
    && (forall k | k in after :: after[k] == if k in before then before[k] else FirstMatch(hs, k).value.name)
  }

  lemma NamesCompose(a: map<string, string>, b: map<string, string>, c: map<string, string>,
                     hs: seq<Handler>, gs: seq<Handler>)
    requires NamesAdded(a, b, hs) && NamesAdded(b, c, gs)
    ensures NamesAdded(a, c, hs + gs)
  {
    forall k ensures k in c <==> k in a || FirstMatch(hs + gs, k).Some? { FirstMatchAppend(hs, gs, k); }
    forall k | k in c
      ensures c[k] == if k in a then a[k] else FirstMatch(hs + gs, k).value.name
    {
      FirstMatchAppend(hs, gs, k);
    }
  }

  /** Each handler statement is a block with a name whose first mention of "url" is a leaf `url v1 .. vn`. */
  ghost predicate Declaring(c: Config) {
    forall i | 0 <= i < |c| :: DeclaringStatement(c[i])
  }

  ghost predicate DeclaringStatement(s: Statement) {
    && s.tokens != []
    && (s.tokens[0] == "handler" ==> s.Block? && |s.tokens| >= 2 && DeclaredUrl(s.children).Some?)
    && (s.Block? ==> Declaring(s.children))
  }

  lemma {:induction false} DeclaringIsIndexable(c: Config)
    requires Declaring(c)
    ensures Indexable(c)
  {
    hide DeclaredUrl, PeekDefined, Print;
    forall i | 0 <= i < |c| ensures IndexableStatement(c[i]) {
      var s := c[i];
      assert DeclaringStatement(s);
      if s.Block? { DeclaringIsIndexable(s.children); }
      if s.tokens[0] == "handler" { UrlIsDeclared(s.children); }
    }
  }

  lemma {:induction false} UrlsAreDeclared(c: Config)
    requires Declaring(c) && Indexable(c)
    ensures forall h | h in HandlersOf(c) :: DeclaredUrl(h.block) == Some(h.url)
    decreases c
  {
    hide DeclaredUrl, PeekDefined, PeekedUrl, Print;
    if c != [] {
      var (front, last) := (c[..|c|-1], c[|c|-1]);
      assert DeclaringStatement(last) && IndexableStatement(last);
      UrlsAreDeclared(front);
      if last.Block? { UrlsAreDeclared(last.children); }
      if last.tokens[0] == "handler" { UrlIsDeclared(last.children); }
    }
  }

  /** `r` is the first of the handlers whose block declares the url, None when no block does. */
  ghost predicate FirstDeclaring(hs: seq<Handler>, url: string, r: Option<Handler>) {
    match r
    case None => forall j | 0 <= j < |hs| :: DeclaredUrl(hs[j].block) != Some(url)
    case Some(h) => exists i :: 0 <= i < |hs| && hs[i] == h && DeclaredUrl(hs[i].block) == Some(url) &&
                                forall j | 0 <= j < i :: DeclaredUrl(hs[j].block) != Some(url)
  }

  /** Searching the printed blocks finds the first handler that declares the url in the tree. */
  lemma FirstMatchDeclares(c: Config, url: string)
    requires Declaring(c)
    ensures Indexable(c) && FirstDeclaring(HandlersOf(c), url, FirstMatch(HandlersOf(c), url))
  {
    DeclaringIsIndexable(c);
    UrlsAreDeclared(c);
    hide DeclaredUrl, HandlersOf, Declaring, Indexable;
    var hs := HandlersOf(c);
    assert forall h | h in HandlersOf(c) :: DeclaredUrl(h.block) == Some(h.url);
    SameUrls(HandlersOf(c), url);
  }

  lemma SameUrls(hs: seq<Handler>, url: string)
    requires forall h | h in hs :: DeclaredUrl(h.block) == Some(h.url)
    ensures FirstDeclaring(hs, url, FirstMatch(hs, url))
  {
    hide DeclaredUrl, FirstMatch;
    assert forall j | 0 <= j < |hs| :: hs[j] in hs;
  }

  // ---------- which handler comes first ----------

  /** Where a statement stands in a tree: its index, and those of the blocks around it, outermost first. */
  type Place = seq<nat>

  function StatementAt(c: Config, p: Place): Option<Statement>
    decreases |p|
  {
    if p == [] || p[0] >= |c| then None
    else if |p| == 1 then Some(c[p[0]])
    else if c[p[0]].Block? then StatementAt(c[p[0]].children, p[1..])
    else None
  }

  /** Post-order: what is inside a block comes before the block, and otherwise the smaller index decides where two
      places first differ. */
  ghost predicate Precedes(p: Place, q: Place) {
    q < p || exists k :: 0 <= k < |p| && k < |q| && p[..k] == q[..k] && p[k] < q[k]
  }

  /** A handler statement stands at the place and is the handler `h`. */
  ghost predicate StandsAt(c: Config, p: Place, h: Handler) {
    match StatementAt(c, p)
    case None => false
    case Some(s) => IsHandler(s) && h == Handler(PeekedUrl(Print(s.children, 0)), s.children, s.tokens[1])
  }

  /** The handlers are listed with their places: each stands at its own, the places go up in post-order, and no
      handler statement is missing. */
  ghost predicate Listing(c: Config, hs: seq<Handler>, ps: seq<Place>) {
    && |hs| == |ps|
    && (forall i | 0 <= i < |hs| :: StandsAt(c, ps[i], hs[i]))
    && (forall i, j | 0 <= i < j < |ps| :: Precedes(ps[i], ps[j]))
    && (forall p, h :: StandsAt(c, p, h) ==> p in ps)
  }

  lemma PrecedesWithin(n: nat, p: Place, q: Place)
    requires Precedes(p, q)
    ensures Precedes([n] + p, [n] + q)
  {
    if q < p {
      assert [n] + q < [n] + p;
    } else {
      var k :| 0 <= k < |p| && k < |q| && p[..k] == q[..k] && p[k] < q[k];
      assert ([n] + p)[..k+1] == [n] + p[..k] && ([n] + q)[..k+1] == [n] + q[..k];
      assert ([n] + p)[k+1] < ([n] + q)[k+1];
    }
  }

  lemma PrecedesByFirst(p: Place, q: Place)
    requires p != [] && q != [] && p[0] < q[0]
    ensures Precedes(p, q)
  {
    assert p[..0] == q[..0];
  }

  /** What stands inside a statement. */
  function Inside(s: Statement): Config { if s.Block? then s.children else [] }

  /** Statements keep their places when others are put behind them. */
  lemma AtFront(front: Config, last: Statement, p: Place)
    requires p != []
    ensures p[0] < |front| ==> StatementAt(front + [last], p) == StatementAt(front, p)
    ensures p[0] == |front| ==>
              StatementAt(front + [last], p) == if |p| == 1 then Some(last) else StatementAt(Inside(last), p[1..])
    ensures p[0] > |front| ==> StatementAt(front + [last], p) == None
  {
  }

  /** The places of the handlers in the order they are entered. */
  lemma {:induction false} HandlersListed(c: Config) returns (ps: seq<Place>)
    requires Indexable(c)
    ensures Listing(c, HandlersOf(c), ps)
    decreases c
  {
    hide Listing;
    if c == [] {
      ps := [];
      NothingListed();
    } else {
      var (front, last) := (c[..|c|-1], c[|c|-1]);
      assert c == front + [last] && IndexableStatement(last);
      var before := HandlersListed(front);
      var inner: seq<Place> := [];
      if last.Block? {
        inner := HandlersListed(last.children);
      } else {
        NothingListed();
      }
      ps := before + PlacesOf(|front|, last, inner);
      ListingSnoc(front, last, before, inner);
    }
  }

  lemma NothingListed()
    ensures HandlersOf([]) == [] && Listing([], [], [])
  {
  }

  /** The places of a statement's handlers, from those inside it. */
  function PlacesOf(n: nat, s: Statement, inner: seq<Place>): (ps: seq<Place>)
    requires s.tokens != []
    ensures |ps| == |inner| + if s.tokens[0] == "handler" then 1 else 0
    ensures forall i | 0 <= i < |inner| :: ps[i] == [n] + inner[i]
    ensures s.tokens[0] == "handler" ==> ps[|inner|] == [n]
  {
    seq(|inner|, i requires 0 <= i < |inner| => [n] + inner[i]) + (if s.tokens[0] == "handler" then [[n]] else [])
  }

  lemma ListingSnoc(front: Config, last: Statement, before: seq<Place>, inner: seq<Place>)
    requires Indexable(front) && IndexableStatement(last) && Indexable(Inside(last)) && Indexable(front + [last])
    requires Listing(front, HandlersOf(front), before) && Listing(Inside(last), HandlersOf(Inside(last)), inner)
    ensures Listing(front + [last], HandlersOf(front + [last]), before + PlacesOf(|front|, last, inner))
  {
    assert last.tokens != [];
    hide Indexable, IndexableStatement, PlacesOf, StandsAt, Precedes, HandlersOfStatement, Inside, HandlersOf;
    var c := front + [last];
    var (hs, gs) := (HandlersOf(front), HandlersOfStatement(last));
    var qs := PlacesOf(|front|, last, inner);
    HandlersLast(front, last);
    FrontStands(front, last, hs, before);
    LastStands(front, last, inner);
    LastInOrder(front, last, inner);
    forall p, h | StandsAt(c, p, h) ensures p in before + qs {
      StandsSomewhere(front, last, p, h, before, inner);
    }
    ListingJoin(c, |front|, hs, gs, before, qs);
  }

  lemma HandlersLast(front: Config, last: Statement)
    requires Indexable(front + [last]) && Indexable(front) && IndexableStatement(last)
    ensures HandlersOf(front + [last]) == HandlersOf(front) + HandlersOfStatement(last)
  {
    var c := front + [last];
    assert c[..|front|] == front && c[|front|] == last;
    hide Indexable, IndexableStatement, HandlersOfStatement;
  }

  lemma ListingJoin(c: Config, n: nat, hs: seq<Handler>, gs: seq<Handler>, ps: seq<Place>, qs: seq<Place>)
    requires |hs| == |ps| && |gs| == |qs|
    requires forall i | 0 <= i < |ps| :: ps[i] != [] && ps[i][0] < n && StandsAt(c, ps[i], hs[i])
    requires forall i | 0 <= i < |qs| :: qs[i] != [] && qs[i][0] == n && StandsAt(c, qs[i], gs[i])
    requires forall i, j | 0 <= i < j < |ps| :: Precedes(ps[i], ps[j])
    requires forall i, j | 0 <= i < j < |qs| :: Precedes(qs[i], qs[j])
    requires forall p, h :: StandsAt(c, p, h) ==> p in ps + qs
    ensures Listing(c, hs + gs, ps + qs)
  {
    hide StandsAt, Precedes;
    StandsJoin(c, hs, gs, ps, qs);
    InOrderJoin(n, ps, qs);
  }

  lemma StandsJoin(c: Config, hs: seq<Handler>, gs: seq<Handler>, ps: seq<Place>, qs: seq<Place>)
    requires |hs| == |ps| && |gs| == |qs|
    requires forall i | 0 <= i < |ps| :: StandsAt(c, ps[i], hs[i])
    requires forall i | 0 <= i < |qs| :: StandsAt(c, qs[i], gs[i])
    ensures forall i | 0 <= i < |hs + gs| :: StandsAt(c, (ps + qs)[i], (hs + gs)[i])
  {
    hide StandsAt;
    forall i | 0 <= i < |hs + gs| ensures StandsAt(c, (ps + qs)[i], (hs + gs)[i]) {
      if i < |hs| { assert StandsAt(c, ps[i], hs[i]); } else { assert StandsAt(c, qs[i-|hs|], gs[i-|hs|]); }
    }
  }

  lemma InOrderJoin(n: nat, ps: seq<Place>, qs: seq<Place>)
    requires forall i | 0 <= i < |ps| :: ps[i] != [] && ps[i][0] < n
    requires forall i | 0 <= i < |qs| :: qs[i] != [] && qs[i][0] == n
    requires forall i, j | 0 <= i < j < |ps| :: Precedes(ps[i], ps[j])
    requires forall i, j | 0 <= i < j < |qs| :: Precedes(qs[i], qs[j])
    ensures forall i, j | 0 <= i < j < |ps + qs| :: Precedes((ps + qs)[i], (ps + qs)[j])
  {
    hide Precedes;
    forall i, j | 0 <= i < j < |ps + qs| ensures Precedes((ps + qs)[i], (ps + qs)[j]) {
      if i < |ps| <= j { PrecedesByFirst(ps[i], qs[j-|ps|]); }
    }
  }

  lemma FrontStands(front: Config, last: Statement, hs: seq<Handler>, ps: seq<Place>)
    requires Listing(front, hs, ps)
    ensures forall i | 0 <= i < |ps| :: ps[i] != [] && ps[i][0] < |front| && StandsAt(front + [last], ps[i], hs[i])
  {
    forall i | 0 <= i < |ps|
      ensures ps[i] != [] && ps[i][0] < |front| && StandsAt(front + [last], ps[i], hs[i])
    {
      PlaceIsSome(front, ps[i], hs[i]);
      AtFront(front, last, ps[i]);
      hide StatementAt, IsHandler, PeekedUrl, Print;
    }
  }

  lemma LastStands(front: Config, last: Statement, inner: seq<Place>)
    requires IndexableStatement(last) && Indexable(Inside(last))
    requires Listing(Inside(last), HandlersOf(Inside(last)), inner)
    ensures var (gs, qs) := (HandlersOfStatement(last), PlacesOf(|front|, last, inner));
            |gs| == |qs| && forall i | 0 <= i < |qs| ::
              qs[i] != [] && qs[i][0] == |front| && StandsAt(front + [last], qs[i], gs[i])
  {
    assert last.tokens != [];
    hide StandsAt, Indexable, IndexableStatement, HandlersOf, HandlersOfStatement, PlacesOf, Precedes;
    OwnLast(last);
    var qs := PlacesOf(|front|, last, inner);
    forall i | 0 <= i < |qs|
      ensures qs[i] != [] && qs[i][0] == |front| && StandsAt(front + [last], qs[i], HandlersOfStatement(last)[i])
    {
      LastStandsAt(front, last, inner, i);
    }
  }

  lemma LastStandsAt(front: Config, last: Statement, inner: seq<Place>, i: nat)
    requires IndexableStatement(last) && Indexable(Inside(last))
    requires Listing(Inside(last), HandlersOf(Inside(last)), inner) && i < |PlacesOf(|front|, last, inner)|
    ensures i < |HandlersOfStatement(last)|
    ensures var q := PlacesOf(|front|, last, inner)[i];
            q != [] && q[0] == |front| && StandsAt(front + [last], q, HandlersOfStatement(last)[i])
  {
    hide PeekedUrl, Print, PeekDefined;
    OwnLast(last);
    var q := PlacesOf(|front|, last, inner)[i];
    AtFront(front, last, q);
    if i < |inner| {
      PlaceIsSome(Inside(last), inner[i], HandlersOf(Inside(last))[i]);
      assert q[1..] == inner[i];
    }
  }

  lemma OwnLast(s: Statement)
    requires IndexableStatement(s) && Indexable(Inside(s))
    ensures HandlersOfStatement(s) == HandlersOf(Inside(s)) +
              (if s.tokens[0] == "handler" then [Handler(PeekedUrl(Print(s.children, 0)), s.children, s.tokens[1])] else [])
    ensures s.tokens[0] == "handler" ==> IsHandler(s)
  {
    hide PeekedUrl, Print, PeekDefined;
    NothingListed();
  }

  lemma LastInOrder(front: Config, last: Statement, inner: seq<Place>)
    requires IndexableStatement(last) && Indexable(Inside(last))
    requires Listing(Inside(last), HandlersOf(Inside(last)), inner)
    ensures var qs := PlacesOf(|front|, last, inner);
            forall i, j | 0 <= i < j < |qs| :: Precedes(qs[i], qs[j])
  {
    assert last.tokens != [];
    hide StandsAt, Precedes, Indexable, IndexableStatement, HandlersOf, PlacesOf, Inside;
    var (n, qs) := (|front|, PlacesOf(|front|, last, inner));
    forall i, j | 0 <= i < j < |qs| ensures Precedes(qs[i], qs[j]) {
      if j < |inner| {
        PrecedesWithin(n, inner[i], inner[j]);
      } else {
        PlaceIsSome(Inside(last), inner[i], HandlersOf(Inside(last))[i]);
        InsideFirst(n, inner[i]);
      }
    }
  }

  lemma PlaceIsSome(c: Config, p: Place, h: Handler)
    requires StandsAt(c, p, h)
    ensures p != [] && p[0] < |c|
  {
    hide IsHandler, PeekedUrl, Print;
  }

  lemma InsideFirst(n: nat, p: Place)
    requires p != []
    ensures Precedes([n] + p, [n])
  {
    assert [n] < [n] + p;
  }

  lemma StandsSomewhere(front: Config, last: Statement, p: Place, h: Handler, ps: seq<Place>, inner: seq<Place>)
    requires last.tokens != [] && StandsAt(front + [last], p, h)
    requires forall q, g :: StandsAt(front, q, g) ==> q in ps
    requires forall q, g :: StandsAt(Inside(last), q, g) ==> q in inner
    ensures p in ps + PlacesOf(|front|, last, inner)
  {
    hide StatementAt, PeekedUrl, Print, PeekDefined, PlacesOf;
    PlaceIsSome(front + [last], p, h);
    AtFront(front, last, p);
    var (n, qs) := (|front|, PlacesOf(|front|, last, inner));
    if p[0] < n {
      assert StandsAt(front, p, h);
    } else if |p| == 1 {
      assert p == [n] && qs[|inner|] == [n];
      assert p in qs;
    } else {
      assert StandsAt(Inside(last), p[1..], h);
      var i :| 0 <= i < |inner| && inner[i] == p[1..];
      assert qs[i] == [n] + inner[i] == p;
      assert p in qs;
    }
  }

  /** At `p` stands the handler `h` for the url, and no other one for it in front of `p`. */
  ghost predicate StandsFirst(c: Config, url: string, p: Place, h: Handler) {
    StandsAt(c, p, h) && h.url == url && forall q, g :: StandsAt(c, q, g) && g.url == url ==> q == p || Precedes(p, q)
  }

  /** The handler found for a url is the handler statement with that url before which, in post-order, no other one
      with that url stands; none is found when no handler statement of the tree has the url. */
  lemma FirstMatchIsFirst(c: Config, url: string)
    requires Indexable(c)
    ensures var r := FirstMatch(HandlersOf(c), url);
            && (r.None? ==> forall p, h :: StandsAt(c, p, h) ==> h.url != url)
            && (r.Some? ==> exists p :: StandsFirst(c, url, p, r.value))
  {
    var ps := HandlersListed(c);
    ListedFirst(c, url, HandlersOf(c), ps);
  }

  lemma ListedFirst(c: Config, url: string, hs: seq<Handler>, ps: seq<Place>)
    requires Listing(c, hs, ps)
    ensures FirstMatch(hs, url).None? ==> forall p, h :: StandsAt(c, p, h) ==> h.url != url
    ensures FirstMatch(hs, url).Some? ==> exists p :: StandsFirst(c, url, p, FirstMatch(hs, url).value)
  {
    hide Precedes, StandsAt, FirstMatch;
    var r := FirstMatch(hs, url);
    if r.None? {
      forall p, h | StandsAt(c, p, h) ensures h.url != url { var j := IndexOf(c, hs, ps, p, h); }
    } else {
      var i :| 0 <= i < |hs| && hs[i] == r.value && hs[i].url == url && forall j | 0 <= j < i :: hs[j].url != url;
      forall q, g | StandsAt(c, q, g) && g.url == url ensures q == ps[i] || Precedes(ps[i], q) {
        var j := IndexOf(c, hs, ps, q, g);
      }
      assert StandsFirst(c, url, ps[i], r.value);
    }
  }

  lemma IndexOf(c: Config, hs: seq<Handler>, ps: seq<Place>, p: Place, h: Handler) returns (j: nat)
    requires Listing(c, hs, ps) && StandsAt(c, p, h)
    ensures j < |hs| && ps[j] == p && hs[j] == h
  {
    hide Precedes, StandsAt;
    j :| 0 <= j < |ps| && ps[j] == p;
    OneHandler(c, p, h, hs[j]);
  }

  /** What a table holds once the handlers of a tree were entered: older entries, and for every other url of a
      handler statement the name of the first in post-order. */
  lemma TableOfFirst(before: map<string, string>, after: map<string, string>, c: Config, k: string)
    requires Indexable(c) && NamesAdded(before, after, HandlersOf(c))
    ensures k in before ==> k in after && after[k] == before[k]
    ensures k !in before && k in after ==> exists p, h :: StandsFirst(c, k, p, h) && after[k] == h.name
    ensures k !in before && k !in after ==> forall p, h :: StandsAt(c, p, h) ==> h.url != k
  {
    hide StandsFirst, StandsAt, FirstMatch, HandlersOf, Indexable;
    FirstMatchIsFirst(c, k);
  }

  lemma OneHandler(c: Config, p: Place, g: Handler, h: Handler)
    requires StandsAt(c, p, g) && StandsAt(c, p, h)
    ensures g == h
  {
    hide StatementAt, PeekedUrl, Print, PeekDefined;
  }

  /** The first segment of a path: from the start up to the first slash after position 0. */
  function FirstSegment(path: string): string {
    if path == "" then "" else path[..1 + Span(path[1..], {'/'})]
  }

  /** It is the longest start of the path with no slash behind its first character. */
  lemma FirstSegmentIs(path: string, p: string)
    ensures p == FirstSegment(path) <==>
            p <= path && (p != "" ==> Free(p[1..], {'/'})) &&
            (p == path || (p != "" && path[|p|] == '/'))
  {
    if path != "" {
      var k := Span(path[1..], {'/'});
      if p <= path && p != "" && Free(p[1..], {'/'}) && (p == path || path[|p|] == '/') {
        assert p == path[..|p|];
        assert forall i | 0 <= i < |p| - 1 :: path[1..][i] == p[1..][i];
        SpanIs(path[1..], {'/'}, |p| - 1);
      }
      assert FirstSegment(path)[1..] == path[1..][..k];
    }
  }
}
