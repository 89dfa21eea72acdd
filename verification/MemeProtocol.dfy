/** Concurrent requests to the meme handler. Posts hold one global mutex around the two statements they
    run; deletes do not take it. Each SQL statement is one atomic step, and steps of any number of threads
    interleave in any order. */
module MemeProtocol {
  import opened Text
  import opened Numerals
  import opened MemeStore

  type Thread = nat

  datatype Post = NewMeme(meme: Meme) | EditMeme(id: string, meme: Meme)

  /** Where a thread is: before the lock, holding it, with its SELECT done, with its INSERT done. */
  datatype Place =
    | Outside
    | Locked(post: Post)
    | Selected(post: Post, id: string, token: string)
    | Inserted

  datatype State = State(table: Table, holder: Option<Thread>, places: map<Thread, Place>,
                         issued: set<string>, creates: nat)
  {
    function At(i: Thread): Place { if i in places then places[i] else Outside }
  }

  const START := State(map[], None, map[], {}, 0)

  datatype Step =
    | Lock(i: Thread, post: Post)
    | Select(i: Thread, random: nat -> nat)
    | Insert(i: Thread)
    | Unlock(i: Thread)
    | DeleteRow(id: string)

  /** Which steps may be taken. Edits name ids given out earlier, live or not. */
  ghost predicate Enabled(s: State, step: Step) {
    match step
    case Lock(i, post) => s.holder == None && s.At(i) == Outside && (post.EditMeme? ==> post.id in s.issued)
    case Select(i, _) => s.At(i).Locked? && (s.At(i).post.NewMeme? ==> Countable(s.table.Keys))
    case Insert(i) => s.At(i).Selected?
    case Unlock(i) => s.At(i) == Inserted
    case DeleteRow(_) => true
  }

  ghost function Do(s: State, step: Step): State
    requires Enabled(s, step)
  {
    match step
    case Lock(i, post) => s.(holder := Some(i), places := s.places[i := Locked(post)])
    case Select(i, random) =>
      (match s.At(i).post
       case NewMeme(_) =>
         var id := NextId(s.table.Keys);
         s.(places := s.places[i := Selected(s.At(i).post, id, id + "-" + Scramble(|id| * 2, random))],
            creates := s.creates + 1)
       case EditMeme(id, _) =>
         var token := if id in s.table then CString(s.table[id].token) else "00001";
         s.(places := s.places[i := Selected(s.At(i).post, id, token)]))
    case Insert(i) =>
      var (id, token) := (s.At(i).id, s.At(i).token);
      s.(table := s.table[id := Row(s.At(i).post.meme, token)], issued := s.issued + {id},
         places := s.places[i := Inserted])
    case Unlock(i) => s.(holder := None, places := s.places[i := Outside])
    case DeleteRow(id) => s.(table := s.table - {id})
  }

  /** Only the holder of the mutex is past the lock. */
  ghost predicate Exclusive(s: State) {
    forall i: Thread :: s.At(i) != Outside ==> s.holder == Some(i)
  }

  /** A pending new id is one of those the counter can have reached, and greater than every live id. */
  ghost predicate Greatest(id: string, s: State) {
    && IdsWithin({id}, s.creates)
    && forall x | x in s.table :: Digits(x) && Digits(id) && Value(x) < Value(id)
  }

  ghost predicate PendingFits(s: State, p: Place) {
    match p
    case Selected(NewMeme(_), id, _) => Greatest(id, s)
    case Selected(EditMeme(id', _), id, _) => id == id' && id in s.issued
    case Locked(EditMeme(id, _)) => id in s.issued
    case _ => true
  }

  ghost predicate Inv(s: State) {
    && Exclusive(s)
    && s.table.Keys <= s.issued
    && IdsWithin(s.issued, s.creates)
    && forall i: Thread :: PendingFits(s, s.At(i))
  }

  /** A run: the state after some steps, each of which was enabled. */
  ghost predicate Legal(steps: seq<Step>)
    decreases |steps|, 0
  {
    steps != [] ==>
      var before := steps[..|steps|-1];
      Legal(before) && Enabled(After(before), steps[|steps|-1])
  }

  ghost function After(steps: seq<Step>): State
    requires Legal(steps)
    decreases |steps|, 1
  {
    if steps == [] then START else Do(After(steps[..|steps|-1]), steps[|steps|-1])
  }

  lemma WithinMore(ids: set<string>, n: nat, m: nat)
    requires IdsWithin(ids, n) && n <= m
    ensures IdsWithin(ids, m)
  {
    forall x | x in ids ensures exists k: nat :: 10000 <= k < 10000 + m && x == Numeral(k) {
      var k: nat :| 10000 <= k < 10000 + n && x == Numeral(k);
    }
  }

  lemma WithinUnion(ids: set<string>, id: string, n: nat)
    requires IdsWithin(ids, n) && IdsWithin({id}, n)
    ensures IdsWithin(ids + {id}, n)
  {
    assert id in {id};
  }

  lemma WithinSubset(ids: set<string>, more: set<string>, n: nat)
    requires IdsWithin(more, n) && ids <= more
    ensures IdsWithin(ids, n)
  {
  }

  /** What a SELECT for a new meme finds, as long as at most 90000 were made. */
  lemma SelectGreatest(s: State)
    requires s.table.Keys <= s.issued && IdsWithin(s.issued, s.creates) && s.creates <= 90000
    ensures Countable(s.table.Keys)
    ensures var id := NextId(s.table.Keys);
            IdsWithin({id}, s.creates + 1) && forall x | x in s.table :: Digits(x) && Digits(id) && Value(x) < Value(id)
  {
    WithinSubset(s.table.Keys, s.issued, s.creates);
    NextIdIsGreatest(s.table.Keys, s.creates);
  }

  lemma OthersOutside(s: State, i: Thread)
    requires Exclusive(s) && s.At(i) != Outside
    ensures forall j: Thread | j != i :: s.At(j) == Outside
  {
  }

  lemma StepKeeps(s: State, step: Step)
    requires Inv(s) && Enabled(s, step) && Do(s, step).creates <= 90001
    ensures Inv(Do(s, step))
  {
    hide IdsWithin, Greatest, Countable, NextId, Scramble, CString;
    var s' := Do(s, step);
    match step
    case Lock(i, post) =>
      forall j: Thread ensures PendingFits(s', s'.At(j)) { SamePending(s, s', s.At(j)); }
    case Select(i, random) => SelectKeeps(s, i, random);
    case Insert(i) => InsertKeeps(s, i);
    case Unlock(i) =>
      forall j: Thread ensures PendingFits(s', s'.At(j)) { SamePending(s, s', s.At(j)); }
    case DeleteRow(id) =>
      forall j: Thread ensures PendingFits(s', s'.At(j)) { SamePending(s, s', s.At(j)); }
  }

  /** Nothing pending is disturbed when rows only go away. */
  lemma SamePending(s: State, s': State, p: Place)
    requires PendingFits(s, p) && s'.table.Keys <= s.table.Keys && s.issued == s'.issued && s.creates == s'.creates
    ensures PendingFits(s', p)
  {
    if p.Selected? && p.post.NewMeme? {
      assert forall x | x in s'.table :: x in s.table;
    }
  }

  lemma SelectKeeps(s: State, i: Thread, random: nat -> nat)
    requires Inv(s) && Enabled(s, Select(i, random)) && Do(s, Select(i, random)).creates <= 90001
    ensures Inv(Do(s, Select(i, random)))
  {
    hide IdsWithin, Countable, NextId, Scramble, CString;
    var s' := Do(s, Select(i, random));
    OthersOutside(s, i);
    assert PendingFits(s, s.At(i));
    if s.At(i).post.NewMeme? {
      SelectGreatest(s);
      WithinMore(s.issued, s.creates, s'.creates);
    }
    forall j: Thread ensures PendingFits(s', s'.At(j)) {
      if j != i { assert s'.At(j) == s.At(j); }
    }
  }

  lemma InsertKeeps(s: State, i: Thread)
    requires Inv(s) && Enabled(s, Insert(i))
    ensures Inv(Do(s, Insert(i)))
  {
    hide IdsWithin;
    var s' := Do(s, Insert(i));
    OthersOutside(s, i);
    assert PendingFits(s, s.At(i));
    var id := s.At(i).id;
    if s.At(i).post.NewMeme? {
      WithinUnion(s.issued, id, s.creates);
    } else {
      assert s.issued + {id} == s.issued;
    }
    forall j: Thread ensures PendingFits(s', s'.At(j)) {
      if j != i { assert s'.At(j) == s.At(j); }
    }
  }

  lemma CreatesGrow(s: State, step: Step)
    requires Enabled(s, step)
    ensures s.creates <= Do(s, step).creates
  {
  }

  /** Safety over all runs with at most 90001 creates. */
  lemma {:induction false} RunsAreSafe(steps: seq<Step>)
    requires Legal(steps) && After(steps).creates <= 90001
    ensures Inv(After(steps))
  {
    if steps != [] {
      hide Inv, Do, Enabled;
      var (before, step) := (steps[..|steps|-1], steps[|steps|-1]);
      CreatesGrow(After(before), step);
      RunsAreSafe(before);
      StepKeeps(After(before), step);
    } else {
      StartIsSafe();
    }
  }

  lemma StartIsSafe()
    ensures Inv(START)
  {
  }

  /** In every such run a creation adds one row and leaves all others as they are: the id it inserts is
      greater than every live one, whatever was deleted since it was chosen. */
  lemma CreateNeverReplaces(steps: seq<Step>, i: Thread)
    requires Legal(steps + [Insert(i)]) && Legal(steps) && After(steps).creates <= 90001
    requires After(steps).At(i).Selected? && After(steps).At(i).post.NewMeme?
    ensures var (s, s') := (After(steps), After(steps + [Insert(i)]));
            var id := s.At(i).id;
            && s.holder == Some(i)
            && id !in s.table
            && (forall x | x in s.table :: Digits(x) && Digits(id) && Value(x) < Value(id))
            && s'.table.Keys == s.table.Keys + {id} && |s'.table| == |s.table| + 1
            && (forall x | x in s.table :: s'.table[x] == s.table[x])
  {
    hide IdsWithin;
    RunsAreSafe(steps);
    var s := After(steps);
    assert (steps + [Insert(i)])[..|steps|] == steps;
    assert PendingFits(s, s.At(i));
    var (id, s') := (s.At(i).id, Do(s, Insert(i)));
    assert s'.table.Keys == s.table.Keys + {id};
  }

  /** A creator is never stopped: within the bound its SELECT always finds an id it can count up. */
  lemma SelectIsEnabled(steps: seq<Step>, i: Thread, random: nat -> nat)
    requires Legal(steps) && After(steps).creates <= 90000 && After(steps).At(i).Locked?
    ensures Enabled(After(steps), Select(i, random))
  {
    RunsAreSafe(steps);
    SelectGreatest(After(steps));
  }

  /** Without anyone in between, a post's two statements are one operation on the table. */
  lemma PostIsOneOperation(s: State, i: Thread, random: nat -> nat)
    requires Enabled(s, Select(i, random))
    ensures Enabled(Do(s, Select(i, random)), Insert(i))
    ensures Do(Do(s, Select(i, random)), Insert(i)).table ==
            Apply(s.table, match s.At(i).post
                           case NewMeme(meme) => Create(meme, random)
                           case EditMeme(id, meme) => Edit(id, meme))
  {
    hide NextId, Scramble, CString;
  }

  // ---------- runs of any length ----------

  ghost predicate AllNumerals(ids: set<string>) { forall x | x in ids :: IsNumeral(x) }

  /** A one and at least one zero: the numerals whose text is smaller than that of the number before. */
  predicate PowerOfTen(id: string) { |id| >= 2 && id == "1" + Zeros(|id| - 1) }

  ghost predicate PendingApart(s: State, p: Place) {
    match p
    case Selected(NewMeme(_), id, _) => IsNumeral(id) && (id in s.table ==> PowerOfTen(id))
    case Selected(EditMeme(id', _), id, _) => id == id' && id in s.issued
    case Locked(EditMeme(id, _)) => id in s.issued
    case _ => true
  }

  ghost predicate InvAny(s: State) {
    Exclusive(s) && s.table.Keys <= s.issued && AllNumerals(s.issued) && forall i: Thread :: PendingApart(s, s.At(i))
  }

  lemma SelectApart(ids: set<string>)
    requires AllNumerals(ids) && Countable(ids)
    ensures IsNumeral(NextId(ids)) && (NextId(ids) in ids ==> PowerOfTen(NextId(ids)))
  {
    hide Countable, NextId, AllNines, Numeral, Value, IsTextMax;
    CreateOverwrites(ids);
    if ids == {} {
      NextOfNothing();
    } else {
      TextMaxAmong(ids);
      var n := Value(TextMax(ids));
      NumeralOfValue(TextMax(ids));
      NextOfNumeral(ids);
      NumeralShape(n + 1);
      Successor(n);
    }
  }

  lemma NextOfNothing()
    ensures NextId({}) == "10000" && IsNumeral("10000")
  {
  }

  lemma StepKeepsAny(s: State, step: Step)
    requires InvAny(s) && Enabled(s, step)
    ensures InvAny(Do(s, step))
  {
    hide IsNumeral, PowerOfTen, Countable, NextId, Scramble, CString;
    var s' := Do(s, step);
    match step
    case Select(i, random) =>
      OthersOutside(s, i);
      assert PendingApart(s, s.At(i));
      if s.At(i).post.NewMeme? { SelectApart(s.table.Keys); }
      forall j: Thread ensures PendingApart(s', s'.At(j)) {
        if j != i { assert s'.At(j) == s.At(j); }
      }
    case Insert(i) =>
      OthersOutside(s, i);
      assert PendingApart(s, s.At(i));
      forall j: Thread ensures PendingApart(s', s'.At(j)) {
        if j != i { assert s'.At(j) == s.At(j); }
      }
    case _ =>
      assert s'.table.Keys <= s.table.Keys;
      forall j: Thread ensures PendingApart(s', s'.At(j)) {
        assert PendingApart(s, s.At(j));
      }
  }

  lemma {:induction false} RunsKeepAny(steps: seq<Step>)
    requires Legal(steps)
    ensures InvAny(After(steps))
  {
    if steps != [] {
      hide InvAny, Do, Enabled;
      RunsKeepAny(steps[..|steps|-1]);
      StepKeepsAny(After(steps[..|steps|-1]), steps[|steps|-1]);
    } else {
      StartKeepsAny();
    }
  }

  lemma StartKeepsAny()
    ensures InvAny(START)
  {
  }

  /** In a run of any length a creation can only ever replace a row whose id is a power of ten. When exactly it
      does, CreateReplacesExactly says. */
  lemma ReplacesOnlyAtPowers(steps: seq<Step>, i: Thread)
    requires Legal(steps) && After(steps).At(i).Selected? && After(steps).At(i).post.NewMeme?
    requires After(steps).At(i).id in After(steps).table
    ensures PowerOfTen(After(steps).At(i).id)
  {
    RunsKeepAny(steps);
    assert PendingApart(After(steps), After(steps).At(i));
  }

  // ---------- tokens, and deletes that are undone ----------

  /** A token is made for its id, or it is the one an edit of a missing row writes. */
  predicate Known(id: string, token: string) { TokenFor(id, token) || token == "00001" }

  ghost predicate TokensKnown(s: State) {
    && (forall id | id in s.table :: Known(id, s.table[id].token))
    && (forall i: Thread :: s.At(i).Selected? ==> Known(s.At(i).id, s.At(i).token))
  }

  lemma KnownIsWhole(id: string, token: string)
    requires IsNumeral(id) && Known(id, token)
    ensures CString(token) == token
  {
    hide CString, IsNumeral;
    if token == "00001" { CStringIsWhole(token); } else { TokenSplits(id, token); }
  }

  lemma SelectKnows(s: State, i: Thread, random: nat -> nat)
    requires InvAny(s) && TokensKnown(s) && Enabled(s, Select(i, random))
    ensures var p := Do(s, Select(i, random)).At(i); p.Selected? && Known(p.id, p.token)
  {
    hide Known, IsNumeral, Countable, NextId, Scramble, CString;
    assert PendingApart(s, s.At(i));
    match s.At(i).post
    case NewMeme(_) =>
      TokenIsFor(NextId(s.table.Keys), random);
      MadeIsKnown(NextId(s.table.Keys), random);
    case EditMeme(id, _) =>
      if id in s.table { KnownIsWhole(id, s.table[id].token); } else { MissingIsKnown(id); }
  }

  lemma MadeIsKnown(id: string, random: nat -> nat)
    ensures Known(id, id + "-" + Scramble(|id| * 2, random))
  {
    TokenIsFor(id, random);
  }

  lemma MissingIsKnown(id: string)
    ensures Known(id, "00001")
  {
  }

  lemma StepKeepsTokens(s: State, step: Step)
    requires InvAny(s) && TokensKnown(s) && Enabled(s, step)
    ensures TokensKnown(Do(s, step))
  {
    var s' := Do(s, step);
    if step.Select? { SelectKnows(s, step.i, step.random); }
    hide Known, InvAny, Countable, NextId, Scramble, CString;
    forall j: Thread | s'.At(j).Selected? ensures Known(s'.At(j).id, s'.At(j).token) {
      assert (step.Select? && step.i == j) || s'.At(j) == s.At(j);
    }
  }

  lemma {:induction false} RunsKeepTokens(steps: seq<Step>)
    requires Legal(steps)
    ensures TokensKnown(After(steps))
  {
    if steps != [] {
      hide InvAny, TokensKnown, Do, Enabled;
      RunsKeepAny(steps[..|steps|-1]);
      RunsKeepTokens(steps[..|steps|-1]);
      StepKeepsTokens(After(steps[..|steps|-1]), steps[|steps|-1]);
    } else {
      NoTokens();
    }
  }

  lemma NoTokens()
    ensures TokensKnown(START)
  {
  }

  /** In a run of any length every row's token is the one made for its id, or "00001"; apart from that one,
      no two rows hold the same. */
  lemma TokensOfRuns(steps: seq<Step>)
    requires Legal(steps)
    ensures var t := After(steps).table;
            && (forall id | id in t :: TokenFor(id, t[id].token) || t[id].token == "00001")
            && (forall a, b | a in t && b in t && t[a].token == t[b].token != "00001" :: a == b)
  {
    hide IsNumeral, TokenFor, Split, Legal, After;
    RunsKeepTokens(steps);
    RunsKeepAny(steps);
    var t := After(steps).table;
    forall a, b | a in t && b in t && t[a].token == t[b].token != "00001" ensures a == b {
      assert Known(a, t[a].token) && Known(b, t[b].token);
      TokenSplits(a, t[a].token);
      TokenSplits(b, t[b].token);
    }
  }

  ghost function RowsDeleted(steps: seq<Step>): set<string> {
    set step | step in steps && step.DeleteRow? :: step.id
  }

  lemma LegalBefore(steps: seq<Step>, step: Step)
    requires Legal(steps + [step])
    ensures Legal(steps) && Enabled(After(steps), step) && After(steps + [step]) == Do(After(steps), step)
  {
    assert (steps + [step])[..|steps|] == steps;
  }

  lemma OnlyDeletes(s: State, i: Thread, step: Step)
    requires Exclusive(s) && s.At(i).Selected? && Enabled(s, step) && step != Insert(i)
    ensures step.DeleteRow?
  {
    assert s.holder == Some(i);
  }

  /** Between the two statements of a post nothing but deletes can happen. */
  lemma {:induction false} OthersOnlyDelete(steps: seq<Step>, i: Thread, between: seq<Step>)
    requires Legal(steps + between) && Insert(i) !in between
    requires Legal(steps) && After(steps).At(i).Selected?
    ensures forall step | step in between :: step.DeleteRow?
    ensures After(steps + between) == After(steps).(table := After(steps).table - RowsDeleted(between))
  {
    hide Legal, After, InvAny;
    if between == [] {
      assert steps + between == steps;
      var s := After(steps);
      assert s.table - RowsDeleted([]) == s.table;
    } else {
      var (front, step) := (between[..|between|-1], between[|between|-1]);
      assert between == front + [step];
      assert steps + between == (steps + front) + [step];
      LegalBefore(steps + front, step);
      OthersOnlyDelete(steps, i, front);
      var s := After(steps + front);
      RunsKeepAny(steps + front);
      assert Exclusive(s) by { ExclusiveAny(s); }
      OnlyDeletes(s, i, step);
      DeletedSnoc(front, step);
      assert After(steps).table - RowsDeleted(front) - {step.id} == After(steps).table - RowsDeleted(between);
    }
  }

  lemma ExclusiveAny(s: State)
    requires InvAny(s)
    ensures Exclusive(s)
  {
  }

  lemma DeletedSnoc(front: seq<Step>, step: Step)
    requires step.DeleteRow?
    ensures RowsDeleted(front + [step]) == RowsDeleted(front) + {step.id}
  {
    var all := front + [step];
    forall id | id in RowsDeleted(front) + {step.id} ensures id in RowsDeleted(all) {
      if id in RowsDeleted(front) {
        assert DeleteRow(id) in all;
      } else {
        assert all[|front|] == step;
      }
    }
  }

  /** An edit and the deletes between its two statements: whatever happens there, the edit writes its row with
      the token from before. It brings a deleted row back with its own token exactly when the row was live, with
      that token, at the SELECT and was deleted before the INSERT. */
  lemma EditUndoesDelete(steps: seq<Step>, i: Thread, random: nat -> nat, between: seq<Step>)
    requires Legal(steps + [Select(i, random)] + between + [Insert(i)]) && Insert(i) !in between
    requires Legal(steps) && After(steps).At(i).Locked? && After(steps).At(i).post.EditMeme?
    requires Legal(steps + [Select(i, random)] + between)
    ensures var (s0, s1) := (After(steps), After(steps + [Select(i, random)] + between));
            var s2 := After(steps + [Select(i, random)] + between + [Insert(i)]);
            var (id, meme) := (s0.At(i).post.id, s0.At(i).post.meme);
            && s1.table == s0.table - RowsDeleted(between)
            && s2.table == s1.table[id := Row(meme, if id in s0.table then s0.table[id].token else "00001")]
            && (id !in s1.table && TokenFor(id, s2.table[id].token) <==>
                DeleteRow(id) in between && id in s0.table && TokenFor(id, s0.table[id].token))
  {
    hide Legal, After, InvAny, TokensKnown, CString, TokenFor, IsNumeral;
    var selected := steps + [Select(i, random)];
    LegalUpTo(selected, between);
    LegalBefore(steps, Select(i, random));
    LegalBefore(selected + between, Insert(i));
    OthersOnlyDelete(selected, i, between);
    RunsKeepAny(steps);
    RunsKeepTokens(steps);
    EditKeepsToken(After(steps), i);
    var id := After(steps).At(i).post.id;
    assert DeleteRow(id) in between <==> id in RowsDeleted(between);
    NoTokenForMissing(id);
  }

  lemma {:induction false} LegalUpTo(steps: seq<Step>, more: seq<Step>)
    requires Legal(steps + more)
    ensures Legal(steps)
  {
    if more == [] {
      assert steps + more == steps;
    } else {
      var n := |more| - 1;
      assert steps + more == (steps + more[..n]) + [more[n]];
      LegalBefore(steps + more[..n], more[n]);
      LegalUpTo(steps, more[..n]);
    }
  }

  lemma EditKeepsToken(s: State, i: Thread)
    requires InvAny(s) && TokensKnown(s) && s.At(i).Locked? && s.At(i).post.EditMeme?
    ensures var id := s.At(i).post.id; IsNumeral(id) && (id in s.table ==> CString(s.table[id].token) == s.table[id].token)
  {
    hide CString, Known, IsNumeral;
    assert PendingApart(s, s.At(i));
    var id := s.At(i).post.id;
    if id in s.table { KnownIsWhole(id, s.table[id].token); }
  }

  lemma NoTokenForMissing(id: string)
    ensures !TokenFor(id, "00001")
  {
  }

  // ---------- when a creation replaces a row ----------

  /** A creation and the deletes between its two statements: its INSERT replaces a row exactly when at the SELECT
      the greatest id was all nines with the numeral after it live, and that row was not deleted since. */
  lemma CreateReplacesExactly(steps: seq<Step>, i: Thread, random: nat -> nat, between: seq<Step>)
    requires Legal(steps + [Select(i, random)] + between) && Insert(i) !in between
    requires Legal(steps) && After(steps).At(i).Locked? && After(steps).At(i).post.NewMeme?
    ensures var (s0, s1) := (After(steps), After(steps + [Select(i, random)] + between));
            && s1.At(i).Selected? && Enabled(s1, Insert(i))
            && (s1.At(i).id in s1.table <==>
                && s0.table.Keys != {} && AllNines(TextMax(s0.table.Keys))
                && var next := "1" + Zeros(|TextMax(s0.table.Keys)|);
                   next in s0.table && DeleteRow(next) !in between)
    ensures var (s1, s2) := (After(steps + [Select(i, random)] + between),
                             Do(After(steps + [Select(i, random)] + between), Insert(i)));
            |s2.table| == |s1.table| + (if s1.At(i).id in s1.table then 0 else 1)
  {
    hide Legal, After, InvAny, CString, IsNumeral, Countable, NextId, Scramble, AllNines, Zeros, IsTextMax;
    var selected := steps + [Select(i, random)];
    LegalUpTo(selected, between);
    LegalBefore(steps, Select(i, random));
    OthersOnlyDelete(selected, i, between);
    RunsKeepAny(steps);
    var (s0, s1) := (After(steps), After(selected + between));
    LiveAreNumerals(s0);
    NextStillTaken(s0.table.Keys, between);
    InsertCounts(s1, i);
  }

  lemma NextStillTaken(ids: set<string>, between: seq<Step>)
    requires Countable(ids) && AllNumerals(ids)
    requires forall step | step in between :: step.DeleteRow?
    ensures NextId(ids) in ids - RowsDeleted(between) <==>
            && ids != {} && AllNines(TextMax(ids))
            && var next := "1" + Zeros(|TextMax(ids)|); next in ids && DeleteRow(next) !in between
  {
    hide Countable, NextId, AllNines, Zeros, IsTextMax;
    CreateOverwrites(ids);
    if ids != {} && AllNines(TextMax(ids)) { NinesNext(ids); }
    assert DeleteRow(NextId(ids)) in between <==> NextId(ids) in RowsDeleted(between);
  }

  lemma InsertCounts(s: State, i: Thread)
    requires Enabled(s, Insert(i))
    ensures |Do(s, Insert(i)).table| == |s.table| + (if s.At(i).id in s.table then 0 else 1)
  {
    var (t, id) := (s.table, s.At(i).id);
    assert Do(s, Insert(i)).table.Keys == t.Keys + {id};
    if id in t { assert t.Keys + {id} == t.Keys; }
  }

  lemma LiveAreNumerals(s: State)
    requires InvAny(s)
    ensures AllNumerals(s.table.Keys)
  {
    hide IsNumeral;
  }

  lemma NinesNext(ids: set<string>)
    requires Countable(ids) && AllNumerals(ids) && ids != {} && AllNines(TextMax(ids))
    ensures NextId(ids) == "1" + Zeros(|TextMax(ids)|)
  {
    hide Countable, NextId;
    var m := TextMax(ids);
    NumeralOfValue(m);
    NextOfNumeral(ids);
    Successor(Value(m));
  }

  // ---------- a run in which a deleted row comes back ----------

  lemma Extend(steps: seq<Step>, step: Step)
    requires Legal(steps) && Enabled(After(steps), step)
    ensures Legal(steps + [step]) && After(steps + [step]) == Do(After(steps), step)
  {
    assert (steps + [step])[..|steps|] == steps;
  }

  const FIRST := "10000"

  function FirstToken(random: nat -> nat): string { FIRST + "-" + Scramble(|FIRST| * 2, random) }

  /** A meme is created by thread 0. */
  function Creation(meme: Meme, random: nat -> nat): seq<Step> {
    [Lock(0, NewMeme(meme)), Select(0, random), Insert(0), Unlock(0)]
  }

  lemma AfterCreation(meme: Meme, random: nat -> nat)
    ensures Legal(Creation(meme, random))
    ensures After(Creation(meme, random)) ==
            State(map[FIRST := Row(meme, FirstToken(random))], None, map[0 := Outside], {FIRST}, 1)
  {
    hide Scramble;
    var (a, b, c, d) := (Lock(0, NewMeme(meme)), Select(0, random), Insert(0), Unlock(0));
    assert Legal([]) && After([]) == START;
    hide Legal, After;
    assert [] + [a] == [a] && [a] + [b] == [a, b] && [a, b] + [c] == [a, b, c] && [a, b, c] + [d] == [a, b, c, d];
    Extend([], a);
    assert After([a]) == State(map[], Some(0), map[0 := Locked(NewMeme(meme))], {}, 0);
    Extend([a], b);
    assert After([a, b]) == State(map[], Some(0), map[0 := Selected(NewMeme(meme), FIRST, FirstToken(random))], {}, 1);
    Extend([a, b], c);
    Extend([a, b, c], d);
  }

  /** Thread 1 then starts to edit the meme. */
  function EditBegun(meme: Meme, edited: Meme, random: nat -> nat): seq<Step> {
    Creation(meme, random) + [Lock(1, EditMeme(FIRST, edited))] + [Select(1, random)]
  }

  lemma AfterEditBegun(meme: Meme, edited: Meme, random: nat -> nat)
    ensures Legal(EditBegun(meme, edited, random))
    ensures After(EditBegun(meme, edited, random)) ==
            State(map[FIRST := Row(meme, FirstToken(random))], Some(1),
                  map[0 := Outside, 1 := Selected(EditMeme(FIRST, edited), FIRST, FirstToken(random))], {FIRST}, 1)
  {
    hide Legal, After, Scramble, CString, FirstToken, Creation;
    AfterCreation(meme, random);
    FirstTokenIsWhole(random);
    var steps := Creation(meme, random);
    Extend(steps, Lock(1, EditMeme(FIRST, edited)));
    Extend(steps + [Lock(1, EditMeme(FIRST, edited))], Select(1, random));
  }

  lemma FirstTokenIsWhole(random: nat -> nat)
    ensures CString(FirstToken(random)) == FirstToken(random)
  {
    hide CString, Scramble;
    TokenIsFor(FIRST, random);
    TokenSplits(FIRST, FirstToken(random));
  }

  /** The meme is deleted before the edit's INSERT, which brings it back, with the token it had. */
  lemma DeletedRowReturns(meme: Meme, edited: Meme, random: nat -> nat)
    ensures var begun := EditBegun(meme, edited, random);
            var deleted := begun + [DeleteRow(FIRST)];
            && Legal(begun) && Legal(deleted) && Legal(deleted + [Insert(1)])
            && After(begun).table == map[FIRST := Row(meme, FirstToken(random))]
            && After(deleted).table == map[]
            && After(deleted + [Insert(1)]).table == map[FIRST := Row(edited, FirstToken(random))]
  {
    hide Legal, After, FirstToken, EditBegun;
    AfterEditBegun(meme, edited, random);
    var begun := EditBegun(meme, edited, random);
    Extend(begun, DeleteRow(FIRST));
    Extend(begun + [DeleteRow(FIRST)], Insert(1));
  }
}
