/** The request counter of the status page: a list searched and incremented in place, and the history
    of calls it stands for. */
module StatusCounter {
  type Call = (string, string)
  type Entry = (int, string, string)

  const INT_LIMIT := 0x8000_0000
  const UNSIGNED_LIMIT := 0x1_0000_0000

  function Key(e: Entry): Call { (e.1, e.2) }

  function Keys(es: seq<Entry>): (ks: seq<Call>)
    ensures |ks| == |es| && forall i | 0 <= i < |es| :: ks[i] == Key(es[i])
  {
    seq(|es|, i requires 0 <= i < |es| => Key(es[i]))
  }

  /** The entries after the calls of `history`: one for each pair, in order of first appearance, with the
      number of times it was called. */
  function Tally(history: seq<Call>): (es: seq<Entry>)
    ensures Keys(es) == FirstAppearances(history)
    ensures forall i | 0 <= i < |es| :: es[i].0 == multiset(history)[Key(es[i])]
  {
    var ks := FirstAppearances(history);
    seq(|ks|, i requires 0 <= i < |ks| => (multiset(history)[ks[i]], ks[i].0, ks[i].1))
  }

  function FirstAppearances(history: seq<Call>): (ks: seq<Call>)
    ensures forall i, j | 0 <= i < j < |ks| :: ks[i] != ks[j]
    ensures forall k :: k in ks <==> k in history
  {
    if history == [] then []
    else
      var (before, last) := (history[..|history|-1], history[|history|-1]);
      assert history == before + [last];
      if last in before then FirstAppearances(before) else FirstAppearances(before) + [last]
  }

  /** Earlier entries were called before later ones first were. */
  lemma {:induction false} AppearanceOrder(history: seq<Call>, i: nat, j: nat)
    requires i < j < |FirstAppearances(history)|
    ensures exists p :: 0 <= p < |history| && history[p] == FirstAppearances(history)[i] &&
                        FirstAppearances(history)[j] !in history[..p+1]
  {
    var (before, last) := (history[..|history|-1], history[|history|-1]);
    var (ks, earlier) := (FirstAppearances(history), FirstAppearances(before));
    if j < |earlier| {
      AppearanceOrder(before, i, j);
      var p :| 0 <= p < |before| && before[p] == earlier[i] && earlier[j] !in before[..p+1];
      assert history[p] == ks[i] && history[..p+1] == before[..p+1];
    } else {
      assert ks[j] == last && ks[i] in earlier;
      var p :| 0 <= p < |before| && before[p] == ks[i];
      assert history[p] == ks[i] && history[..p+1] == before[..p+1];
    }
  }

  function Total(es: seq<Entry>): int {
    if es == [] then 0 else Total(es[..|es|-1]) + es[|es|-1].0
  }

  lemma {:induction false} TotalBump(es: seq<Entry>, i: nat, n: int)
    requires i < |es|
    ensures Total(es[i := (n, es[i].1, es[i].2)]) == Total(es) - es[i].0 + n
  {
    var es' := es[i := (n, es[i].1, es[i].2)];
    if i < |es| - 1 {
      TotalBump(es[..|es|-1], i, n);
      assert es'[..|es|-1] == es[..|es|-1][i := (n, es[i].1, es[i].2)];
    } else {
      assert es'[..|es|-1] == es[..|es|-1];
    }
  }

  function Bumped(es: seq<Entry>, i: nat): seq<Entry>
    requires i < |es|
  {
    es[i := (es[i].0 + 1, es[i].1, es[i].2)]
  }

  lemma AppearancesStep(history: seq<Call>, call: Call)
    ensures FirstAppearances(history + [call]) ==
            FirstAppearances(history) + (if call in history then [] else [call])
  {
    assert (history + [call])[..|history|] == history;
  }

  lemma KeysOf(history: seq<Call>)
    ensures var (es, ks) := (Tally(history), FirstAppearances(history));
            |es| == |ks| &&
            forall i | 0 <= i < |es| :: Key(es[i]) == ks[i] && es[i] == (multiset(history)[ks[i]], ks[i].0, ks[i].1)
  {
  }

  /** A call already counted raises its one entry. */
  lemma TallyOld(history: seq<Call>, call: Call, i: nat)
    requires i < |Tally(history)| && Key(Tally(history)[i]) == call
    ensures Tally(history + [call]) == Bumped(Tally(history), i)
  {
    hide FirstAppearances, Tally;
    var (es, es') := (Tally(history), Tally(history + [call]));
    KeysOf(history);
    KeysOf(history + [call]);
    assert call in FirstAppearances(history);
    AppearancesStep(history, call);
    assert multiset(history + [call]) == multiset(history) + multiset{call};
    forall j | 0 <= j < |es| ensures es'[j] == Bumped(es, i)[j] {
    }
  }

  /** A new call is appended with count one. */
  lemma TallyNew(history: seq<Call>, call: Call)
    requires call !in history
    ensures Tally(history + [call]) == Tally(history) + [(1, call.0, call.1)]
  {
    hide FirstAppearances, Tally;
    var (es, es') := (Tally(history), Tally(history + [call]));
    KeysOf(history);
    KeysOf(history + [call]);
    AppearancesStep(history, call);
    assert multiset(history + [call]) == multiset(history) + multiset{call};
    forall j | 0 <= j < |es| ensures es'[j] == es[j] {
      assert FirstAppearances(history)[j] in history;
    }
  }

  /** No call is lost or counted twice. */
  lemma {:induction false} TallyTotal(history: seq<Call>)
    ensures Total(Tally(history)) == |history|
  {
    hide Tally;
    if history == [] {
      TallyNothing();
    } else {
      var (before, last) := (history[..|history|-1], history[|history|-1]);
      TallyTotal(before);
      assert history == before + [last];
      var es := Tally(before);
      if last in before {
        var i := Position(before, last);
        TallyOld(before, last, i);
        TotalBump(es, i, es[i].0 + 1);
      } else {
        TallyNew(before, last);
        assert Tally(history)[..|es|] == es;
      }
    }
  }

  lemma TallyNothing()
    ensures Tally([]) == []
  {
  }

  lemma Position(history: seq<Call>, call: Call) returns (i: nat)
    requires call in history
    ensures i < |Tally(history)| && Key(Tally(history)[i]) == call
  {
    KeysOf(history);
    assert call in FirstAppearances(history);
    i :| i < |Tally(history)| && FirstAppearances(history)[i] == call;
  }

  class StatusObject {
    var status_entries_: seq<Entry>
    ghost var history: seq<Call>

    /** The list is what the calls so far amount to, and their number still fits an int. */
    ghost predicate Valid() reads this {
      status_entries_ == Tally(history) && |history| < INT_LIMIT
    }

    constructor ()
      ensures Valid() && history == []
    {
      status_entries_ := [];
      history := [];
    }

    method addStatusEntry(request_url: string, resp_code: string)
      requires Valid() && |history| < INT_LIMIT - 1
      modifies this
      ensures Valid() && history == old(history) + [(request_url, resp_code)]
    {
      ghost var call := (request_url, resp_code);
      hide Tally, FirstAppearances;
      var status_entry := (1, request_url, resp_code);
      var i := 0;
      while i < |status_entries_|
        invariant i <= |status_entries_| && status_entries_ == old(status_entries_) && history == old(history)
        invariant forall j | 0 <= j < i :: Key(status_entries_[j]) != call
      {
        if status_entries_[i].1 == request_url && status_entries_[i].2 == resp_code {
          TallyOld(history, call, i);
          status_entries_ := status_entries_[i := (status_entries_[i].0 + 1, request_url, resp_code)];
          history := history + [call];
          return;
        }
        i := i + 1;
      }
      NoneOf(history, call);
      TallyNew(history, call);
      status_entries_ := status_entries_ + [status_entry];
      history := history + [call];
    }

    method getStatusEntries() returns (entries: seq<Entry>)
      requires Valid()
      ensures entries == Tally(history)
    {
      entries := status_entries_;
    }

    method getStatusCalls() returns (calls: int)
      requires Valid()
      ensures calls == |history|
    {
      var count := 0;
      assert status_entries_[..0] == [];
      for i := 0 to |status_entries_|
        invariant count == Total(status_entries_[..i]) % UNSIGNED_LIMIT
      {
        assert status_entries_[..i+1][..i] == status_entries_[..i];
        count := (count + status_entries_[i].0) % UNSIGNED_LIMIT;
      }
      assert status_entries_[..|status_entries_|] == status_entries_;
      TallyTotal(history);
      return if count < INT_LIMIT then count else count - UNSIGNED_LIMIT;
    }
  }

  lemma NoneOf(history: seq<Call>, call: Call)
    requires forall j | 0 <= j < |Tally(history)| :: Key(Tally(history)[j]) != call
    ensures call !in history
  {
    hide FirstAppearances, Tally;
    KeysOf(history);
  }
}
