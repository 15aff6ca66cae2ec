/** The filter reset in its two real steps: the words are cleared under bloomMu, the counter is zeroed afterwards. */
module ResetRace {
  import opened Bytes
  import opened BloomFilter

  /** owed: insertions whose increment of the counter is still to come. */
  datatype State = State(bits: set<nat>, count: nat, owed: nat, resetting: bool)

  datatype Event = SetBits(key: seq<byte>) | AddCount | ClearWords | ZeroCount

  /** One atomic step; an event that cannot happen changes nothing. */
  function Step(s: State, e: Event): State {
    match e
    case SetBits(key) => s.(bits := s.bits + Indices(key), owed := s.owed + 1)
    case AddCount => if s.owed == 0 then s else s.(count := s.count + 1, owed := s.owed - 1)
    case ClearWords => if s.resetting then s else s.(bits := {}, resetting := true)
    case ZeroCount => if !s.resetting then s else s.(count := 0, resetting := false)
  }

  const START := State({}, 0, 0, false)

  function Run(events: seq<Event>): State {
    if |events| == 0 then START else Step(Run(events[..|events| - 1]), events[|events| - 1])
  }

  // ─── What the last reset did ─────────────────────────────────────

  /** Since the words were last cleared. keys: what was inserted. credit: the increments owed at that moment. late: the
      increments that landed before the counter was zeroed. */
  datatype Tally = Tally(keys: seq<seq<byte>>, credit: nat, late: nat)

  function Noted(t: Tally, s: State, e: Event): Tally {
    match e
    case SetBits(key) => t.(keys := t.keys + [key])
    case AddCount => if s.resetting && s.owed > 0 then t.(late := t.late + 1) else t
    case ClearWords => if s.resetting then t else Tally([], s.owed, 0)
    case ZeroCount => t
  }

  function TallyOf(events: seq<Event>): Tally {
    if |events| == 0 then Tally([], 0, 0)
    else Noted(TallyOf(events[..|events| - 1]), Run(events[..|events| - 1]), events[|events| - 1])
  }

  function BitsOfKeys(keys: seq<seq<byte>>): set<nat> {
    if |keys| == 0 then {} else BitsOfKeys(keys[..|keys| - 1]) + Indices(keys[|keys| - 1])
  }

  /** No key shares a bit with an earlier one. */
  predicate Disjoint(keys: seq<seq<byte>>) {
    |keys| == 0 || (Disjoint(keys[..|keys| - 1]) && BitsOfKeys(keys[..|keys| - 1]) !! Indices(keys[|keys| - 1]))
  }

  lemma BitsOfOneMore(keys: seq<seq<byte>>, key: seq<byte>)
    ensures BitsOfKeys(keys + [key]) == BitsOfKeys(keys) + Indices(key)
  {
    assert (keys + [key])[..|keys|] == keys;
  }

  /** Every key brings three bits at most, and three new ones exactly when it shares none. */
  lemma {:induction false} ThreeBitsEach(keys: seq<seq<byte>>)
    ensures |BitsOfKeys(keys)| <= 3 * |keys|
    ensures |BitsOfKeys(keys)| == 3 * |keys| <==> Disjoint(keys)
    decreases |keys|
  {
    if |keys| > 0 {
      var before, last := keys[..|keys| - 1], Indices(keys[|keys| - 1]);
      ThreeBitsEach(before);
      ThreeDistinctBits(keys[|keys| - 1]);
      UnionSize(BitsOfKeys(before), last);
    }
  }

  /** What is counted or owed, against what was inserted: the late increments are lost with the zeroing, the credit makes
      up for as many. */
  ghost predicate Balanced(s: State, t: Tally) {
    && s.bits == BitsOfKeys(t.keys)
    && (if s.resetting then |t.keys| + t.credit == s.owed + t.late
        else |t.keys| + t.credit == s.count + s.owed + t.late)
  }

  lemma StepBalances(s: State, t: Tally, e: Event)
    requires Balanced(s, t)
    ensures Balanced(Step(s, e), Noted(t, s, e))
  {
    match e
    case SetBits(key) => BitsOfOneMore(t.keys, key);
    case _ =>
  }

  lemma {:induction false} Ledger(events: seq<Event>)
    ensures Balanced(Run(events), TallyOf(events))
    decreases |events|
  {
    if |events| > 0 {
      var before := events[..|events| - 1];
      Ledger(before);
      StepBalances(Run(before), TallyOf(before), events[|events| - 1]);
    }
  }

  // ─── When the counter bounds the filter ──────────────────────────

  predicate CoversInsertions(s: State, t: Tally) {
    |t.keys| <= s.count + s.owed
  }

  predicate CoversBits(s: State) {
    |s.bits| <= 3 * (s.count + s.owed)
  }

  /** Between resets, the counter with the increments owed covers the insertions exactly when the last reset saw no more
      late increments than it had in credit. */
  lemma CoversInsertionsExactly(events: seq<Event>)
    requires !Run(events).resetting
    ensures CoversInsertions(Run(events), TallyOf(events)) <==> TallyOf(events).late <= TallyOf(events).credit
  {
    Ledger(events);
  }

  /** On the bits: that is enough, and where no two keys share a bit it is also needed. */
  lemma CoversBitsExactly(events: seq<Event>)
    requires !Run(events).resetting
    ensures TallyOf(events).late <= TallyOf(events).credit ==> CoversBits(Run(events))
    ensures Disjoint(TallyOf(events).keys) ==> (CoversBits(Run(events)) <==> TallyOf(events).late <= TallyOf(events).credit)
  {
    Ledger(events);
    ThreeBitsEach(TallyOf(events).keys);
  }

  /** While a reset is under way, the increments owed and the late ones cover the bits. */
  lemma CoversDuringReset(events: seq<Event>)
    requires Run(events).resetting
    ensures |Run(events).bits| <= 3 * (Run(events).owed + TallyOf(events).late)
  {
    Ledger(events);
    ThreeBitsEach(TallyOf(events).keys);
  }

  function Interrupted(key: seq<byte>): seq<Event> {
    [ClearWords, SetBits(key), AddCount, ZeroCount]
  }

  lemma {:induction false} RunFour(e: seq<Event>)
    requires |e| == 4
    ensures Run(e) == Step(Step(Step(Step(START, e[0]), e[1]), e[2]), e[3])
  {
    var e3, e2, e1 := e[..3], e[..2], e[..1];
    assert e3[..2] == e2 && e2[..1] == e1 && e1[..0] == [];
    assert Run(e1) == Step(START, e[0]);
    assert Run(e2) == Step(Run(e1), e[1]);
    assert Run(e3) == Step(Run(e2), e[2]);
  }

  /** One insertion inside a reset, whatever its key, leaves three bits that no count covers. */
  lemma BudgetLost(key: seq<byte>)
    ensures var s := Run(Interrupted(key)); |s.bits| == 3 && s.count == 0 && s.owed == 0 && !s.resetting
    ensures TallyOf(Interrupted(key)).late > TallyOf(Interrupted(key)).credit
  {
    RunFour(Interrupted(key));
    ThreeDistinctBits(key);
    assert {} + Indices(key) == Indices(key);
    CoversBitsExactly(Interrupted(key));
  }

  /** A late increment alone does no harm: this one was owed before the words were cleared. */
  lemma BudgetKept(key: seq<byte>)
    ensures var e := [SetBits(key), ClearWords, AddCount, ZeroCount];
            Run(e) == START && TallyOf(e).late <= TallyOf(e).credit
  {
    var e := [SetBits(key), ClearWords, AddCount, ZeroCount];
    RunFour(e);
    CoversInsertionsExactly(e);
    Ledger(e);
    assert e[..3][..2] == [SetBits(key), ClearWords];
    assert TallyOf(e) == TallyOf(e[..3]);
    assert e[..3][..2][..1] == [SetBits(key)];
    assert |TallyOf(e[..3][..2]).keys| == 0;
  }
}
