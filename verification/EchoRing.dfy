/** The echo statistics of core/vpn.go: a ring of the last hundred pings. */
module EchoRing {

  const SIZE := 100

  /** Times are nanoseconds since year one; the zero time marks a slot never used. */
  datatype Slot = Slot(time: nat, acked: bool)

  const EMPTY := Slot(0, false)

  predicate Waiting(s: Slot) {
    !s.acked && s.time != 0
  }

  // ─── The ring in age order ───────────────────────────────────────

  /** Oldest slot first: what the array holds from pos on, then what it holds before pos. */
  function InAgeOrder(ring: seq<Slot>, pos: nat): seq<Slot>
    requires pos <= |ring|
  {
    ring[pos..] + ring[..pos]
  }

  function Pushed(w: seq<Slot>, now: nat): seq<Slot>
    requires |w| > 0
  {
    w[1..] + [Slot(now, false)]
  }

  /** The first waiting slot is marked. */
  function Acked(w: seq<Slot>): seq<Slot> {
    if |w| == 0 then []
    else if Waiting(w[0]) then [w[0].(acked := true)] + w[1..]
    else [w[0]] + Acked(w[1..])
  }

  function Zeros(n: nat): seq<Slot> {
    seq(n, _ => EMPTY)
  }

  // ─── Runs ────────────────────────────────────────────────────────

  datatype Op = Push(now: nat) | Ack | Clear

  /** time.Now() is never the zero time. */
  predicate Timed(ops: seq<Op>) {
    forall k :: 0 <= k < |ops| && ops[k].Push? ==> ops[k].now > 0
  }

  function Run(ops: seq<Op>): (w: seq<Slot>)
    ensures |w| == SIZE
  {
    if |ops| == 0 then Zeros(SIZE)
    else
      var w := Run(ops[..|ops| - 1]);
      match ops[|ops| - 1]
      case Push(now) => Pushed(w, now)
      case Ack => AckedLength(w); Acked(w)
      case Clear => Zeros(SIZE)
  }

  lemma {:induction false} AckedLength(w: seq<Slot>)
    ensures |Acked(w)| == |w|
  {
    if |w| > 0 {
      AckedLength(w[1..]);
    }
  }

  /** The times pushed since the last reset. */
  function Times(ops: seq<Op>): seq<nat> {
    if |ops| == 0 then []
    else
      match ops[|ops| - 1]
      case Push(now) => Times(ops[..|ops| - 1]) + [now]
      case Ack => Times(ops[..|ops| - 1])
      case Clear => []
  }

  /** Up on push, down on ack, kept within 0..100. */
  function Counter(ops: seq<Op>): (c: nat)
    ensures c <= SIZE && c <= |Times(ops)|
  {
    if |ops| == 0 then 0
    else
      var c := Counter(ops[..|ops| - 1]);
      match ops[|ops| - 1]
      case Push(_) => if c == SIZE then SIZE else c + 1
      case Ack => if c == 0 then 0 else c - 1
      case Clear => 0
  }

  /** The reference window: the last hundred pushes, padded in front; all but the last `waiting` of them acknowledged. */
  function Window(times: seq<nat>, waiting: nat): seq<Slot>
    requires waiting <= SIZE
  {
    var n := |times|;
    seq(SIZE, k requires 0 <= k < SIZE =>
      if k + n < SIZE then EMPTY else Slot(times[k + n - SIZE], k < SIZE - waiting))
  }

  lemma {:induction false} AckedAt(w: seq<Slot>, k: nat)
    requires k < |w| && Waiting(w[k])
    requires forall j :: 0 <= j < k ==> !Waiting(w[j])
    ensures Acked(w) == w[k := w[k].(acked := true)]
  {
    if k > 0 {
      AckedAt(w[1..], k - 1);
      assert w[k := w[k].(acked := true)] == [w[0]] + w[1..][k - 1 := w[k].(acked := true)];
    } else {
      assert w[0 := w[0].(acked := true)] == [w[0].(acked := true)] + w[1..];
    }
  }

  lemma {:induction false} AckedNone(w: seq<Slot>)
    requires forall j :: 0 <= j < |w| ==> !Waiting(w[j])
    ensures Acked(w) == w
  {
    if |w| > 0 {
      AckedNone(w[1..]);
    }
  }

  lemma PushedWindow(times: seq<nat>, waiting: nat, now: nat)
    requires waiting <= SIZE && waiting <= |times|
    ensures Pushed(Window(times, waiting), now)
         == Window(times + [now], if waiting == SIZE then SIZE else waiting + 1)
  {
  }

  lemma AckedWindow(times: seq<nat>, waiting: nat)
    requires waiting <= SIZE && waiting <= |times|
    requires forall k :: 0 <= k < |times| ==> times[k] > 0
    ensures Acked(Window(times, waiting)) == Window(times, if waiting == 0 then 0 else waiting - 1)
  {
    var w := Window(times, waiting);
    if waiting == 0 {
      AckedNone(w);
    } else {
      AckedAt(w, SIZE - waiting);
      assert Window(times, waiting - 1) == w[SIZE - waiting := w[SIZE - waiting].(acked := true)];
    }
  }

  lemma {:induction false} TimesPositive(ops: seq<Op>)
    requires Timed(ops)
    ensures forall k :: 0 <= k < |Times(ops)| ==> Times(ops)[k] > 0
    decreases |ops|
  {
    if |ops| > 0 {
      TimesPositive(ops[..|ops| - 1]);
    }
  }

  /** After any run the ring is determined by the pushes since the last reset and a saturating counter: it is the last
      hundred pushes, of which all but the `Counter` youngest are acknowledged. */
  lemma {:induction false} RingRefinesCounter(ops: seq<Op>)
    requires Timed(ops)
    ensures Run(ops) == Window(Times(ops), Counter(ops))
    decreases |ops|
  {
    if |ops| > 0 {
      var before := ops[..|ops| - 1];
      RingRefinesCounter(before);
      match ops[|ops| - 1]
      case Push(now) => PushedWindow(Times(before), Counter(before), now);
      case Ack =>
        TimesPositive(before);
        AckedWindow(Times(before), Counter(before));
      case Clear =>
    }
  }

  /** Among the slots in use, in age order, the acknowledged ones come first. */
  lemma AckedFormPrefix(ops: seq<Op>, i: nat, j: nat)
    requires Timed(ops) && i < j < SIZE
    requires Run(ops)[i].time != 0 && Run(ops)[j].acked
    ensures Run(ops)[i].acked
  {
    RingRefinesCounter(ops);
  }

  function CountWaiting(w: seq<Slot>): nat {
    if |w| == 0 then 0 else CountWaiting(w[..|w| - 1]) + if Waiting(w[|w| - 1]) then 1 else 0
  }

  lemma {:induction false} WaitingSuffix(w: seq<Slot>, from: nat)
    requires from <= |w| && forall k :: 0 <= k < |w| ==> (Waiting(w[k]) <==> from <= k)
    ensures CountWaiting(w) == |w| - from
    decreases |w|
  {
    if |w| > 0 {
      var n := |w| - 1;
      if from <= n {
        WaitingSuffix(w[..n], from);
      } else {
        WaitingSuffix(w[..n], n);
      }
    }
  }

  /** The number of unacknowledged pings is the saturating counter. */
  lemma WaitingIsCounter(ops: seq<Op>)
    requires Timed(ops)
    ensures CountWaiting(Run(ops)) == Counter(ops)
  {
    RingRefinesCounter(ops);
    TimesPositive(ops);
    WaitingSuffix(Run(ops), SIZE - Counter(ops));
  }

  // ─── Loss ────────────────────────────────────────────────────────

  const WINDOW := 30_000_000_000
  const LOST_AFTER := 10_000_000_000

  predicate Counts(s: Slot, now: nat) {
    s.time != 0 && now - s.time <= WINDOW
  }

  predicate Lost(s: Slot, now: nat) {
    Counts(s, now) && !s.acked && now - s.time > LOST_AFTER
  }

  function Total(w: seq<Slot>, now: nat): nat {
    if |w| == 0 then 0 else Total(w[..|w| - 1], now) + if Counts(w[|w| - 1], now) then 1 else 0
  }

  function LostIn(w: seq<Slot>, now: nat): nat {
    if |w| == 0 then 0 else LostIn(w[..|w| - 1], now) + if Lost(w[|w| - 1], now) then 1 else 0
  }

  lemma {:induction false} LossBounds(w: seq<Slot>, now: nat)
    ensures LostIn(w, now) <= Total(w, now) <= |w|
    ensures LostIn(w, now) <= CountWaiting(w)
    decreases |w|
  {
    if |w| > 0 {
      LossBounds(w[..|w| - 1], now);
    }
  }

  lemma {:induction false} LossAppend(a: seq<Slot>, b: seq<Slot>, now: nat)
    ensures Total(a + b, now) == Total(a, now) + Total(b, now)
    ensures LostIn(a + b, now) == LostIn(a, now) + LostIn(b, now)
    decreases |b|
  {
    if |b| == 0 {
      assert a + b == a;
    } else {
      LossAppend(a, b[..|b| - 1], now);
      assert (a + b)[..|a + b| - 1] == a + b[..|b| - 1];
    }
  }

  /** Counting in array order or in age order is the same. */
  lemma LossIgnoresPosition(ring: seq<Slot>, pos: nat, now: nat)
    requires pos <= |ring|
    ensures Total(ring, now) == Total(InAgeOrder(ring, pos), now)
    ensures LostIn(ring, now) == LostIn(InAgeOrder(ring, pos), now)
  {
    LossAppend(ring[..pos], ring[pos..], now);
    LossAppend(ring[pos..], ring[..pos], now);
    assert ring == ring[..pos] + ring[pos..];
  }

  /** Whatever happened before, the loss is a share of what was counted, and at most the pings the counter has open. */
  lemma LossOfRun(ops: seq<Op>, now: nat)
    requires Timed(ops)
    ensures LostIn(Run(ops), now) <= Total(Run(ops), now) <= SIZE
    ensures LostIn(Run(ops), now) <= Counter(ops)
  {
    LossBounds(Run(ops), now);
    WaitingIsCounter(ops);
  }

  // ─── The loss in terms of the pushes ─────────────────────────────

  /** How many of the times are at most 30 s old. */
  function Recent(times: seq<nat>, now: nat): nat {
    if |times| == 0 then 0
    else Recent(times[..|times| - 1], now) + if now - times[|times| - 1] <= 30_000_000_000 then 1 else 0
  }

  /** How many of the times are over 10 s and at most 30 s old. */
  function Overdue(times: seq<nat>, now: nat): nat {
    if |times| == 0 then 0
    else
      var age := now - times[|times| - 1];
      Overdue(times[..|times| - 1], now) + if 10_000_000_000 < age <= 30_000_000_000 then 1 else 0
  }

  /** The last n of a list, or all of it. */
  function LastOf(times: seq<nat>, n: nat): seq<nat> {
    if |times| <= n then times else times[|times| - n..]
  }

  function Marked(times: seq<nat>, acked: bool): seq<Slot> {
    seq(|times|, k requires 0 <= k < |times| => Slot(times[k], acked))
  }

  lemma {:induction false} MarkedLoss(times: seq<nat>, acked: bool, now: nat)
    requires forall k :: 0 <= k < |times| ==> times[k] > 0
    ensures Total(Marked(times, acked), now) == Recent(times, now)
    ensures LostIn(Marked(times, acked), now) == if acked then 0 else Overdue(times, now)
    decreases |times|
  {
    if |times| > 0 {
      var n := |times| - 1;
      assert Marked(times, acked)[..n] == Marked(times[..n], acked);
      MarkedLoss(times[..n], acked, now);
    }
  }

  lemma {:induction false} ZerosLoss(n: nat, now: nat)
    ensures Total(Zeros(n), now) == 0 && LostIn(Zeros(n), now) == 0
    decreases n
  {
    if n > 0 {
      assert Zeros(n)[..n - 1] == Zeros(n - 1);
      ZerosLoss(n - 1, now);
    }
  }

  lemma {:induction false} RecentAppend(a: seq<nat>, b: seq<nat>, now: nat)
    ensures Recent(a + b, now) == Recent(a, now) + Recent(b, now)
    decreases |b|
  {
    if |b| == 0 {
      assert a + b == a;
    } else {
      assert (a + b)[..|a + b| - 1] == a + b[..|b| - 1];
      RecentAppend(a, b[..|b| - 1], now);
    }
  }

  /** A window is empty slots, then acknowledged ones, then those that wait. */
  lemma WindowInParts(times: seq<nat>, waiting: nat)
    requires waiting <= SIZE && waiting <= |times|
    ensures var last := LastOf(times, 100);
            var split := |last| - waiting;
            && waiting <= |last| && last[split..] == LastOf(times, waiting)
            && Window(times, waiting) == Zeros(100 - |last|) + (Marked(last[..split], true) + Marked(last[split..], false))
  {
  }

  lemma WindowLoss(times: seq<nat>, waiting: nat, now: nat)
    requires waiting <= SIZE && waiting <= |times| && forall k :: 0 <= k < |times| ==> times[k] > 0
    ensures Total(Window(times, waiting), now) == Recent(LastOf(times, 100), now)
    ensures LostIn(Window(times, waiting), now) == Overdue(LastOf(times, waiting), now)
  {
    WindowInParts(times, waiting);
    var last := LastOf(times, 100);
    PartsLoss(100 - |last|, last, |last| - waiting, now);
  }

  lemma PartsLoss(empty: nat, last: seq<nat>, split: nat, now: nat)
    requires split <= |last| && forall k :: 0 <= k < |last| ==> last[k] > 0
    ensures var w := Zeros(empty) + (Marked(last[..split], true) + Marked(last[split..], false));
            Total(w, now) == Recent(last, now) && LostIn(w, now) == Overdue(last[split..], now)
  {
    var a, b, c := Zeros(empty), Marked(last[..split], true), Marked(last[split..], false);
    LossAppend(a, b + c, now);
    LossAppend(b, c, now);
    ZerosLoss(empty, now);
    MarkedLoss(last[..split], true, now);
    MarkedLoss(last[split..], false, now);
    RecentAppend(last[..split], last[split..], now);
    assert last == last[..split] + last[split..];
  }

  /** After any run the slots that count are those of the last hundred pushes that are at most 30 s old, and the lost ones
      are, of the youngest `Counter` pushes, those over 10 s and at most 30 s old. */
  lemma LossExactly(ops: seq<Op>, now: nat)
    requires Timed(ops)
    ensures Total(Run(ops), now) == Recent(LastOf(Times(ops), 100), now)
    ensures LostIn(Run(ops), now) == Overdue(LastOf(Times(ops), Counter(ops)), now)
  {
    RingRefinesCounter(ops);
    TimesPositive(ops);
    WindowLoss(Times(ops), Counter(ops), now);
  }

  // ─── The ring as the program keeps it ────────────────────────────

  class Ring {
    const ring: array<Slot>
    var pos: nat

    ghost predicate Valid()
      reads this
    {
      ring.Length == SIZE && pos < SIZE
    }

    ghost function View(): seq<Slot>
      requires Valid()
      reads this, ring
    {
      InAgeOrder(ring[..], pos)
    }

    constructor ()
      ensures Valid() && fresh(ring) && View() == Zeros(SIZE)
    {
      ring := new Slot[SIZE](_ => EMPTY);
      pos := 0;
    }

    method EchoPush(now: nat)
      requires Valid()
      modifies this, ring
      ensures Valid() && View() == Pushed(old(View()), now)
    {
      ring[pos] := Slot(now, false);
      pos := (pos + 1) % SIZE;
    }

    method EchoAck()
      requires Valid()
      modifies ring
      ensures View() == Acked(old(View()))
    {
      ghost var w := View();
      var i := SIZE - 1;
      while i >= 0
        invariant -1 <= i < SIZE
        invariant ring[..] == old(ring[..])
        invariant forall k :: 0 <= k < SIZE - 1 - i ==> !Waiting(w[k])
      {
        var idx := (pos - 1 - i + SIZE) % SIZE;
        assert idx == if pos + (SIZE - 1 - i) < SIZE then pos + (SIZE - 1 - i) else pos + (SIZE - 1 - i) - SIZE;
        assert w[SIZE - 1 - i] == ring[idx];
        if !ring[idx].acked && ring[idx].time != 0 {
          ring[idx] := ring[idx].(acked := true);
          AckedAt(w, SIZE - 1 - i);
          assert View() == w[SIZE - 1 - i := w[SIZE - 1 - i].(acked := true)];
          return;
        }
        i := i - 1;
      }
      AckedNone(w);
    }

    /** The loss in percent. */
    method EchoCalcLoss(now: nat) returns (loss: real)
      requires Valid()
      ensures 0.0 <= loss <= 100.0
      ensures var total, lost := Total(View(), now), LostIn(View(), now);
              loss == if total == 0 then 0.0 else lost as real * 100.0 / total as real
    {
      var total, lost := 0, 0;
      for i := 0 to SIZE
        invariant total == Total(ring[..i], now) && lost == LostIn(ring[..i], now)
      {
        var sl := ring[i];
        assert ring[..i + 1][..i] == ring[..i];
        if sl.time == 0 {
          continue;
        }
        if now - sl.time > WINDOW {
          continue;
        }
        total := total + 1;
        if !sl.acked && now - sl.time > LOST_AFTER {
          lost := lost + 1;
        }
      }
      assert ring[..SIZE] == ring[..];
      LossIgnoresPosition(ring[..], pos, now);
      LossBounds(ring[..], now);
      if total == 0 {
        return 0.0;
      }
      PercentInRange(lost, total);
      loss := lost as real * 100.0 / total as real;
    }

    method EchoReset()
      requires Valid()
      modifies this, ring
      ensures Valid() && View() == Zeros(SIZE)
    {
      forall k | 0 <= k < SIZE {
        ring[k] := EMPTY;
      }
      pos := 0;
    }
  }

  lemma PercentInRange(lost: nat, total: nat)
    requires lost <= total && total > 0
    ensures 0.0 <= lost as real * 100.0 / total as real <= 100.0
  {
    var l, t := lost as real, total as real;
    assert l * 100.0 <= t * 100.0;
    assert l * 100.0 / t <= t * 100.0 / t;
  }
}
