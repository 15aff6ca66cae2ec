/** The sliding-window limiter of docs/doh-worker.js. Times are milliseconds. */
module RateLimiter {

  const LIMIT := 200
  const WINDOW := 60_000

  /** The entries after dropping those before the window that ends now, from the front. */
  function Kept(entries: seq<int>, now: int): seq<int> {
    if |entries| > 0 && entries[0] < now - WINDOW then Kept(entries[1..], now) else entries
  }

  function Entries(rateMap: map<string, seq<int>>, ip: string): seq<int> {
    if ip in rateMap then rateMap[ip] else []
  }

  /** The map after a request, and whether it was refused. */
  function Asked(rateMap: map<string, seq<int>>, ip: string, now: int): (map<string, seq<int>>, bool) {
    var kept := Kept(Entries(rateMap, ip), now);
    if |kept| >= LIMIT then (rateMap[ip := kept], true) else (rateMap[ip := kept + [now]], false)
  }

  class Limiter {
    var rateMap: map<string, seq<int>>

    constructor ()
      ensures rateMap == map[]
    {
      rateMap := map[];
    }

    method IsRateLimited(ip: string, now: int) returns (limited: bool)
      modifies this
      ensures (rateMap, limited) == Asked(old(rateMap), ip, now)
    {
      var windowStart := now - WINDOW;
      if ip !in rateMap {
        rateMap := rateMap[ip := []];
      }
      var entries := rateMap[ip];
      ghost var before := entries;
      assert before == Entries(old(rateMap), ip);
      while |entries| > 0 && entries[0] < windowStart
        invariant Kept(before, now) == Kept(entries, now)
        decreases |entries|
      {
        entries := entries[1..];
      }
      if |entries| >= LIMIT {
        rateMap := rateMap[ip := entries];
        assert rateMap == old(rateMap)[ip := entries];
        return true;
      }
      entries := entries + [now];
      rateMap := rateMap[ip := entries];
      assert rateMap == old(rateMap)[ip := entries];
      return false;
    }
  }

  // ─── Runs ────────────────────────────────────────────────────────

  datatype Request = Request(ip: string, now: int)

  function Run(requests: seq<Request>): map<string, seq<int>> {
    if |requests| == 0 then map[]
    else Asked(Run(requests[..|requests| - 1]), requests[|requests| - 1].ip, requests[|requests| - 1].now).0
  }

  predicate RefusedLast(requests: seq<Request>)
    requires |requests| > 0
  {
    Asked(Run(requests[..|requests| - 1]), requests[|requests| - 1].ip, requests[|requests| - 1].now).1
  }

  /** The times at which requests of an IP were let through. */
  function Accepted(requests: seq<Request>, ip: string): seq<int> {
    if |requests| == 0 then []
    else
      var n := |requests| - 1;
      var before := Accepted(requests[..n], ip);
      if requests[n].ip == ip && !RefusedLast(requests) then before + [requests[n].now] else before
  }

  /** The clock does not go back between requests of one IP. */
  predicate Monotone(requests: seq<Request>, ip: string) {
    forall i, j :: 0 <= i < j < |requests| && requests[i].ip == ip && requests[j].ip == ip ==> requests[i].now <= requests[j].now
  }

  predicate Sorted(s: seq<int>) {
    forall i, j :: 0 <= i < j < |s| ==> s[i] <= s[j]
  }

  /** The last request time of an IP, if it ever asked. */
  function LastAsked(requests: seq<Request>, ip: string): (int, bool) {
    if |requests| == 0 then (0, false)
    else if requests[|requests| - 1].ip == ip then (requests[|requests| - 1].now, true)
    else LastAsked(requests[..|requests| - 1], ip)
  }

  /** The elements of a list that are at least lo. */
  function AtLeast(s: seq<int>, lo: int): seq<int> {
    if |s| == 0 then []
    else
      var before := AtLeast(s[..|s| - 1], lo);
      if s[|s| - 1] >= lo then before + [s[|s| - 1]] else before
  }

  /** k splits a list into what is below lo and what is not. */
  ghost predicate SplitsAt(s: seq<int>, lo: int, k: nat) {
    && k <= |s|
    && (forall i :: 0 <= i < k ==> s[i] < lo)
    && (forall i :: k <= i < |s| ==> s[i] >= lo)
  }

  lemma {:induction false} SplitPoint(s: seq<int>, lo: int) returns (k: nat)
    requires Sorted(s)
    ensures SplitsAt(s, lo, k)
  {
    k := 0;
    while k < |s| && s[k] < lo
      invariant k <= |s| && forall i :: 0 <= i < k ==> s[i] < lo
    {
      k := k + 1;
    }
  }

  lemma {:induction false} AtLeastTail(s: seq<int>, lo: int, k: nat)
    requires SplitsAt(s, lo, k)
    ensures AtLeast(s, lo) == s[k..]
    decreases |s|
  {
    if |s| > 0 {
      var n := |s| - 1;
      if k <= n {
        AtLeastTail(s[..n], lo, k);
        assert s[..n][k..] + [s[n]] == s[k..];
      } else {
        AtLeastTail(s[..n], lo, n);
      }
    }
  }

  lemma {:induction false} KeptIsTail(s: seq<int>, now: int, k: nat)
    requires SplitsAt(s, now - WINDOW, k)
    ensures Kept(s, now) == s[k..]
    decreases k
  {
    if k > 0 {
      KeptIsTail(s[1..], now, k - 1);
      assert s[1..][k - 1..] == s[k..];
    }
  }

  /** Dropping twice, at a time and at a later one, is dropping at the later one. */
  lemma KeptAtLeast(s: seq<int>, earlier: int, now: int)
    requires Sorted(s) && earlier <= now
    ensures Kept(AtLeast(s, earlier - WINDOW), now) == AtLeast(s, now - WINDOW)
    ensures Kept(s, now) == AtLeast(s, now - WINDOW)
  {
    var a := SplitPoint(s, earlier - WINDOW);
    var b := SplitPoint(s, now - WINDOW);
    AtLeastTail(s, earlier - WINDOW, a);
    AtLeastTail(s, now - WINDOW, b);
    KeptIsTail(s, now, b);
    assert b < |s| ==> s[b] >= now - WINDOW;
    assert a <= b;
    KeptIsTail(s[a..], now, b - a);
    assert s[a..][b - a..] == s[b..];
  }

  ghost predicate ListIsWindow(requests: seq<Request>, ip: string) {
    var (t, asked) := LastAsked(requests, ip);
    var list := Entries(Run(requests), ip);
    if asked then list == AtLeast(Accepted(requests, ip), t - WINDOW) else list == [] && Accepted(requests, ip) == []
  }

  lemma {:induction false} AcceptedSorted(requests: seq<Request>, ip: string, bound: int)
    requires Monotone(requests, ip)
    requires forall i :: 0 <= i < |requests| && requests[i].ip == ip ==> requests[i].now <= bound
    ensures Sorted(Accepted(requests, ip))
    ensures forall i :: 0 <= i < |Accepted(requests, ip)| ==> Accepted(requests, ip)[i] <= bound
    decreases |requests|
  {
    if |requests| > 0 {
      var n := |requests| - 1;
      AcceptedSorted(requests[..n], ip, if requests[n].ip == ip then requests[n].now else bound);
    }
  }

  lemma {:induction false} LastAskedBefore(requests: seq<Request>, ip: string, bound: int)
    requires forall i :: 0 <= i < |requests| && requests[i].ip == ip ==> requests[i].now <= bound
    ensures LastAsked(requests, ip).1 ==> LastAsked(requests, ip).0 <= bound
    decreases |requests|
  {
    if |requests| > 0 && requests[|requests| - 1].ip != ip {
      LastAskedBefore(requests[..|requests| - 1], ip, bound);
    }
  }

  lemma AppendAtLeast(s: seq<int>, lo: int, x: int)
    requires x >= lo
    ensures AtLeast(s + [x], lo) == AtLeast(s, lo) + [x]
  {
    assert (s + [x])[..|s|] == s;
  }

  /** What the last request of an IP sees: its list, trimmed, is the accepted times of the last minute. */
  lemma TrimmedList(requests: seq<Request>)
    requires |requests| > 0 && Monotone(requests, requests[|requests| - 1].ip)
    requires ListIsWindow(requests[..|requests| - 1], requests[|requests| - 1].ip)
    ensures var before, last := requests[..|requests| - 1], requests[|requests| - 1];
            Kept(Entries(Run(before), last.ip), last.now) == AtLeast(Accepted(before, last.ip), last.now - WINDOW)
  {
    var before, last := requests[..|requests| - 1], requests[|requests| - 1];
    AcceptedSorted(before, last.ip, last.now);
    var (t, asked) := LastAsked(before, last.ip);
    if asked {
      LastAskedBefore(before, last.ip, last.now);
      KeptAtLeast(Accepted(before, last.ip), t, last.now);
    }
  }

  /** For a clock that does not go back: each IP's list is its accepted times in the minute up to its last request. */
  lemma {:induction false} StoredListIsWindow(requests: seq<Request>, ip: string)
    requires Monotone(requests, ip)
    ensures ListIsWindow(requests, ip)
    decreases |requests|
  {
    if |requests| > 0 {
      var before, last := requests[..|requests| - 1], requests[|requests| - 1];
      StoredListIsWindow(before, ip);
      if last.ip == ip {
        TrimmedList(requests);
        AppendAtLeast(Accepted(before, ip), last.now - WINDOW, last.now);
      }
    }
  }

  /** A request is refused exactly when 200 accepted ones of its IP lie in the minute before it. */
  lemma RefusedExactly(requests: seq<Request>)
    requires |requests| > 0 && Monotone(requests, requests[|requests| - 1].ip)
    ensures var before, last := requests[..|requests| - 1], requests[|requests| - 1];
            RefusedLast(requests) <==> |AtLeast(Accepted(before, last.ip), last.now - WINDOW)| >= LIMIT
  {
    StoredListIsWindow(requests[..|requests| - 1], requests[|requests| - 1].ip);
    TrimmedList(requests);
  }

  /** Two hundred acceptances apart means more than a minute apart. */
  ghost predicate Spread(s: seq<int>) {
    forall i :: LIMIT <= i < |s| ==> s[i - LIMIT] < s[i] - WINDOW
  }

  lemma SpreadAppend(s: seq<int>, x: int)
    requires Sorted(s) && Spread(s) && |AtLeast(s, x - WINDOW)| < LIMIT
    ensures Spread(s + [x])
  {
    var k := SplitPoint(s, x - WINDOW);
    AtLeastTail(s, x - WINDOW, k);
    assert |s| - k < LIMIT;
  }

  lemma {:induction false} AcceptedSpread(requests: seq<Request>, ip: string)
    requires Monotone(requests, ip)
    ensures Spread(Accepted(requests, ip))
    decreases |requests|
  {
    if |requests| > 0 {
      var before, last := requests[..|requests| - 1], requests[|requests| - 1];
      AcceptedSpread(before, ip);
      if last.ip == ip && !RefusedLast(requests) {
        RefusedExactly(requests);
        AcceptedSorted(before, ip, last.now);
        SpreadAppend(Accepted(before, ip), last.now);
      }
    }
  }

  /** The elements of a list inside a closed interval. */
  function Within(s: seq<int>, lo: int, hi: int): nat {
    if |s| == 0 then 0 else Within(s[..|s| - 1], lo, hi) + if lo <= s[|s| - 1] <= hi then 1 else 0
  }

  lemma {:induction false} WithinTail(s: seq<int>, lo: int, hi: int, k: nat)
    requires k <= |s| && forall i :: 0 <= i < k ==> s[i] < lo
    ensures Within(s, lo, hi) <= |s| - k
    decreases |s|
  {
    if |s| > k {
      WithinTail(s[..|s| - 1], lo, hi, k);
    } else if k > 0 {
      WithinTail(s[..|s| - 1], lo, hi, k - 1);
    }
  }

  lemma {:induction false} SpreadWithin(s: seq<int>, lo: int)
    requires Sorted(s) && Spread(s)
    ensures Within(s, lo, lo + WINDOW) <= LIMIT
    decreases |s|
  {
    if |s| > 0 {
      var n := |s| - 1;
      if s[n] > lo + WINDOW || |s| <= LIMIT {
        SpreadWithin(s[..n], lo);
        if |s| <= LIMIT {
          WithinTail(s, lo, lo + WINDOW, 0);
        }
      } else {
        assert s[n - LIMIT] < s[n] - WINDOW <= lo;
        forall i | 0 <= i < |s| - LIMIT ensures s[i] < lo {
          assert s[i] <= s[n - LIMIT];
        }
        WithinTail(s, lo, lo + WINDOW, |s| - LIMIT);
      }
    }
  }

  function Latest(requests: seq<Request>): (t: int)
    ensures forall i :: 0 <= i < |requests| ==> requests[i].now <= t
  {
    if |requests| == 0 then 0
    else
      var n := |requests| - 1;
      var t := Latest(requests[..n]);
      if requests[n].now > t then requests[n].now else t
  }

  /** No closed interval of one minute, wherever it starts, holds more than 200 accepted requests of an IP. */
  lemma AtMostLimitPerMinute(requests: seq<Request>, ip: string, lo: int)
    requires Monotone(requests, ip)
    ensures Within(Accepted(requests, ip), lo, lo + WINDOW) <= LIMIT
  {
    var bound := Latest(requests);
    AcceptedSorted(requests, ip, bound);
    AcceptedSpread(requests, ip);
    SpreadWithin(Accepted(requests, ip), lo);
  }

  // ─── A clock that goes back ──────────────────────────────────────

  function Burst(ip: string, now: int, n: nat): seq<Request> {
    seq(n, _ => Request(ip, now))
  }

  function Times(now: int, n: nat): seq<int> {
    seq(n, _ => now)
  }

  lemma NoneKept(n: nat, t: int, now: int)
    requires t < now - WINDOW
    ensures Kept(Times(t, n), now) == []
    decreases n
  {
    if n > 0 {
      assert Times(t, n)[1..] == Times(t, n - 1);
      NoneKept(n - 1, t, now);
    }
  }

  /** A request that finds room is accepted and listed. */
  lemma OneMore(requests: seq<Request>, r: Request)
    ensures var kept := Kept(Entries(Run(requests), r.ip), r.now);
            |kept| < LIMIT ==>
              && Entries(Run(requests + [r]), r.ip) == kept + [r.now]
              && Accepted(requests + [r], r.ip) == Accepted(requests, r.ip) + [r.now]
  {
    assert (requests + [r])[..|requests|] == requests;
  }

  lemma NothingDropped(e: seq<int>, now: int, n: nat)
    requires |e| > 0 ==> e[0] >= now - WINDOW
    ensures Kept(e + Times(now, n), now) == e + Times(now, n)
  {
  }

  lemma TimesGrow(e: seq<int>, now: int, n: nat)
    ensures e + Times(now, n) + [now] == e + Times(now, n + 1)
  {
  }

  lemma BurstGrows(requests: seq<Request>, ip: string, now: int, n: nat)
    ensures requests + Burst(ip, now, n) + [Request(ip, now)] == requests + Burst(ip, now, n + 1)
  {
  }

  /** As long as nothing is dropped and there is room, a burst is accepted whole. */
  lemma {:induction false} BurstAccepted(requests: seq<Request>, ip: string, now: int, n: nat)
    requires var e := Entries(Run(requests), ip);
             |e| + n <= LIMIT && (|e| > 0 ==> e[0] >= now - WINDOW)
    ensures Entries(Run(requests + Burst(ip, now, n)), ip) == Entries(Run(requests), ip) + Times(now, n)
    ensures Accepted(requests + Burst(ip, now, n), ip) == Accepted(requests, ip) + Times(now, n)
    decreases n
  {
    if n == 0 {
      assert requests + Burst(ip, now, n) == requests;
    } else {
      var shorter := requests + Burst(ip, now, n - 1);
      BurstAccepted(requests, ip, now, n - 1);
      NothingDropped(Entries(Run(requests), ip), now, n - 1);
      BurstGrows(requests, ip, now, n - 1);
      OneMore(shorter, Request(ip, now));
      TimesGrow(Entries(Run(requests), ip), now, n - 1);
      TimesGrow(Accepted(requests, ip), now, n - 1);
    }
  }

  lemma {:induction false} WithinTimes(s: seq<int>, t: int, n: nat, lo: int, hi: int)
    ensures Within(s + Times(t, n), lo, hi) == Within(s, lo, hi) + if lo <= t <= hi then n else 0
    decreases n
  {
    if n == 0 {
      assert s + Times(t, n) == s;
    } else {
      var all := s + Times(t, n);
      assert all[..|all| - 1] == s + Times(t, n - 1);
      WithinTimes(s, t, n - 1, lo, hi);
    }
  }

  /** A full list, one request that empties it, and, the clock set back from late to early, the list filled up again
      behind that entry. */
  function SetBack(ip: string, early: int, late: int): seq<Request> {
    Burst(ip, FirstTime(early, late), 200) + Burst(ip, late, 1) + Burst(ip, early, 199)
  }

  function FirstTime(early: int, late: int): int {
    if early <= late - WINDOW - 1 then early else late - WINDOW - 1
  }

  lemma {:induction false} SetBackAccepted(ip: string, early: int, late: int)
    requires early < late
    ensures Accepted(SetBack(ip, early, late), ip) == Times(FirstTime(early, late), 200) + [late] + Times(early, 199)
  {
    var t := FirstTime(early, late);
    var one := Burst(ip, t, 200);
    var two := one + Burst(ip, late, 1);
    assert [] + one == one;
    BurstAccepted([], ip, t, 200);
    assert Entries(Run(one), ip) == Times(t, 200);
    NoneKept(200, t, late);
    assert Burst(ip, late, 1) == [Request(ip, late)];
    OneMore(one, Request(ip, late));
    BurstAccepted(two, ip, early, 199);
  }

  /** One step back, however small, breaks the bound: for any two clock readings there is a run whose clock goes back only
      from the later to the earlier and which has 399 acceptances in one closed minute. */
  lemma StepBackBreaksLimit(ip: string, early: int, late: int)
    requires early < late
    ensures var run, t := SetBack(ip, early, late), FirstTime(early, late);
            && |run| == 400
            && Monotone(run[..201], ip) && Monotone(run[201..], ip) && run[200].now == late && run[201].now == early
            && Within(Accepted(run, ip), t, t + WINDOW) == 399
  {
    var t := FirstTime(early, late);
    SetBackAccepted(ip, early, late);
    WithinTimes([], t, 200, t, t + WINDOW);
    assert [] + Times(t, 200) == Times(t, 200);
    WithinTimes(Times(t, 200), late, 1, t, t + WINDOW);
    assert Times(late, 1) == [late];
    WithinTimes(Times(t, 200) + [late], early, 199, t, t + WINDOW);
  }

  /** A run of one IP whose clock goes from one reading to the next at k, and otherwise does not go back. */
  predicate StepsAt(run: seq<Request>, ip: string, k: nat, from: int, to: int) {
    && 0 < k < |run| && run[k - 1] == Request(ip, from) && run[k] == Request(ip, to)
    && (forall i :: 0 <= i < |run| ==> run[i].ip == ip)
    && Monotone(run[..k], ip) && Monotone(run[k..], ip)
  }

  function InMinute(s: seq<int>, lo: int): nat {
    Within(s, lo, lo + WINDOW)
  }

  ghost predicate Bounded(run: seq<Request>, ip: string) {
    forall lo :: InMinute(Accepted(run, ip), lo) <= LIMIT
  }

  ghost predicate StepIsSafe(ip: string, from: int, to: int) {
    forall run, k :: StepsAt(run, ip, k, from, to) ==> Bounded(run, ip)
  }

  lemma StepForward(run: seq<Request>, ip: string, k: nat, from: int, to: int)
    requires StepsAt(run, ip, k, from, to) && from <= to
    ensures Monotone(run, ip)
  {
    forall i, j | 0 <= i < j < |run| ensures run[i].now <= run[j].now {
      if i < k {
        assert run[..k][i] == run[i] && run[..k][k - 1] == run[k - 1];
      }
      if k <= j {
        assert run[k..][j - k] == run[j] && run[k..][0] == run[k];
      }
      if i < k <= j {
        assert run[i].now <= from && to <= run[j].now;
      } else if j < k {
        assert run[..k][j] == run[j];
      } else {
        assert run[k..][i - k] == run[i];
      }
    }
  }

  /** Exactly the steps that do not go back keep the bound in every run. */
  lemma StepSafeExactly(ip: string, from: int, to: int)
    ensures StepIsSafe(ip, from, to) <==> from <= to
  {
    if from <= to {
      forall run, k | StepsAt(run, ip, k, from, to) ensures Bounded(run, ip) {
        StepForward(run, ip, k, from, to);
        forall lo ensures InMinute(Accepted(run, ip), lo) <= LIMIT {
          AtMostLimitPerMinute(run, ip, lo);
        }
      }
    } else {
      var run := SetBack(ip, to, from);
      StepBackBreaksLimit(ip, to, from);
      SetBackSteps(ip, to, from);
      assert InMinute(Accepted(run, ip), FirstTime(to, from)) > LIMIT;
    }
  }

  lemma SetBackSteps(ip: string, early: int, late: int)
    requires early < late
    ensures StepsAt(SetBack(ip, early, late), ip, 201, late, early)
  {
    StepBackBreaksLimit(ip, early, late);
  }

  // ─── In numbers ──────────────────────────────────────────────────

  /** Two hundred accepted requests of an IP, counting from 60000 ms before this one, and only they refuse it. */
  lemma RefusedAtTwoHundred(requests: seq<Request>)
    requires |requests| > 0 && Monotone(requests, requests[|requests| - 1].ip)
    ensures var before, last := requests[..|requests| - 1], requests[|requests| - 1];
            RefusedLast(requests) <==> |AtLeast(Accepted(before, last.ip), last.now - 60000)| >= 200
  {
    RefusedExactly(requests);
  }

  lemma TwoHundredPerMinute(requests: seq<Request>, ip: string, lo: int)
    requires Monotone(requests, ip)
    ensures Within(Accepted(requests, ip), lo, lo + 60000) <= 200
  {
    AtMostLimitPerMinute(requests, ip, lo);
  }
}
