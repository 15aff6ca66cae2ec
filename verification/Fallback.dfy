/** Choosing the next transport: TransportManager in core/transport.go. */
module Fallback {
  import opened Bytes

  datatype Config = Config(transport: string, priority: seq<string>, cdnDomain: string)

  function Resolved(c: Config): (p: seq<string>)
    ensures |p| > 0
    ensures c.transport != "" && c.transport != "auto" ==> p == [c.transport]
  {
    if c.transport != "" && c.transport != "auto" then [c.transport]
    else if |c.priority| > 0 then c.priority
    else if c.cdnDomain != "" then ["wss", "udp"]
    else ["udp"]
  }

  // ─── The search, seen from outside ───────────────────────────────

  /** The first position of x, or the length. */
  function FirstIndex<T(==)>(p: seq<T>, x: T): (i: nat)
    ensures i <= |p|
    ensures i < |p| ==> p[i] == x
    ensures forall j :: 0 <= j < i ==> p[j] != x
  {
    if |p| == 0 || p[0] == x then 0 else 1 + FirstIndex(p[1..], x)
  }

  function Rotated<T>(p: seq<T>, start: nat): (r: seq<T>)
    requires start <= |p|
    ensures |r| == |p|
  {
    p[start..] + p[..start]
  }

  /** The position after the active transport, or the front. */
  function StartAfter<T(==)>(p: seq<T>, active: T): (start: nat)
    requires |p| > 0
    ensures start < |p|
  {
    var i := FirstIndex(p, active);
    if i + 1 < |p| then i + 1 else 0
  }

  /** The priorities in the order they come up after the active one, the active one's own position last. */
  function AfterActive<T(==)>(p: seq<T>, active: T): (r: seq<T>)
    requires |p| > 0
  {
    Rotated(p, StartAfter(p, active))
  }

  lemma SamePriorities<T>(p: seq<T>, start: nat)
    requires start <= |p|
    ensures multiset(Rotated(p, start)) == multiset(p)
  {
    assert p == p[..start] + p[start..];
  }

  /** Dialling: the connection, or None when the transport cannot be reached. */
  type Dialer = string -> Option<nat>

  predicate Eligible(dial: Dialer, active: string, t: string) {
    t != active && dial(t).Some?
  }

  /** The transports dialled while walking r, and the first that answered. */
  function Attempts(dial: Dialer, active: string, r: seq<string>): seq<string> {
    if |r| == 0 then []
    else if r[0] == active then Attempts(dial, active, r[1..])
    else if dial(r[0]).Some? then [r[0]]
    else [r[0]] + Attempts(dial, active, r[1..])
  }

  function Chosen(dial: Dialer, active: string, r: seq<string>): Option<string> {
    if |r| == 0 then None
    else if Eligible(dial, active, r[0]) then Some(r[0])
    else Chosen(dial, active, r[1..])
  }

  /** Something is chosen exactly when something other than the active transport can be dialled, and it is the first such. */
  lemma {:induction false} ChosenIsFirst(dial: Dialer, active: string, r: seq<string>)
    ensures Chosen(dial, active, r).Some? <==> exists t :: t in r && Eligible(dial, active, t)
    ensures Chosen(dial, active, r).Some? ==>
              exists k :: 0 <= k < |r| && r[k] == Chosen(dial, active, r).value && Eligible(dial, active, r[k])
                          && forall j :: 0 <= j < k ==> !Eligible(dial, active, r[j])
  {
    if |r| > 0 {
      if Eligible(dial, active, r[0]) {
        assert r[0] in r;
      } else {
        ChosenIsFirst(dial, active, r[1..]);
        if Chosen(dial, active, r[1..]).Some? {
          var k :| 0 <= k < |r[1..]| && r[1..][k] == Chosen(dial, active, r[1..]).value && Eligible(dial, active, r[1..][k])
                   && forall j :: 0 <= j < k ==> !Eligible(dial, active, r[1..][j]);
          assert r[k + 1] == r[1..][k];
          assert forall j :: 0 <= j < k + 1 ==> j == 0 || r[j] == r[1..][j - 1];
        }
      }
    }
  }

  lemma SameMembers(p: seq<string>, active: string, t: string)
    requires |p| > 0
    ensures t in AfterActive(p, active) <==> t in p
  {
    SamePriorities(p, StartAfter(p, active));
    assert t in AfterActive(p, active) <==> t in multiset(AfterActive(p, active));
    assert t in p <==> t in multiset(p);
  }

  /** Fallback succeeds exactly when some priority other than the active one can be dialled. */
  lemma SucceedsExactly(dial: Dialer, active: string, p: seq<string>)
    requires |p| > 0
    ensures Chosen(dial, active, AfterActive(p, active)).Some? <==> exists t :: t in p && Eligible(dial, active, t)
  {
    ChosenIsFirst(dial, active, AfterActive(p, active));
    forall t ensures t in AfterActive(p, active) <==> t in p {
      SameMembers(p, active, t);
    }
  }

  /** Nobody is dialled more often than it is listed, and never the active transport. */
  lemma {:induction false} AttemptsOncePerPosition(dial: Dialer, active: string, r: seq<string>)
    ensures multiset(Attempts(dial, active, r)) <= multiset(r)
    ensures active !in Attempts(dial, active, r)
  {
    if |r| > 0 {
      AttemptsOncePerPosition(dial, active, r[1..]);
      assert r == [r[0]] + r[1..];
    }
  }

  function Wrap(x: int, n: nat): int {
    if x < n then x else x - n
  }

  lemma RemainderWraps(x: nat, n: nat)
    requires x < 2 * n
    ensures x % n == Wrap(x, n)
  {
  }

  lemma RotatedAt<T>(p: seq<T>, start: nat, k: nat)
    requires k < |p| && start < |p|
    ensures Rotated(p, start)[k] == p[Wrap(start + k, |p|)]
  {
  }

  /** With distinct priorities that all answer, fallback walks the whole cycle. */
  lemma WalksCycle(dial: Dialer, p: seq<string>, i: nat)
    requires i < |p| && |p| > 1
    requires forall a, b :: 0 <= a < b < |p| ==> p[a] != p[b]
    requires forall t :: t in p ==> dial(t).Some?
    ensures Chosen(dial, p[i], AfterActive(p, p[i])) == Some(p[(i + 1) % |p|])
  {
    assert FirstIndex(p, p[i]) == i;
    var next := (i + 1) % |p|;
    RemainderWraps(i + 1, |p|);
    RotatedAt(p, next, 0);
    assert p[next] in p && p[next] != p[i];
  }

  /** Which priorities are walked. */
  lemma ResolvedExactly(c: Config)
    ensures Resolved(c) == if c.transport !in {"", "auto"} then [c.transport]
                           else if c.priority != [] then c.priority
                           else if c.cdnDomain != "" then ["wss", "udp"]
                           else ["udp"]
  {
  }

  /** i is the first place of the active transport. */
  predicate IsFirst<T(==)>(p: seq<T>, active: T, i: nat) {
    i < |p| && p[i] == active && forall j :: 0 <= j < i ==> p[j] != active
  }

  /** The walk starts after the first place of the active transport, or at the front. */
  lemma StartsAfterActive<T>(p: seq<T>, active: T, i: nat)
    requires |p| > 0
    ensures active !in p ==> StartAfter(p, active) == 0
    ensures IsFirst(p, active, i) ==> StartAfter(p, active) == (i + 1) % |p|
  {
    if i < |p| {
      RemainderWraps(i + 1, |p|);
    }
  }

  /** A list without the active transport. */
  function Others(r: seq<string>, active: string): seq<string> {
    if |r| == 0 then [] else (if r[0] == active then [] else [r[0]]) + Others(r[1..], active)
  }

  /** Dialled are, in order, all transports but the active one, up to the chosen one or to the end. */
  lemma {:induction false} AttemptsExactly(dial: Dialer, active: string, r: seq<string>)
    ensures Chosen(dial, active, r).None? ==> Attempts(dial, active, r) == Others(r, active)
    ensures Chosen(dial, active, r).Some? ==>
              exists k :: 0 <= k < |r| && r[k] == Chosen(dial, active, r).value && Eligible(dial, active, r[k])
                          && (forall j :: 0 <= j < k ==> !Eligible(dial, active, r[j]))
                          && Attempts(dial, active, r) == Others(r[..k + 1], active)
  {
    if |r| > 0 {
      if Eligible(dial, active, r[0]) {
        assert r[..1] == [r[0]] && [r[0]][1..] == [];
        assert Attempts(dial, active, r) == Others(r[..0 + 1], active);
      } else {
        AttemptsExactly(dial, active, r[1..]);
        if Chosen(dial, active, r[1..]).Some? {
          var k :| 0 <= k < |r[1..]| && r[1..][k] == Chosen(dial, active, r[1..]).value && Eligible(dial, active, r[1..][k])
                   && (forall j :: 0 <= j < k ==> !Eligible(dial, active, r[1..][j]))
                   && Attempts(dial, active, r[1..]) == Others(r[1..][..k + 1], active);
          assert r[k + 1] == r[1..][k];
          assert forall j :: 0 <= j < k + 1 ==> j == 0 || r[j] == r[1..][j - 1];
          assert r[..k + 2][1..] == r[1..][..k + 1] && r[..k + 2][0] == r[0];
          assert Attempts(dial, active, r) == Others(r[..k + 1 + 1], active);
        }
      }
    }
  }

  lemma SearchStep(dial: Dialer, active: string, r: seq<string>, k: nat)
    requires k < |r|
    ensures Chosen(dial, active, r[k..]) == if Eligible(dial, active, r[k]) then Some(r[k]) else Chosen(dial, active, r[k + 1..])
    ensures Attempts(dial, active, r[k..])
         == if r[k] == active then Attempts(dial, active, r[k + 1..])
            else if dial(r[k]).Some? then [r[k]]
            else [r[k]] + Attempts(dial, active, r[k + 1..])
  {
    assert r[k..][1..] == r[k + 1..];
  }

  /** Walks the priorities cyclically from start; dials each but the active one until one answers. */
  method Search(dial: Dialer, active: string, priorities: seq<string>, start: nat)
    returns (r: Option<string>, ghost attempts: seq<string>)
    requires start < |priorities|
    ensures r == Chosen(dial, active, Rotated(priorities, start))
    ensures attempts == Attempts(dial, active, Rotated(priorities, start))
  {
    ghost var order := Rotated(priorities, start);
    attempts := [];
    assert order[0..] == order;
    for k := 0 to |priorities|
      invariant Chosen(dial, active, order) == Chosen(dial, active, order[k..])
      invariant Attempts(dial, active, order) == attempts + Attempts(dial, active, order[k..])
    {
      var t := priorities[(start + k) % |priorities|];
      RemainderWraps(start + k, |priorities|);
      RotatedAt(priorities, start, k);
      SearchStep(dial, active, order, k);
      if t == active {
        continue;
      }
      attempts := attempts + [t];
      if dial(t).Some? {
        return Some(t), attempts;
      }
    }
    return None, attempts;
  }

  // ─── The manager ─────────────────────────────────────────────────

  class TransportManager {
    const config: Config
    var conn: Option<nat>
    var active: string
    ghost var dialled: seq<string>
    ghost var closed: seq<nat>

    constructor (config: Config)
      ensures this.config == config && conn == None && active == "" && dialled == [] && closed == []
    {
      this.config, conn, active, dialled, closed := config, None, "", [], [];
    }

    method FindStart(priorities: seq<string>) returns (start: nat)
      requires |priorities| > 0
      ensures start == StartAfter(priorities, active)
    {
      start := 0;
      for i := 0 to |priorities|
        invariant i <= FirstIndex(priorities, active)
      {
        if priorities[i] == active {
          RemainderWraps(i + 1, |priorities|);
          return (i + 1) % |priorities|;
        }
      }
    }

    /** dial answers for the transports as they stand during the call. */
    method Fallback(dial: Dialer) returns (r: Option<string>)
      modifies this
      ensures r == Chosen(dial, old(active), AfterActive(Resolved(config), old(active)))
      ensures dialled == old(dialled) + Attempts(dial, old(active), AfterActive(Resolved(config), old(active)))
      ensures r.None? ==> conn == old(conn) && active == old(active) && closed == old(closed)
      ensures r.Some? ==> active == r.value && active != old(active) && conn == dial(r.value) && conn.Some?
      ensures r.Some? ==> closed == old(closed) + if old(conn).Some? then [old(conn).value] else []
    {
      var priorities := Resolved(config);
      var start := FindStart(priorities);
      ghost var attempts;
      r, attempts := Search(dial, active, priorities, start);
      dialled := dialled + attempts;
      if r.Some? {
        ChosenIsFirst(dial, active, AfterActive(priorities, active));
        if conn.Some? {
          closed := closed + [conn.value];
        }
        conn := dial(r.value);
        active := r.value;
      }
    }
  }
}
