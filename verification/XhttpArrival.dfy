/** The batches of the HTTP transport on their way: bodies may be lost and their handlers run side by side. */
module XhttpArrival {
  import opened Xhttp

  /** The bodies are posted outside batchMu and each that arrives has a handler goroutine of its own. turns lists, packet
      by packet, which body's handler takes its next packet; a body that is lost has no turn. */
  function Count(turns: seq<nat>, k: nat): nat {
    if |turns| == 0 then 0 else Count(turns[..|turns| - 1], k) + if turns[|turns| - 1] == k then 1 else 0
  }

  /** No handler takes more packets than its body yields. */
  ghost predicate Possible(served: seq<seq<Packet>>, turns: seq<nat>) {
    forall j :: 0 <= j < |turns| ==> turns[j] < |served| && Count(turns[..j], turns[j]) < |served[turns[j]]|
  }

  /** The packet handled in turn j. */
  function HandledAt(served: seq<seq<Packet>>, turns: seq<nat>, j: nat): Packet
    requires Possible(served, turns) && j < |turns|
  {
    served[turns[j]][Count(turns[..j], turns[j])]
  }

  /** Where the packets of body k start among all packets handed off. */
  function Offset(served: seq<seq<Packet>>, k: nat): nat
    requires k <= |served|
  {
    if k == 0 then 0 else Offset(served, k - 1) + |served[k - 1]|
  }

  /** The place, in the order of Write, of the packet handled in turn j. */
  function Place(served: seq<seq<Packet>>, turns: seq<nat>, j: nat): nat
    requires Possible(served, turns) && j < |turns|
  {
    Offset(served, turns[j]) + Count(turns[..j], turns[j])
  }

  /** One handler after the other, in the order of the bodies. */
  function InHandOffOrder(served: seq<seq<Packet>>): seq<nat> {
    if |served| == 0 then []
    else InHandOffOrder(served[..|served| - 1]) + seq(|served[|served| - 1]|, _ => |served| - 1)
  }

  lemma {:induction false} OffsetsGrow(served: seq<seq<Packet>>, a: nat, b: nat)
    requires a < b <= |served|
    ensures Offset(served, a) + |served[a]| <= Offset(served, b)
    decreases b
  {
    if a < b - 1 {
      OffsetsGrow(served, a, b - 1);
    }
  }

  lemma {:induction false} OffsetOfPrefix(served: seq<seq<Packet>>, n: nat, k: nat)
    requires k <= n <= |served|
    ensures Offset(served[..n], k) == Offset(served, k)
    decreases k
  {
    if k > 0 {
      OffsetOfPrefix(served, n, k - 1);
    }
  }

  lemma {:induction false} PlacedIn(served: seq<seq<Packet>>, k: nat, c: nat)
    requires k < |served| && c < |served[k]|
    ensures Offset(served, k) + c < |Flatten(served)| && Flatten(served)[Offset(served, k) + c] == served[k][c]
    decreases |served|
  {
    var n := |served| - 1;
    assert served == served[..n] + [served[n]];
    FlattenLast(served[..n], served[n]);
    FlattenLength(served[..n]);
    OffsetOfPrefix(served, n, k);
    if k < n {
      PlacedIn(served[..n], k, c);
    } else {
      OffsetOfPrefix(served, n, n);
    }
  }

  lemma {:induction false} FlattenLength(served: seq<seq<Packet>>)
    ensures |Flatten(served)| == Offset(served, |served|)
    decreases |served|
  {
    if |served| > 0 {
      var n := |served| - 1;
      assert served == served[..n] + [served[n]];
      FlattenLast(served[..n], served[n]);
      FlattenLength(served[..n]);
      OffsetOfPrefix(served, n, n);
    }
  }

  lemma {:induction false} CountGrows(turns: seq<nat>, i: nat, j: nat)
    requires i < j <= |turns|
    ensures Count(turns[..i], turns[i]) < Count(turns[..j], turns[i])
    decreases j
  {
    assert turns[..j][..j - 1] == turns[..j - 1];
    if i < j - 1 {
      CountGrows(turns, i, j - 1);
    }
  }

  /** Different turns handle different packets, and packets of one body in the order of Write. */
  lemma PlacesDiffer(served: seq<seq<Packet>>, turns: seq<nat>, i: nat, j: nat)
    requires Possible(served, turns) && i < j < |turns|
    ensures Place(served, turns, i) != Place(served, turns, j)
    ensures turns[i] == turns[j] ==> Place(served, turns, i) < Place(served, turns, j)
  {
    if turns[i] == turns[j] {
      CountGrows(turns, i, j);
    } else if turns[i] < turns[j] {
      OffsetsGrow(served, turns[i], turns[j]);
    } else {
      OffsetsGrow(served, turns[j], turns[i]);
    }
  }

  ghost predicate HasTurn(turns: seq<nat>, k: nat, c: nat) {
    exists j :: 0 <= j < |turns| && turns[j] == k && Count(turns[..j], k) == c
  }

  /** The c-th packet of a body is handled exactly when its handler has had more than c turns. */
  lemma {:induction false} HandledExactly(turns: seq<nat>, k: nat, c: nat)
    ensures HasTurn(turns, k, c) <==> c < Count(turns, k)
    decreases |turns|
  {
    if |turns| > 0 {
      var n := |turns| - 1;
      var before := turns[..n];
      HandledExactly(before, k, c);
      assert forall j :: 0 <= j < n ==> before[j] == turns[j] && before[..j] == turns[..j];
      if c < Count(before, k) {
        var j :| 0 <= j < n && before[j] == k && Count(before[..j], k) == c;
        assert turns[j] == k && Count(turns[..j], k) == c;
      } else if c < Count(turns, k) {
        assert turns[n] == k && Count(turns[..n], k) == c;
      }
    }
  }

  lemma {:induction false} CountSame(k: nat, n: nat, m: nat)
    ensures Count(seq(n, _ => m), k) == if k == m then n else 0
    decreases n
  {
    if n > 0 {
      var s: seq<nat> := seq(n, _ => m);
      assert s[..n - 1] == seq(n - 1, _ => m);
      CountSame(k, n - 1, m);
    }
  }

  lemma {:induction false} CountAppend(a: seq<nat>, b: seq<nat>, k: nat)
    ensures Count(a + b, k) == Count(a, k) + Count(b, k)
    decreases |b|
  {
    if |b| == 0 {
      assert a + b == a;
    } else {
      assert (a + b)[..|a + b| - 1] == a + b[..|b| - 1];
      CountAppend(a, b[..|b| - 1], k);
    }
  }

  lemma {:induction false} OrderedTurns(served: seq<seq<Packet>>, k: nat)
    ensures |InHandOffOrder(served)| == Offset(served, |served|)
    ensures Count(InHandOffOrder(served), k) == if k < |served| then |served[k]| else 0
    decreases |served|
  {
    if |served| > 0 {
      var n := |served| - 1;
      OrderedTurns(served[..n], k);
      OffsetOfPrefix(served, n, n);
      var last: seq<nat> := seq(|served[n]|, _ => n);
      CountAppend(InHandOffOrder(served[..n]), last, k);
      CountSame(k, |served[n]|, n);
    }
  }

  /** In hand-off order turn j belongs to the body that holds place j. */
  lemma {:induction false} OrderedAt(served: seq<seq<Packet>>, j: nat)
    requires j < |InHandOffOrder(served)|
    ensures var turns := InHandOffOrder(served);
            var k := turns[j];
            k < |served| && Offset(served, k) <= j < Offset(served, k) + |served[k]|
            && Offset(served, k) + Count(turns[..j], k) == j
    decreases |served|
  {
    var n := |served| - 1;
    var init := InHandOffOrder(served[..n]);
    var turns := InHandOffOrder(served);
    OrderedTurns(served[..n], n);
    OffsetOfPrefix(served, n, n);
    if j < |init| {
      OrderedAt(served[..n], j);
      assert turns[..j] == init[..j] && turns[j] == init[j];
      OffsetOfPrefix(served, n, turns[j]);
    } else {
      var part: seq<nat> := seq(j - |init|, _ => n);
      assert turns[..j] == init + part;
      CountAppend(init, part, n);
      CountSame(n, j - |init|, n);
    }
  }

  lemma OnePlace(served: seq<seq<Packet>>, a: nat, b: nat, j: nat)
    requires a < |served| && Offset(served, a) <= j < Offset(served, a) + |served[a]|
    requires b < |served| && Offset(served, b) <= j < Offset(served, b) + |served[b]|
    ensures a == b
  {
    if a < b {
      OffsetsGrow(served, a, b);
    } else if b < a {
      OffsetsGrow(served, b, a);
    }
  }

  /** Everything is handled, in the order of Write. */
  ghost predicate AllInOrder(served: seq<seq<Packet>>, turns: seq<nat>)
    requires Possible(served, turns)
  {
    |turns| == |Flatten(served)| && forall j :: 0 <= j < |turns| ==> Place(served, turns, j) == j
  }

  /** The order of Write is kept, and nothing is missing, exactly when every body arrives and the handlers run one after
      the other in hand-off order. */
  lemma InOrderExactly(served: seq<seq<Packet>>, turns: seq<nat>)
    requires Possible(served, turns)
    ensures AllInOrder(served, turns) <==> turns == InHandOffOrder(served)
  {
    var ordered := InHandOffOrder(served);
    OrderedTurns(served, 0);
    FlattenLength(served);
    if turns == ordered {
      forall j | 0 <= j < |turns| ensures Place(served, turns, j) == j {
        OrderedAt(served, j);
      }
    }
    if AllInOrder(served, turns) {
      forall j | 0 <= j < |turns| ensures turns[j] == ordered[j] {
        OrderedAt(served, j);
        assert Place(served, turns, j) == j;
        OnePlace(served, turns[j], ordered[j], j);
      }
    }
  }

  /** What the handlers take, given the accepted packets: in turn j the packet at place j, no packet twice, the packets of
      one body in order, and of each body as many as its handler has had turns. */
  ghost predicate Delivers(accepted: seq<Packet>, served: seq<seq<Packet>>, turns: seq<nat>)
    requires Possible(served, turns)
  {
    && (forall j :: 0 <= j < |turns| ==>
          Place(served, turns, j) < |accepted| && accepted[Place(served, turns, j)] == HandledAt(served, turns, j))
    && (forall i, j :: 0 <= i < j < |turns| ==>
          && Place(served, turns, i) != Place(served, turns, j)
          && (turns[i] == turns[j] ==> Place(served, turns, i) < Place(served, turns, j)))
    && (forall k, c :: 0 <= k < |served| && 0 <= c < |served[k]| ==> (HasTurn(turns, k, c) <==> c < Count(turns, k)))
  }

  lemma TurnsDeliver(accepted: seq<Packet>, served: seq<seq<Packet>>, turns: seq<nat>, pending: seq<Packet>)
    requires Possible(served, turns) && Flatten(served) + pending == accepted
    ensures Delivers(accepted, served, turns)
  {
    forall j | 0 <= j < |turns|
      ensures Place(served, turns, j) < |accepted| && accepted[Place(served, turns, j)] == HandledAt(served, turns, j)
    {
      PlacedIn(served, turns[j], Count(turns[..j], turns[j]));
    }
    forall i, j | 0 <= i < j < |turns|
      ensures Place(served, turns, i) != Place(served, turns, j)
      ensures turns[i] == turns[j] ==> Place(served, turns, i) < Place(served, turns, j)
    {
      PlacesDiffer(served, turns, i, j);
    }
    forall k, c | 0 <= k < |served| && 0 <= c < |served[k]| ensures HasTurn(turns, k, c) <==> c < Count(turns, k) {
      HandledExactly(turns, k, c);
    }
  }

  /** From Write to xhttpProcessPacket, in every interleaving of writers, flushers and handlers, whichever bodies get lost
      on the way: the bodies yield the accepted packets less what waits in the batch; what is handled are packets that
      were written, each at most once, those of one body in order; and all of them in order exactly when all bodies
      arrive and are handled one after the other as handed off. */
  lemma BatchesDelivered(sections: seq<Section>, writers: nat, served: seq<seq<Packet>>, turns: seq<nat>)
    requires forall i :: 0 <= i < |sections| && sections[i].Append? ==> sections[i].writer < writers
    requires FLUSH_AT + writers <= 0x1_0000_0000
    requires forall p :: p in Run(sections).accepted ==> SHORTEST <= |p| < 0x1_0000_0000
    requires AllServed(Run(sections).bodies, served) && Possible(served, turns)
    ensures exists pending :: Flatten(served) + pending == Run(sections).accepted && Run(sections).batch == Frames(pending)
    ensures Delivers(Run(sections).accepted, served, turns)
    ensures AllInOrder(served, turns) <==> turns == InHandOffOrder(served)
  {
    GroupsBounded(sections, writers);
    var groups, pending :| Carries(Run(sections), groups, pending) && Small(groups, FLUSH_AT + writers);
    ServedAreGroups(Run(sections), groups, pending, served);
    TurnsDeliver(Run(sections).accepted, served, turns, pending);
    InOrderExactly(served, turns);
  }

  /** A lost body: the packet was accepted, nothing waits, and nothing is handled. */
  lemma LostBody(p: Packet)
    requires SHORTEST <= |p| < 0x1_0000_0000
    ensures var c := Run([Append(0, p), Flush(1)]);
            && c.accepted == [p] && c.batchN == 0 && AllServed(c.bodies, [[p]])
            && Possible([[p]], []) && !AllInOrder([[p]], [])
  {
    var sections := [Append(0, p), Flush(1)];
    var first := sections[..1];
    assert first[..0] == [] && Run([]) == EMPTY;
    assert Run(first) == Step(EMPTY, Append(0, p));
    FrameLast([], p);
    assert [] + [p] == [p];
    assert Run(sections).bodies == [Body([p])];
    AllLongEnough([p]);
    ServedBatch([p], [p]);
    FlattenLast([], [p]);
    assert [] + [[p]] == [[p]];
  }

  /** Two bodies whose handlers run the other way round: both packets are handled, the second first. */
  lemma BodiesSwapped(p: Packet, q: Packet)
    ensures Possible([[p], [q]], [1, 0]) && !AllInOrder([[p], [q]], [1, 0])
    ensures HandledAt([[p], [q]], [1, 0], 0) == q && HandledAt([[p], [q]], [1, 0], 1) == p
  {
    assert [1, 0][..1] == [1] && [1][..0] == [];
    assert Count([1], 0) == 0;
    assert Offset([[p], [q]], 1) == 1;
    assert Place([[p], [q]], [1, 0], 0) == 1;
  }
}
