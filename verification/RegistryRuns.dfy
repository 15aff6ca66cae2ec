/** Requests to the panel, interleaved: each updates the maps under peersMu and later saves under configMu. */
module RegistryRuns {
  import opened Bytes
  import opened Registry

  datatype Op = Create(user: User) | Delete(id: u16)

  /** Where a request stands. Between MustSave and Finished it is inside saveConfig or on its way there. */
  datatype Phase = Arrived(op: Op) | MustSave | InSave | HasList(users: seq<User>) | Finished

  /** saver: the request that holds configMu. intact: the last write to disk, if any, succeeded. */
  datatype World = World(reg: Reg, requests: map<nat, Phase>, saver: Option<nat>, disk: seq<User>, intact: bool)

  datatype Event =
    | Arrive(r: nat, op: Op)
    | Update(r: nat)
    | LockConfig(r: nat)
    | Snapshot(r: nat, list: seq<User>)
    | Write(r: nat, ok: bool, left: seq<User>)

  function Apply(reg: Reg, op: Op): (Reply, Reg) {
    match op
    case Create(u) => CreateIn(reg, u)
    case Delete(id) => DeleteIn(reg, id)
  }

  /** One atomic step; an event that cannot happen leaves the world as it is. A refused request never saves. A failed
      write leaves anything on disk. */
  ghost function Step(w: World, e: Event): World {
    match e
    case Arrive(r, op) =>
      if r in w.requests then w else w.(requests := w.requests[r := Arrived(op)])
    case Update(r) =>
      if r !in w.requests || !w.requests[r].Arrived? then w
      else
        var (reply, reg) := Apply(w.reg, w.requests[r].op);
        if reply.Created? || reply.Deleted? then w.(reg := reg, requests := w.requests[r := MustSave])
        else w.(requests := w.requests[r := Finished])
    case LockConfig(r) =>
      if r !in w.requests || !w.requests[r].MustSave? || w.saver.Some? then w
      else w.(requests := w.requests[r := InSave], saver := Some(r))
    case Snapshot(r, list) =>
      if r !in w.requests || !w.requests[r].InSave? || !Lists(list, w.reg.byID) then w
      else w.(requests := w.requests[r := HasList(list)])
    case Write(r, ok, left) =>
      if r !in w.requests || !w.requests[r].HasList? then w
      else w.(requests := w.requests[r := Finished], saver := None, disk := if ok then w.requests[r].users else left, intact := ok)
  }

  /** The server after start-up on a configuration. */
  ghost predicate Started(w: World) {
    && StartUp(w.disk) == Ok(w.reg) && DistinctIPs(w.disk)
    && w.requests == map[] && w.saver == None && w.intact
  }

  ghost function Run(w: World, events: seq<Event>): World {
    if |events| == 0 then w else Step(Run(w, events[..|events| - 1]), events[|events| - 1])
  }

  /** No request is between its map update and the end of its save. */
  ghost predicate Quiescent(w: World) {
    forall r :: r in w.requests ==> w.requests[r].Arrived? || w.requests[r].Finished?
  }

  /** Some update has not been snapshotted since. */
  ghost predicate Unsaved(w: World) {
    exists r :: r in w.requests && (w.requests[r].MustSave? || w.requests[r].InSave?)
  }

  ghost predicate Inv(w: World) {
    && Inverse(w.reg) && NoZeroID(w.reg)
    // configMu: one request at most is inside saveConfig
    && (forall r :: r in w.requests && (w.requests[r].InSave? || w.requests[r].HasList?) ==> w.saver == Some(r))
    && (w.saver.Some? ==> w.saver.value in w.requests
                          && (w.requests[w.saver.value].InSave? || w.requests[w.saver.value].HasList?))
    // what is about to be written, or else what is on disk, is current unless an update is still unsaved
    && (Unsaved(w)
        || if w.saver.Some? then CurrentList(w) else w.intact ==> Loaded(w.disk) == Ok(w.reg))
  }

  ghost predicate CurrentList(w: World)
    requires w.saver.Some?
  {
    var r := w.saver.value;
    r in w.requests && w.requests[r].HasList? && Lists(w.requests[r].users, w.reg.byID)
  }

  lemma StartHolds(w: World)
    requires Started(w)
    ensures Inv(w)
  {
    assert Loaded(w.disk) == Ok(w.reg);
    LoadSucceeds(w.disk);
    LoadedInverse(w.disk);
  }

  lemma ApplyKeeps(reg: Reg, op: Op)
    requires Inverse(reg) && NoZeroID(reg)
    ensures Inverse(Apply(reg, op).1) && NoZeroID(Apply(reg, op).1)
    ensures !Apply(reg, op).0.Created? && !Apply(reg, op).0.Deleted? ==> Apply(reg, op).1 == reg
  {
    match op
    case Create(u) => RequestsKeepInverse(reg, u, 0);
    case Delete(id) => RequestsKeepInverse(reg, User(0, "", "", ""), id);
  }

  lemma StepKeeps(w: World, e: Event)
    requires Inv(w)
    ensures Inv(Step(w, e))
  {
    var v := Step(w, e);
    match e
    case Arrive(r, op) =>
      if Unsaved(w) {
        var q :| q in w.requests && (w.requests[q].MustSave? || w.requests[q].InSave?);
        assert q in v.requests && v.requests[q] == w.requests[q];
      }
    case Update(r) => UpdateKeeps(w, r);
    case LockConfig(r) => LockKeeps(w, r);
    case Snapshot(r, list) =>
      if v != w {
        assert v.saver == Some(r);
        assert CurrentList(v);
      }
    case Write(r, ok, left) => WriteKeeps(w, r, ok, left);
  }

  lemma UpdateKeeps(w: World, r: nat)
    requires Inv(w)
    ensures Inv(Step(w, Update(r)))
  {
    var v := Step(w, Update(r));
    if v != w {
      ApplyKeeps(w.reg, w.requests[r].op);
      if v.requests[r].MustSave? {
        assert Unsaved(v);
      } else if Unsaved(w) {
        var q :| q in w.requests && (w.requests[q].MustSave? || w.requests[q].InSave?);
        assert q in v.requests && v.requests[q] == w.requests[q];
      }
    }
  }

  lemma LockKeeps(w: World, r: nat)
    requires Inv(w)
    ensures Inv(Step(w, LockConfig(r)))
  {
    var v := Step(w, LockConfig(r));
    if v != w {
      assert r in v.requests && v.requests[r].InSave?;
      assert Unsaved(v);
    }
  }

  lemma WriteKeeps(w: World, r: nat, ok: bool, left: seq<User>)
    requires Inv(w)
    ensures Inv(Step(w, Write(r, ok, left)))
  {
    var v := Step(w, Write(r, ok, left));
    if v != w {
      assert w.saver == Some(r);
      if Unsaved(w) {
        var q :| q in w.requests && (w.requests[q].MustSave? || w.requests[q].InSave?);
        assert q in v.requests && v.requests[q] == w.requests[q];
      } else {
        SavedListLoads(w.requests[r].users, w.reg);
      }
    }
  }

  lemma {:induction false} RunKeeps(w: World, events: seq<Event>)
    requires Started(w)
    ensures Inv(Run(w, events))
    decreases |events|
  {
    if |events| == 0 {
      StartHolds(w);
    } else {
      RunKeeps(w, events[..|events| - 1]);
      StepKeeps(Run(w, events[..|events| - 1]), events[|events| - 1]);
    }
  }

  /** Whatever the interleaving of any number of requests: once all are answered, and if the last write succeeded, the disk
      holds the registry, and a restart rebuilds it exactly when a user is left; without one it is refused. */
  lemma DiskAgreesAtRest(w: World, events: seq<Event>)
    requires Started(w)
    ensures var v := Run(w, events);
            Quiescent(v) && v.intact ==>
              && Loaded(v.disk) == Ok(v.reg)
              && StartUp(v.disk) == if v.reg.byID == map[] then Err(NoUsers) else Ok(v.reg)
  {
    RunKeeps(w, events);
    var v := Run(w, events);
    if Quiescent(v) && v.intact {
      StartsExactly(v.disk, v.reg);
    }
  }

  /** In every reachable world the two maps are inverses. */
  lemma MapsStayInverse(w: World, events: seq<Event>)
    requires Started(w)
    ensures Inverse(Run(w, events).reg) && NoZeroID(Run(w, events).reg)
  {
    RunKeeps(w, events);
  }

  /** A server started with one user. */
  function OneUser(u: User): World {
    World(Added(NOBODY, u), map[], None, [u], true)
  }

  lemma OneUserStarts(u: User)
    requires u.shortID != 0
    ensures Started(OneUser(u))
  {
    var users := [u];
    assert users[..|users| - 1] == [] && users[|users| - 1] == u;
    assert Loaded([]) == Ok(NOBODY);
    assert Loaded(users) == Ok(Added(NOBODY, u));
  }

  /** The saves cannot be skipped: with one request between its update and its save, disk and registry may differ. */
  lemma DiskLagsBehindUpdate(u: User, more: User)
    requires u.shortID != 0 && more.shortID != 0 && more.secretKey != "" && more.ip != ""
    requires more.shortID != u.shortID && more.ip != u.ip
    ensures var v := Run(OneUser(u), [Arrive(0, Create(more)), Update(0)]);
            Started(OneUser(u)) && v.intact && Loaded(v.disk) != Ok(v.reg)
  {
    var w := OneUser(u);
    var events := [Arrive(0, Create(more)), Update(0)];
    OneUserStarts(u);
    assert events[..1] == [Arrive(0, Create(more))] && events[..1][..0] == [];
    assert Run(w, events[..1]) == Step(w, Arrive(0, Create(more)));
    var v := Run(w, events);
    assert more.shortID in v.reg.byID && more.shortID !in w.reg.byID;
    assert Loaded(v.disk) == Ok(w.reg);
  }

  /** The panel deletes the only user, and saves. */
  function DeleteOnly(id: u16): seq<Event> {
    [Arrive(0, Delete(id)), Update(0), LockConfig(0), Snapshot(0, []), Write(0, true, [])]
  }

  lemma {:induction false} RunFive(w: World, e: seq<Event>)
    requires |e| == 5
    ensures Run(w, e) == Step(Step(Step(Step(Step(w, e[0]), e[1]), e[2]), e[3]), e[4])
  {
    var e4, e3, e2, e1 := e[..4], e[..3], e[..2], e[..1];
    assert e4[..3] == e3 && e3[..2] == e2 && e2[..1] == e1 && e1[..0] == [];
    assert Run(w, e1) == Step(w, e[0]);
    assert Run(w, e2) == Step(Run(w, e1), e[1]);
    assert Run(w, e3) == Step(Run(w, e2), e[2]);
    assert Run(w, e4) == Step(Run(w, e3), e[3]);
  }

  lemma OnlyUserGone(u: User)
    ensures DeleteIn(Added(NOBODY, u), u.shortID) == (Deleted, NOBODY)
  {
    var reg := Added(NOBODY, u);
    assert reg.byID - {u.shortID} == map[] && reg.byIP - {u.ip} == map[];
  }

  lemma SaveOfNothing(w: World)
    requires w.reg == NOBODY && w.requests == map[0 := MustSave] && w.saver == None
    ensures Step(Step(Step(w, LockConfig(0)), Snapshot(0, [])), Write(0, true, []))
         == World(NOBODY, map[0 := Finished], None, [], true)
  {
    assert Lists([], NOBODY.byID);
    var locked := Step(w, LockConfig(0));
    assert locked.requests[0] == InSave && locked.reg == NOBODY;
    var listed := Step(locked, Snapshot(0, []));
    assert listed.requests[0] == HasList([]);
    assert Step(listed, Write(0, true, [])).requests == map[0 := Finished];
  }

  /** At rest after a successful write, and yet a restart is refused. */
  lemma LastUserDeleted(u: User)
    requires u.shortID != 0
    ensures var v := Run(OneUser(u), DeleteOnly(u.shortID));
            Started(OneUser(u)) && Quiescent(v) && v.intact && StartUp(v.disk) == Err(NoUsers)
  {
    var w, e := OneUser(u), DeleteOnly(u.shortID);
    OneUserStarts(u);
    RunFive(w, e);
    OnlyUserGone(u);
    var gone := Step(Step(w, e[0]), e[1]);
    assert gone.requests == map[0 := MustSave] && gone.reg == NOBODY;
    SaveOfNothing(gone);
  }

  /** A refused request changes no registry and never comes to save. */
  lemma RefusedNeverSaves(w: World, r: nat)
    requires r in w.requests && w.requests[r].Arrived?
    ensures var v, reply := Step(w, Update(r)), Apply(w.reg, w.requests[r].op).0;
            if reply in {Created, Deleted} then v.requests[r].MustSave? && v.disk == w.disk
            else v.requests[r].Finished? && v.reg == w.reg && v.disk == w.disk
  {
    ApplyKeepsRefused(w.reg, w.requests[r].op);
  }

  lemma ApplyKeepsRefused(reg: Reg, op: Op)
    ensures Apply(reg, op).0 in {Created, Deleted} || Apply(reg, op).1 == reg
  {
    match op
    case Create(u) => CreatesExactly(reg, u);
    case Delete(id) => DeletesExactly(reg, id);
  }
}
