/** The peer registry: loading in server/server.go, the panel's handlers and saveConfig in server/webpanel.go. */
module Registry {
  import opened Bytes

  /** A user of the configuration file. */
  datatype User = User(shortID: u16, name: string, secretKey: string, ip: string)

  // ─── The registry as a value ─────────────────────────────────────

  /** Both maps, each holding the user of the peer it points to. */
  datatype Reg = Reg(byID: map<u16, User>, byIP: map<string, User>)

  const NOBODY := Reg(map[], map[])

  /** The two maps are inverses of each other, keyed by the peer's own ShortID and IP. */
  ghost predicate Inverse(reg: Reg) {
    && (forall id :: id in reg.byID ==>
          var u := reg.byID[id]; u.shortID == id && u.ip in reg.byIP && reg.byIP[u.ip] == u)
    && (forall ip :: ip in reg.byIP ==>
          var u := reg.byIP[ip]; u.ip == ip && u.shortID in reg.byID && reg.byID[u.shortID] == u)
  }

  function Added(reg: Reg, u: User): Reg {
    Reg(reg.byID[u.shortID := u], reg.byIP[u.ip := u])
  }

  // ─── Requests ────────────────────────────────────────────────────

  datatype Reply = BadRequest | IdExists | IpExists | NotFound | Created | Deleted

  function CreateIn(reg: Reg, u: User): (Reply, Reg) {
    if u.shortID == 0 || u.secretKey == "" || u.ip == "" then (BadRequest, reg)
    else if u.shortID in reg.byID then (IdExists, reg)
    else if u.ip in reg.byIP then (IpExists, reg)
    else (Created, Added(reg, u))
  }

  function DeleteIn(reg: Reg, id: u16): (Reply, Reg) {
    if id !in reg.byID then (NotFound, reg)
    else (Deleted, Reg(reg.byID - {id}, reg.byIP - {reg.byID[id].ip}))
  }

  /** No request breaks the correspondence of the maps, and creation followed by deletion leaves no trace. */
  lemma RequestsKeepInverse(reg: Reg, u: User, id: u16)
    requires Inverse(reg)
    ensures Inverse(CreateIn(reg, u).1) && Inverse(DeleteIn(reg, id).1)
    ensures CreateIn(reg, u).0 == Created ==> DeleteIn(CreateIn(reg, u).1, u.shortID) == (Deleted, reg)
  {
    if CreateIn(reg, u).0 == Created {
      var made := Added(reg, u);
      assert made.byID - {u.shortID} == reg.byID;
      assert made.byIP - {u.ip} == reg.byIP;
    }
  }

  /** The record is registered as given under both keys, and nothing else changes. */
  ghost predicate OnlyAdded(reg: Reg, v: Reg, u: User) {
    && v.byID.Keys == reg.byID.Keys + {u.shortID} && v.byIP.Keys == reg.byIP.Keys + {u.ip}
    && v.byID[u.shortID] == u && v.byIP[u.ip] == u
    && (forall id :: id in reg.byID && id != u.shortID ==> v.byID[id] == reg.byID[id])
    && (forall ip :: ip in reg.byIP && ip != u.ip ==> v.byIP[ip] == reg.byIP[ip])
  }

  /** When a user is created, why not, and what is registered then. */
  lemma CreatesExactly(reg: Reg, u: User)
    ensures var (reply, v) := CreateIn(reg, u);
            var complete := u.shortID != 0 && u.secretKey != "" && u.ip != "";
            && (reply == BadRequest <==> !complete)
            && (reply == IdExists <==> complete && u.shortID in reg.byID)
            && (reply == IpExists <==> complete && u.shortID !in reg.byID && u.ip in reg.byIP)
            && (reply == Created <==> complete && u.shortID !in reg.byID && u.ip !in reg.byIP)
            && reply in {BadRequest, IdExists, IpExists, Created}
            && (if reply == Created then OnlyAdded(reg, v, u) else v == reg)
  {
  }

  /** When a user is deleted, and what is gone then. */
  lemma DeletesExactly(reg: Reg, id: u16)
    ensures var (reply, v) := DeleteIn(reg, id);
            && (reply == Deleted <==> id in reg.byID) && (reply == NotFound <==> id !in reg.byID)
            && (reply == NotFound ==> v == reg)
            && (reply == Deleted ==>
                  && v.byID.Keys == reg.byID.Keys - {id} && v.byIP.Keys == reg.byIP.Keys - {reg.byID[id].ip}
                  && (forall j :: j in v.byID ==> v.byID[j] == reg.byID[j])
                  && (forall ip :: ip in v.byIP ==> v.byIP[ip] == reg.byIP[ip]))
  {
  }

  // ─── Loading ─────────────────────────────────────────────────────

  datatype LoadError = ZeroID | DuplicateID | NoUsers

  /** The startup loop: every user in turn, stopping at the first bad ShortID. */
  function Loaded(users: seq<User>): Result<Reg, LoadError> {
    if |users| == 0 then Ok(NOBODY)
    else
      match Loaded(users[..|users| - 1])
      case Err(e) => Err(e)
      case Ok(reg) =>
        var u := users[|users| - 1];
        if u.shortID == 0 then Err(ZeroID)
        else if u.shortID in reg.byID then Err(DuplicateID)
        else Ok(Added(reg, u))
  }

  /** Start-up: a configuration without users is fatal before the loop. */
  function StartUp(users: seq<User>): Result<Reg, LoadError> {
    if |users| == 0 then Err(NoUsers) else Loaded(users)
  }

  predicate GoodIDs(users: seq<User>) {
    && (forall i :: 0 <= i < |users| ==> users[i].shortID != 0)
    && (forall i, j :: 0 <= i < j < |users| ==> users[i].shortID != users[j].shortID)
  }

  predicate DistinctIPs(users: seq<User>) {
    forall i, j :: 0 <= i < j < |users| ==> users[i].ip != users[j].ip
  }

  /** byID holds exactly the listed users, under their own ShortIDs. */
  ghost predicate Holds(byID: map<u16, User>, users: seq<User>) {
    && (forall i :: 0 <= i < |users| ==> users[i].shortID in byID && byID[users[i].shortID] == users[i])
    && (forall id :: id in byID ==> byID[id].shortID == id && byID[id] in users)
  }

  lemma GoodIDsStep(users: seq<User>, byID: map<u16, User>)
    requires |users| > 0 && Holds(byID, users[..|users| - 1])
    ensures var n := |users| - 1;
            GoodIDs(users) <==> GoodIDs(users[..n]) && users[n].shortID != 0 && users[n].shortID !in byID
  {
    var n := |users| - 1;
    var before := users[..n];
    assert forall i :: 0 <= i < n ==> users[i] == before[i];
    if users[n].shortID in byID {
      var i :| 0 <= i < n && before[i] == byID[users[n].shortID];
      assert users[i].shortID == users[n].shortID;
    }
  }

  lemma HoldsStep(users: seq<User>, byID: map<u16, User>)
    requires |users| > 0 && Holds(byID, users[..|users| - 1])
    requires users[|users| - 1].shortID !in byID
    ensures Holds(byID[users[|users| - 1].shortID := users[|users| - 1]], users)
  {
    var n := |users| - 1;
    assert forall i :: 0 <= i < n ==> users[i] == users[..n][i];
    assert users[n] in users;
  }

  /** Loading succeeds exactly on non-zero, distinct ShortIDs, and then registers exactly the listed users. */
  lemma {:induction false} LoadSucceeds(users: seq<User>)
    ensures Loaded(users).Ok? <==> GoodIDs(users)
    ensures Loaded(users).Ok? ==> Holds(Loaded(users).value.byID, users)
    decreases |users|
  {
    if |users| > 0 {
      var n := |users| - 1;
      var before := users[..n];
      LoadSucceeds(before);
      if Loaded(before).Ok? {
        var byID := Loaded(before).value.byID;
        GoodIDsStep(users, byID);
        if users[n].shortID !in byID {
          HoldsStep(users, byID);
        }
      } else if GoodIDs(users) {
        assert forall i :: 0 <= i < n ==> users[i] == before[i];
        assert GoodIDs(before);
      }
    }
  }

  /** The first user that stops the loop: a zero ShortID, or one listed before. */
  ghost predicate FirstBad(users: seq<User>, k: nat) {
    && k < |users| && GoodIDs(users[..k])
    && (users[k].shortID == 0 || exists i :: 0 <= i < k && users[i].shortID == users[k].shortID)
  }

  /** The error names the fault of the first bad user. */
  lemma {:induction false} LoadFailsAtFirst(users: seq<User>, k: nat)
    requires FirstBad(users, k)
    ensures Loaded(users) == Err(if users[k].shortID == 0 then ZeroID else DuplicateID)
    decreases |users|
  {
    if k < |users| - 1 {
      assert users[..|users| - 1][..k] == users[..k];
      LoadFailsAtFirst(users[..|users| - 1], k);
    } else {
      LoadSucceeds(users[..k]);
      var reg := Loaded(users[..k]).value;
      if users[k].shortID != 0 {
        var i :| 0 <= i < k && users[i].shortID == users[k].shortID;
        assert users[..k][i].shortID in reg.byID;
      } else {
        assert users[..|users| - 1] == users[..k];
      }
    }
  }

  /** Of users that share an IP the last one listed is found under it. */
  lemma {:induction false} LastListedWins(users: seq<User>, i: nat)
    requires Loaded(users).Ok? && i < |users|
    requires forall j :: i < j < |users| ==> users[j].ip != users[i].ip
    ensures users[i].ip in Loaded(users).value.byIP && Loaded(users).value.byIP[users[i].ip] == users[i]
    decreases |users|
  {
    var n := |users| - 1;
    if i < n {
      LastListedWins(users[..n], i);
      assert users[n].ip != users[i].ip;
    }
  }

  ghost predicate IPsFrom(byIP: map<string, User>, users: seq<User>) {
    && (forall ip :: ip in byIP ==> byIP[ip].ip == ip && byIP[ip] in users)
    && (forall i :: 0 <= i < |users| ==> users[i].ip in byIP)
  }

  lemma {:induction false} LoadedIPs(users: seq<User>)
    requires Loaded(users).Ok?
    ensures IPsFrom(Loaded(users).value.byIP, users)
    decreases |users|
  {
    if |users| > 0 {
      var before := users[..|users| - 1];
      LoadedIPs(before);
      assert users[|users| - 1] in users;
      assert forall u :: u in before ==> u in users;
    }
  }

  /** The loop does not look at IPs: after it the maps are inverses exactly when the list has no IP twice. */
  lemma LoadedInverse(users: seq<User>)
    requires Loaded(users).Ok?
    ensures Inverse(Loaded(users).value) <==> DistinctIPs(users)
  {
    var reg := Loaded(users).value;
    LoadSucceeds(users);
    LoadedIPs(users);
    if DistinctIPs(users) {
      forall i | 0 <= i < |users| ensures reg.byIP[users[i].ip] == users[i] {
        var j :| 0 <= j < |users| && users[j] == reg.byIP[users[i].ip];
        assert j == i;
      }
    }
    if Inverse(reg) {
      forall i, j | 0 <= i < j < |users| ensures users[i].ip != users[j].ip {
        assert reg.byIP[users[i].ip] == users[i] && reg.byIP[users[j].ip] == users[j];
      }
    }
  }

  /** A list the loop accepts and that leaves the maps out of step. */
  lemma DuplicateIPLoads(a: User, b: User)
    requires a.shortID != 0 && b.shortID != 0 && a.shortID != b.shortID && a.ip == b.ip
    ensures Loaded([a, b]).Ok? && !Inverse(Loaded([a, b]).value)
  {
    LoadSucceeds([a, b]);
    LoadedInverse([a, b]);
    assert [a, b][0].ip == [a, b][1].ip;
  }

  // ─── Saving ──────────────────────────────────────────────────────

  predicate StrictlySorted(users: seq<User>) {
    forall i, j :: 0 <= i < j < |users| ==> users[i].shortID < users[j].shortID
  }

  /** What saveConfig lists: every registered user once, by ascending ShortID. */
  ghost predicate Lists(users: seq<User>, byID: map<u16, User>) {
    StrictlySorted(users) && Holds(byID, users)
  }

  lemma LastIsLargest(users: seq<User>, byID: map<u16, User>)
    requires Lists(users, byID) && |users| > 0
    ensures var last := users[|users| - 1];
            && last.shortID in byID && byID[last.shortID] == last
            && (forall id :: id in byID ==> id <= last.shortID)
  {
    forall id | id in byID ensures id <= users[|users| - 1].shortID {
      var i :| 0 <= i < |users| && users[i] == byID[id];
    }
  }

  lemma InitListed(users: seq<User>, byID: map<u16, User>)
    requires Lists(users, byID) && |users| > 0
    ensures Lists(users[..|users| - 1], byID - {users[|users| - 1].shortID})
  {
    var n := |users| - 1;
    var init := users[..n];
    assert forall i :: 0 <= i < n ==> init[i] == users[i];
    forall id | id in byID && id != users[n].shortID ensures byID[id] in init {
      var i :| 0 <= i < |users| && users[i] == byID[id];
      assert i != n;
      assert init[i] == byID[id];
    }
  }

  lemma NoneListed(users: seq<User>, byID: map<u16, User>)
    requires Holds(byID, users)
    ensures users == [] <==> byID == map[]
  {
    if |users| > 0 {
      assert users[0].shortID in byID;
    }
  }

  lemma SameLast(a: seq<User>, b: seq<User>, byID: map<u16, User>)
    requires Lists(a, byID) && Lists(b, byID) && |a| > 0 && |b| > 0
    ensures a[|a| - 1] == b[|b| - 1]
    ensures Lists(a[..|a| - 1], byID - {a[|a| - 1].shortID})
    ensures Lists(b[..|b| - 1], byID - {a[|a| - 1].shortID})
  {
    LastIsLargest(a, byID);
    LastIsLargest(b, byID);
    InitListed(a, byID);
    InitListed(b, byID);
    var i, j := a[|a| - 1].shortID, b[|b| - 1].shortID;
    assert i <= j && j <= i;
  }

  /** The registry determines that list. */
  lemma {:induction false} ListIsUnique(a: seq<User>, b: seq<User>, byID: map<u16, User>)
    requires Lists(a, byID) && Lists(b, byID)
    ensures a == b
    decreases |a|
  {
    NoneListed(a, byID);
    NoneListed(b, byID);
    if |a| > 0 {
      SameLast(a, b, byID);
      var last := a[|a| - 1];
      ListIsUnique(a[..|a| - 1], b[..|b| - 1], byID - {last.shortID});
      assert a == a[..|a| - 1] + [last];
      assert b == b[..|b| - 1] + [last];
    }
  }

  predicate NoZeroID(reg: Reg) {
    0 !in reg.byID
  }

  /** Whether a list that loads also starts the server shows in the registry. */
  lemma StartsExactly(users: seq<User>, reg: Reg)
    requires Loaded(users) == Ok(reg)
    ensures StartUp(users) == if reg.byID == map[] then Err(NoUsers) else Ok(reg)
  {
    LoadSucceeds(users);
    NoneListed(users, reg.byID);
  }

  /** The loop over what was saved rebuilds the registry; a restart does exactly when there is a user left. */
  lemma SavedListLoads(users: seq<User>, reg: Reg)
    requires Inverse(reg) && NoZeroID(reg) && Lists(users, reg.byID)
    ensures Loaded(users) == Ok(reg)
    ensures StartUp(users) == if reg.byID == map[] then Err(NoUsers) else Ok(reg)
  {
    SavedListRebuilds(users, reg);
    StartsExactly(users, reg);
  }

  lemma SavedListRebuilds(users: seq<User>, reg: Reg)
    requires Inverse(reg) && NoZeroID(reg) && Lists(users, reg.byID)
    ensures Loaded(users) == Ok(reg)
  {
    LoadSucceeds(users);
    var back := Loaded(users).value;
    assert back.byID == reg.byID;
    assert DistinctIPs(users) by {
      forall i, j | 0 <= i < j < |users| ensures users[i].ip != users[j].ip {
        assert reg.byIP[users[i].ip] == users[i] && reg.byIP[users[j].ip] == users[j];
      }
    }
    LoadedInverse(users);
    assert back.byIP == reg.byIP by {
      assert forall ip :: ip in back.byIP ==> back.byID[back.byIP[ip].shortID] == back.byIP[ip];
      assert forall ip :: ip in reg.byIP ==> reg.byID[reg.byIP[ip].shortID] == reg.byIP[ip];
    }
  }
}
