/** The server's shared state as it is updated in place: server/server.go and server/webpanel.go. */
module PacketServer {
  import opened Bytes
  import opened Cipher
  import opened BloomFilter
  import opened Pipeline
  import opened Registry

  /** A peer no packet has reached yet. */
  function NewState(key: Option<seq<byte>>): PeerState {
    PeerState(key, None, None, 0, 0, 0, false)
  }

  class Peer {
    const user: User
    const cp: CipherPack?
    var writer: Option<Writer>
    var udpAddr: Option<string>
    var lastSeen: int
    var byteIn: nat
    var cumRx: nat
    /** cpMu was left locked. */
    var held: bool

    ghost function State(): PeerState
      reads this
    {
      PeerState(if cp == null then None else Some(cp.key), writer, udpAddr, lastSeen, byteIn, cumRx, held)
    }

    constructor (user: User, cp: CipherPack?)
      ensures this.user == user && this.cp == cp
      ensures writer == None && udpAddr == None && lastSeen == 0 && byteIn == 0 && cumRx == 0 && !held
    {
      this.user, this.cp := user, cp;
      writer, udpAddr, lastSeen, byteIn, cumRx, held := None, None, 0, 0, 0, false;
    }

    method Address(w: Option<Writer>)
      modifies this
      ensures State() == Addressed(old(State()), w)
    {
      if w.Some? {
        writer := w;
        if w.value.UdpWriter? {
          udpAddr := Some(w.value.addr);
        }
      }
    }

    method ZeroByteIn()
      modifies this`byteIn
      ensures State() == old(State()).(byteIn := 0)
    {
      byteIn := 0;
    }

    method Note(unix: int, bytes: nat)
      modifies this`lastSeen, this`byteIn, this`cumRx
      ensures State() == old(State()).(lastSeen := unix, byteIn := old(byteIn) + bytes, cumRx := old(cumRx) + bytes)
    {
      lastSeen := unix;
      byteIn := byteIn + bytes;
      cumRx := cumRx + bytes;
    }
  }

  // ─── Drop counters ───────────────────────────────────────────────

  class DropCounters {
    var noPeer: nat
    var replay: nat
    var hmac: nat
    var decrypt: nat
    var lastLogAt: int
    var log: seq<DropReport>

    ghost function Pending(): DropReport
      reads this
    {
      DropReport(noPeer, replay, hmac, decrypt)
    }

    /** The counters hold c, and then logDrops has its turn at t0. */
    ghost predicate LoggedFrom(c: DropReport, lastLogAt: int, log: seq<DropReport>, t0: int, t1: int)
      reads this
    {
      if t0 - lastLogAt < LOG_INTERVAL then Pending() == c && this.lastLogAt == lastLogAt && this.log == log
      else Pending() == NO_DROPS && this.lastLogAt == t1 && this.log == if Total(c) > 0 then log + [c] else log
    }

    constructor (lastLogAt: int)
      ensures Pending() == NO_DROPS && this.lastLogAt == lastLogAt && log == []
    {
      noPeer, replay, hmac, decrypt, log := 0, 0, 0, 0, [];
      this.lastLogAt := lastLogAt;
    }

    method LogDrops(t0: int, t1: int)
      modifies this
      ensures LoggedFrom(old(Pending()), old(lastLogAt), old(log), t0, t1)
    {
      if t0 - lastLogAt < LOG_INTERVAL {
        return;
      }
      lastLogAt := t1;
      var report := DropReport(noPeer, replay, hmac, decrypt);
      noPeer, replay, hmac, decrypt := 0, 0, 0, 0;
      if report.noPeer + report.replay + report.hmac + report.decrypt > 0 {
        log := log + [report];
      }
    }

    method Count(o: Outcome)
      requires o.NoPeer? || o.Replay? || o.BadMac? || o.BadPacket?
      modifies this`noPeer, this`replay, this`hmac, this`decrypt
      ensures Pending() == Plus(old(Pending()), Cause(o))
    {
      match o {
        case NoPeer => noPeer := noPeer + 1;
        case Replay => replay := replay + 1;
        case BadMac => hmac := hmac + 1;
        case BadPacket => decrypt := decrypt + 1;
      }
    }

    /** Increments the counter of a drop and reports when it is time. */
    method Drop(o: Outcome, t0: int, t1: int)
      requires o.NoPeer? || o.Replay? || o.BadMac? || o.BadPacket?
      modifies this
      ensures LoggedFrom(Plus(old(Pending()), Cause(o)), old(lastLogAt), old(log), t0, t1)
    {
      Count(o);
      ghost var c := Pending();
      LogDrops(t0, t1);
      assert LoggedFrom(c, old(lastLogAt), old(log), t0, t1);
      assert c == Plus(old(Pending()), Cause(o));
    }
  }

  // ─── Sorting a list of users ─────────────────────────────────────

  predicate DistinctIDs(users: seq<User>) {
    forall i, j :: 0 <= i < j < |users| ==> users[i].shortID != users[j].shortID
  }

  lemma PutBetween(users: seq<User>, u: User, k: nat)
    requires StrictlySorted(users) && k <= |users|
    requires forall i :: 0 <= i < k ==> users[i].shortID < u.shortID
    requires k < |users| ==> u.shortID < users[k].shortID
    ensures StrictlySorted(users[..k] + [u] + users[k..])
  {
    var r := users[..k] + [u] + users[k..];
    forall i, j | 0 <= i < j < |r| ensures r[i].shortID < r[j].shortID {
      if i < k && k < j {
        assert r[i] == users[i] && r[j] == users[j - 1];
      } else if i == k {
        assert r[j] == users[j - 1] && (j - 1 == k || users[k].shortID < users[j - 1].shortID);
      } else if k < i {
        assert r[i] == users[i - 1] && r[j] == users[j - 1];
      }
    }
  }

  /** users with u put in its place. */
  method InsertByID(users: seq<User>, u: User) returns (r: seq<User>)
    requires StrictlySorted(users) && forall i :: 0 <= i < |users| ==> users[i].shortID != u.shortID
    ensures StrictlySorted(r)
    ensures forall x :: x in r <==> x in users || x == u
  {
    var k := 0;
    while k < |users| && users[k].shortID < u.shortID
      invariant k <= |users| && forall i :: 0 <= i < k ==> users[i].shortID < u.shortID
    {
      k := k + 1;
    }
    PutBetween(users, u, k);
    r := users[..k] + [u] + users[k..];
    assert users == users[..k] + users[k..];
  }

  method SortByID(users: seq<User>) returns (r: seq<User>)
    requires DistinctIDs(users)
    ensures StrictlySorted(r)
    ensures forall x :: x in r <==> x in users
  {
    r := [];
    for k := 0 to |users|
      invariant StrictlySorted(r)
      invariant forall x :: x in r <==> x in users[..k]
    {
      assert forall i :: 0 <= i < |r| ==> r[i] in users[..k];
      r := InsertByID(r, users[k]);
      assert users[..k + 1] == users[..k] + [users[k]];
    }
    assert users[..|users|] == users;
  }

  ghost function Users<K>(m: map<K, Peer>): map<K, User> {
    map k | k in m :: m[k].user
  }

  lemma UsersPut<K>(m: map<K, Peer>, k: K, p: Peer)
    ensures Users(m[k := p]) == Users(m)[k := p.user]
  {
  }

  lemma UsersDrop<K>(m: map<K, Peer>, k: K)
    ensures Users(m - {k}) == Users(m) - {k}
  {
  }

  // ─── The server ──────────────────────────────────────────────────

  class Server {
    const prim: Primitives
    const salt: seq<byte>
    const sha256: string -> seq<byte>
    const bloom: Bloom
    const drops: DropCounters
    var peers: map<u16, Peer>
    var ipToPeer: map<string, Peer>
    var bloomCount: nat
    var loop: Loop
    var reader: Loop
    var users: seq<User>
    var disk: seq<User>

    /** Every peer sits under its own ShortID; its cipher context is the server's and uses default padding. */
    ghost predicate Valid()
      reads this`peers
    {
      && prim.Lawful() && bloom.Valid()
      && (forall id :: id in peers ==> peers[id].user.shortID == id)
      && (forall id :: id in peers ==> peers[id].cp != null ==> peers[id].cp.prim == prim && peers[id].cp.padMax == 0)
    }

    ghost function Contexts(): set<CipherPack>
      reads this`peers
    {
      set id | id in peers && peers[id].cp != null :: peers[id].cp as CipherPack
    }

    ghost function PeerStates(): map<u16, PeerState>
      reads this`peers, peers.Values
    {
      map id | id in peers :: peers[id].State()
    }

    ghost function View(): Srv
      requires bloom.Valid()
      reads this, bloom.words, drops, peers.Values
    {
      Srv(PeerStates(), bloom.Bits(), bloomCount, drops.Pending(), drops.lastLogAt, drops.log, loop, reader)
    }

    ghost function Host(): (h: Pipeline.Host)
      requires prim.Lawful()
      ensures h.Lawful()
    {
      RealHostLawful(prim, salt);
      RealHost(prim, salt)
    }

    ghost function RegView(): Reg
      reads this`peers, this`ipToPeer
    {
      Reg(Users(peers), Users(ipToPeer))
    }

    /** The maps are inverses down to the peer objects. */
    ghost predicate Linked()
      reads this`peers, this`ipToPeer
    {
      && (forall id :: id in peers ==> var p := peers[id];
            p.user.shortID == id && p.user.ip in ipToPeer && ipToPeer[p.user.ip] == p)
      && (forall ip :: ip in ipToPeer ==> var p := ipToPeer[ip];
            p.user.ip == ip && p.user.shortID in peers && peers[p.user.shortID] == p)
    }

    constructor (prim: Primitives, salt: seq<byte>, sha256: string -> seq<byte>, lastLogAt: int)
      requires prim.Lawful()
      ensures Valid() && Linked() && fresh(bloom) && fresh(bloom.words) && fresh(drops)
      ensures this.prim == prim && this.salt == salt && this.sha256 == sha256
      ensures View() == Srv(map[], {}, 0, NO_DROPS, lastLogAt, [], Serving, Serving) && RegView() == NOBODY
    {
      this.prim, this.salt, this.sha256 := prim, salt, sha256;
      bloom := new Bloom();
      peers, ipToPeer, bloomCount, loop, reader := map[], map[], 0, Serving, Serving;
      drops := new DropCounters(lastLogAt);
      users, disk := [], [];
    }

    // ─── Registry ──────────────────────────────────────────────────

    /** Puts a peer into both maps. */
    method Add(p: Peer)
      requires Valid() && p.user.shortID !in peers
      requires p.cp != null ==> p.cp.prim == prim && p.cp.padMax == 0
      modifies this`peers, this`ipToPeer
      ensures Valid() && peers == old(peers)[p.user.shortID := p] && ipToPeer == old(ipToPeer)[p.user.ip := p]
      ensures RegView() == Added(old(RegView()), p.user)
      ensures old(SharedObjects()) ==> SharedObjects()
    {
      peers := peers[p.user.shortID := p];
      ipToPeer := ipToPeer[p.user.ip := p];
      UsersPut(old(peers), p.user.shortID, p);
      UsersPut(old(ipToPeer), p.user.ip, p);
    }

    /** A peer as configured, with a cipher context whose nonce counter stands at start. */
    method NewPeer(u: User, start: u64) returns (p: Peer)
      requires Valid()
      ensures fresh(p) && p.user == u && p.cp != null && fresh(p.cp) && p.cp.prim == prim && p.cp.padMax == 0
      ensures p.State() == NewState(Some(sha256(u.secretKey))) && p.cp.nonce == start
    {
      var cp := new CipherPack(prim, sha256(u.secretKey), 0, start);
      p := new Peer(u, cp);
    }

    /** Every peer has a cipher context under its own key, and no packet has reached it. */
    ghost predicate AllNew()
      reads this`peers, peers.Values
    {
      forall id :: id in peers ==> peers[id].State() == NewState(Some(sha256(peers[id].user.secretKey)))
    }

    /** The nonce counters stand where they are listed. */
    ghost predicate CountersAt(nonces: map<u16, u64>)
      reads this`peers, Contexts()
    {
      nonces.Keys == peers.Keys && forall id :: id in peers ==> peers[id].cp != null && peers[id].cp.nonce == nonces[id]
    }

    /** One turn of the startup loop. */
    method LoadOne(u: User, start: u64, ghost nonces: map<u16, u64>) returns (r: Option<LoadError>)
      requires Valid() && SharedObjects() && AllNew() && CountersAt(nonces)
      modifies this`peers, this`ipToPeer
      ensures Valid() && SharedObjects() && AllNew()
      ensures r == if u.shortID == 0 then Some(ZeroID) else if u.shortID in old(peers) then Some(DuplicateID) else None
      ensures r.None? ==> RegView() == Added(old(RegView()), u) && CountersAt(nonces[u.shortID := start])
    {
      var p := NewPeer(u, start);
      if u.shortID == 0 {
        return Some(ZeroID);
      }
      if u.shortID in peers {
        return Some(DuplicateID);
      }
      AddNew(p, nonces);
      return None;
    }

    method AddNew(p: Peer, ghost nonces: map<u16, u64>)
      requires Valid() && SharedObjects() && AllNew() && CountersAt(nonces) && p.user.shortID !in peers
      requires p.cp != null && p.cp.prim == prim && p.cp.padMax == 0
      requires p.State() == NewState(Some(sha256(p.user.secretKey)))
      modifies this`peers, this`ipToPeer
      ensures Valid() && SharedObjects() && AllNew()
      ensures RegView() == Added(old(RegView()), p.user) && CountersAt(nonces[p.user.shortID := p.cp.nonce])
    {
      AddCounting(p, nonces);
    }

    method AddCounting(p: Peer, ghost nonces: map<u16, u64>)
      requires Valid() && SharedObjects() && CountersAt(nonces) && p.user.shortID !in peers
      requires p.cp != null && p.cp.prim == prim && p.cp.padMax == 0
      modifies this`peers, this`ipToPeer
      ensures Valid() && SharedObjects() && peers == old(peers)[p.user.shortID := p]
      ensures RegView() == Added(old(RegView()), p.user) && CountersAt(nonces[p.user.shortID := p.cp.nonce])
    {
      Add(p);
    }

    method LoadTurn(cfg: seq<User>, starts: seq<u64>, i: nat, ghost nonces: map<u16, u64>) returns (r: Option<LoadError>)
      requires Valid() && SharedObjects() && AllNew() && CountersAt(nonces)
      requires i < |cfg| == |starts| && Loaded(cfg[..i]) == Ok(RegView()) && StartAs(nonces, cfg, starts, i)
      modifies this`peers, this`ipToPeer
      ensures Valid() && SharedObjects() && AllNew()
      ensures r.Some? ==> Loaded(cfg) == Err(r.value)
      ensures r.None? ==> Loaded(cfg[..i + 1]) == Ok(RegView())
      ensures r.None? ==> var v := nonces[cfg[i].shortID := starts[i]]; CountersAt(v) && StartAs(v, cfg, starts, i + 1)
    {
      assert cfg[..i + 1][..i] == cfg[..i];
      r := LoadOne(cfg[i], starts[i], nonces);
      if r.Some? {
        LoadStops(cfg, i + 1);
      } else {
        StartNext(nonces, cfg, starts, i);
      }
    }

    /** Start-up on a configuration; starts: the random nonce offsets of the new cipher contexts. */
    method LoadPeers(cfg: seq<User>, starts: seq<u64>) returns (r: Result<(), LoadError>)
      requires Valid() && |starts| == |cfg|
      modifies this`peers, this`ipToPeer
      ensures Valid()
      ensures r.Ok? <==> StartUp(cfg).Ok?
      ensures r.Err? ==> StartUp(cfg) == Err(r.error)
      ensures r.Ok? ==> RegView() == Loaded(cfg).value && (Linked() <==> DistinctIPs(cfg))
      ensures AllNew() && (r.Ok? ==> exists nonces :: CountersAt(nonces) && StartAs(nonces, cfg, starts, |cfg|))
    {
      peers := map[];
      ipToPeer := map[];
      if |cfg| == 0 {
        return Err(NoUsers);
      }
      ghost var nonces: map<u16, u64> := map[];
      for i := 0 to |cfg|
        invariant Valid() && SharedObjects() && AllNew()
        invariant Loaded(cfg[..i]) == Ok(RegView())
        invariant CountersAt(nonces) && StartAs(nonces, cfg, starts, i)
      {
        var stop := LoadTurn(cfg, starts, i, nonces);
        if stop.Some? {
          return Err(stop.value);
        }
        nonces := nonces[cfg[i].shortID := starts[i]];
      }
      assert cfg[..|cfg|] == cfg;
      LoadedInverse(cfg);
      LinkedIffInverse();
      return Ok(());
    }

    /** A peer reached by IP is the one registered under its ShortID. */
    ghost predicate SharedObjects()
      reads this`peers, this`ipToPeer
    {
      forall ip :: ip in ipToPeer ==> ipToPeer[ip].user.shortID in peers && peers[ipToPeer[ip].user.shortID] == ipToPeer[ip]
    }

    lemma LinkedIffInverse()
      requires SharedObjects()
      ensures Linked() <==> Inverse(RegView())
    {
      var reg := RegView();
      if Inverse(reg) {
        forall id | id in peers
          ensures var p := peers[id]; p.user.shortID == id && p.user.ip in ipToPeer && ipToPeer[p.user.ip] == p
        {
          assert reg.byID[id] == peers[id].user;
          assert reg.byIP[peers[id].user.ip] == peers[id].user;
        }
        forall ip | ip in ipToPeer ensures ipToPeer[ip].user.ip == ip {
          assert reg.byIP[ip] == ipToPeer[ip].user;
        }
      }
    }

    /** A new peer has no cipher context. */
    method CreateUser(u: User) returns (reply: Reply)
      requires Valid()
      modifies this`peers, this`ipToPeer
      ensures Valid() && (old(Linked()) ==> Linked())
      ensures (reply, RegView()) == CreateIn(old(RegView()), u)
      ensures if reply == Created
              then u.shortID in peers && peers == old(peers)[u.shortID := peers[u.shortID]] && fresh(peers[u.shortID])
                   && peers[u.shortID].State() == NewState(None)
              else peers == old(peers)
    {
      if u.shortID == 0 || u.secretKey == "" || u.ip == "" {
        return BadRequest;
      }
      if u.shortID in peers {
        return IdExists;
      }
      if u.ip in ipToPeer {
        return IpExists;
      }
      var p := new Peer(u, null);
      Add(p);
      return Created;
    }

    method DeleteUser(id: u16) returns (reply: Reply)
      requires Valid()
      modifies this`peers, this`ipToPeer
      ensures Valid() && (old(Linked()) ==> Linked())
      ensures (reply, RegView()) == DeleteIn(old(RegView()), id)
      ensures peers == old(peers) - {id}
    {
      if id !in peers {
        return NotFound;
      }
      var p := peers[id];
      peers := peers - {id};
      ipToPeer := ipToPeer - {p.user.ip};
      UsersDrop(old(peers), id);
      UsersDrop(old(ipToPeer), p.user.ip);
      return Deleted;
    }

    /** Collects the users in whatever order the map yields them, sorts them, and writes them; a failing write leaves
        anything on disk. */
    method SaveConfig(writes: bool, left: seq<User>) returns (ok: bool)
      requires Valid()
      modifies this`users, this`disk
      ensures ok == writes
      ensures Lists(users, RegView().byID)
      ensures disk == if writes then users else left
    {
      var found: seq<User> := [];
      var rest := peers.Keys;
      while rest != {}
        invariant rest <= peers.Keys
        invariant forall i :: 0 <= i < |found| ==> found[i].shortID in peers && found[i] == peers[found[i].shortID].user
        invariant forall i :: 0 <= i < |found| ==> found[i].shortID !in rest
        invariant DistinctIDs(found)
        invariant forall id :: id in peers && id !in rest ==> peers[id].user in found
        decreases rest
      {
        var id :| id in rest;
        found := found + [peers[id].user];
        rest := rest - {id};
      }
      users := SortByID(found);
      assert forall i :: 0 <= i < |users| ==> users[i] in found;
      disk := if writes then users else left;
      return writes;
    }

    // ─── Packets ───────────────────────────────────────────────────

    method Drop(o: Outcome, ghost i: Input, t0: int, t1: int)
      requires Valid() && (o.NoPeer? || o.Replay? || o.BadMac? || o.BadPacket?) && i.t0 == t0 && i.t1 == t1
      modifies drops
      ensures View() == Dropped(old(View()), o, i).0
    {
      ghost var s := View();
      drops.Drop(o, t0, t1);
      ghost var v := View();
      assert v.peers == s.peers && v.bits == s.bits;
      DroppedAre(s, v, o, i);
    }

    method SetWriter(id: u16, w: Option<Writer>)
      requires Valid() && id in peers
      modifies peers[id]
      ensures View() == WithWriter(old(View()), id, w)
    {
      peers[id].Address(w);
      assert PeerStates() == old(PeerStates())[id := Addressed(old(PeerStates())[id], w)];
    }

    method InsertBits(key: seq<byte>)
      requires Valid()
      modifies bloom.words
      ensures View() == old(View()).(bits := old(View()).bits + Indices(key))
    {
      bloom.Set(key);
    }

    method Insert(key: seq<byte>)
      requires Valid()
      modifies this`bloomCount, bloom.words
      ensures View() == WithBits(old(View()), Indices(key))
    {
      InsertBits(key);
      bloomCount := bloomCount + 1;
    }

    method SetLoop(end: Loop)
      requires Valid()
      modifies this`loop
      ensures View() == old(View()).(loop := end)
    {
      loop := end;
    }

    method Receive(id: u16, unix: int, bytes: nat)
      requires Valid() && id in peers
      modifies peers[id]
      ensures View() == Seen(old(View()), id, unix, bytes)
    {
      peers[id].Note(unix, bytes);
      assert PeerStates() == old(PeerStates())[id := peers[id].State()];
    }

    /** A panic between the locking and the unlocking of cpMu. */
    method Hold(id: u16)
      requires Valid() && id in peers
      modifies peers[id]
      ensures View() == (var s := old(View()); s.(peers := s.peers[id := s.peers[id].(held := true)]))
    {
      ghost var before := PeerStates();
      peers[id].held := true;
      assert PeerStates() == before[id := before[id].(held := true)];
    }

    /** POST /api/reset. */
    method HandleReset()
      requires Valid()
      modifies peers.Values
      ensures View() == Zeroed(old(View()))
    {
      ghost var s, before := View(), PeerStates();
      var rest := peers.Keys;
      while rest != {}
        invariant rest <= peers.Keys
        invariant forall id :: id in rest ==> peers[id].State() == before[id]
        invariant forall id :: id in peers && id !in rest ==> peers[id].State() == before[id].(byteIn := 0)
        decreases rest
      {
        var id :| id in rest;
        peers[id].ZeroByteIn();
        rest := rest - {id};
      }
      assert PeerStates() == Zeroed(s).peers;
    }

    method IsFull(key: seq<byte>) returns (yes: bool)
      requires Valid()
      ensures yes <==> Indices(key) <= View().bits
      ensures View() == old(View())
    {
      var isNew := bloom.Check(key);
      yes := !isNew;
    }

    method IsRepeated(id: u16, packet: seq<byte>) returns (yes: bool)
      requires Valid()
      ensures yes <==> |packet| >= HEADER && Indices(ReplayKey(id, packet)) <= View().bits
      ensures View() == old(View())
    {
      if |packet| < 4 + 2 + 12 {
        return false;
      }
      yes := IsFull(BloomKey(id, packet[6..18]));
    }

    method Open(id: u16, packet: seq<byte>) returns (v: Verdict)
      requires Valid() && id in peers
      ensures v == Opening(prim, View().peers[id].key, packet)
      ensures View() == old(View())
    {
      var cp := peers[id].cp;
      if cp == null {
        return Panics;
      }
      var decrypted := cp.Decrypt(packet);
      match decrypted
      case Err(fault) => return if fault.SliceBounds? then Panics else Rejected(fault);
      case Ok(data) => return Verdict.Valid(data);
    }

    /** What filter and cipher say, without touching anything. */
    method Examine(id: u16, packet: seq<byte>) returns (v: Verdict)
      requires Valid() && id in peers
      ensures v == Judge(Host(), View().bits, View().peers[id].key, id, packet)
      ensures View() == old(View())
    {
      var repeated := IsRepeated(id, packet);
      if repeated {
        return Repeated;
      }
      v := Open(id, packet);
    }

    /** The nonce counter of a peer's cipher context. */
    ghost function Counter(id: u16): u64
      reads this`peers, Contexts()
    {
      if id in peers && peers[id].cp != null then peers[id].cp.nonce else 0
    }

    ghost predicate HasWriter(id: u16)
      reads this`peers, peers.Values
    {
      id in peers && peers[id].writer.Some?
    }

    /** The packet is routed to the peer and opens to the data. */
    ghost predicate Carries(id: u16, packet: seq<byte>, data: seq<byte>)
      requires prim.Lawful()
      reads this`peers
    {
      && id in peers && peers[id].cp != null && Opened(prim, peers[id].cp.key, packet) == Ok(data)
      && |packet| >= HEADER && Routed(salt, packet) == id
    }

    /** Encrypted for the peer, this is the one byte that answers a keep-alive. */
    ghost predicate Answers(id: u16, reply: Option<seq<byte>>)
      requires prim.Lawful()
      reads this`peers
    {
      reply.Some? ==> Carries(id, reply.value, [1])
    }

    /** Data encrypted for a peer. */
    method EncryptFor(id: u16, data: seq<byte>, random: nat, draw: nat, pool: seq<byte>) returns (packet: seq<byte>)
      requires Valid() && id in peers && peers[id].cp != null
      requires 2 + |data| + draw % 41 <= POOLED == |pool|
      modifies peers[id].cp
      ensures View() == old(View())
      ensures Counter(id) == Stepped(old(Counter(id)), true)
      ensures Carries(id, packet, data)
    {
      var cp := peers[id].cp;
      ghost var counter := cp.nonce;
      packet := cp.Encrypt(data, peers[id].user.shortID, salt, random, draw, pool);
      ghost var n := NonceAfter(counter, 1, random);
      NonceHoldsCounter((counter + 1) % TWO64, random);
      OpenedPacket(prim, cp.key, id, salt, n, data, pool[..draw % cp.MaxPad()]);
      RoutedPacket(prim, cp.key, id, salt, n, Inner(data, pool[..draw % cp.MaxPad()]));
    }

    /** The answer to a keep-alive: one byte, encrypted for the peer. */
    method Echo(id: u16, random: nat, draw: nat, pool: seq<byte>) returns (reply: seq<byte>)
      requires Valid() && id in peers && peers[id].cp != null && |pool| == POOLED
      modifies peers[id].cp
      ensures View() == old(View())
      ensures Counter(id) == Advanced(old(Counter(id)), KeepAlive)
      ensures Carries(id, reply, [1])
    {
      reply := EncryptFor(id, [1], random, draw, pool);
    }

    /** The TUN reader with a packet for dst. It panics between the locking and the unlocking of cpMu where there is no
        cipher context or the pooled buffer is too small. */
    method ReadTun(dst: string, data: seq<byte>, random: nat, draw: nat, pool: seq<byte>)
      returns (o: TunOutcome, packet: Option<seq<byte>>)
      requires Valid() && SharedObjects() && |pool| == POOLED
      modifies this`reader, peers.Values, Contexts()
      ensures Valid()
      ensures (View(), o) == if dst in ipToPeer
                             then TunStep(old(View()), ipToPeer[dst].user.shortID, 2 + |data| + draw % 41)
                             else (old(View()), NoOne)
      ensures packet.Some? <==> o.Sent?
      ensures packet.Some? ==> dst in ipToPeer && Carries(ipToPeer[dst].user.shortID, packet.value, data)
      ensures dst in ipToPeer ==>
                Counter(ipToPeer[dst].user.shortID) == Stepped(old(Counter(ipToPeer[dst].user.shortID)), o.Sent?)
    {
      if dst !in ipToPeer {
        return NoOne, None;
      }
      o, packet := SendTo(ipToPeer[dst].user.shortID, data, random, draw, pool);
    }

    method SendTo(id: u16, data: seq<byte>, random: nat, draw: nat, pool: seq<byte>)
      returns (o: TunOutcome, packet: Option<seq<byte>>)
      requires Valid() && id in peers && |pool| == POOLED
      modifies this`reader, peers[id], Contexts()
      ensures (View(), o) == TunStep(old(View()), id, 2 + |data| + draw % 41)
      ensures (packet.Some? <==> o.Sent?) && (packet.Some? ==> Carries(id, packet.value, data))
      ensures Counter(id) == Stepped(old(Counter(id)), o.Sent?)
    {
      packet := None;
      var p := peers[id];
      if p.writer.None? {
        return NoOne, None;
      }
      if p.held {
        SetReader(Blocked);
        return ReaderHung, None;
      }
      if p.cp == null || 2 + |data| + draw % 41 > POOLED {
        Hold(id);
        SetReader(Exited);
        return ReaderCrashed, None;
      }
      var enc := EncryptFor(id, data, random, draw, pool);
      return Sent, Some(enc);
    }

    method SetReader(end: Loop)
      requires Valid()
      modifies this`reader
      ensures View() == old(View()).(reader := end)
    {
      reader := end;
    }

    /** The bookkeeping for an opened packet. */
    method Admit(i: Input, data: seq<byte>) returns (o: Outcome)
      requires Valid() && |i.pkt.data| >= HEADER && i.pkt.shortID in peers
      modifies this`bloomCount, bloom.words, peers[i.pkt.shortID]
      ensures (View(), o) == Effect(old(View()), i, Verdict.Valid(data), Indices(ReplayKey(i.pkt.shortID, i.pkt.data)))
    {
      var id := i.pkt.shortID;
      ghost var s := View();
      var key := BloomKey(id, i.pkt.data[6..18]);
      Insert(key);
      ghost var s1 := View();
      assert s1 == WithBits(s, Indices(key));
      o := OutcomeOf(data, i.tunFails);
      var bytes := if o.Delivered? then |data| else 0;
      Receive(id, i.unix, bytes);
      assert View() == Seen(s1, id, i.unix, bytes);
      AdmittedEffect(s, i, data, Indices(key), bytes);
    }

    /** What processPacket does with an opened packet; a keep-alive is answered where the peer has a writer. */
    method Accept(i: Input, data: seq<byte>, random: nat, draw: nat, pool: seq<byte>) returns (o: Outcome, reply: Option<seq<byte>>)
      requires Valid() && |pool| == POOLED && |i.pkt.data| >= HEADER
      requires i.pkt.shortID in peers && peers[i.pkt.shortID].cp != null
      modifies this`bloomCount, bloom.words, peers[i.pkt.shortID], peers[i.pkt.shortID].cp
      ensures (View(), o) == Effect(old(View()), i, Verdict.Valid(data), Indices(ReplayKey(i.pkt.shortID, i.pkt.data)))
      ensures (reply.Some? <==> o.KeepAlive? && HasWriter(i.pkt.shortID)) && Answers(i.pkt.shortID, reply)
      ensures Counter(i.pkt.shortID) == Advanced(old(Counter(i.pkt.shortID)), o)
    {
      var id := i.pkt.shortID;
      ghost var n := Counter(id);
      o := Admit(i, data);
      assert Counter(id) == n;
      reply := None;
      if o.KeepAlive? {
        var echo := Echo(id, random, draw, pool);
        if peers[id].writer.Some? {
          reply := Some(echo);
        }
      }
      assert Counter(id) == Advanced(n, o);
    }

    /** processPacket once the verdict is known. */
    method Handle(i: Input, v: Verdict, random: nat, draw: nat, pool: seq<byte>) returns (o: Outcome, reply: Option<seq<byte>>)
      requires Valid() && |pool| == POOLED && i.pkt.shortID in peers
      requires v.Valid? ==> |i.pkt.data| >= HEADER && peers[i.pkt.shortID].cp != null
      modifies this`bloomCount, this`loop, drops, bloom.words, peers.Values, Contexts()
      ensures (View(), o) == Effect(old(View()), i, v, BitsFor(Host(), i.pkt.shortID, i.pkt.data))
      ensures (reply.Some? <==> o.KeepAlive? && HasWriter(i.pkt.shortID)) && Answers(i.pkt.shortID, reply)
      ensures Counter(i.pkt.shortID) == Advanced(old(Counter(i.pkt.shortID)), o)
    {
      reply := None;
      if v.Valid? {
        o, reply := Accept(i, v.data, random, draw, pool);
      } else if v.Panics? {
        SetLoop(Exited);
        o := Crashed;
      } else {
        o := RefusalOf(v);
        RefusedEffect(View(), i, v, BitsFor(Host(), i.pkt.shortID, i.pkt.data));
        Drop(o, i, i.t0, i.t1);
      }
    }

    /** processPacket from the locking of cpMu on. */
    method Enter(i: Input, v: Verdict, random: nat, draw: nat, pool: seq<byte>) returns (o: Outcome, reply: Option<seq<byte>>)
      requires Valid() && |pool| == POOLED && i.pkt.shortID in peers
      requires v.Valid? ==> |i.pkt.data| >= HEADER && peers[i.pkt.shortID].cp != null
      modifies this`bloomCount, this`loop, drops, bloom.words, peers.Values, Contexts()
      ensures (View(), o) == Pipeline.Locked(old(View()), i, v, BitsFor(Host(), i.pkt.shortID, i.pkt.data))
      ensures (reply.Some? <==> o.KeepAlive? && HasWriter(i.pkt.shortID)) && Answers(i.pkt.shortID, reply)
      ensures Counter(i.pkt.shortID) == Advanced(old(Counter(i.pkt.shortID)), o)
    {
      if peers[i.pkt.shortID].held {
        SetLoop(Blocked);
        return Hung, None;
      }
      o, reply := Handle(i, v, random, draw, pool);
    }

    /** Notes where the packet came from and examines it. */
    method Inspect(id: u16, w: Option<Writer>, packet: seq<byte>) returns (v: Verdict)
      requires Valid() && id in peers
      modifies peers[id]
      ensures View() == WithWriter(old(View()), id, w)
      ensures v == Judge(Host(), old(View()).bits, old(View()).peers[id].key, id, packet)
      ensures v.Valid? ==> |packet| >= HEADER && peers[id].cp != null
    {
      ghost var s := View();
      SetWriter(id, w);
      v := Examine(id, packet);
      assert View().bits == s.bits && View().peers[id].key == s.peers[id].key;
    }

    /** processPacket. i.tunFails and the clock readings in i are what the outside world answers. */
    method ProcessPacket(i: Input, random: nat, draw: nat, pool: seq<byte>) returns (o: Outcome, reply: Option<seq<byte>>)
      requires Valid() && |pool| == POOLED
      modifies this`bloomCount, this`loop, drops, bloom.words, peers.Values, Contexts()
      ensures Valid()
      ensures (View(), o) == Process(Host(), old(View()), i)
      ensures (reply.Some? <==> o.KeepAlive? && HasWriter(i.pkt.shortID)) && Answers(i.pkt.shortID, reply)
      ensures Counter(i.pkt.shortID) == Advanced(old(Counter(i.pkt.shortID)), o)
    {
      var id, packet := i.pkt.shortID, i.pkt.data;
      ghost var s := View();
      if id !in peers {
        Drop(NoPeer, i, i.t0, i.t1);
        return NoPeer, None;
      }
      var v := Inspect(id, i.writer, packet);
      o, reply := Enter(i, v, random, draw, pool);
      assert (View(), o) == Pipeline.Locked(WithWriter(s, id, i.writer), i, v, BitsFor(Host(), id, packet));
    }

    /** xhttpProcessPacket. A keep-alive is answered in the response body. */
    method XhttpProcessPacket(packet: seq<byte>, random: nat, draw: nat, pool: seq<byte>)
      returns (o: Outcome, reply: Option<seq<byte>>)
      requires Valid() && |pool| == POOLED
      modifies this`bloomCount, bloom.words, peers.Values, Contexts()
      ensures Valid()
      ensures (View(), o) == ProcessXhttp(Host(), old(View()), packet)
      ensures reply.Some? <==> o.KeepAlive?
      ensures reply.Some? ==> |packet| >= HEADER && Answers(Routed(salt, packet), reply)
      ensures |packet| >= HEADER ==> Counter(Routed(salt, packet)) == Advanced(old(Counter(Routed(salt, packet))), o)
    {
      if |packet| < 4 + 2 + 12 {
        return BadPacket, None;
      }
      var id := Routed(salt, packet);
      if id !in peers {
        return NoPeer, None;
      }
      ghost var v;
      v, o, reply := XhttpRouted(id, packet, random, draw, pool);
    }

    method XhttpRouted(id: u16, packet: seq<byte>, random: nat, draw: nat, pool: seq<byte>)
      returns (ghost v: Verdict, o: Outcome, reply: Option<seq<byte>>)
      requires Valid() && |pool| == POOLED && id in peers && |packet| >= HEADER
      modifies this`bloomCount, bloom.words, peers[id], Contexts()
      ensures v == Judge(Host(), old(View()).bits, old(View()).peers[id].key, id, packet)
      ensures (View(), o) == XhttpEffect(old(View()), id, v, Indices(ReplayKey(id, packet)))
      ensures (reply.Some? <==> o.KeepAlive?) && Answers(id, reply)
      ensures Counter(id) == Advanced(old(Counter(id)), o)
    {
      var verdict := Examine(id, packet);
      v := verdict;
      o, reply := XhttpHandle(id, packet, verdict, random, draw, pool);
    }

    method XhttpHandle(id: u16, packet: seq<byte>, v: Verdict, random: nat, draw: nat, pool: seq<byte>)
      returns (o: Outcome, reply: Option<seq<byte>>)
      requires Valid() && |pool| == POOLED && id in peers && |packet| >= HEADER && (v.Valid? ==> peers[id].cp != null)
      modifies this`bloomCount, bloom.words, peers[id], Contexts()
      ensures (View(), o) == XhttpEffect(old(View()), id, v, Indices(ReplayKey(id, packet)))
      ensures (reply.Some? <==> o.KeepAlive?) && Answers(id, reply)
      ensures Counter(id) == Advanced(old(Counter(id)), o)
    {
      if v.Repeated? {
        return Replay, None;
      }
      ghost var s, n, more := View(), Counter(id), Indices(ReplayKey(id, packet));
      Insert(BloomKey(id, packet[6..18]));
      ghost var s1 := View();
      assert Counter(id) == n && s1 == WithBits(s, more);
      o, reply := XhttpFinish(id, v, random, draw, pool);
      assert (View(), o) == XhttpRest(s1, id, v);
    }

    method XhttpFinish(id: u16, v: Verdict, random: nat, draw: nat, pool: seq<byte>)
      returns (o: Outcome, reply: Option<seq<byte>>)
      requires Valid() && |pool| == POOLED && id in peers && !v.Repeated? && (v.Valid? ==> peers[id].cp != null)
      modifies peers[id], Contexts()
      ensures (View(), o) == XhttpRest(old(View()), id, v)
      ensures (reply.Some? <==> o.KeepAlive?) && Answers(id, reply)
      ensures Counter(id) == Advanced(old(Counter(id)), o)
    {
      reply := None;
      if peers[id].held {
        return Hung, None;
      }
      match v
      case Panics =>
        Hold(id);
        o := Crashed;
      case Rejected(_) => o := BadPacket;
      case Valid(data) =>
        if |data| == 0 {
          var echo := Echo(id, random, draw, pool);
          reply := Some(echo);
          o := KeepAlive;
        } else {
          Receive(id, peers[id].lastSeen, |data|);
          o := Delivered(|data|);
        }
    }

    method ResetFilter()
      requires Valid()
      modifies this`bloomCount, bloom.words
      ensures View() == Reset(old(View()))
    {
      bloom.Reset();
      bloomCount := 0;
    }
  }

  function Stepped(nonce: u64, used: bool): u64 {
    if used then (nonce + 1) % TWO64 else nonce
  }

  /** A keep-alive uses up one nonce for its echo. */
  function Advanced(nonce: u64, o: Outcome): u64 {
    Stepped(nonce, o.KeepAlive?)
  }

  function RefusalOf(v: Verdict): Outcome {
    if v.Repeated? then Replay else if v == Rejected(HmacMismatch) then BadMac else BadPacket
  }

  lemma RefusedEffect(s: Srv, i: Input, v: Verdict, more: set<nat>)
    requires i.pkt.shortID in s.peers && (v.Repeated? || v.Rejected?)
    ensures Effect(s, i, v, more) == Dropped(s, RefusalOf(v), i)
  {
  }

  lemma DroppedAre(s: Srv, v: Srv, o: Outcome, i: Input)
    requires v.peers == s.peers && v.bits == s.bits && v.bloomCount == s.bloomCount && v.loop == s.loop && v.reader == s.reader
    requires var c := Plus(s.drops, Cause(o));
             if i.t0 - s.lastDropLogAt < LOG_INTERVAL
             then v.drops == c && v.lastDropLogAt == s.lastDropLogAt && v.log == s.log
             else v.drops == NO_DROPS && v.lastDropLogAt == i.t1 && v.log == if Total(c) > 0 then s.log + [c] else s.log
    ensures v == Dropped(s, o, i).0
  {
  }

  lemma AdmittedEffect(s: Srv, i: Input, data: seq<byte>, more: set<nat>, bytes: nat)
    requires i.pkt.shortID in s.peers && bytes == if OutcomeOf(data, i.tunFails).Delivered? then |data| else 0
    ensures Effect(s, i, Verdict.Valid(data), more)
         == (Seen(WithBits(s, more), i.pkt.shortID, i.unix, bytes), OutcomeOf(data, i.tunFails))
  {
  }

  /** The first i users have the nonces they are to start with. */
  ghost predicate StartAs(nonces: map<u16, u64>, cfg: seq<User>, starts: seq<u64>, i: nat)
    requires i <= |cfg| == |starts|
  {
    forall j :: 0 <= j < i ==> cfg[j].shortID in nonces && nonces[cfg[j].shortID] == starts[j]
  }

  lemma StartNext(nonces: map<u16, u64>, cfg: seq<User>, starts: seq<u64>, i: nat)
    requires i < |cfg| == |starts| && StartAs(nonces, cfg, starts, i) && cfg[i].shortID !in nonces
    ensures StartAs(nonces[cfg[i].shortID := starts[i]], cfg, starts, i + 1)
  {
  }

  lemma {:induction false} LoadStops(cfg: seq<User>, i: nat)
    requires i <= |cfg| && Loaded(cfg[..i]).Err?
    ensures Loaded(cfg) == Err(Loaded(cfg[..i]).error)
    decreases |cfg| - i
  {
    if i < |cfg| {
      assert cfg[..i + 1][..i] == cfg[..i];
      LoadStops(cfg, i + 1);
    } else {
      assert cfg[..i] == cfg;
    }
  }
}
