/** Shared packet sessions: entries that outlive the mux connection they were opened on.

    The steps are those of `handleStatusNew` for a frame with a global id, `Session.Close`,
    `SessionManager.Close`, and the reaper, each taken as atomic.  Session and entry objects are
    numbered; an object that is no longer referenced simply stays. */
module Xudp {
  import opened Octets

  type Gid = Bytes

  datatype Status = Initializing | Active | Expiring

  datatype Session = Session(manager: nat, id: uint16, closed: bool, xudp: Option<nat>)

  datatype Manager = Manager(closed: bool, table: map<uint16, nat>)

  /** `XUDP`. */
  datatype Entry = Entry(gid: Gid, status: Status, expire: int, mux: nat)

  datatype State = State(sessions: map<nat, Session>, managers: map<nat, Manager>, entries: map<nat, Entry>,
                         global: map<Gid, nat>, now: int)

  const INITIAL := State(map[], map[], map[], map[], 0)

  /** An expiring entry is kept this long. */
  const MINUTE := 60

  // ----- the steps

  /** `Session.Close`: closing a closed session does nothing; the entry of an active one starts to expire. */
  function CloseSession(s: State, k: nat): State
    requires k in s.sessions && s.sessions[k].manager in s.managers
    requires s.sessions[k].xudp.Some? ==> s.sessions[k].xudp.value in s.entries
  {
    var c := s.sessions[k];
    if c.closed then s
    else
      s.(sessions := s.sessions[k := c.(closed := true)],
         entries := if c.xudp.Some? then s.entries[c.xudp.value := Detach(s.entries[c.xudp.value], s.now)] else s.entries,
         managers := s.managers[c.manager := Remove(s.managers[c.manager], c.id)])
  }

  function Detach(e: Entry, now: int): Entry {
    if e.status == Active then e.(status := Expiring, expire := now + MINUTE) else e
  }

  /** `SessionManager.Remove`. */
  function Remove(m: Manager, id: uint16): Manager {
    if m.closed then m else m.(table := m.table - {id})
  }

  /** `SessionManager.Close`: every session in the table is closed, and the table goes away. */
  function CloseManager(s: State, m: nat): State
    requires m in s.managers
  {
    if s.managers[m].closed then s
    else
      var gone := s.managers[m].table.Values;
      s.(sessions := map k | k in s.sessions :: if k in gone then s.sessions[k].(closed := true) else s.sessions[k],
         entries := map x | x in s.entries ::
                      if exists k :: k in gone && k in s.sessions && !s.sessions[k].closed && s.sessions[k].xudp == Some(x)
                      then Detach(s.entries[x], s.now) else s.entries[x],
         managers := s.managers[m := Manager(true, map[])])
  }

  /** The session of an entry that is attached to a manager: registered, unless the manager has closed,
      in which case it is closed again at once. */
  function Register(s: State, x: nat, k: nat, m: nat, id: uint16): State
    requires m in s.managers && x in s.entries
  {
    var e := s.entries[x].(mux := k, status := Active);
    if s.managers[m].closed then
      s.(sessions := s.sessions[k := Session(m, id, true, Some(x))], entries := s.entries[x := Detach(e, s.now)])
    else
      s.(sessions := s.sessions[k := Session(m, id, false, Some(x))], entries := s.entries[x := e],
         managers := s.managers[m := Manager(false, s.managers[m].table[id := k])])
  }

  /** Attach a packet session with a global id.  An entry that exists is taken over: its old session is
      closed first.  `usable` says that the old connection still accepts data, `dispatched` that
      opening a new one works; `x` and `k` number the objects created. */
  function Attach(s: State, gid: Gid, m: nat, id: uint16, usable: bool, dispatched: bool, x: nat, k: nat): State
    requires m in s.managers && Valid(s)
  {
    if gid in s.global then
      var y := s.global[gid];
      if s.entries[y].status == Initializing then s
      else
        var s1 := s.(entries := s.entries[y := s.entries[y].(status := Initializing)]);
        var s2 := CloseSession(s1, s.entries[y].mux);
        if usable || dispatched then Register(s2, y, k, m, id) else s2.(global := s2.global - {gid})
    else if dispatched then
      Register(s.(entries := s.entries[x := Entry(gid, Initializing, 0, k)], global := s.global[gid := x]), x, k, m, id)
    else s.(entries := s.entries[x := Entry(gid, Initializing, 0, k)])
  }

  /** A session without a global id. */
  function AddSession(s: State, m: nat, id: uint16, k: nat): State
    requires m in s.managers
  {
    if s.managers[m].closed then s.(sessions := s.sessions[k := Session(m, id, true, None)])
    else
      s.(sessions := s.sessions[k := Session(m, id, false, None)],
         managers := s.managers[m := Manager(false, s.managers[m].table[id := k])])
  }

  predicate Expired(s: State, gid: Gid)
    requires gid in s.global && s.global[gid] in s.entries
  {
    s.entries[s.global[gid]].status == Expiring && s.now > s.entries[s.global[gid]].expire
  }

  /** The reaper. */
  function Reap(s: State): State
    requires Valid(s)
  {
    s.(global := map g | g in s.global && !Expired(s, g) :: s.global[g])
  }

  /** References are defined. */
  ghost predicate Valid(s: State) {
    (forall g :: g in s.global ==> s.global[g] in s.entries && s.entries[s.global[g]].mux in s.sessions)
    && (forall k :: k in s.sessions ==> s.sessions[k].manager in s.managers)
    && (forall k :: k in s.sessions && s.sessions[k].xudp.Some? ==> s.sessions[k].xudp.value in s.entries)
  }

  datatype Step =
    | Tick(now: int)
    | Open(m: nat)
    | Add(m: nat, id: uint16, k: nat)
    | AttachTo(gid: Gid, m: nat, id: uint16, usable: bool, dispatched: bool, x: nat, k: nat)
    | Close(k: nat)
    | CloseAll(m: nat)
    | Sweep

  /** What the code lets happen: time does not go back, and new objects are new. */
  ghost predicate Feasible(s: State, t: Step) {
    match t
    case Tick(n) => n >= s.now
    case Open(m) => m !in s.managers
    case Add(m, _, k) => m in s.managers && k !in s.sessions
    case AttachTo(_, m, _, _, _, x, k) => m in s.managers && k !in s.sessions && x !in s.entries
    case Close(k) => k in s.sessions
    case CloseAll(m) => m in s.managers
    case Sweep => true
  }

  /** The peer does not register a session under an id that another one uses on the same connection. */
  ghost predicate IdsFree(s: State, t: Step)
    requires Feasible(s, t)
  {
    match t
    case Add(m, id, _) => id !in s.managers[m].table
    case AttachTo(gid, m, id, usable, dispatched, _, _) =>
      IdFree(s, gid, m, id) || !(dispatched || (usable && gid in s.global))
    case _ => true
  }

  ghost predicate Enabled(s: State, t: Step) {
    Feasible(s, t) && IdsFree(s, t)
  }

  /** The id is free on the connection, or used there by the very session being taken over. */
  ghost predicate IdFree(s: State, gid: Gid, m: nat, id: uint16)
    requires m in s.managers
  {
    id !in s.managers[m].table ||
    (gid in s.global && s.global[gid] in s.entries && s.managers[m].table[id] == s.entries[s.global[gid]].mux)
  }

  ghost function Apply(s: State, t: Step): State
    requires Inv(s) && Feasible(s, t)
  {
    match t
    case Tick(n) => s.(now := n)
    case Open(m) => s.(managers := s.managers[m := Manager(false, map[])])
    case Add(m, id, k) => AddSession(s, m, id, k)
    case AttachTo(gid, m, id, u, d, x, k) => Attach(s, gid, m, id, u, d, x, k)
    case Close(k) => CloseSession(s, k)
    case CloseAll(m) => CloseManager(s, m)
    case Sweep => Reap(s)
  }

  // ----- the invariant

  /** An open session is registered with its manager, under its own id. */
  ghost predicate Registered(s: State, k: nat)
    requires k in s.sessions && s.sessions[k].manager in s.managers
  {
    var c := s.sessions[k];
    var m := s.managers[c.manager];
    !m.closed && c.id in m.table && m.table[c.id] == k
  }

  /** A mapped entry is active, with its session open, or expiring, with its session closed. */
  ghost predicate EntryOk(s: State, g: Gid)
    requires g in s.global && s.global[g] in s.entries && s.entries[s.global[g]].mux in s.sessions
  {
    var x := s.global[g];
    var e := s.entries[x];
    e.gid == g && s.sessions[e.mux].xudp == Some(x)
    && ((e.status == Active && !s.sessions[e.mux].closed)
        || (e.status == Expiring && s.sessions[e.mux].closed))
  }

  ghost predicate Inv(s: State) {
    Valid(s) && InvBut(s, None)
  }

  /** The invariant, except for one entry that is being taken over. */
  ghost predicate InvBut(s: State, but: Option<Gid>)
    requires Valid(s)
  {
    Tables(s) && Current(s) && forall g :: g in s.global && Some(g) != but ==> EntryOk(s, g)
  }

  /** Tables and open sessions agree. */
  ghost predicate Tables(s: State)
    requires Valid(s)
  {
    (forall k :: k in s.sessions && !s.sessions[k].closed ==> Registered(s, k))
    && (forall m, id :: m in s.managers && id in s.managers[m].table ==> TableOk(s, m, id))
  }

  /** Of the sessions of an entry only the current one can be open. */
  ghost predicate Current(s: State)
    requires Valid(s)
  {
    forall k :: k in s.sessions && !s.sessions[k].closed && s.sessions[k].xudp.Some? ==>
      s.entries[s.sessions[k].xudp.value].mux == k
  }

  /** A table holds open sessions of that manager, each under its id. */
  ghost predicate TableOk(s: State, m: nat, id: uint16)
    requires m in s.managers && id in s.managers[m].table
  {
    var k := s.managers[m].table[id];
    k in s.sessions && !s.sessions[k].closed && s.sessions[k].manager == m && s.sessions[k].id == id
  }

  // ----- every step keeps the invariant

  lemma CloseSessionKeeps(s: State, k: nat, but: Option<Gid>)
    requires Valid(s) && InvBut(s, but) && k in s.sessions
    ensures var t := CloseSession(s, k);
            Valid(t) && InvBut(t, but) && k in t.sessions && t.sessions[k].closed
            && t.sessions.Keys == s.sessions.Keys && t.entries.Keys == s.entries.Keys && t.global == s.global
            && t.managers.Keys == s.managers.Keys
  {
    var t := CloseSession(s, k);
    if !s.sessions[k].closed {
      assert Registered(s, k);
      CloseSessionTables(s, k);
      forall g | g in t.global && Some(g) != but
        ensures EntryOk(t, g)
      {
        assert EntryOk(s, g);
      }
    }
  }

  lemma CloseSessionTables(s: State, k: nat)
    requires Valid(s) && Tables(s) && k in s.sessions && !s.sessions[k].closed
    ensures Valid(CloseSession(s, k)) && Tables(CloseSession(s, k))
  {
    var t := CloseSession(s, k);
    assert Registered(s, k);
    forall j | j in t.sessions && !t.sessions[j].closed
      ensures Registered(t, j)
    {
      assert Registered(s, j);
    }
    forall m, id | m in t.managers && id in t.managers[m].table
      ensures TableOk(t, m, id)
    {
      assert TableOk(s, m, id);
    }
  }

  /** The table of a manager holds exactly its open sessions. */
  lemma TableIsOpenSessions(s: State, m: nat)
    requires Valid(s) && Tables(s) && m in s.managers
    ensures forall k :: k in s.managers[m].table.Values <==>
              k in s.sessions && !s.sessions[k].closed && s.sessions[k].manager == m
  {
  }

  lemma CloseManagerTables(s: State, m: nat)
    requires Valid(s) && Tables(s) && m in s.managers && !s.managers[m].closed
    ensures Valid(CloseManager(s, m)) && Tables(CloseManager(s, m))
  {
    var t := CloseManager(s, m);
    TableIsOpenSessions(s, m);
    forall j | j in t.sessions && !t.sessions[j].closed
      ensures Registered(t, j)
    {
      assert Registered(s, j);
    }
    forall n, id | n in t.managers && id in t.managers[n].table
      ensures TableOk(t, n, id)
    {
      assert TableOk(s, n, id);
    }
  }

  lemma CloseManagerKeeps(s: State, m: nat)
    requires Inv(s) && m in s.managers
    ensures Inv(CloseManager(s, m))
  {
    hide Tables;
    var t := CloseManager(s, m);
    if !s.managers[m].closed {
      CloseManagerTables(s, m);
      TableIsOpenSessions(s, m);
      forall g | g in t.global
        ensures EntryOk(t, g)
      {
        assert EntryOk(s, g);
      }
    }
  }

  lemma RegisterKeeps(s: State, g: Gid, x: nat, k: nat, m: nat, id: uint16)
    requires Valid(s.(global := s.global - {g})) && InvBut(s.(global := s.global - {g}), None)
    requires g in s.global && s.global[g] == x && x in s.entries && s.entries[x].gid == g
    requires forall h :: h in s.global && s.global[h] == x ==> h == g
    requires m in s.managers && k !in s.sessions && id !in s.managers[m].table
    requires forall j :: j in s.sessions && !s.sessions[j].closed ==> s.sessions[j].xudp != Some(x)
    ensures Inv(Register(s, x, k, m, id))
  {
    hide Tables, Current, Registered, TableOk;
    var t, s0 := Register(s, x, k, m, id), s.(global := s.global - {g});
    assert forall h :: h in t.global ==> h == g || (h in s0.global && s0.global[h] == t.global[h]);
    RegisterTables(s, s0, x, k, m, id);
    RegisterCurrent(s, s0, x, k, m, id);
    forall h | h in t.global
      ensures EntryOk(t, h)
    {
      if h != g {
        assert EntryOk(s0, h);
      }
    }
  }

  lemma RegisterCurrent(s: State, s0: State, x: nat, k: nat, m: nat, id: uint16)
    requires Valid(s0) && Current(s0) && s0 == s.(global := s0.global) && x in s.entries
    requires m in s.managers && k !in s.sessions && Valid(Register(s, x, k, m, id))
    requires forall j :: j in s.sessions && !s.sessions[j].closed ==> s.sessions[j].xudp != Some(x)
    ensures Current(Register(s, x, k, m, id))
  {
  }

  lemma RegisterTables(s: State, s0: State, x: nat, k: nat, m: nat, id: uint16)
    requires Valid(s0) && Tables(s0) && s0 == s.(global := s0.global) && x in s.entries
    requires m in s.managers && k !in s.sessions && id !in s.managers[m].table
    requires Valid(Register(s, x, k, m, id))
    ensures Tables(Register(s, x, k, m, id))
  {
    var t := Register(s, x, k, m, id);
    forall j | j in t.sessions && !t.sessions[j].closed
      ensures Registered(t, j)
    {
      if j != k {
        assert Registered(s0, j);
      }
    }
    forall n, i | n in t.managers && i in t.managers[n].table
      ensures TableOk(t, n, i)
    {
      if n != m || i != id {
        assert TableOk(s0, n, i);
      }
    }
  }

  lemma AddSessionKeeps(s: State, m: nat, id: uint16, k: nat)
    requires Inv(s) && m in s.managers && k !in s.sessions && id !in s.managers[m].table
    ensures Inv(AddSession(s, m, id, k))
  {
    var t := AddSession(s, m, id, k);
    forall j | j in t.sessions && !t.sessions[j].closed
      ensures Registered(t, j)
    {
      if j != k {
        assert Registered(s, j);
      }
    }
    forall n, i | n in t.managers && i in t.managers[n].table
      ensures TableOk(t, n, i)
    {
      if n != m || i != id {
        assert TableOk(s, n, i);
      }
    }
    forall h | h in t.global
      ensures EntryOk(t, h)
    {
      assert EntryOk(s, h);
    }
  }

  /** Dropping entries from the global map keeps the invariant for the rest. */
  lemma ForgetKeeps(s: State, global: map<Gid, nat>, but: Option<Gid>)
    requires Valid(s) && InvBut(s, but) && (forall g :: g in global ==> g in s.global && global[g] == s.global[g])
    requires but.Some? ==> but.value !in global
    ensures Inv(s.(global := global))
  {
    var t := s.(global := global);
    forall k | k in t.sessions && !t.sessions[k].closed
      ensures Registered(t, k)
    {
      assert Registered(s, k);
    }
    forall m, id | m in t.managers && id in t.managers[m].table
      ensures TableOk(t, m, id)
    {
      assert TableOk(s, m, id);
    }
    forall g | g in global
      ensures EntryOk(t, g)
    {
      assert EntryOk(s, g);
    }
  }

  /** Marking the entry of `gid` as being taken over leaves everything else. */
  lemma MarkKeeps(s: State, gid: Gid)
    requires Inv(s) && gid in s.global
    ensures var y := s.global[gid];
            var t := s.(entries := s.entries[y := s.entries[y].(status := Initializing)]);
            Valid(t) && InvBut(t, Some(gid))
  {
    var y := s.global[gid];
    var t := s.(entries := s.entries[y := s.entries[y].(status := Initializing)]);
    assert EntryOk(s, gid);
    forall k | k in t.sessions && !t.sessions[k].closed
      ensures Registered(t, k)
    {
      assert Registered(s, k);
    }
    forall m, id | m in t.managers && id in t.managers[m].table
      ensures TableOk(t, m, id)
    {
      assert TableOk(s, m, id);
    }
    forall g | g in t.global && Some(g) != Some(gid)
      ensures EntryOk(t, g)
    {
      assert EntryOk(s, g);
    }
  }

  lemma TakeOverKeeps(s: State, gid: Gid, m: nat, id: uint16, usable: bool, dispatched: bool, x: nat, k: nat)
    requires Inv(s) && gid in s.global && m in s.managers && k !in s.sessions
    ensures Inv(Attach(s, gid, m, id, usable, dispatched, x, k)) <==> IdFree(s, gid, m, id) || !(usable || dispatched)
  {
    var y := s.global[gid];
    var previous := s.entries[y].mux;
    assert EntryOk(s, gid);
    var s1 := s.(entries := s.entries[y := s.entries[y].(status := Initializing)]);
    MarkKeeps(s, gid);
    CloseSessionKeeps(s1, previous, Some(gid));
    var s2 := CloseSession(s1, previous);
    assert s2.global == s.global && s2.entries[y].gid == gid;
    ForgetKeeps(s2, s2.global - {gid}, Some(gid));
    if usable || dispatched {
      forall h | h in s2.global && s2.global[h] == y
        ensures h == gid
      {
        assert EntryOk(s, h);
      }
      forall j | j in s2.sessions && !s2.sessions[j].closed
        ensures s2.sessions[j].xudp != Some(y)
      {
        OldIsClosed(s1, s2, previous, y, j);
      }
      IdIsFree(s, s1, gid, m, id);
      if IdFree(s, gid, m, id) {
        RegisterKeeps(s2, gid, y, k, m, id);
      } else {
        assert TableOk(s2, m, id);
        RegisterBreaks(s2, y, k, m, id);
      }
    }
  }

  lemma OldIsClosed(s1: State, s2: State, previous: nat, y: nat, j: nat)
    requires Valid(s1) && Current(s1) && previous in s1.sessions && s2 == CloseSession(s1, previous)
    requires y in s1.entries && s1.entries[y].mux == previous
    requires j in s2.sessions && !s2.sessions[j].closed
    ensures s2.sessions[j].xudp != Some(y)
  {
  }

  lemma IdIsFree(s: State, s1: State, gid: Gid, m: nat, id: uint16)
    requires Inv(s) && gid in s.global && m in s.managers
    requires var y := s.global[gid]; s1 == s.(entries := s.entries[y := s.entries[y].(status := Initializing)])
    ensures var previous := s.entries[s.global[gid]].mux;
            previous in s1.sessions && Valid(s1)
            && (id !in CloseSession(s1, previous).managers[m].table <==> IdFree(s, gid, m, id))
  {
    var previous := s.entries[s.global[gid]].mux;
    if id in s.managers[m].table {
      assert TableOk(s, m, id);
    }
    if !s.sessions[previous].closed {
      assert Registered(s, previous);
    }
  }

  /** A session registered under a used id takes the place of another open one. */
  lemma RegisterBreaks(s: State, x: nat, k: nat, m: nat, id: uint16)
    requires m in s.managers && x in s.entries && k !in s.sessions && id in s.managers[m].table && TableOk(s, m, id)
    requires !s.managers[m].closed
    ensures !Inv(Register(s, x, k, m, id))
  {
    hide EntryOk, Current;
    var j, t := s.managers[m].table[id], Register(s, x, k, m, id);
    assert j in t.sessions && !t.sessions[j].closed;
    if Valid(t) {
      assert !Registered(t, j);
    }
  }

  /** The table of a closed manager is empty. */
  lemma OpenTable(s: State, m: nat, id: uint16)
    requires Valid(s) && Tables(s) && m in s.managers && id in s.managers[m].table
    ensures !s.managers[m].closed
  {
    assert TableOk(s, m, id);
    assert Registered(s, s.managers[m].table[id]);
  }

  /** Attaching keeps the invariant exactly if the id is free or nothing gets registered. */
  lemma AttachExactly(s: State, gid: Gid, m: nat, id: uint16, usable: bool, dispatched: bool, x: nat, k: nat)
    requires Inv(s) && m in s.managers && k !in s.sessions && x !in s.entries
    ensures Inv(Attach(s, gid, m, id, usable, dispatched, x, k))
       <==> IdFree(s, gid, m, id) || !(dispatched || (usable && gid in s.global))
  {
    if gid in s.global {
      TakeOverKeeps(s, gid, m, id, usable, dispatched, x, k);
    } else {
      var e := Entry(gid, Initializing, 0, k);
      var s0 := s.(entries := s.entries[x := e]);
      NewEntryKeeps(s, x, e);
      if dispatched {
        var s1 := s0.(global := s.global[gid := x]);
        assert s1.(global := s1.global - {gid}) == s0;
        if IdFree(s, gid, m, id) {
          RegisterKeeps(s1, gid, x, k, m, id);
        } else {
          OpenTable(s0, m, id);
          assert TableOk(s0, m, id) && TableOk(s1, m, id);
          RegisterBreaks(s1, x, k, m, id);
        }
      }
    }
  }

  /** So does a session without a global id. */
  lemma AddExactly(s: State, m: nat, id: uint16, k: nat)
    requires Inv(s) && m in s.managers && k !in s.sessions
    ensures Inv(AddSession(s, m, id, k)) <==> id !in s.managers[m].table
  {
    hide EntryOk, Current;
    if id in s.managers[m].table {
      OpenTable(s, m, id);
      var j, t := s.managers[m].table[id], AddSession(s, m, id, k);
      assert TableOk(s, m, id);
      assert t.sessions[j] == s.sessions[j] && !Registered(t, j);
    } else {
      AddSessionKeeps(s, m, id, k);
    }
  }

  /** What attaching does.  With a destination, old or new, the id is mapped to an entry whose session is the
      new one, registered and active, or closed at once and expiring if the connection has gone; the
      session before it is closed.  Without one the id is not mapped. */
  lemma AttachOutcome(s: State, gid: Gid, m: nat, id: uint16, usable: bool, dispatched: bool, x: nat, k: nat)
    requires Inv(s) && m in s.managers && k !in s.sessions && x !in s.entries
    ensures var t := Attach(s, gid, m, id, usable, dispatched, x, k);
            var y := if gid in s.global then s.global[gid] else x;
            if dispatched || (usable && gid in s.global) then
              gid in t.global && t.global[gid] == y && y in t.entries && t.entries[y].mux == k && k in t.sessions
              && t.sessions[k] == Session(m, id, s.managers[m].closed, Some(y))
              && t.entries[y].status == (if s.managers[m].closed then Expiring else Active)
              && (!s.managers[m].closed ==> id in t.managers[m].table && t.managers[m].table[id] == k)
            else gid !in t.global && k !in t.sessions
    ensures gid in s.global ==>
              var t := Attach(s, gid, m, id, usable, dispatched, x, k);
              var j := s.entries[s.global[gid]].mux; j in t.sessions && t.sessions[j].closed
    ensures forall h :: h != gid ==>
              var t := Attach(s, gid, m, id, usable, dispatched, x, k);
              (h in t.global <==> h in s.global) && (h in s.global ==> t.global[h] == s.global[h])
  {
    hide Tables, Current;
    if gid in s.global {
      assert EntryOk(s, gid);
    }
  }

  lemma NewEntryKeeps(s: State, x: nat, e: Entry)
    requires Inv(s) && x !in s.entries
    ensures Inv(s.(entries := s.entries[x := e]))
  {
    var t := s.(entries := s.entries[x := e]);
    forall k | k in t.sessions && !t.sessions[k].closed
      ensures Registered(t, k)
    {
      assert Registered(s, k);
    }
    forall m, id | m in t.managers && id in t.managers[m].table
      ensures TableOk(t, m, id)
    {
      assert TableOk(s, m, id);
    }
    forall g | g in t.global
      ensures EntryOk(t, g)
    {
      assert EntryOk(s, g);
    }
  }

  lemma TickOpenKeeps(s: State, t: State)
    requires Inv(s) && t.now >= s.now && t.sessions == s.sessions && t.entries == s.entries && t.global == s.global
    requires t.managers == s.managers
          || exists m: nat :: m !in s.managers && t.managers == s.managers[m := Manager(false, map[])]
    ensures Inv(t)
  {
    forall k | k in t.sessions && !t.sessions[k].closed
      ensures Registered(t, k)
    {
      assert Registered(s, k);
    }
    forall m, id | m in t.managers && id in t.managers[m].table
      ensures TableOk(t, m, id)
    {
      assert TableOk(s, m, id);
    }
    forall g | g in t.global
      ensures EntryOk(t, g)
    {
      assert EntryOk(s, g);
    }
  }

  /** A step keeps the invariant exactly if it leaves the ids in use alone. */
  lemma ApplyExactly(s: State, t: Step)
    requires Inv(s) && Feasible(s, t)
    ensures Inv(Apply(s, t)) <==> IdsFree(s, t)
  {
    hide Inv, InvBut, Valid;
    match t {
      case Tick(_) => TickOpenKeeps(s, Apply(s, t));
      case Open(_) => TickOpenKeeps(s, Apply(s, t));
      case Add(m, id, k) => AddExactly(s, m, id, k);
      case AttachTo(gid, m, id, u, d, x, k) => AttachExactly(s, gid, m, id, u, d, x, k);
      case Close(k) => CloseKeeps(s, k);
      case CloseAll(m) => CloseManagerKeeps(s, m);
      case Sweep => SweepKeeps(s);
    }
  }

  lemma CloseKeeps(s: State, k: nat)
    requires Inv(s) && k in s.sessions
    ensures Inv(CloseSession(s, k))
  {
    CloseSessionKeeps(s, k, None);
  }

  lemma SweepKeeps(s: State)
    requires Inv(s)
    ensures Inv(Reap(s))
  {
    ForgetKeeps(s, Reap(s).global, None);
  }

  // ----- whole runs

  /** The run is possible, each step in the state the earlier ones lead to. */
  ghost predicate Possible(steps: seq<Step>)
    decreases |steps|, 0
  {
    steps == [] ||
    (Possible(steps[..|steps| - 1]) && Enabled(Reached(steps[..|steps| - 1]), steps[|steps| - 1]))
  }

  ghost function Reached(steps: seq<Step>): (s: State)
    requires Possible(steps)
    ensures Inv(s)
    decreases |steps|, 1
  {
    if steps == [] then INITIAL
    else
      var s := Reached(steps[..|steps| - 1]);
      ApplyExactly(s, steps[|steps| - 1]);
      Apply(s, steps[|steps| - 1])
  }

  /** In every reachable state a mapped entry is active, with its current session open and registered
      in its connection, or expiring, with that session closed; it is never half initialized. */
  lemma Lifecycle(steps: seq<Step>, g: Gid)
    requires Possible(steps) && g in Reached(steps).global
    ensures var s := Reached(steps);
            var x := s.global[g];
            x in s.entries && s.entries[x].mux in s.sessions && s.sessions[s.entries[x].mux].manager in s.managers
            && s.entries[x].gid == g && s.entries[x].status != Initializing
            && (s.entries[x].status == Active <==> !s.sessions[s.entries[x].mux].closed)
            && (s.entries[x].status == Active ==> Registered(s, s.entries[x].mux))
  {
    hide Reached;
    var s := Reached(steps);
    assert EntryOk(s, g);
  }

  // ----- when an entry expires

  predicate Closed(s: State, k: nat) {
    k in s.sessions && s.sessions[k].closed
  }

  lemma ClosedStays(s: State, t: Step, k: nat)
    requires Inv(s) && Feasible(s, t) && Closed(s, k)
    ensures Closed(Apply(s, t), k)
  {
    hide Tables, Current;
  }

  /** From `s` to `s'`: a mapped entry with a closed session keeps its time, if the session was closed
      before, and otherwise expires 60 seconds from now. */
  ghost predicate Expires(s: State, s': State, g: Gid)
    requires Valid(s) && Valid(s') && g in s'.global
  {
    var e := s'.entries[s'.global[g]];
    Closed(s', e.mux) ==>
      if Closed(s, e.mux)
      then g in s.global && s.entries[s.global[g]].mux == e.mux && s.entries[s.global[g]].expire == e.expire
      else e.expire == s.now + 60
  }

  lemma StepExpires(s: State, t: Step, g: Gid)
    requires Inv(s) && Enabled(s, t) && g in Apply(s, t).global
    ensures Inv(Apply(s, t)) && Expires(s, Apply(s, t), g)
  {
    hide Tables, Current, EntryOk, Expires;
    ApplyExactly(s, t);
    match t {
      case AttachTo(gid, m, id, u, d, x, k) => AttachExpires(s, gid, m, id, u, d, x, k, g);
      case Close(k) => CloseExpires(s, k, g);
      case CloseAll(m) => CloseAllExpires(s, m, g);
      case _ => OtherExpires(s, t, g);
    }
  }

  lemma OtherExpires(s: State, t: Step, g: Gid)
    requires Inv(s) && Feasible(s, t) && (t.Tick? || t.Open? || t.Add? || t.Sweep?)
    requires Valid(Apply(s, t)) && g in Apply(s, t).global
    ensures Expires(s, Apply(s, t), g)
  {
    hide Tables, Current, EntryOk;
  }

  lemma CloseExpires(s: State, k: nat, g: Gid)
    requires Inv(s) && k in s.sessions && Valid(CloseSession(s, k)) && g in CloseSession(s, k).global
    ensures Expires(s, CloseSession(s, k), g)
  {
    hide Tables;
    assert EntryOk(s, g);
  }

  lemma CloseAllExpires(s: State, m: nat, g: Gid)
    requires Inv(s) && m in s.managers && Valid(CloseManager(s, m)) && g in CloseManager(s, m).global
    ensures Expires(s, CloseManager(s, m), g)
  {
    TableIsOpenSessions(s, m);
    hide Tables;
    assert EntryOk(s, g);
  }

  lemma AttachExpires(s: State, gid: Gid, m: nat, id: uint16, usable: bool, dispatched: bool, x: nat, k: nat, g: Gid)
    requires Inv(s) && m in s.managers && k !in s.sessions && x !in s.entries
    requires Valid(Attach(s, gid, m, id, usable, dispatched, x, k))
    requires g in Attach(s, gid, m, id, usable, dispatched, x, k).global
    ensures Expires(s, Attach(s, gid, m, id, usable, dispatched, x, k), g)
  {
    hide Tables, Current, EntryOk, InvBut, Attach;
    AttachOutcome(s, gid, m, id, usable, dispatched, x, k);
    if g == gid {
      if s.managers[m].closed {
        AttachedExpires(s, gid, m, id, usable, dispatched, x, k);
      }
    } else {
      AttachLeaves(s, gid, m, id, usable, dispatched, x, k, g);
    }
  }

  lemma AttachedExpires(s: State, gid: Gid, m: nat, id: uint16, usable: bool, dispatched: bool, x: nat, k: nat)
    requires Inv(s) && m in s.managers && k !in s.sessions && x !in s.entries && s.managers[m].closed
    requires dispatched || (usable && gid in s.global)
    ensures var t := Attach(s, gid, m, id, usable, dispatched, x, k);
            var y := if gid in s.global then s.global[gid] else x;
            y in t.entries && t.entries[y].expire == s.now + 60
  {
    hide Tables, Current;
    if gid in s.global {
      assert EntryOk(s, gid);
    }
  }

  /** Other entries, and their sessions, are left alone. */
  lemma AttachLeaves(s: State, gid: Gid, m: nat, id: uint16, usable: bool, dispatched: bool, x: nat, k: nat, g: Gid)
    requires Inv(s) && m in s.managers && k !in s.sessions && x !in s.entries && g in s.global && g != gid
    ensures var t, y := Attach(s, gid, m, id, usable, dispatched, x, k), s.global[g];
            y in t.entries && t.entries[y] == s.entries[y] && s.entries[y].mux in t.sessions
            && t.sessions[s.entries[y].mux] == s.sessions[s.entries[y].mux]
  {
    hide Tables, Current;
    assert EntryOk(s, g);
    if gid in s.global {
      assert EntryOk(s, gid);
    }
  }

  /** Step `i` is the one at which the session becomes closed. */
  ghost predicate ClosedBy(steps: seq<Step>, k: nat, i: nat) {
    i < |steps| && Possible(steps[..i]) && Possible(steps[..i + 1])
    && !Closed(Reached(steps[..i]), k) && Closed(Reached(steps[..i + 1]), k)
  }

  lemma {:induction false} PossibleBefore(steps: seq<Step>, i: nat)
    requires Possible(steps) && i <= |steps|
    ensures Possible(steps[..i])
    decreases |steps|
  {
    hide Enabled, Reached;
    if i < |steps| {
      PossibleBefore(steps[..|steps| - 1], i);
      assert steps[..|steps| - 1][..i] == steps[..i];
    } else {
      assert steps[..i] == steps;
    }
  }

  lemma LastStep(steps: seq<Step>)
    requires Possible(steps) && steps != []
    ensures var front := steps[..|steps| - 1];
            Possible(front) && Enabled(Reached(front), steps[|steps| - 1])
            && Reached(steps) == Apply(Reached(front), steps[|steps| - 1])
  {
    hide Inv, Enabled, Apply;
  }

  lemma {:induction false} ClosedSince(steps: seq<Step>, k: nat, i: nat)
    requires Possible(steps) && i <= |steps| && Possible(steps[..i]) && Closed(Reached(steps[..i]), k)
    ensures Closed(Reached(steps), k)
    decreases |steps|
  {
    hide Reached, Possible, Closed, Enabled, Apply, Inv;
    if i < |steps| {
      var front := steps[..|steps| - 1];
      LastStep(steps);
      assert front[..i] == steps[..i];
      ClosedSince(front, k, i);
      EnabledIsFeasible(Reached(front), steps[|steps| - 1]);
      ClosedStays(Reached(front), steps[|steps| - 1], k);
    } else {
      assert steps[..i] == steps;
    }
  }

  lemma EnabledIsFeasible(s: State, t: Step)
    requires Enabled(s, t)
    ensures Feasible(s, t)
  {
  }

  /** An entry expires a minute after the step that closed its session. */
  lemma {:induction false} ExpireByRun(steps: seq<Step>, g: Gid, i: nat)
    requires Possible(steps) && g in Reached(steps).global
    requires ClosedBy(steps, Reached(steps).entries[Reached(steps).global[g]].mux, i)
    ensures var s := Reached(steps); s.entries[s.global[g]].expire == Reached(steps[..i]).now + 60
    decreases |steps|
  {
    hide Reached, Possible, Closed, Enabled, Apply, InvBut;
    var n := |steps| - 1;
    var front, t := steps[..n], steps[n];
    LastStep(steps);
    var s, s' := Reached(front), Reached(steps);
    var k := s'.entries[s'.global[g]].mux;
    ClosedSince(steps, k, i + 1);
    StepExpires(s, t, g);
    if i < n {
      assert front[..i] == steps[..i] && front[..i + 1] == steps[..i + 1];
      ClosedSince(front, k, i + 1);
      ExpireByRun(front, g, i);
    } else {
      assert steps[..i] == front;
    }
  }

  /** A closed session became so at some step, and at one only. */
  lemma {:induction false} ClosingStep(steps: seq<Step>, k: nat) returns (i: nat)
    requires Possible(steps) && Closed(Reached(steps), k)
    ensures ClosedBy(steps, k, i)
    decreases |steps|
  {
    hide Possible, Enabled, Apply, Inv;
    PossibleNothing();
    if steps != [] {
      LastStep(steps);
      var n := |steps| - 1;
      var front := steps[..n];
      if Closed(Reached(front), k) {
        i := ClosingStep(front, k);
        assert front[..i] == steps[..i] && front[..i + 1] == steps[..i + 1];
      } else {
        i := n;
        assert steps[..i + 1] == steps;
      }
    }
  }

  lemma PossibleNothing()
    ensures Possible([]) && Reached([]) == INITIAL
  {
  }

  lemma OneClosingStep(steps: seq<Step>, k: nat, i: nat, j: nat)
    requires Possible(steps) && ClosedBy(steps, k, i) && ClosedBy(steps, k, j)
    ensures i == j
  {
    hide Reached, Possible, Closed;
    if i < j {
      assert steps[..j][..i + 1] == steps[..i + 1];
      ClosedSince(steps[..j], k, i + 1);
    } else if j < i {
      assert steps[..i][..j + 1] == steps[..j + 1];
      ClosedSince(steps[..i], k, j + 1);
    }
  }

  /** The reaper removes exactly the entries whose session is closed, and was closed, by whatever step did
      that, more than 60 seconds ago. */
  lemma ReaperIsExact(steps: seq<Step>, g: Gid)
    requires Possible(steps) && g in Reached(steps).global
    ensures var s := Reached(steps);
            var k := s.entries[s.global[g]].mux;
            (!Closed(s, k) ==> g in Reap(s).global)
            && (Closed(s, k) ==> exists i: nat :: ClosedBy(steps, k, i))
            && forall i: nat :: ClosedBy(steps, k, i) ==> (g !in Reap(s).global <==> s.now > Reached(steps[..i]).now + 60)
  {
    hide Reached, Possible;
    var s := Reached(steps);
    var k := s.entries[s.global[g]].mux;
    assert EntryOk(s, g);
    if Closed(s, k) {
      var i := ClosingStep(steps, k);
    }
    forall i: nat | ClosedBy(steps, k, i)
      ensures g !in Reap(s).global <==> s.now > Reached(steps[..i]).now + 60
    {
      ExpireByRun(steps, g, i);
      ClosedSince(steps, k, i + 1);
    }
  }

  /** A session that has been replaced can do nothing more: closing it, again or at last, changes
      neither the entry nor anything else. */
  lemma DetachedIsPowerless(steps: seq<Step>, k: nat)
    requires Possible(steps) && k in Reached(steps).sessions && Reached(steps).sessions[k].xudp.Some?
    requires Reached(steps).entries[Reached(steps).sessions[k].xudp.value].mux != k
    ensures CloseSession(Reached(steps), k) == Reached(steps)
  {
    hide Reached;
  }

  /** Only an attach that cannot reach its destination, or the reaper, removes an entry. */
  lemma OnlyTheseRemove(s: State, t: Step, g: Gid)
    requires Inv(s) && Feasible(s, t) && g in s.global && g !in Apply(s, t).global
    ensures (t.AttachTo? && t.gid == g && !t.usable && !t.dispatched) || (t.Sweep? && Expired(s, g))
  {
    hide EntryOk, Tables, Current;
  }

  /** A connection is opened, and a packet session attached to it. */
  const ATTACHING := [Open(0), AttachTo([1], 0, 7, false, true, 0, 0)]
  const ATTACHED := State(map[0 := Session(0, 7, false, Some(0))], map[0 := Manager(false, map[7 := 0])],
                          map[0 := Entry([1], Active, 0, 0)], map[[1] := 0], 0)

  lemma OneMoreStep(steps: seq<Step>, t: Step)
    requires Possible(steps) && Enabled(Reached(steps), t)
    ensures Possible(steps + [t]) && Reached(steps + [t]) == Apply(Reached(steps), t)
  {
    hide Inv, Enabled, Apply;
    assert (steps + [t])[..|steps|] == steps;
  }

  lemma AttachedIsReached()
    ensures Possible(ATTACHING) && Reached(ATTACHING) == ATTACHED
  {
    hide Inv;
    var s := INITIAL.(managers := map[0 := Manager(false, map[])]);
    assert Possible([]) && Reached([]) == INITIAL;
    OneMoreStep([], ATTACHING[0]);
    assert [] + [ATTACHING[0]] == [ATTACHING[0]];
    assert Reached([ATTACHING[0]]) == s;
    OneMoreStep([ATTACHING[0]], ATTACHING[1]);
    assert [ATTACHING[0]] + [ATTACHING[1]] == ATTACHING;
    assert Apply(s, ATTACHING[1]) == ATTACHED;
  }

  /** The premise on ids matters: the same id for another session leaves the entry active although its
      session is no longer registered. */
  lemma ReusedIdUnregisters()
    ensures Possible(ATTACHING) && Reached(ATTACHING) == ATTACHED && Feasible(ATTACHED, Add(0, 7, 1))
    ensures var t := Apply(Reached(ATTACHING), Add(0, 7, 1));
            !Inv(t) && t.global == ATTACHED.global && t.entries == ATTACHED.entries
            && t.sessions[0] == ATTACHED.sessions[0] && t.managers[0].table == map[7 := 1]
  {
    hide Inv, Possible, Reached;
    AttachedIsReached();
    ApplyExactly(ATTACHED, Add(0, 7, 1));
  }
}
