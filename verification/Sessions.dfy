/** Sessions of a multiplexed connection as the client sees them: `SessionManager` and `Session`. */
module Sessions {
  import opened Octets

  class Session {
    const parent: SessionManager
    const ID: uint16
    var closed: bool

    constructor (parent: SessionManager, ID: uint16)
      ensures this.parent == parent && this.ID == ID && !closed
    {
      this.parent, this.ID, closed := parent, ID, false;
    }

    /** `Close`; a closed session stays as it is. */
    method Close()
      modifies `closed, parent`sessions
      ensures closed
      ensures parent.sessions == if old(closed) || parent.closed then old(parent.sessions) else old(parent.sessions) - {ID}
      ensures old(parent.Valid()) && this in parent.given ==> parent.Valid()
    {
      hide IdAfter, InOrder;
      if closed {
        return;
      }
      closed := true;
      parent.Remove(ID);
    }
  }

  /** The counter after `n` sessions, which is the id of session number `n`. */
  function IdAfter(n: nat): (id: uint16)
    ensures 0 < n < 0x1_0000 ==> id == n
  {
    n % 0x1_0000
  }

  ghost predicate InOrder(ss: seq<Session>) {
    forall i :: 0 <= i < |ss| ==> ss[i].ID == IdAfter(i + 1)
  }

  ghost predicate Differ(ss: seq<Session>) {
    forall i, j :: 0 <= i < j < |ss| ==> ss[i].ID != ss[j].ID
  }

  /** Ids given in order are unique up to 65536 of them, and no further. */
  lemma UniqueExactly(ss: seq<Session>)
    requires InOrder(ss)
    ensures Differ(ss) <==> |ss| <= 0x1_0000
    ensures |ss| > 0x1_0000 ==> ss[0].ID == ss[0x1_0000].ID
  {
    if |ss| > 0x1_0000 {
      var i, j := 0, 0x1_0000;
      assert ss[i].ID == IdAfter(1) == IdAfter(0x1_0001) == ss[j].ID;
    }
  }

  lemma CounterOf(n: nat)
    ensures IdAfter(n + 1) == (IdAfter(n) + 1) % 0x1_0000
    ensures n <= 0xFFFF ==> IdAfter(n) == n
  {
  }

  lemma NextInOrder(ss: seq<Session>, s: Session)
    requires InOrder(ss) && s.ID == IdAfter(|ss| + 1)
    ensures InOrder(ss + [s])
  {
  }

  class SessionManager {
    var sessions: map<uint16, Session>
    var count: uint16
    var closed: bool
    /** The strategy of the client. */
    const maxConcurrency: uint32
    const maxConnection: uint32
    /** History: every session ever allocated. */
    ghost var given: seq<Session>

    ghost predicate Numbered()
      reads this, given
    {
      count == IdAfter(|given|) && (forall i :: 0 <= i < |given| ==> given[i].parent == this)
      && InOrder(given)
    }

    /** No id was given twice. */
    ghost predicate Unique()
      reads this
    {
      Differ(given)
    }

    /** The table holds the open sessions, each under its id. */
    ghost predicate Tabled()
      reads this, given
    {
      (forall id :: id in sessions ==> sessions[id] in given && sessions[id].ID == id)
      && (forall id :: id in sessions && sessions[id] in given ==> !sessions[id].closed)
      && (forall s :: s in given && !s.closed ==> s.ID in sessions && sessions[s.ID] == s)
    }

    ghost predicate Bounded()
      reads this
    {
      (maxConcurrency > 0 ==> |sessions| <= maxConcurrency)
      && (Limit() > 0 ==> |given| <= Limit())
      && (closed ==> sessions == map[])
    }

    ghost predicate Valid()
      reads this, given
    {
      Numbered() && Unique() && Tabled() && Bounded()
    }

    /** The number of sessions a connection may carry in its life, as the code takes it: cut to
        sixteen bits, zero for no limit. */
    function Limit(): uint16 {
      maxConnection % 0x1_0000
    }

    constructor (maxConcurrency: uint32, maxConnection: uint32)
      ensures Valid() && given == [] && !closed
      ensures this.maxConcurrency == maxConcurrency && this.maxConnection == maxConnection
    {
      sessions, count, closed, given := map[], 0, false, [];
      this.maxConcurrency, this.maxConnection := maxConcurrency, maxConnection;
    }

    /** `Allocate`.  Ids stay unique exactly as long as fewer than 65536 were given, and a limit sees
        to that. */
    method Allocate() returns (s: Session?)
      requires Valid()
      modifies this
      ensures s == null <==> old(closed) || (maxConcurrency > 0 && |old(sessions)| >= maxConcurrency)
                             || (Limit() > 0 && |old(given)| >= Limit())
      ensures s == null ==> Valid() && given == old(given) && sessions == old(sessions)
      ensures s != null ==> fresh(s) && given == old(given) + [s] && !s.closed && s.ID == IdAfter(|given|)
      ensures Unique() <==> s == null || |old(given)| < 0x1_0000
      ensures Unique() ==> Valid()
      ensures Limit() > 0 ==> Unique()
      ensures closed == old(closed)
    {
      hide IdAfter, InOrder, Differ, Tabled;
      UniqueExactly(given);
      CounterOf(|given|);
      var limit := maxConnection % 0x1_0000;
      if closed || (maxConcurrency > 0 && |sessions| >= maxConcurrency) || (limit > 0 && count >= limit) {
        return null;
      }
      count := (count + 1) % 0x1_0000;
      s := new Session(this, count);
      NextInOrder(given, s);
      UniqueExactly(given + [s]);
      sessions := sessions[s.ID := s];
      given := given + [s];
      NewTabled(s);
    }

    twostate lemma NewTabled(new s: Session)
      requires old(Tabled()) && given == old(given) + [s] && sessions == old(sessions)[s.ID := s] && !s.closed
      requires forall t :: t in old(given) ==> t.closed == old(t.closed)
      ensures Unique() ==> Tabled()
    {
    }

    method Remove(id: uint16)
      modifies `sessions
      ensures sessions == if closed then old(sessions) else old(sessions) - {id}
    {
      if closed {
        return;
      }
      sessions := sessions - {id};
    }

    /** `Get` finds exactly the open session with the id. */
    method Get(id: uint16) returns (s: Session?)
      requires Valid()
      ensures s != null ==> s in given && s.ID == id && !s.closed
      ensures s == null ==> forall t :: t in given && t.ID == id ==> t.closed
    {
      if closed {
        return null;
      }
      return if id in sessions then sessions[id] else null;
    }

    method CloseIfNoSession() returns (r: bool)
      requires Valid()
      modifies `closed
      ensures Valid() && closed == r && r == (old(closed) || forall s :: s in given ==> s.closed)
    {
      if closed {
        return true;
      }
      if |sessions| != 0 {
        var id :| id in sessions;
        return false;
      }
      closed := true;
      return true;
    }

    /** `Close` closes every session, for good. */
    method Close()
      requires Valid()
      modifies this, given
      ensures Valid() && closed && sessions == map[] && given == old(given)
      ensures forall s :: s in given ==> s.closed
    {
      if closed {
        return;
      }
      closed := true;
      var todo := sessions.Keys;
      while todo != {}
        invariant closed && sessions == old(sessions) && given == old(given) && count == old(count)
        invariant todo <= sessions.Keys
        invariant forall s :: s in given && !s.closed ==> s.ID in todo && s.ID in sessions && sessions[s.ID] == s
        decreases todo
      {
        var id :| id in todo;
        sessions[id].Close();
        todo := todo - {id};
      }
      sessions := map[];
    }
  }
}
