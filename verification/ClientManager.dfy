/** The session index (src/core/modules/easn/easn_client_manager.cpp). */
module ClientManager {

  // ---------------------------------------------------------------------
  // The index as a function of its history
  // ---------------------------------------------------------------------

  datatype Op<C> = New(sid: nat, conn: C) | Remove(sid: nat)

  /** std::map::insert keeps an entry that is already there; erase drops it. */
  function Index<C>(ops: seq<Op<C>>): map<nat, C> {
    if ops == [] then map[]
    else
      var before := Index(ops[..|ops| - 1]);
      match ops[|ops| - 1]
      case New(sid, conn) => if sid in before then before else before[sid := conn]
      case Remove(sid) => before - {sid}
  }

  /** Some removal of sid lies strictly between the two operations. */
  ghost predicate RemovedBetween<C>(ops: seq<Op<C>>, sid: nat, from: int, to: int) {
    exists r :: from < r < to && 0 <= r < |ops| && ops[r] == Remove(sid)
  }

  /** Operation k created the first connection with its sid since that sid was last removed. */
  ghost predicate EarliestSince<C>(ops: seq<Op<C>>, sid: nat, k: int) {
    && 0 <= k < |ops| && ops[k].New? && ops[k].sid == sid
    && !RemovedBetween(ops, sid, k, |ops|)
    && forall j :: 0 <= j < k && ops[j].New? && ops[j].sid == sid ==> RemovedBetween(ops, sid, j, k)
  }

  lemma BetweenPrefix<C>(ops: seq<Op<C>>, sid: nat, from: int, to: int)
    requires ops != [] && to < |ops|
    ensures RemovedBetween(ops, sid, from, to) <==> RemovedBetween(ops[..|ops| - 1], sid, from, to)
  {
    var front := ops[..|ops| - 1];
    if RemovedBetween(ops, sid, from, to) {
      var r :| from < r < to && 0 <= r < |ops| && ops[r] == Remove(sid);
      assert front[r] == Remove(sid);
    }
    if RemovedBetween(front, sid, from, to) {
      var r :| from < r < to && 0 <= r < |front| && front[r] == Remove(sid);
      assert ops[r] == Remove(sid);
    }
  }

  lemma BetweenLast<C>(ops: seq<Op<C>>, sid: nat, from: int)
    requires ops != [] && from < |ops| - 1
    ensures RemovedBetween(ops, sid, from, |ops|)
       <==> ops[|ops| - 1] == Remove(sid) || RemovedBetween(ops[..|ops| - 1], sid, from, |ops| - 1)
  {
    var front := ops[..|ops| - 1];
    if RemovedBetween(ops, sid, from, |ops|) {
      var r :| from < r < |ops| && 0 <= r < |ops| && ops[r] == Remove(sid);
      if r < |front| { assert front[r] == Remove(sid); }
    }
    if RemovedBetween(front, sid, from, |front|) {
      var r :| from < r < |front| && 0 <= r < |front| && front[r] == Remove(sid);
      assert ops[r] == Remove(sid);
    }
  }

  lemma EarliestPrefix<C>(ops: seq<Op<C>>, sid: nat, k: int)
    requires ops != [] && k < |ops| - 1
    ensures EarliestSince(ops, sid, k)
       <==> ops[|ops| - 1] != Remove(sid) && EarliestSince(ops[..|ops| - 1], sid, k)
  {
    var front := ops[..|ops| - 1];
    BetweenLast(ops, sid, k);
    forall j | 0 <= j < k ensures RemovedBetween(ops, sid, j, k) <==> RemovedBetween(front, sid, j, k) {
      BetweenPrefix(ops, sid, j, k);
    }
  }

  /** While a sid is absent, every connection created with it has been removed since. */
  lemma {:induction false} AbsentMeansRemoved<C>(ops: seq<Op<C>>, sid: nat, j: int)
    requires sid !in Index(ops)
    requires 0 <= j < |ops| && ops[j].New? && ops[j].sid == sid
    ensures RemovedBetween(ops, sid, j, |ops|)
  {
    var front := ops[..|ops| - 1];
    if j < |ops| - 1 {
      BetweenLast(ops, sid, j);
      if ops[|ops| - 1] != Remove(sid) { AbsentMeansRemoved(front, sid, j); }
    }
  }

  /** The index holds for each sid the earliest connection since its last removal. */
  lemma {:induction false} FirstInsertWins<C>(ops: seq<Op<C>>, sid: nat) returns (k: int)
    ensures sid in Index(ops) ==> EarliestSince(ops, sid, k) && Index(ops)[sid] == ops[k].conn
    ensures sid !in Index(ops) ==> forall i :: !EarliestSince(ops, sid, i)
  {
    k := -1;
    if ops != [] {
      var last, front := ops[|ops| - 1], ops[..|ops| - 1];
      k := FirstInsertWins(front, sid);
      if last.New? && last.sid == sid && sid !in Index(front) {
        k := |ops| - 1;
        NewestIsEarliest(ops, sid);
      } else if sid in Index(ops) {
        EarliestPrefix(ops, sid, k);
      } else {
        forall i ensures !EarliestSince(ops, sid, i) { NoneEarliest(ops, sid, i); }
      }
    }
  }

  lemma NewestIsEarliest<C>(ops: seq<Op<C>>, sid: nat)
    requires ops != [] && ops[|ops| - 1].New? && ops[|ops| - 1].sid == sid
    requires sid !in Index(ops[..|ops| - 1])
    ensures EarliestSince(ops, sid, |ops| - 1)
  {
    var front := ops[..|ops| - 1];
    forall j | 0 <= j < |ops| - 1 && ops[j].New? && ops[j].sid == sid
      ensures RemovedBetween(ops, sid, j, |ops| - 1)
    {
      AbsentMeansRemoved(front, sid, j);
      BetweenPrefix(ops, sid, j, |ops| - 1);
    }
  }

  lemma NoneEarliest<C>(ops: seq<Op<C>>, sid: nat, i: int)
    requires sid !in Index(ops)
    ensures !EarliestSince(ops, sid, i)
  {
    if 0 <= i < |ops| && ops[i].New? && ops[i].sid == sid { AbsentMeansRemoved(ops, sid, i); }
  }

  lemma EarliestUnique<C>(ops: seq<Op<C>>, sid: nat, i: int, k: int)
    requires EarliestSince(ops, sid, i) && EarliestSince(ops, sid, k)
    ensures i == k
  {
    BetweenWidens(ops, sid, i, k);
    BetweenWidens(ops, sid, k, i);
  }

  lemma BetweenWidens<C>(ops: seq<Op<C>>, sid: nat, from: int, to: int)
    requires RemovedBetween(ops, sid, from, to) ==> to <= |ops|
    ensures RemovedBetween(ops, sid, from, to) ==> RemovedBetween(ops, sid, from, |ops|)
  {
  }

  /** Every connection object is created once. */
  ghost predicate FreshConnections<C>(ops: seq<Op<C>>) {
    forall i, j :: 0 <= i < j < |ops| && ops[i].New? && ops[j].New? ==> ops[i].conn != ops[j].conn
  }

  /**
   * A connection not removed since is found under its own sid exactly when no connection with
   * that sid was in the index as it was created.
   */
  lemma FoundIffNotShadowed<C>(ops: seq<Op<C>>, k: int)
    requires FreshConnections(ops)
    requires 0 <= k < |ops| && ops[k].New? && !RemovedBetween(ops, ops[k].sid, k, |ops|)
    ensures ops[k].sid in Index(ops)
    ensures Index(ops)[ops[k].sid] == ops[k].conn <==> ops[k].sid !in Index(ops[..k])
  {
    var sid := ops[k].sid;
    if sid !in Index(ops) { AbsentMeansRemoved(ops, sid, k); }
    var i := FirstInsertWins(ops, sid);
    if sid !in Index(ops[..k]) {
      assert ops[..k + 1][..k] == ops[..k];
      NewestIsEarliest(ops[..k + 1], sid);
      EarliestExtends(ops, sid, k);
      EarliestUnique(ops, sid, i, k);
    } else {
      var e := FirstInsertWins(ops[..k], sid);
      if i == k { PresentShadows(ops, sid, e, k); }
    }
  }

  /** Of two connections made with one sid, neither removed, the second is not found by it. */
  lemma SameSidShadows<C>(sid: nat, first: C, second: C)
    requires first != second
    ensures var ops := [New(sid, first), New(sid, second)];
            FreshConnections(ops) && !RemovedBetween(ops, sid, 1, 2) && Index(ops) == map[sid := first]
  {
    var ops := [New(sid, first), New(sid, second)];
    assert ops[..1] == [New(sid, first)] && ops[..1][..0] == [];
    assert Index(ops[..1]) == map[sid := first];
  }

  lemma EarliestExtends<C>(ops: seq<Op<C>>, sid: nat, k: int)
    requires 0 <= k < |ops| && EarliestSince(ops[..k + 1], sid, k)
    requires !RemovedBetween(ops, sid, k, |ops|)
    ensures EarliestSince(ops, sid, k)
  {
    forall j | 0 <= j < k && ops[j].New? && ops[j].sid == sid ensures RemovedBetween(ops, sid, j, k) {
      assert ops[..k + 1][j] == ops[j];
      var r :| j < r < k && 0 <= r < k + 1 && ops[..k + 1][r] == Remove(sid);
      assert ops[r] == Remove(sid);
    }
  }

  lemma PresentShadows<C>(ops: seq<Op<C>>, sid: nat, e: int, k: int)
    requires 0 <= k < |ops| && EarliestSince(ops[..k], sid, e)
    ensures !EarliestSince(ops, sid, k)
  {
    BetweenTake(ops, sid, e, k);
    assert ops[e] == ops[..k][e];
  }

  lemma BetweenTake<C>(ops: seq<Op<C>>, sid: nat, from: int, k: int)
    requires 0 <= k <= |ops|
    ensures RemovedBetween(ops, sid, from, k) ==> RemovedBetween(ops[..k], sid, from, k)
  {
    if RemovedBetween(ops, sid, from, k) {
      var r :| from < r < k && 0 <= r < |ops| && ops[r] == Remove(sid);
      assert ops[..k][r] == Remove(sid);
    }
  }

  /** The clock gives each new connection a later timestamp than all before it. */
  ghost predicate IncreasingSids<C>(ops: seq<Op<C>>) {
    forall i, j :: 0 <= i < j < |ops| && ops[i].New? && ops[j].New? ==> ops[i].sid < ops[j].sid
  }

  /** With increasing timestamps every connection not removed is found by its own sid. */
  lemma IncreasingSidsFound<C>(ops: seq<Op<C>>, k: int)
    requires IncreasingSids(ops)
    requires 0 <= k < |ops| && ops[k].New? && !RemovedBetween(ops, ops[k].sid, k, |ops|)
    ensures ops[k].sid in Index(ops) && Index(ops)[ops[k].sid] == ops[k].conn
  {
    var sid := ops[k].sid;
    if sid !in Index(ops) { AbsentMeansRemoved(ops, sid, k); }
    var i := FirstInsertWins(ops, sid);
  }

  // ---------------------------------------------------------------------
  // The program
  // ---------------------------------------------------------------------

  class Connection {
    var sid: nat
    var socketFd: int
    var auth: bool

    constructor (sid: nat, socketFd: int)
      ensures this.sid == sid && this.socketFd == socketFd && !auth
    {
      this.sid, this.socketFd, auth := sid, socketFd, false;
    }
  }

  class Manager {
    var connections: map<nat, Connection>
    ghost var history: seq<Op<Connection>>

    /** The map is what the history of calls says, and every entry carries its own key. */
    ghost predicate Valid()
      reads this, connections.Values
    {
      && connections == Index(history)
      && forall sid :: sid in connections ==> connections[sid].sid == sid
    }

    constructor ()
      ensures Valid() && connections == map[] && history == []
    {
      connections, history := map[], [];
    }

    method NewConnection(timestamp: nat, socketFd: int) returns (conn: Connection)
      requires Valid()
      modifies this
      ensures Valid() && fresh(conn) && history == old(history) + [New(timestamp, conn)]
      ensures conn.sid == timestamp && conn.socketFd == socketFd && !conn.auth
      ensures connections == if timestamp in old(connections) then old(connections)
                             else old(connections)[timestamp := conn]
    {
      conn := new Connection(timestamp, socketFd);
      if timestamp !in connections {
        connections := connections[timestamp := conn];
      }
      history := history + [New(timestamp, conn)];
      assert history[..|history| - 1] == old(history);
    }

    method RemoveConnection(sid: nat)
      requires Valid()
      modifies this
      ensures Valid() && history == old(history) + [Remove(sid)]
      ensures connections == old(connections) - {sid}
    {
      var p := GetConnection(sid);
      if p != null {
        connections := connections - {sid};
      }
      history := history + [Remove(sid)];
      assert history[..|history| - 1] == old(history);
    }

    method GetConnection(sid: nat) returns (conn: Connection?)
      requires Valid()
      ensures conn == null <==> forall k :: !EarliestSince(history, sid, k)
      ensures conn == null <==> sid !in connections
      ensures conn != null ==> conn.sid == sid && conn == connections[sid]
      ensures conn != null ==> exists k :: EarliestSince(history, sid, k) && history[k].conn == conn
    {
      ghost var k := FirstInsertWins(history, sid);
      if sid !in connections {
        return null;
      }
      conn := connections[sid];
    }
  }
}
