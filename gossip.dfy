/**
 * Gossip-based failure detector (ad-hoc GossipFailureDetector.java).
 *
 * Every node keeps a membership table from node id to (heartbeat, status,
 * lastSeen). A node advances its own heartbeat, pushes a copy of its table to
 * one peer, merges the tables it receives by keeping the higher heartbeat, and
 * downgrades entries whose lastSeen is too old: ALIVE -> SUSPECT -> DEAD.
 *
 * The wall clock and the random peer choice are parameters. Entries are values:
 * the Java snapshot is a shallow copy, so there the receiver ends up holding
 * the sender's NodeState objects; here each table holds its own copies.
 */
module Gossip {

  datatype Status = Alive | Suspect | Dead

  /** One row of a membership table. */
  datatype NodeState = NodeState(heartbeat: int, status: Status, lastSeen: int)

  type Table = map<string, NodeState>

  const SUSPECT_TIMEOUT: int := 3000
  const DEAD_TIMEOUT: int := 6000

  /** The order of badness Alive < Suspect < Dead. */
  function Rank(s: Status): nat
  {
    match s
    case Alive => 0
    case Suspect => 1
    case Dead => 2
  }

  function Max(a: int, b: int): int { if a < b then b else a }

  // ---------------------------------------------------------------------------
  // Merge rule of receiveGossip
  // ---------------------------------------------------------------------------

  /**
   * The remapping function handed to Map.merge for an id the receiver already
   * knows: a strictly higher heartbeat is accepted and stamped with the
   * receiver's clock, anything else keeps the current entry.
   */
  function Resolve(current: NodeState, inc: NodeState, now: int): NodeState
  {
    if inc.heartbeat > current.heartbeat then NodeState(inc.heartbeat, inc.status, now)
    else current
  }

  /** Map.merge for one id: an unknown id takes the incoming entry as it is. */
  function MergeEntry(table: Table, id: string, inc: NodeState, now: int): NodeState
  {
    if id in table then Resolve(table[id], inc, now) else inc
  }

  /** The table after every entry of `incoming` has been merged into `table`. */
  ghost function Merged(table: Table, incoming: Table, now: int): Table
  {
    map id | id in table.Keys + incoming.Keys ::
      if id in incoming then MergeEntry(table, id, incoming[id], now) else table[id]
  }

  /** The entries of `m` whose ids lie in `ids`. */
  ghost function Restrict(m: Table, ids: set<string>): (r: Table)
    ensures r.Keys == m.Keys * ids
    ensures forall id :: id in r ==> r[id] == m[id]
  {
    map id | id in m && id in ids :: m[id]
  }

  /** The heartbeat column of a table. */
  ghost function Heartbeats(t: Table): map<string, int>
  {
    map id | id in t :: t[id].heartbeat
  }

  /** Merging never removes an id and only adds the incoming ones. */
  lemma MergeKeepsIds(table: Table, incoming: Table, now: int)
    ensures Merged(table, incoming, now).Keys == table.Keys + incoming.Keys
  {
  }

  /** An id the receiver does not know is stored exactly as it arrived. */
  lemma MergeInsertsUnknown(table: Table, incoming: Table, now: int, id: string)
    requires id in incoming && id !in table
    ensures Merged(table, incoming, now)[id] == incoming[id]
  {
  }

  /**
   * For a known id the entry changes only when the incoming heartbeat is
   * strictly higher, and then becomes (incoming heartbeat, incoming status,
   * receiver's now); otherwise it is left as it was.
   */
  lemma MergeAcceptsOnlyFresher(table: Table, incoming: Table, now: int, id: string)
    requires id in table && id in incoming
    ensures incoming[id].heartbeat > table[id].heartbeat ==>
      Merged(table, incoming, now)[id] == NodeState(incoming[id].heartbeat, incoming[id].status, now)
    ensures incoming[id].heartbeat <= table[id].heartbeat ==>
      Merged(table, incoming, now)[id] == table[id]
  {
  }

  /**
   * After a merge every id's heartbeat is the larger of the local and the
   * incoming one, so a stored heartbeat never decreases.
   */
  lemma MergeHeartbeatIsMax(table: Table, incoming: Table, now: int, id: string)
    requires id in table || id in incoming
    ensures id in Merged(table, incoming, now)
    ensures id in table && id in incoming ==>
      Merged(table, incoming, now)[id].heartbeat == Max(table[id].heartbeat, incoming[id].heartbeat)
    ensures id in table && id !in incoming ==> Merged(table, incoming, now)[id] == table[id]
    ensures id in table ==> Merged(table, incoming, now)[id].heartbeat >= table[id].heartbeat
  {
  }

  /**
   * Self-healing: a strictly fresher incoming entry that says ALIVE revives an
   * entry the sweep had marked SUSPECT or DEAD.
   */
  lemma MergeRevives(table: Table, incoming: Table, now: int, id: string)
    requires id in table && id in incoming
    requires incoming[id].heartbeat > table[id].heartbeat && incoming[id].status == Alive
    ensures Merged(table, incoming, now)[id].status == Alive
    ensures Merged(table, incoming, now)[id].lastSeen == now
  {
  }

  /** Applying the same snapshot twice gives the table that applying it once gives. */
  lemma {:induction false} MergeIdempotent(table: Table, incoming: Table, now: int, later: int)
    ensures Merged(Merged(table, incoming, now), incoming, later) == Merged(table, incoming, now)
  {
    var once := Merged(table, incoming, now);
    var twice := Merged(once, incoming, later);
    assert twice.Keys == once.Keys;
    forall id | id in once
      ensures twice[id] == once[id]
    {
      if id in incoming {
        assert once[id].heartbeat >= incoming[id].heartbeat;
      }
    }
  }

  /**
   * Two snapshots delivered in either order leave the same ids and the same
   * heartbeats: each id ends with the largest heartbeat seen.
   */
  lemma {:induction false} MergeHeartbeatsCommute(table: Table, s1: Table, s2: Table, n1: int, n2: int)
    ensures Heartbeats(Merged(Merged(table, s1, n1), s2, n2)) ==
            Heartbeats(Merged(Merged(table, s2, n2), s1, n1))
  {
    var a := Merged(Merged(table, s1, n1), s2, n2);
    var b := Merged(Merged(table, s2, n2), s1, n1);
    assert a.Keys == table.Keys + s1.Keys + s2.Keys == b.Keys;
    forall id | id in a
      ensures a[id].heartbeat == b[id].heartbeat
    {
      var t1 := Merged(table, s1, n1);
      var t2 := Merged(table, s2, n2);
      if id in table || id in s1 { MergeHeartbeatIsMax(table, s1, n1, id); }
      if id in table || id in s2 { MergeHeartbeatIsMax(table, s2, n2, id); }
      MergeHeartbeatIsMax(t1, s2, n2, id);
      MergeHeartbeatIsMax(t2, s1, n1, id);
    }
    assert Heartbeats(a).Keys == Heartbeats(b).Keys;
  }

  /**
   * The node's own entry is untouched by a snapshot whose copy of it is no
   * fresher, which holds whenever only the owner advances its heartbeat.
   */
  lemma MergeKeepsOwnEntry(table: Table, incoming: Table, now: int, self: string)
    requires self in table
    requires self in incoming ==> incoming[self].heartbeat <= table[self].heartbeat
    ensures Merged(table, incoming, now)[self] == table[self]
  {
  }

  /** One loop iteration of receiveGossip extends the merged part by one id. */
  lemma {:induction false} MergedStep(table: Table, incoming: Table, done: set<string>, id: string, now: int)
    requires id in incoming && id !in done
    ensures Merged(table, Restrict(incoming, done + {id}), now) ==
            Merged(table, Restrict(incoming, done), now)[id :=
              MergeEntry(Merged(table, Restrict(incoming, done), now), id, incoming[id], now)]
  {
    var before := Merged(table, Restrict(incoming, done), now);
    var after := Merged(table, Restrict(incoming, done + {id}), now);
    var expected := before[id := MergeEntry(before, id, incoming[id], now)];
    assert after.Keys == expected.Keys;
    assert id in table ==> before[id] == table[id];
    forall k | k in after
      ensures after[k] == expected[k]
    {
    }
  }

  // ---------------------------------------------------------------------------
  // Staleness sweep of detectFailures
  // ---------------------------------------------------------------------------

  /**
   * The two checks of detectFailures, in the order the Java runs them: the
   * second sees the status the first may just have set.
   */
  function SweepEntry(s: NodeState, now: int): NodeState
  {
    var afterFirst := if s.status == Alive && now - s.lastSeen > SUSPECT_TIMEOUT then Suspect else s.status;
    var afterSecond := if afterFirst == Suspect && now - s.lastSeen > DEAD_TIMEOUT then Dead else afterFirst;
    NodeState(s.heartbeat, afterSecond, s.lastSeen)
  }

  /** The table after detectFailures has visited every entry. */
  ghost function Swept(table: Table, now: int): Table
  {
    map id | id in table :: SweepEntry(table[id], now)
  }

  /**
   * The status a sweep produces, by elapsed time: an ALIVE entry older than
   * DEAD_TIMEOUT goes straight to DEAD in one pass.
   */
  lemma SweepStatusByElapsed(s: NodeState, now: int)
    ensures s.status == Alive ==>
      SweepEntry(s, now).status ==
        (if now - s.lastSeen > DEAD_TIMEOUT then Dead
         else if now - s.lastSeen > SUSPECT_TIMEOUT then Suspect
         else Alive)
    ensures s.status == Suspect ==>
      SweepEntry(s, now).status == (if now - s.lastSeen > DEAD_TIMEOUT then Dead else Suspect)
    ensures s.status == Dead ==> SweepEntry(s, now) == s
  {
  }

  /**
   * A sweep keeps every id, heartbeat and lastSeen, never touches a DEAD entry
   * and never moves a status back toward ALIVE.
   */
  lemma SweepOnlyDowngrades(table: Table, now: int)
    ensures Swept(table, now).Keys == table.Keys
    ensures forall id :: id in table ==>
      var s := Swept(table, now)[id];
      && s.heartbeat == table[id].heartbeat
      && s.lastSeen == table[id].lastSeen
      && Rank(s.status) >= Rank(table[id].status)
      && (table[id].status == Dead ==> s == table[id])
  {
  }

  /** Sweeping twice at the same instant is the same as sweeping once. */
  lemma SweepIdempotent(table: Table, now: int)
    ensures Swept(Swept(table, now), now) == Swept(table, now)
  {
  }

  // ---------------------------------------------------------------------------
  // The node
  // ---------------------------------------------------------------------------

  class Node {
    const id: string
    /** The membership table, including this node's own entry once it has ticked. */
    var peerStates: Table
    /** This node's own heartbeat counter. */
    var heartbeat: int

    constructor (id: string)
      ensures this.id == id && peerStates == map[] && heartbeat == 0
    {
      this.id := id;
      peerStates := map[];
      heartbeat := 0;
    }

    /** Advances the own counter by one and writes the own entry as fresh and ALIVE. */
    method HeartbeatTick(now: int)
      modifies this
      ensures heartbeat == old(heartbeat) + 1
      ensures peerStates == old(peerStates)[id := NodeState(heartbeat, Alive, now)]
    {
      heartbeat := heartbeat + 1;
      peerStates := peerStates[id := NodeState(heartbeat, Alive, now)];
    }

    /**
     * Merges a peer's snapshot entry by entry. `now` is the receiver's clock,
     * read when a fresher entry is stored.
     */
    method ReceiveGossip(fromId: string, incoming: Table, now: int)
      modifies this`peerStates
      ensures peerStates == Merged(old(peerStates), incoming, now)
    {
      ghost var start := peerStates;
      var pending := incoming.Keys;
      ghost var done: set<string> := {};
      assert Restrict(incoming, {}) == map[];
      assert Merged(start, map[], now) == start;
      while pending != {}
        invariant pending + done == incoming.Keys && pending !! done
        invariant peerStates == Merged(start, Restrict(incoming, done), now)
        decreases pending
      {
        var nodeId :| nodeId in pending;
        MergedStep(start, incoming, done, nodeId, now);
        peerStates := peerStates[nodeId := MergeEntry(peerStates, nodeId, incoming[nodeId], now)];
        pending := pending - {nodeId};
        done := done + {nodeId};
      }
      assert Restrict(incoming, done) == incoming;
    }

    /** Applies the staleness rules to every entry of the table, the own one included. */
    method DetectFailures(now: int)
      modifies this`peerStates
      ensures peerStates == Swept(old(peerStates), now)
    {
      var pending := peerStates.Keys;
      while pending != {}
        invariant pending <= peerStates.Keys == old(peerStates).Keys
        invariant forall k :: k in peerStates ==>
          peerStates[k] == if k in pending then old(peerStates)[k] else SweepEntry(old(peerStates)[k], now)
        decreases pending
      {
        var nodeId :| nodeId in pending;
        var state := peerStates[nodeId];
        var status := state.status;
        if status == Alive && now - state.lastSeen > SUSPECT_TIMEOUT {
          status := Suspect;
        }
        if status == Suspect && now - state.lastSeen > DEAD_TIMEOUT {
          status := Dead;
        }
        peerStates := peerStates[nodeId := NodeState(state.heartbeat, status, state.lastSeen)];
        pending := pending - {nodeId};
      }
    }

    /**
     * Sends a copy of this node's table to `cluster[pick]`, where `pick` is the
     * random index the Java draws. Nothing happens when the cluster is empty or
     * the chosen peer is this node itself.
     */
    method SendGossip(cluster: seq<Node>, pick: int, now: int)
      requires |cluster| > 0 ==> 0 <= pick < |cluster|
      modifies cluster
      ensures |cluster| == 0 || cluster[pick] == this ==>
        forall n :: n in cluster ==> n.peerStates == old(n.peerStates)
      ensures |cluster| > 0 && cluster[pick] != this ==>
        && cluster[pick].peerStates == Merged(old(cluster[pick].peerStates), old(peerStates), now)
        && forall n :: n in cluster && n != cluster[pick] ==> n.peerStates == old(n.peerStates)
      ensures forall n :: n in cluster ==> n.heartbeat == old(n.heartbeat)
      ensures peerStates == old(peerStates) || (|cluster| > 0 && cluster[pick] == this)
    {
      if |cluster| == 0 {
        return;
      }
      var peer := cluster[pick];
      if peer == this {
        return;
      }
      peer.ReceiveGossip(id, peerStates, now);
    }
  }
}
