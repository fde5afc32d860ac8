/**
 * The table of peer senders a node keeps from ZooKeeper's events about the
 * children of /nodes.
 */
module Routers {
  import opened Outcomes
  import opened Nodes

  /** A DATA message as far as routing looks at it. */
  datatype DataMessage = DataMessage(from: string, to: string, groupId: string, content: seq<int>)

  /** The outgoing connection to one peer. */
  class PeerSender {
    const wsNode: WsNode
    var connectFlag: bool
    var reConnectCount: nat
    var stopped: bool
    var sent: seq<DataMessage>

    constructor (wsNode: WsNode)
      ensures this.wsNode == wsNode && !connectFlag && reConnectCount == 0 && !stopped && sent == []
    {
      this.wsNode, connectFlag, reConnectCount, stopped, sent := wsNode, false, 0, false, [];
    }

    /** The listener of a connection attempt: two failures are retried, a third is taken for a success. */
    method OperationComplete(success: bool) returns (retry: bool)
      modifies this`connectFlag, this`reConnectCount
      ensures retry <==> !success && old(reConnectCount) + 1 < 3
      ensures connectFlag == !retry && reConnectCount == old(reConnectCount) + if success then 0 else 1
    {
      if !success {
        reConnectCount := reConnectCount + 1;
      }
      retry := !success && reConnectCount < 3;
      connectFlag := !retry;
    }

    /** Attempts with these outcomes until one is not retried: the sender always ends up as connected. */
    method DoConnect(successes: seq<bool>) returns (attempts: nat)
      requires reConnectCount == 0 && |successes| >= 3
      modifies this`connectFlag, this`reConnectCount
      ensures connectFlag && 1 <= attempts <= 3
      ensures forall i :: 0 <= i < attempts - 1 ==> !successes[i]
      ensures successes[attempts - 1] || attempts == 3
    {
      attempts := 0;
      var retry := true;
      while retry
        invariant attempts <= 3 && (retry ==> reConnectCount == attempts < 3)
        invariant forall i :: 0 <= i < attempts - 1 ==> !successes[i]
        invariant retry && attempts > 0 ==> !successes[attempts - 1]
        invariant !retry ==> connectFlag && attempts > 0 && (successes[attempts - 1] || attempts == 3)
        decreases 3 - attempts
      {
        retry := OperationComplete(successes[attempts]);
        attempts := attempts + 1;
      }
    }

    method StopConnecting()
      modifies this`connectFlag, this`stopped
      ensures stopped && !connectFlag
    {
      stopped := true;
      connectFlag := false;
    }

    /** Without a connection the message is dropped. */
    method WriteAndFlush(pkg: DataMessage)
      modifies this`sent
      ensures sent == if connectFlag then old(sent) + [pkg] else old(sent)
    {
      if !connectFlag {
        return;
      }
      sent := sent + [pkg];
    }
  }

  /** An event about a child: its path and the node record stored there. */
  datatype ChildEvent = ChildAdded(path: Option<string>, data: WsNode)
                      | ChildRemoved(path: Option<string>, data: WsNode)
                      | ChildUpdated

  /** The node an addition announces, with the id of its path; the local node announces nothing. */
  function Announces(local: WsNode, e: ChildEvent): Option<WsNode> {
    if !e.ChildAdded? || !GetIdByPath(e.path).Ok? then None
    else
      var node := e.data.(id := GetIdByPath(e.path).value);
      if node.Equals(local) then None else Some(node)
  }

  /** The id a removal takes away. */
  function Withdraws(e: ChildEvent): Option<int> {
    if e.ChildRemoved? && GetIdByPath(e.path).Ok? then Some(GetIdByPath(e.path).value) else None
  }

  /** One event's effect on the table of nodes. */
  function After(local: WsNode, table: map<int, WsNode>, e: ChildEvent): map<int, WsNode> {
    if Withdraws(e).Some? then table - {Withdraws(e).value}
    else if Announces(local, e).Some? then
      var node := Announces(local, e).value;
      if node.id in table && table[node.id].Equals(node) then table else table[node.id := node]
    else table
  }

  class NodeRouter {
    const worker: NettyWorker
    var wsNode: Option<WsNode>
    var workerMap: map<int, PeerSender>
    /** Every sender this router has created. */
    ghost var created: set<PeerSender>

    constructor (worker: NettyWorker)
      ensures this.worker == worker && workerMap == map[] && created == {} && Valid()
    {
      this.worker, wsNode, workerMap, created := worker, None, map[], {};
    }

    /** Keys are the ids of their senders' nodes; a sender is current or it has been stopped. */
    ghost predicate Valid()
      reads this, created
    {
      && (forall id :: id in workerMap ==> workerMap[id] in created && workerMap[id].wsNode.id == id)
      && (forall s :: s in created ==> (s.stopped <==> !(s.wsNode.id in workerMap && workerMap[s.wsNode.id] == s)))
    }

    ghost function Table(): map<int, WsNode>
      reads this
    {
      map id | id in workerMap :: workerMap[id].wsNode
    }

    /** What has been sent to each node of the table. */
    ghost function Sent(): (m: map<int, seq<DataMessage>>)
      reads this, workerMap.Values
      ensures m.Keys == workerMap.Keys
    {
      map id | id in workerMap :: workerMap[id].sent
    }

    /** The nodes with a connected sender. */
    ghost function Linked(): set<int>
      reads this, workerMap.Values
    {
      set id | id in workerMap && workerMap[id].connectFlag
    }

    method DoAfterAdd(node: WsNode, relaySender: Option<PeerSender>)
      requires Valid()
      requires relaySender == if node.id in workerMap then Some(workerMap[node.id]) else None
      modifies this, created
      ensures Valid() && wsNode == old(wsNode)
      ensures node.id in workerMap && fresh(workerMap[node.id]) && workerMap[node.id].wsNode == node
      ensures workerMap == old(workerMap)[node.id := workerMap[node.id]]
      ensures created == old(created) + {workerMap[node.id]}
    {
      if relaySender.Some? {
        relaySender.value.StopConnecting();
      }
      var peerSender := new PeerSender(node);
      workerMap := workerMap[node.id := peerSender];
      created := created + {peerSender};
    }

    method DoAfterRemove(node: WsNode)
      requires Valid()
      modifies this, created
      ensures Valid() && wsNode == old(wsNode) && created == old(created)
      ensures workerMap == old(workerMap) - {node.id}
    {
      if node.id in workerMap {
        var peerSender := workerMap[node.id];
        peerSender.StopConnecting();
        workerMap := workerMap - {node.id};
      }
    }

    method ProcessNodeAdd(path: Option<string>, data: WsNode) returns (r: Outcome<()>)
      requires Valid()
      modifies this, created
      ensures Valid() && (r.Ok? <==> GetIdByPath(path).Ok?)
      ensures Table() == After(worker.wsNode, old(Table()), ChildAdded(path, data))
      ensures old(created) <= created && fresh(created - old(created))
      ensures old(Table()) == Table() ==> workerMap == old(workerMap) && created == old(created)
    {
      var t := Table();
      wsNode := Some(data);
      var id := GetIdByPath(path);
      if id.IsFailure() {
        return Throws;
      }
      var node := data.(id := id.value);
      wsNode := Some(node);
      if node.Equals(worker.wsNode) {
        return Ok(());
      }
      var peerSender := if node.id in workerMap then Some(workerMap[node.id]) else None;
      if peerSender.Some? && peerSender.value.wsNode.Equals(node) {
        return Ok(());
      }
      DoAfterAdd(node, peerSender);
      assert Table() == t[node.id := node];
      assert Table()[node.id] == node;
      assert node.id in t ==> t[node.id] != node;
      r := Ok(());
    }

    method ProcessNodeRemove(path: Option<string>, data: WsNode) returns (r: Outcome<()>)
      requires Valid()
      modifies this, created
      ensures Valid() && created == old(created) && (r.Ok? <==> GetIdByPath(path).Ok?)
      ensures Table() == After(worker.wsNode, old(Table()), ChildRemoved(path, data))
      ensures forall id :: id in workerMap ==> id in old(workerMap) && workerMap[id] == old(workerMap)[id]
    {
      wsNode := Some(data);
      var id := GetIdByPath(path);
      if id.IsFailure() {
        return Throws;
      }
      wsNode := Some(data.(id := id.value));
      DoAfterRemove(wsNode.value);
      r := Ok(());
    }

    /** The listener; an exception ends the handling of that event alone. */
    method ChildEvents(events: seq<ChildEvent>)
      requires Valid()
      modifies this, created
      ensures Valid() && old(created) <= created && fresh(created - old(created))
      ensures Table() == AfterAll(worker.wsNode, old(Table()), events)
    {
      hide After;
      ghost var t := Table();
      for i := 0 to |events|
        invariant Valid() && old(created) <= created && fresh(created - old(created))
        invariant Table() == AfterAll(worker.wsNode, t, events[..i])
      {
        assert events[..i + 1][..i] == events[..i];
        match events[i] {
          case ChildAdded(path, data) => var _ := ProcessNodeAdd(path, data);
          case ChildRemoved(path, data) => var _ := ProcessNodeRemove(path, data);
          case ChildUpdated => UpdateChangesNothing(worker.wsNode, Table());
        }
      }
      assert events[..|events|] == events;
    }

    /** The sender for a node, if there is one. */
    method Route(nodeId: int) returns (s: Option<PeerSender>)
      ensures s == if nodeId in workerMap then Some(workerMap[nodeId]) else None
    {
      if nodeId in workerMap {
        return Some(workerMap[nodeId]);
      }
      s := None;
    }

    /** `RemoteSession.writeAndFlush`: a copy for one node, dropped without a connected sender. */
    method Forward(nodeId: int, pkg: DataMessage)
      requires Valid()
      modifies workerMap.Values
      ensures Valid() && Linked() == old(Linked())
      ensures Sent() == if nodeId in Linked() then old(Sent())[nodeId := old(Sent())[nodeId] + [pkg]] else old(Sent())
    {
      var route := Route(nodeId);
      if route.Some? {
        ghost var sent := Sent();
        assert workerMap[nodeId] in workerMap.Values;
        assert forall id :: id in workerMap && id != nodeId ==> workerMap[id] != route.value;
        route.value.WriteAndFlush(pkg);
        assert forall id :: id in workerMap && id != nodeId ==> workerMap[id].sent == sent[id];
      }
    }
  }

  lemma UpdateChangesNothing(local: WsNode, table: map<int, WsNode>)
    ensures After(local, table, ChildUpdated) == table
  {
  }

  function AfterAll(local: WsNode, table: map<int, WsNode>, events: seq<ChildEvent>): map<int, WsNode> {
    if events == [] then table
    else After(local, AfterAll(local, table, events[..|events| - 1]), events[|events| - 1])
  }

  /** An addition with a good path announces a node unless its id, host and port are all the local node's. */
  lemma AnnouncesUnlessLocal(local: WsNode, e: ChildEvent)
    ensures Announces(local, e).Some? <==>
            && e.ChildAdded? && GetIdByPath(e.path).Ok?
            && (GetIdByPath(e.path).value != local.id || e.data.host != local.host || e.data.port != local.port)
    ensures Announces(local, e).Some? ==>
              var node := Announces(local, e).value;
              && node.id == GetIdByPath(e.path).value && node.host == e.data.host && node.port == e.data.port
              && node.balance == e.data.balance
  {
    hide GetIdByPath;
  }

  /** Under a known id only an announcement of the same host and port changes nothing. */
  lemma AnnouncementReplaces(local: WsNode, table: map<int, WsNode>, e: ChildEvent)
    requires Announces(local, e).Some?
    ensures var node := Announces(local, e).value;
            var known := node.id in table && table[node.id].id == node.id &&
                         table[node.id].host == node.host && table[node.id].port == node.port;
            After(local, table, e) == if known then table else table[node.id := node]
  {
    hide GetIdByPath;
  }

  // ---- histories ----

  /** Whether the event at `i` adds a path with this id, for another node than the local one. */
  predicate AnnouncedAt(local: WsNode, events: seq<ChildEvent>, i: nat, id: int) {
    && i < |events| && events[i].ChildAdded? && GetIdByPath(events[i].path) == Ok(id)
    && (id != local.id || events[i].data.host != local.host || events[i].data.port != local.port)
  }

  /** Whether the event at `i` removes a path with this id, whatever node record comes with it. */
  predicate RemovedAt(events: seq<ChildEvent>, i: nat, id: int) {
    i < |events| && events[i].ChildRemoved? && GetIdByPath(events[i].path) == Ok(id)
  }

  /** The node was announced at `i` and not removed since. */
  predicate StandsFrom(local: WsNode, events: seq<ChildEvent>, i: nat, id: int) {
    AnnouncedAt(local, events, i, id) && forall j :: i < j < |events| ==> !RemovedAt(events, j, id)
  }

  /** Of the announcements that stand, the latest. */
  predicate LatestStands(local: WsNode, events: seq<ChildEvent>, i: nat, id: int) {
    StandsFrom(local, events, i, id) && forall j :: i < j < |events| ==> !AnnouncedAt(local, events, j, id)
  }

  lemma SameInPrefix(local: WsNode, events: seq<ChildEvent>, j: nat, id: int)
    requires j < |events| - 1
    ensures var init := events[..|events| - 1];
            AnnouncedAt(local, init, j, id) == AnnouncedAt(local, events, j, id) &&
            RemovedAt(init, j, id) == RemovedAt(events, j, id)
  {
    hide GetIdByPath;
  }

  lemma AnnouncedEvent(local: WsNode, events: seq<ChildEvent>, i: nat, id: int)
    requires AnnouncedAt(local, events, i, id)
    ensures i < |events| && events[i].ChildAdded? && GetIdByPath(events[i].path) == Ok(id)
  {
    hide GetIdByPath;
  }

  /** What the last event does to one id. */
  lemma LastEvent(local: WsNode, events: seq<ChildEvent>, id: int)
    requires events != []
    ensures var i := |events| - 1;
            var before, table := AfterAll(local, map[], events[..i]), AfterAll(local, map[], events);
            && (RemovedAt(events, i, id) ==> id !in table)
            && (AnnouncedAt(local, events, i, id) ==>
                  id in table && table[id].Equals(events[i].data.(id := id)) &&
                  Announces(local, events[i]) == Some(events[i].data.(id := id)))
            && (!RemovedAt(events, i, id) && !AnnouncedAt(local, events, i, id) ==>
                  (id in table <==> id in before) && (id in table ==> table[id] == before[id]))
  {
    hide GetIdByPath;
  }

  lemma {:induction false} StandingNode(local: WsNode, events: seq<ChildEvent>, i: nat, id: int)
    requires LatestStands(local, events, i, id)
    ensures var table := AfterAll(local, map[], events);
            id in table && table[id].Equals(Announces(local, events[i]).value)
    ensures var node := AfterAll(local, map[], events)[id];
            && events[i].ChildAdded? && GetIdByPath(events[i].path) == Ok(node.id) && node.id == id
            && node.host == events[i].data.host && node.port == events[i].data.port
    decreases |events|
  {
    hide AfterAll, AnnouncedAt, RemovedAt, Announces, GetIdByPath;
    AnnouncedEvent(local, events, i, id);
    LastEvent(local, events, id);
    var n := |events| - 1;
    if i < n {
      forall j | i <= j < n
        ensures AnnouncedAt(local, events[..n], j, id) == AnnouncedAt(local, events, j, id)
        ensures RemovedAt(events[..n], j, id) == RemovedAt(events, j, id)
      {
        SameInPrefix(local, events, j, id);
      }
      assert !AnnouncedAt(local, events, n, id) && !RemovedAt(events, n, id);
      StandingNode(local, events[..n], i, id);
    }
  }

  lemma {:induction false} NothingStands(local: WsNode, events: seq<ChildEvent>, id: int)
    requires forall i :: 0 <= i < |events| ==> !StandsFrom(local, events, i, id)
    ensures id !in AfterAll(local, map[], events)
    decreases |events|
  {
    if events != [] {
      var n := |events| - 1;
      var init := events[..n];
      hide AfterAll, AnnouncedAt, RemovedAt, Announces, GetIdByPath;
      LastEvent(local, events, id);
      assert !StandsFrom(local, events, n, id);
      if !RemovedAt(events, n, id) {
        forall i | 0 <= i < n
          ensures !StandsFrom(local, init, i, id)
        {
          assert !StandsFrom(local, events, i, id);
          forall j | i <= j < n
            ensures AnnouncedAt(local, init, j, id) == AnnouncedAt(local, events, j, id)
            ensures RemovedAt(init, j, id) == RemovedAt(events, j, id)
          {
            SameInPrefix(local, events, j, id);
          }
        }
        NothingStands(local, init, id);
      }
    }
  }

  lemma FindLatest(local: WsNode, events: seq<ChildEvent>, i: nat, id: int) returns (k: nat)
    requires StandsFrom(local, events, i, id)
    ensures LatestStands(local, events, k, id)
    decreases |events| - i
  {
    if j :| i < j < |events| && AnnouncedAt(local, events, j, id) {
      k := FindLatest(local, events, j, id);
    } else {
      k := i;
    }
  }

  /**
   * After any history of events the table holds exactly the ids of the nodes announced
   * and not removed since, under each of them the node announced last.
   */
  lemma {:induction false} TableIsAnnouncedAndNotRemoved(local: WsNode, events: seq<ChildEvent>, id: int)
    ensures var table := AfterAll(local, map[], events);
            && (id in table <==> exists i: nat :: StandsFrom(local, events, i, id))
            && (forall i: nat :: LatestStands(local, events, i, id) ==>
                                   id in table && table[id].Equals(Announces(local, events[i]).value))
            && (forall i: nat :: LatestStands(local, events, i, id) ==>
                                   && table[id].id == id && table[id].host == events[i].data.host
                                   && table[id].port == events[i].data.port)
  {
    hide AfterAll;
    if i: nat :| StandsFrom(local, events, i, id) {
      var k := FindLatest(local, events, i, id);
      StandingNode(local, events, k, id);
    } else {
      NothingStands(local, events, id);
    }
    forall i: nat | LatestStands(local, events, i, id)
      ensures id in AfterAll(local, map[], events)
      ensures AfterAll(local, map[], events)[id].Equals(Announces(local, events[i]).value)
      ensures var node := AfterAll(local, map[], events)[id];
              node.id == id && node.host == events[i].data.host && node.port == events[i].data.port
    {
      StandingNode(local, events, i, id);
    }
  }
}
