/** What a node does with a DATA message: look the recipient up and write to every session. */
module Dispatch {
  import opened Directories
  import opened Sessions
  import opened Routers
  import opened Cluster
  import opened Delivery

  /** The client channels of a node, by session id. */
  class Channels {
    var writable: set<string>
    var out: seq<(string, DataMessage)>

    constructor ()
      ensures writable == {} && out == []
    {
      writable, out := {}, [];
    }

    /** `LocalSession.writeAndFlush`. */
    method WriteAndFlush(sid: string, pkg: DataMessage)
      modifies this`out
      ensures out == if sid in writable then old(out) + [(sid, pkg)] else old(out)
    {
      if sid in writable {
        out := out + [(sid, pkg)];
      }
    }
  }

  /** What writing to one session adds to the client channels. */
  function OneOut(s: ServerSession, writable: set<string>, pkg: DataMessage): seq<(string, DataMessage)> {
    if s.LocalSession? && s.sessionId in writable then [(s.sessionId, pkg)] else []
  }

  function LocalOut(ss: seq<ServerSession>, writable: set<string>, pkg: DataMessage): seq<(string, DataMessage)> {
    if ss == [] then [] else LocalOut(ss[..|ss| - 1], writable, pkg) + OneOut(ss[|ss| - 1], writable, pkg)
  }

  /** What writing to one session adds to what has been sent to the linked nodes. */
  function OneForwarded(sent: map<int, seq<DataMessage>>, s: ServerSession, linked: set<int>, pkg: DataMessage)
      : (r: map<int, seq<DataMessage>>)
    requires linked <= sent.Keys
    ensures r.Keys == sent.Keys
  {
    if s.RemoteSession? && s.sessionNodeCache.wsNode.id in linked
    then sent[s.sessionNodeCache.wsNode.id := sent[s.sessionNodeCache.wsNode.id] + [pkg]] else sent
  }

  function ForwardedOut(sent: map<int, seq<DataMessage>>, ss: seq<ServerSession>, linked: set<int>, pkg: DataMessage)
      : (r: map<int, seq<DataMessage>>)
    requires linked <= sent.Keys
    ensures r.Keys == sent.Keys
  {
    if ss == [] then sent
    else OneForwarded(ForwardedOut(sent, ss[..|ss| - 1], linked, pkg), ss[|ss| - 1], linked, pkg)
  }

  function SessionsFor(s: Site, userid: string): seq<ServerSession> {
    var found := Found(s, userid);
    if found.Some? then found.value else []
  }

  lemma NothingOut(out: seq<(string, DataMessage)>, writable: set<string>, sent: map<int, seq<DataMessage>>,
                   linked: set<int>, pkg: DataMessage)
    requires linked <= sent.Keys
    ensures out + LocalOut([], writable, pkg) == out && ForwardedOut(sent, [], linked, pkg) == sent
  {
  }

  lemma NextOut(ss: seq<ServerSession>, i: nat, out: seq<(string, DataMessage)>, writable: set<string>,
                sent: map<int, seq<DataMessage>>, linked: set<int>, pkg: DataMessage)
    requires i < |ss| && linked <= sent.Keys
    ensures out + LocalOut(ss[..i + 1], writable, pkg) ==
            out + LocalOut(ss[..i], writable, pkg) + OneOut(ss[i], writable, pkg)
    ensures ForwardedOut(sent, ss[..i + 1], linked, pkg) ==
            OneForwarded(ForwardedOut(sent, ss[..i], linked, pkg), ss[i], linked, pkg)
  {
    hide OneOut, OneForwarded;
    assert ss[..i + 1][..i] == ss[..i];
  }

  class BinaryHandler {
    const manager: SessionManager
    const router: NodeRouter
    const channels: Channels

    constructor (manager: SessionManager, router: NodeRouter, channels: Channels)
      ensures this.manager == manager && this.router == router && this.channels == channels
    {
      this.manager, this.router, this.channels := manager, router, channels;
    }

    method WriteTo(session: ServerSession, pkg: DataMessage)
      requires router.Valid()
      modifies channels`out, router.workerMap.Values
      ensures router.Valid() && router.Linked() == old(router.Linked())
      ensures channels.out == old(channels.out) + OneOut(session, channels.writable, pkg)
      ensures router.Sent() == OneForwarded(old(router.Sent()), session, router.Linked(), pkg)
    {
      if session.LocalSession? {
        channels.WriteAndFlush(session.sessionId, pkg);
      } else {
        router.Forward(session.sessionNodeCache.wsNode.id, pkg);
      }
    }

    /** Writing one message to every session of a list. */
    method WriteToAll(toSessions: seq<ServerSession>, pkg: DataMessage)
      requires router.Valid()
      modifies channels`out, router.workerMap.Values
      ensures router.Valid() && router.Linked() == old(router.Linked())
      ensures channels.out == old(channels.out) + LocalOut(toSessions, channels.writable, pkg)
      ensures router.Sent() == ForwardedOut(old(router.Sent()), toSessions, router.Linked(), pkg)
    {
      hide NodeRouter.Valid, NodeRouter.Sent, NodeRouter.Linked, OneOut, OneForwarded, LocalOut, ForwardedOut;
      ghost var out, sent, linked := channels.out, router.Sent(), router.Linked();
      LinkedInTable();
      NothingOut(out, channels.writable, sent, linked, pkg);
      assert toSessions[..0] == [];
      for i := 0 to |toSessions|
        invariant router.Valid() && router.Linked() == linked
        invariant channels.out == out + LocalOut(toSessions[..i], channels.writable, pkg)
        invariant router.Sent() == ForwardedOut(sent, toSessions[..i], linked, pkg)
      {
        NextOut(toSessions, i, out, channels.writable, sent, linked, pkg);
        WriteTo(toSessions[i], pkg);
      }
      assert toSessions[..|toSessions|] == toSessions;
    }

    lemma LinkedInTable()
      ensures router.Linked() <= router.Sent().Keys
    {
    }

    /** The recipient was looked up in the node's state before, and every session found was written to. */
    ghost predicate Delivered(site: Site, out: seq<(string, DataMessage)>, sent: map<int, seq<DataMessage>>,
                              model: DataMessage)
      reads manager, manager.worker, manager.redis, channels, router, router.workerMap.Values, router.created
    {
      var ss := SessionsFor(site, model.to);
      && router.Valid() && router.Linked() <= sent.Keys
      && manager.View() == Fetched(site, model.to)
      && channels.out == out + LocalOut(ss, channels.writable, model)
      && router.Sent() == ForwardedOut(sent, ss, router.Linked(), model)
    }

    /** `MsgProcesser.action`. */
    method Action(model: DataMessage)
      requires manager.Valid() && router.Valid()
      modifies manager`sessionMap, channels`out, router.workerMap.Values
      ensures Delivered(old(manager.View()), old(channels.out), old(router.Sent()), model)
    {
      hide NodeRouter.Valid, NodeRouter.Sent, NodeRouter.Linked, LocalOut, ForwardedOut, Fetched, Found;
      LinkedInTable();
      NothingOut(channels.out, channels.writable, router.Sent(), router.Linked(), model);
      var toSessions := manager.GetSessionByUserId(model.to);
      if toSessions.Some? {
        WriteToAll(toSessions.value, model);
      }
    }

    /** The handler's own lookup and loop, for a message from a peer node. */
    method FromPeer(model: DataMessage)
      requires manager.Valid() && router.Valid()
      modifies manager`sessionMap, channels`out, router.workerMap.Values
      ensures Delivered(old(manager.View()), old(channels.out), old(router.Sent()), model)
    {
      hide NodeRouter.Valid, NodeRouter.Sent, NodeRouter.Linked, LocalOut, ForwardedOut, Fetched, Found;
      LinkedInTable();
      NothingOut(channels.out, channels.writable, router.Sent(), router.Linked(), model);
      var to := model.to;
      var toSessions := manager.GetSessionByUserId(to);
      if toSessions.Some? {
        WriteToAll(toSessions.value, model);
      }
    }

    /**
     * Messages of other kinds are passed on. A DATA message of a client with an active session
     * goes through the processor; for one from a peer node the handler repeats the processor's
     * lookup and loop.
     */
    method ChannelRead(isData: bool, active: bool, model: DataMessage) returns (passedOn: bool)
      requires manager.Valid() && router.Valid()
      modifies manager`sessionMap, channels`out, router.workerMap.Values
      ensures passedOn <==> !isData
      ensures isData ==> Delivered(old(manager.View()), old(channels.out), old(router.Sent()), model)
      ensures !isData ==> manager.View() == old(manager.View()) && channels.out == old(channels.out) &&
                          router.Sent() == old(router.Sent())
    {
      if !isData {
        return true;
      }
      passedOn := false;
      if active {
        hide Delivered;
        Action(model);
      } else {
        hide Delivered;
        FromPeer(model);
      }
    }
  }

  // ---- the same as a step of the delivery ----

  function Sids(out: seq<(string, DataMessage)>): multiset<string> {
    if out == [] then multiset{} else Sids(out[..|out| - 1]) + multiset{out[|out| - 1].0}
  }

  lemma {:induction false} WritesAppend(ss: seq<ServerSession>, s: ServerSession, writable: set<string>)
    ensures Writes(ss + [s], writable) == Writes(ss, writable) + WriteOf(s, writable)
  {
    hide WriteOf;
    if ss == [] {
      assert [] + [s] == [s] && [s][1..] == [];
    } else {
      WritesAppend(ss[1..], s, writable);
      var t := ss + [s];
      assert t[0] == ss[0] && t[1..] == ss[1..] + [s];
      assert Writes(t, writable) == WriteOf(ss[0], writable) + Writes(t[1..], writable);
    }
  }

  lemma {:induction false} CopiesAppend(n: int, ss: seq<ServerSession>, s: ServerSession, links: set<(int, int)>)
    ensures Copies(n, ss + [s], links) == Copies(n, ss, links) + CopyOf(n, s, links)
  {
    hide CopyOf;
    if ss == [] {
      assert [] + [s] == [s] && [s][1..] == [];
    } else {
      CopiesAppend(n, ss[1..], s, links);
      var t := ss + [s];
      assert t[0] == ss[0] && t[1..] == ss[1..] + [s];
      assert Copies(n, t, links) == CopyOf(n, ss[0], links) + Copies(n, t[1..], links);
    }
  }

  /** The writes of the loop are the writes of the delivery step. */
  lemma {:induction false} LocalOutIsWrites(ss: seq<ServerSession>, writable: set<string>, pkg: DataMessage)
    ensures Sids(LocalOut(ss, writable, pkg)) == Writes(ss, writable)
    ensures forall o :: o in LocalOut(ss, writable, pkg) ==> o.1 == pkg
    decreases |ss|
  {
    if ss != [] {
      var init, s := ss[..|ss| - 1], ss[|ss| - 1];
      assert ss == init + [s];
      LocalOutIsWrites(init, writable, pkg);
      WritesAppend(init, s, writable);
      SidsAppend(LocalOut(init, writable, pkg), s, writable, pkg);
    }
  }

  /** The writes keep the order of the sessions. */
  lemma {:induction false} LocalOutInOrder(ss: seq<ServerSession>, tt: seq<ServerSession>, writable: set<string>,
                                           pkg: DataMessage)
    ensures LocalOut(ss + tt, writable, pkg) == LocalOut(ss, writable, pkg) + LocalOut(tt, writable, pkg)
    decreases |tt|
  {
    if tt == [] {
      assert ss + tt == ss;
    } else {
      var init, s := tt[..|tt| - 1], tt[|tt| - 1];
      assert (ss + tt)[..|ss + tt| - 1] == ss + init;
      LocalOutInOrder(ss, init, writable, pkg);
    }
  }

  /** One session: a local one with a writable channel gets the message, a remote one nothing. */
  lemma LocalOutOfOne(userid: string, sid: string, c: SessionNodeCache, writable: set<string>, pkg: DataMessage)
    ensures LocalOut([LocalSession(userid, sid)], writable, pkg) == if sid in writable then [(sid, pkg)] else []
    ensures LocalOut([RemoteSession(c)], writable, pkg) == []
  {
    assert [LocalSession(userid, sid)][..0] == [] && [RemoteSession(c)][..0] == [];
  }

  lemma SidsAppend(out: seq<(string, DataMessage)>, s: ServerSession, writable: set<string>, pkg: DataMessage)
    ensures Sids(out + OneOut(s, writable, pkg)) == Sids(out) + WriteOf(s, writable)
  {
    if s.LocalSession? && s.sessionId in writable {
      assert (out + [(s.sessionId, pkg)])[..|out|] == out;
    } else {
      assert out + [] == out;
    }
  }

  /** And so are the copies: as many to each node as the step puts under way to it. */
  lemma {:induction false} ForwardedOutIsCopies(n: int, sent: map<int, seq<DataMessage>>, ss: seq<ServerSession>,
                                                linked: set<int>, links: set<(int, int)>, pkg: DataMessage, id: int)
    requires linked <= sent.Keys && id in sent
    requires forall m :: m in linked <==> (n, m) in links
    ensures |ForwardedOut(sent, ss, linked, pkg)[id]| == |sent[id]| + Copies(n, ss, links)[id]
    ensures sent[id] <= ForwardedOut(sent, ss, linked, pkg)[id]
    ensures forall i :: |sent[id]| <= i < |ForwardedOut(sent, ss, linked, pkg)[id]| ==>
                          ForwardedOut(sent, ss, linked, pkg)[id][i] == pkg
    decreases |ss|
  {
    if ss != [] {
      var init, s := ss[..|ss| - 1], ss[|ss| - 1];
      assert ss == init + [s];
      ForwardedOutIsCopies(n, sent, init, linked, links, pkg, id);
      CopiesAppend(n, init, s, links);
      hide OneForwarded, CopyOf, Copies;
      OneForwardedIsCopy(n, ForwardedOut(sent, init, linked, pkg), s, linked, links, pkg, id);
    }
  }

  lemma OneForwardedIsCopy(n: int, sent: map<int, seq<DataMessage>>, s: ServerSession,
                           linked: set<int>, links: set<(int, int)>, pkg: DataMessage, id: int)
    requires linked <= sent.Keys && id in sent
    requires forall m :: m in linked <==> (n, m) in links
    ensures OneForwarded(sent, s, linked, pkg)[id] == sent[id] + seq(CopyOf(n, s, links)[id], _ => pkg)
  {
  }

  /**
   * A handler on node n takes the step of the delivery: its state becomes that of the run
   * with the lookup, it writes what the step writes, and sends what the step puts under way.
   */
  lemma {:induction false} HandlerTakesTheStep(p: Setting, d: Progress, n: int, sent: map<int, seq<DataMessage>>,
                                               linked: set<int>, pkg: DataMessage)
    requires Possible(p, d, Handle(n)) && linked <= sent.Keys
    requires forall m :: m in linked <==> (n, m) in p.links
    ensures var site, d' := Run(p.start, d.h).At(n), Do(p, d, Handle(n));
            var ss := SessionsFor(site, p.userid);
            && Legal(p.start.servers.Keys, d'.h) && Run(p.start, d'.h).At(n) == Fetched(site, p.userid)
            && d'.written == d.written + Sids(LocalOut(ss, p.writable, pkg))
            && forall id :: id in sent ==>
                 d'.inflight[id] + |sent[id]| ==
                 (d.inflight - multiset{n})[id] + |ForwardedOut(sent, ss, linked, pkg)[id]|
  {
    var site := Run(p.start, d.h).At(n);
    var ss := SessionsFor(site, p.userid);
    ActionKeepsOpen(p, d, Handle(n));
    Last(d.h, Lookup(n, p.userid));
    LocalOutIsWrites(ss, p.writable, pkg);
    hide Legal, OpenOf, Births, Found, Fetched, Writes, Copies, LocalOut, ForwardedOut, Sids;
    forall id | id in sent
      ensures |ForwardedOut(sent, ss, linked, pkg)[id]| == |sent[id]| + Copies(n, ss, p.links)[id]
    {
      ForwardedOutIsCopies(n, sent, ss, linked, p.links, pkg, id);
    }
  }
}
