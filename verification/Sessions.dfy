/** A node's session manager: its own sessions and the remote ones it has looked up. */
module Sessions {
  import opened Outcomes
  import opened Nodes
  import opened Directories

  datatype ServerSession = LocalSession(userid: string, sessionId: string)
                         | RemoteSession(sessionNodeCache: SessionNodeCache) {
    function GetUserIdValue(): string {
      if LocalSession? then userid else sessionNodeCache.userid
    }

    function GetSessionId(): string {
      if LocalSession? then sessionId else sessionNodeCache.sessionid
    }
  }

  type SessionMap = map<string, ServerSession>

  /** What one node sees: itself, its session map and the shared store. */
  datatype Site = Site(wsNode: WsNode, sessionMap: SessionMap,
                       users: map<string, seq<SessionNodeCache>>, sessions: map<string, SessionNodeCache>)

  function Added(s: Site, userid: string, sid: string): Site {
    var c := SessionNodeCache(userid, sid, s.wsNode);
    Site(s.wsNode.(balance := s.wsNode.balance + 1), s.sessionMap[sid := LocalSession(userid, sid)],
         s.users[userid := Put(Entries(s.users, userid), c)], s.sessions[sid := c])
  }

  /** Removing an id that is not in the map does nothing; otherwise the counter goes down. */
  function Removed(s: Site, sid: string): Site {
    if sid !in s.sessionMap then s
    else
      var uid := s.sessionMap[sid].GetUserIdValue();
      Site(s.wsNode.(balance := s.wsNode.balance - 1), s.sessionMap - {sid},
           s.users[uid := Without(Entries(s.users, uid), sid)], s.sessions - {sid})
  }

  /** The map once every listed session it lacks has been put there as a remote one. */
  function WithRemotes(m: SessionMap, cs: seq<SessionNodeCache>): (r: SessionMap)
    ensures forall sid :: sid in m ==> sid in r && r[sid] == m[sid]
    ensures forall c :: c in cs ==> c.sessionid in r
  {
    if cs == [] then m
    else
      var r := WithRemotes(m, cs[..|cs| - 1]);
      var c := cs[|cs| - 1];
      if c.sessionid in r then r else r[c.sessionid := RemoteSession(c)]
  }

  function Fetched(s: Site, userid: string): Site {
    s.(sessionMap := WithRemotes(s.sessionMap, Entries(s.users, userid)))
  }

  /** The sessions a lookup returns, in the order of the directory; nothing for a user without any. */
  function Found(s: Site, userid: string): (r: Option<seq<ServerSession>>)
    ensures r.None? <==> Entries(s.users, userid) == []
    ensures r.Some? ==> |r.value| == |Entries(s.users, userid)|
  {
    var cs := Entries(s.users, userid);
    if cs == [] then None
    else
      var m := WithRemotes(s.sessionMap, cs);
      Some(seq(|cs|, i requires 0 <= i < |cs| => m[cs[i].sessionid]))
  }

  /** What `ConcurrentHashMap.contains` is asked about: it compares with the values. */
  datatype Object = AString(s: string) | ASession(session: ServerSession)

  predicate Contains(m: SessionMap, value: Object) {
    exists k :: k in m && ASession(m[k]) == value
  }

  datatype NotificationType = SESSION_ON | SESSION_OFF | CONNECT_FINISHED

  /** What a notification carries; the receiver parses all of them as a `ContentWrapper`. */
  datatype NotificationData = ContentWrapper(content: string) | NodeCacheWrapper(sessionNodeCache: SessionNodeCache)

  /** `removeRemoteSession`. */
  function RemoteRemoved(m: SessionMap, sid: string): (r: SessionMap)
    ensures r == m
  {
    if !Contains(m, AString(sid)) then m else m - {sid}
  }

  /** `addRemoteSession`. */
  function RemoteAdded(m: SessionMap, c: SessionNodeCache): (r: SessionMap)
    ensures r == m[c.sessionid := RemoteSession(c)]
  {
    if Contains(m, AString(c.sessionid)) then m else m[c.sessionid := RemoteSession(c)]
  }

  class SessionManager {
    const worker: NettyWorker
    const redis: Redis
    const userCacheDAO: UserCacheImpl
    var sessionMap: SessionMap

    constructor (worker: NettyWorker, redis: Redis)
      ensures this.worker == worker && this.redis == redis && Valid() && sessionMap == map[]
    {
      this.worker, this.redis, sessionMap := worker, redis, map[];
      userCacheDAO := new UserCacheImpl(redis);
    }

    ghost predicate Valid() {
      userCacheDAO.redis == redis
    }

    ghost function View(): Site
      reads this, worker, redis
    {
      Site(worker.wsNode, sessionMap, redis.users, redis.sessions)
    }

    method Add(userid: string, sessionId: string, written: bool)
      requires Valid()
      modifies this`sessionMap, worker`wsNode, redis
      ensures View() == Added(old(View()), userid, sessionId)
    {
      sessionMap := sessionMap[sessionId := LocalSession(userid, sessionId)];
      var sessionNodeCache := SessionNodeCache(userid, sessionId, worker.wsNode);
      redis.sessions := redis.sessions[sessionId := sessionNodeCache];
      userCacheDAO.AddSession(userid, sessionNodeCache);
      var _ := worker.IncBalance(written);
    }

    method GetSessionByUserId(userid: string) returns (r: Option<seq<ServerSession>>)
      requires Valid()
      modifies this`sessionMap
      ensures View() == Fetched(old(View()), userid) && r == Found(old(View()), userid)
    {
      ghost var site := View();
      assert WithRemotes(sessionMap, []) == sessionMap;
      var userCache := userCacheDAO.Get(userid);
      if userCache.None? {
        return None;
      }
      var allSession := userCache.value.entries;
      if |allSession| == 0 {
        return None;
      }
      var sessions := Collect(allSession);
      assert allSession == Entries(site.users, userid);
      assert sessions == Found(site, userid).value;
      r := Some(sessions);
    }

    /** The loop: a session the map lacks is put there as a remote one. */
    method Collect(allSession: seq<SessionNodeCache>) returns (sessions: seq<ServerSession>)
      modifies this`sessionMap
      ensures sessionMap == WithRemotes(old(sessionMap), allSession) && |sessions| == |allSession|
      ensures forall i :: 0 <= i < |allSession| ==>
                            allSession[i].sessionid in sessionMap && sessions[i] == sessionMap[allSession[i].sessionid]
    {
      sessions := [];
      for i := 0 to |allSession|
        invariant sessionMap == WithRemotes(old(sessionMap), allSession[..i]) && |sessions| == i
        invariant forall j :: 0 <= j < i ==>
                                allSession[j].sessionid in sessionMap &&
                                sessions[j] == sessionMap[allSession[j].sessionid]
      {
        var sessionNodeCache := allSession[i];
        assert allSession[..i + 1][..i] == allSession[..i];
        var sessionid := sessionNodeCache.sessionid;
        var session;
        if sessionid in sessionMap {
          session := sessionMap[sessionid];
        } else {
          session := RemoteSession(sessionNodeCache);
          sessionMap := sessionMap[sessionid := session];
        }
        sessions := sessions + [session];
      }
      assert allSession[..|allSession|] == allSession;
    }

    /** Without a bound session the guard itself throws: it asks a null session whether it is valid. */
    method CloseSession(localSession: Option<string>, written: bool) returns (r: Outcome<()>)
      requires Valid()
      modifies this`sessionMap, worker`wsNode, redis
      ensures r.Ok? <==> localSession.Some?
      ensures View() == if localSession.Some? then Removed(old(View()), localSession.value) else old(View())
    {
      if localSession.None? {
        return Throws;
      }
      Remove(localSession.value, written);
      r := Ok(());
    }

    method Remove(sessionId: string, written: bool)
      requires Valid()
      modifies this`sessionMap, worker`wsNode, redis
      ensures View() == Removed(old(View()), sessionId)
    {
      if sessionId !in sessionMap {
        return;
      }
      var uid := sessionMap[sessionId].GetUserIdValue();
      userCacheDAO.RemoveSession(uid, sessionId);
      redis.sessions := redis.sessions - {sessionId};
      sessionMap := sessionMap - {sessionId};
      var _ := worker.DecrBalance(written);
    }

    /** The guard asks for a value equal to the id, so nothing is ever removed. */
    method RemoveRemoteSession(sessionId: string)
      modifies this`sessionMap
      ensures sessionMap == old(sessionMap)
    {
      sessionMap := RemoteRemoved(sessionMap, sessionId);
    }

    /** The same guard never fires here: the entry is put in any case, even over a local session. */
    method AddRemoteSession(sessionNodeCache: SessionNodeCache)
      modifies this`sessionMap
      ensures sessionMap == old(sessionMap)[sessionNodeCache.sessionid := RemoteSession(sessionNodeCache)]
    {
      sessionMap := RemoteAdded(sessionMap, sessionNodeCache);
    }

    /** Notifications as they are parsed change nothing, and SESSION_ON ends in a null dereference. */
    method OnNotification(kind: NotificationType, data: NotificationData) returns (r: Outcome<()>)
      modifies this`sessionMap
      ensures data.ContentWrapper? ==> sessionMap == old(sessionMap) && (r.Ok? <==> kind != SESSION_ON)
    {
      if kind == SESSION_OFF {
        if !data.ContentWrapper? {
          return Throws;
        }
        RemoveRemoteSession(data.content);
      }
      if kind == SESSION_ON {
        if !data.NodeCacheWrapper? {
          return Throws;
        }
        AddRemoteSession(data.sessionNodeCache);
      }
      r := Ok(());
    }
  }
}
