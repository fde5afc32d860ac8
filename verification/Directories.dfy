/** The shared store: per user the open sessions in the order of their arrival. */
module Directories {
  import opened Outcomes
  import opened Nodes

  datatype SessionNodeCache = SessionNodeCache(userid: string, sessionid: string, wsNode: WsNode)

  /** `LinkedHashMap.put` under the entry's session id: a known key keeps its place. */
  function Put(s: seq<SessionNodeCache>, c: SessionNodeCache): (r: seq<SessionNodeCache>)
    ensures (forall d :: d in s ==> d.sessionid != c.sessionid) ==> r == s + [c]
  {
    if s == [] then [c]
    else if s[0].sessionid == c.sessionid then [c] + s[1..]
    else [s[0]] + Put(s[1..], c)
  }

  predicate UniqueIds(s: seq<SessionNodeCache>) {
    forall i, j :: 0 <= i < j < |s| ==> s[i].sessionid != s[j].sessionid
  }

  /** The keys of a map differ, and putting an entry under one of them changes that entry alone, in place. */
  lemma {:induction false} PutInPlace(s: seq<SessionNodeCache>, c: SessionNodeCache)
    requires UniqueIds(s)
    ensures UniqueIds(Put(s, c))
    ensures |Put(s, c)| >= |s|
    ensures forall i :: 0 <= i < |s| ==> Put(s, c)[i] == if s[i].sessionid == c.sessionid then c else s[i]
    ensures (exists d :: d in s && d.sessionid == c.sessionid) ==> |Put(s, c)| == |s|
  {
    if d :| d in s && d.sessionid == c.sessionid {
      PutKnown(s, c);
    }
  }

  lemma {:induction false} PutKnown(s: seq<SessionNodeCache>, c: SessionNodeCache)
    requires UniqueIds(s) && exists d :: d in s && d.sessionid == c.sessionid
    ensures |Put(s, c)| == |s|
    ensures forall i :: 0 <= i < |s| ==> Put(s, c)[i] == if s[i].sessionid == c.sessionid then c else s[i]
  {
    if s[0].sessionid != c.sessionid {
      var d :| d in s && d.sessionid == c.sessionid;
      assert d in s[1..];
      PutKnown(s[1..], c);
    }
  }

  /** `LinkedHashMap.remove`: an absent key changes nothing. */
  function Without(s: seq<SessionNodeCache>, sid: string): (r: seq<SessionNodeCache>)
    ensures forall d :: d in r ==> d in s
    ensures (forall d :: d in s ==> d.sessionid != sid) ==> r == s
  {
    if s == [] then []
    else if s[0].sessionid == sid then s[1..]
    else [s[0]] + Without(s[1..], sid)
  }

  /** Removing takes out the entry of that id and leaves all others in their order. */
  lemma {:induction false} WithoutClosesUp(s: seq<SessionNodeCache>, sid: string, i: nat)
    requires i < |s| && s[i].sessionid == sid && forall j :: 0 <= j < i ==> s[j].sessionid != sid
    ensures Without(s, sid) == s[..i] + s[i + 1..]
  {
    if i > 0 {
      WithoutClosesUp(s[1..], sid, i - 1);
      assert s[1..][..i - 1] == s[1..i] && s[1..][i..] == s[i + 1..];
      assert [s[0]] + (s[1..i] + s[i + 1..]) == s[..i] + s[i + 1..];
    } else {
      assert s[..0] + s[1..] == s[1..];
    }
  }

  class UserCache {
    var userId: string
    var entries: seq<SessionNodeCache>

    constructor (userId: string)
      ensures this.userId == userId && entries == []
    {
      this.userId, entries := userId, [];
    }

    method AddSession(session: SessionNodeCache)
      modifies this`entries
      ensures entries == Put(old(entries), session)
    {
      entries := Put(entries, session);
    }

    method RemoveSession(sessionId: string)
      modifies this`entries
      ensures entries == Without(old(entries), sessionId)
    {
      entries := Without(entries, sessionId);
    }
  }

  /** What the store holds for a user; nothing is as good as an empty list. */
  function Entries(users: map<string, seq<SessionNodeCache>>, userid: string): seq<SessionNodeCache> {
    if userid in users then users[userid] else []
  }

  /** Redis, holding what the access objects serialize. */
  class Redis {
    var users: map<string, seq<SessionNodeCache>>
    var sessions: map<string, SessionNodeCache>

    constructor ()
      ensures users == map[] && sessions == map[]
    {
      users, sessions := map[], map[];
    }
  }

  class UserCacheImpl {
    const redis: Redis

    constructor (redis: Redis)
      ensures this.redis == redis
    {
      this.redis := redis;
    }

    method Save(s: UserCache)
      modifies redis`users
      ensures redis.users == old(redis.users)[s.userId := s.entries]
    {
      redis.users := redis.users[s.userId := s.entries];
    }

    /** A fresh copy of what is stored. */
    method Get(userId: string) returns (r: Option<UserCache>)
      ensures r.None? <==> userId !in redis.users
      ensures r.Some? ==> fresh(r.value) && r.value.userId == userId && r.value.entries == redis.users[userId]
    {
      if userId in redis.users {
        var userCache := new UserCache(userId);
        userCache.entries := redis.users[userId];
        return Some(userCache);
      }
      r := None;
    }

    method AddSession(uid: string, session: SessionNodeCache)
      modifies redis`users
      ensures redis.users == old(redis.users)[uid := Put(Entries(old(redis.users), uid), session)]
    {
      var cached := Get(uid);
      var userCache;
      if cached.None? {
        userCache := new UserCache(uid);
      } else {
        userCache := cached.value;
      }
      userCache.AddSession(session);
      Save(userCache);
    }

    method RemoveSession(uid: string, sessionId: string)
      modifies redis`users
      ensures redis.users == old(redis.users)[uid := Without(Entries(old(redis.users), uid), sessionId)]
    {
      var cached := Get(uid);
      var userCache;
      if cached.None? {
        userCache := new UserCache(uid);
      } else {
        userCache := cached.value;
      }
      userCache.RemoveSession(sessionId);
      Save(userCache);
    }
  }
}
