/**
 * All nodes over the shared directory: runs of connects, lookups, closes and
 * notifications, each one atomic step.
 */
module Cluster {
  import opened Nodes
  import opened Directories
  import opened Sessions

  datatype Server = Server(wsNode: WsNode, sessionMap: SessionMap)

  datatype State = State(servers: map<int, Server>, users: map<string, seq<SessionNodeCache>>,
                         sessions: map<string, SessionNodeCache>)
  {
    function At(n: int): Site
      requires n in servers
    {
      Site(servers[n].wsNode, servers[n].sessionMap, users, sessions)
    }

    function With(n: int, s: Site): State {
      State(servers[n := Server(s.wsNode, s.sessionMap)], s.users, s.sessions)
    }
  }

  datatype Step = Connect(node: int, userid: string, sid: string)
                | Lookup(node: int, userid: string)
                | Close(node: int, sid: string)
                | Notified(node: int, sid: string)

  function Next(c: State, e: Step): State
    requires e.node in c.servers
  {
    match e
    case Connect(n, userid, sid) => c.With(n, Added(c.At(n), userid, sid))
    case Lookup(n, userid) => c.With(n, Fetched(c.At(n), userid))
    case Close(n, sid) => c.With(n, Removed(c.At(n), sid))
    case Notified(n, sid) => c.With(n, c.At(n).(sessionMap := RemoteRemoved(c.At(n).sessionMap, sid)))
  }

  // ---- histories: what has happened, independent of how the servers keep track ----

  datatype Birth = Birth(userid: string, node: int)

  /** For every session that ever connected its user and its home node. */
  function Births(h: seq<Step>): map<string, Birth> {
    if h == [] then map[]
    else
      var b := Births(h[..|h| - 1]);
      var e := h[|h| - 1];
      if e.Connect? then b[e.sid := Birth(e.userid, e.node)] else b
  }

  datatype Open = Open(sid: string, node: int)

  function Dropped(s: seq<Open>, sid: string): (r: seq<Open>)
    ensures forall o :: o in r ==> o in s
  {
    if s == [] then [] else if s[0].sid == sid then s[1..] else [s[0]] + Dropped(s[1..], sid)
  }

  /** The sessions of a user that have connected and not closed, oldest first. */
  function OpenOf(h: seq<Step>, userid: string): seq<Open> {
    if h == [] then []
    else
      var s := OpenOf(h[..|h| - 1], userid);
      var e := h[|h| - 1];
      if e.Connect? && e.userid == userid then s + [Open(e.sid, e.node)]
      else if e.Close? then Dropped(s, e.sid)
      else s
  }

  /** Session ids are fresh, and a session is closed on the node it connected to, perhaps repeatedly. */
  predicate Legal(nodes: set<int>, h: seq<Step>) {
    h == [] ||
    var init, e := h[..|h| - 1], h[|h| - 1];
    && Legal(nodes, init)
    && e.node in nodes
    && (e.Connect? ==> e.sid !in Births(init))
    && (e.Close? ==> e.sid in Births(init) && Births(init)[e.sid].node == e.node)
  }

  /** Nothing connected, every counter zero, every server under its own id. */
  predicate Fresh(c: State) {
    && c.users == map[] && c.sessions == map[]
    && forall n :: n in c.servers ==>
                     c.servers[n].wsNode.id == n && c.servers[n].wsNode.balance == 0 && c.servers[n].sessionMap == map[]
  }

  function Run(c: State, h: seq<Step>): (r: State)
    requires Legal(c.servers.Keys, h)
    ensures r.servers.Keys == c.servers.Keys
  {
    if h == [] then c else Next(Run(c, h[..|h| - 1]), h[|h| - 1])
  }

  // ---- the invariant ----

  predicate IsOpen(h: seq<Step>, sid: string): (b: bool)
    ensures b ==> sid in Births(h)
  {
    sid in Births(h) && Open(sid, Births(h)[sid].node) in OpenOf(h, Births(h)[sid].userid)
  }

  function OpensOf(cs: seq<SessionNodeCache>): (r: seq<Open>)
    ensures |r| == |cs|
  {
    seq(|cs|, i requires 0 <= i < |cs| => Open(cs[i].sessionid, cs[i].wsNode.id))
  }

  /** The directory lists exactly the open sessions of the user, in order, each under its user. */
  predicate DirectoryTrue(h: seq<Step>, users: map<string, seq<SessionNodeCache>>, userid: string) {
    && OpensOf(Entries(users, userid)) == OpenOf(h, userid)
    && forall c :: c in Entries(users, userid) ==> c.userid == userid
  }

  /** What a session map entry of node n under sid may be. */
  predicate EntryTrue(h: seq<Step>, n: int, sid: string, session: ServerSession) {
    && sid in Births(h)
    && session.GetSessionId() == sid
    && session.GetUserIdValue() == Births(h)[sid].userid
    && (session.LocalSession? ==> Births(h)[sid].node == n && IsOpen(h, sid))
    && (session.RemoteSession? ==> Births(h)[sid].node == session.sessionNodeCache.wsNode.id != n)
  }

  /** A server's map: every entry is true, and every open session of its own is there. */
  ghost predicate MapTrue(h: seq<Step>, n: int, m: SessionMap) {
    && (forall sid :: sid in m ==> EntryTrue(h, n, sid, m[sid]))
    && (forall sid :: IsOpen(h, sid) && Births(h)[sid].node == n ==> sid in m && m[sid].LocalSession?)
  }

  function Locals(m: SessionMap): set<string> {
    set sid | sid in m && m[sid].LocalSession?
  }

  ghost predicate ServerTrue(h: seq<Step>, n: int, s: Server) {
    && s.wsNode.id == n
    && MapTrue(h, n, s.sessionMap)
    && s.wsNode.balance == |Locals(s.sessionMap)|
  }

  /** The per-session records: exactly the open sessions, with their user and home. */
  ghost predicate RecordsTrue(h: seq<Step>, sessions: map<string, SessionNodeCache>) {
    forall sid :: RecordTrue(h, sessions, sid)
  }

  predicate RecordTrue(h: seq<Step>, sessions: map<string, SessionNodeCache>, sid: string) {
    && (sid in sessions <==> IsOpen(h, sid))
    && (sid in sessions ==> Birth(sessions[sid].userid, sessions[sid].wsNode.id) == Births(h)[sid])
  }

  ghost predicate Inv(h: seq<Step>, c: State) {
    && (forall userid :: DirectoryTrue(h, c.users, userid))
    && (forall n :: n in c.servers ==> ServerTrue(h, n, c.servers[n]))
    && RecordsTrue(h, c.sessions)
  }

  // ---- facts about histories ----

  lemma Last(h: seq<Step>, e: Step)
    ensures (h + [e])[..|h + [e]| - 1] == h && (h + [e])[|h + [e]| - 1] == e
  {
    assert (h + [e])[..|h|] == h;
  }

  lemma NextBirths(nodes: set<int>, h: seq<Step>, e: Step)
    requires Legal(nodes, h + [e])
    ensures Legal(nodes, h) && e.node in nodes
    ensures Births(h + [e]) == if e.Connect? then Births(h)[e.sid := Birth(e.userid, e.node)] else Births(h)
    ensures e.Connect? ==> e.sid !in Births(h)
    ensures e.Close? ==> e.sid in Births(h) && Births(h)[e.sid].node == e.node
  {
    Last(h, e);
  }

  lemma NextOpen(h: seq<Step>, e: Step, userid: string)
    ensures OpenOf(h + [e], userid) ==
            if e.Connect? && e.userid == userid then OpenOf(h, userid) + [Open(e.sid, e.node)]
            else if e.Close? then Dropped(OpenOf(h, userid), e.sid)
            else OpenOf(h, userid)
  {
    Last(h, e);
  }

  predicate Distinct(s: seq<Open>) {
    forall i, j :: 0 <= i < j < |s| ==> s[i].sid != s[j].sid
  }

  lemma {:induction false} DroppedMembers(s: seq<Open>, sid: string)
    requires Distinct(s)
    ensures Distinct(Dropped(s, sid))
    ensures forall o :: o in Dropped(s, sid) <==> o in s && o.sid != sid
    ensures (forall o :: o in s ==> o.sid != sid) ==> Dropped(s, sid) == s
  {
    if s != [] {
      var rest := Dropped(s[1..], sid);
      assert Dropped(s, sid) == if s[0].sid == sid then s[1..] else [s[0]] + rest;
      hide Distinct, Dropped;
      HeadDistinct(s);
      DroppedMembers(s[1..], sid);
      if s[0].sid != sid {
        DistinctCons(s[0], rest);
        FrontMembers(s[0], rest);
        assert s == [s[0]] + s[1..];
      }
    }
  }

  lemma FrontMembers(o: Open, s: seq<Open>)
    ensures forall p :: p in [o] + s <==> p == o || p in s
  {
  }

  lemma HeadDistinct(s: seq<Open>)
    requires s != [] && Distinct(s)
    ensures Distinct(s[1..]) && forall o :: o in s[1..] ==> o.sid != s[0].sid
    ensures forall o :: o in s <==> o == s[0] || o in s[1..]
  {
    assert s == [s[0]] + s[1..];
  }

  lemma DistinctCons(o: Open, s: seq<Open>)
    requires Distinct(s) && forall p :: p in s ==> p.sid != o.sid
    ensures Distinct([o] + s)
  {
  }

  /** An open session was born with this user and home, and is listed once. */
  lemma {:induction false} OpenBorn(nodes: set<int>, h: seq<Step>, userid: string)
    requires Legal(nodes, h)
    ensures Distinct(OpenOf(h, userid))
    ensures forall o :: o in OpenOf(h, userid) ==> o.sid in Births(h) && Births(h)[o.sid] == Birth(userid, o.node)
    decreases |h|
  {
    if h != [] {
      var init, e := h[..|h| - 1], h[|h| - 1];
      assert h == init + [e];
      OpenBorn(nodes, init, userid);
      if e.Close? {
        DroppedMembers(OpenOf(init, userid), e.sid);
      }
    }
  }

  /** Connecting opens a session, closing it ends that, and nothing else does either. */
  lemma NextIsOpen(nodes: set<int>, h: seq<Step>, e: Step, sid: string)
    requires Legal(nodes, h + [e])
    ensures IsOpen(h + [e], sid) <==>
            (e.Connect? && e.sid == sid) || (IsOpen(h, sid) && !(e.Close? && e.sid == sid))
  {
    hide Legal, Births, OpenOf;
    NextBirths(nodes, h, e);
    if sid in Births(h + [e]) {
      var userid := Births(h + [e])[sid].userid;
      NextOpen(h, e, userid);
      OpenBorn(nodes, h, userid);
      if e.Close? {
        DroppedMembers(OpenOf(h, userid), e.sid);
      }
    }
  }

  // ---- what is open, by the events themselves ----

  /** At `i` the session connects for this user, and no later event closes it. */
  predicate StaysOpen(h: seq<Step>, userid: string, o: Open, i: nat) {
    && i < |h| && h[i] == Connect(o.node, userid, o.sid)
    && forall j :: i < j < |h| ==> !(h[j].Close? && h[j].sid == o.sid)
  }

  lemma StaysOpenInPrefix(h: seq<Step>, userid: string, o: Open, i: nat)
    requires i < |h| - 1
    ensures var n := |h| - 1;
            StaysOpen(h, userid, o, i) <==> StaysOpen(h[..n], userid, o, i) && !(h[n].Close? && h[n].sid == o.sid)
  {
  }

  /** The sessions of a list have connected at these points, one after the other, and stay open. */
  ghost predicate ListedBy(h: seq<Step>, userid: string, s: seq<Open>, at: seq<nat>) {
    && |at| == |s|
    && (forall k :: 0 <= k < |s| ==> StaysOpen(h, userid, s[k], at[k]))
    && forall k, l :: 0 <= k < l < |s| ==> at[k] < at[l]
  }

  lemma {:induction false} DroppedFrom(s: seq<Open>, sid: string) returns (k: nat)
    ensures k <= |s| && forall i :: 0 <= i < k ==> s[i].sid != sid
    ensures k == |s| ==> Dropped(s, sid) == s
    ensures k < |s| ==> s[k].sid == sid && Dropped(s, sid) == s[..k] + s[k + 1..]
  {
    if s == [] || s[0].sid == sid {
      k := 0;
    } else {
      var k' := DroppedFrom(s[1..], sid);
      k := k' + 1;
      assert k < |s| ==> [s[0]] + (s[1..][..k'] + s[1..][k' + 1..]) == s[..k] + s[k + 1..];
    }
  }

  lemma ListedAfter(h: seq<Step>, e: Step, userid: string, s: seq<Open>, at: seq<nat>)
    requires ListedBy(h, userid, s, at) && forall o :: o in s ==> !(e.Close? && e.sid == o.sid)
    ensures ListedBy(h + [e], userid, s, at)
  {
    forall k | 0 <= k < |s|
      ensures StaysOpen(h + [e], userid, s[k], at[k])
    {
      assert s[k] in s;
      assert StaysOpen(h, userid, s[k], at[k]);
    }
  }

  lemma ListedAppend(h: seq<Step>, userid: string, s: seq<Open>, at: seq<nat>, o: Open, i: nat)
    requires ListedBy(h, userid, s, at) && StaysOpen(h, userid, o, i) && forall k :: 0 <= k < |s| ==> at[k] < i
    ensures ListedBy(h, userid, s + [o], at + [i])
  {
    hide StaysOpen;
  }

  lemma ListedWithout(h: seq<Step>, userid: string, s: seq<Open>, at: seq<nat>, k: nat)
    requires ListedBy(h, userid, s, at) && k < |s|
    ensures ListedBy(h, userid, s[..k] + s[k + 1..], at[..k] + at[k + 1..])
  {
    hide StaysOpen;
  }

  /** The open sessions are sessions that connected and were not closed since, in the order of connecting. */
  lemma {:induction false} OpenOnesStay(nodes: set<int>, h: seq<Step>, userid: string) returns (at: seq<nat>)
    requires Legal(nodes, h)
    ensures ListedBy(h, userid, OpenOf(h, userid), at)
    decreases |h|
  {
    if h == [] {
      at := [];
    } else {
      var init, e := h[..|h| - 1], h[|h| - 1];
      assert h == init + [e];
      NextOpen(init, e, userid);
      NextBirths(nodes, init, e);
      OpenBorn(nodes, init, userid);
      hide Legal, OpenOf, Births, StaysOpen, ListedBy;
      at := OpenOnesStay(nodes, init, userid);
      var s := OpenOf(init, userid);
      if e.Close? {
        var k := DroppedFrom(s, e.sid);
        DroppedMembers(s, e.sid);
        if k < |s| {
          ListedWithout(init, userid, s, at, k);
          at := at[..k] + at[k + 1..];
        }
        ListedAfter(init, e, userid, Dropped(s, e.sid), at);
      } else {
        ListedAfter(init, e, userid, s, at);
        if e.Connect? && e.userid == userid {
          ConnectListed(init, e, s, at);
          at := at + [|init|];
        }
      }
    }
  }

  lemma ConnectListed(h: seq<Step>, e: Step, s: seq<Open>, at: seq<nat>)
    requires e.Connect? && ListedBy(h, e.userid, s, at) && ListedBy(h + [e], e.userid, s, at)
    ensures ListedBy(h + [e], e.userid, s + [Open(e.sid, e.node)], at + [|h|])
  {
    assert StaysOpen(h + [e], e.userid, Open(e.sid, e.node), |h|);
    assert forall k :: 0 <= k < |s| ==> StaysOpen(h, e.userid, s[k], at[k]);
    ListedAppend(h + [e], e.userid, s, at, Open(e.sid, e.node), |h|);
  }

  /** And all of them. */
  lemma {:induction false} StayingOnesAreOpen(nodes: set<int>, h: seq<Step>, userid: string, o: Open, i: nat)
    requires Legal(nodes, h) && StaysOpen(h, userid, o, i)
    ensures o in OpenOf(h, userid)
    decreases |h|
  {
    var init, e := h[..|h| - 1], h[|h| - 1];
    assert h == init + [e];
    NextOpen(init, e, userid);
    OpenBorn(nodes, init, userid);
    hide Legal, OpenOf, Births;
    if i < |init| {
      StaysOpenInPrefix(h, userid, o, i);
      LegalPrefix(nodes, h);
      StayingOnesAreOpen(nodes, init, userid, o, i);
      if e.Close? {
        DroppedMembers(OpenOf(init, userid), e.sid);
      }
    }
  }

  lemma LegalPrefix(nodes: set<int>, h: seq<Step>)
    requires Legal(nodes, h) && h != []
    ensures Legal(nodes, h[..|h| - 1])
  {
  }

  // ---- the directory ----

  lemma {:induction false} OpensOfWithout(cs: seq<SessionNodeCache>, sid: string)
    ensures OpensOf(Without(cs, sid)) == Dropped(OpensOf(cs), sid)
  {
    if cs != [] {
      OpensOfWithout(cs[1..], sid);
      assert OpensOf(cs)[1..] == OpensOf(cs[1..]);
    }
  }

  lemma ListedIsBorn(nodes: set<int>, h: seq<Step>, users: map<string, seq<SessionNodeCache>>, userid: string)
    requires Legal(nodes, h) && DirectoryTrue(h, users, userid)
    ensures forall c :: c in Entries(users, userid) ==>
                          c.sessionid in Births(h) && Births(h)[c.sessionid] == Birth(userid, c.wsNode.id) &&
                          IsOpen(h, c.sessionid)
  {
    hide Legal, Births, OpenOf;
    OpenBorn(nodes, h, userid);
    var cs := Entries(users, userid);
    forall c | c in cs
      ensures c.sessionid in Births(h) && Births(h)[c.sessionid] == Birth(userid, c.wsNode.id) && IsOpen(h, c.sessionid)
    {
      var i :| 0 <= i < |cs| && cs[i] == c;
      assert OpensOf(cs)[i] == Open(c.sessionid, c.wsNode.id);
    }
  }

  lemma ConnectKeepsDirectory(nodes: set<int>, h: seq<Step>, e: Step, s: Site, userid: string)
    requires Legal(nodes, h + [e]) && e.Connect? && s.wsNode.id == e.node
    requires DirectoryTrue(h, s.users, userid)
    ensures DirectoryTrue(h + [e], Added(s, e.userid, e.sid).users, userid)
  {
    hide Legal, Births, OpenOf, IsOpen;
    NextBirths(nodes, h, e);
    NextOpen(h, e, userid);
    ListedIsBorn(nodes, h, s.users, userid);
    if userid == e.userid {
      var cs, c := Entries(s.users, userid), SessionNodeCache(userid, e.sid, s.wsNode);
      assert Put(cs, c) == cs + [c];
      assert OpensOf(cs + [c]) == OpensOf(cs) + [Open(e.sid, e.node)];
    }
  }

  lemma CloseKeepsDirectory(nodes: set<int>, h: seq<Step>, e: Step, s: Site, userid: string)
    requires Legal(nodes, h + [e]) && e.Close?
    requires MapTrue(h, e.node, s.sessionMap) && DirectoryTrue(h, s.users, userid)
    ensures DirectoryTrue(h + [e], Removed(s, e.sid).users, userid)
  {
    hide Legal, Births, OpenOf;
    NextBirths(nodes, h, e);
    NextOpen(h, e, userid);
    OpenBorn(nodes, h, userid);
    DroppedMembers(OpenOf(h, userid), e.sid);
    if e.sid in s.sessionMap {
      assert EntryTrue(h, e.node, e.sid, s.sessionMap[e.sid]);
      OpensOfWithout(Entries(s.users, userid), e.sid);
    }
  }

  // ---- the session maps ----

  lemma ConnectKeepsMap(nodes: set<int>, h: seq<Step>, e: Step, n: int, m: SessionMap)
    requires Legal(nodes, h + [e]) && e.Connect? && MapTrue(h, n, m)
    ensures e.sid !in m
    ensures MapTrue(h + [e], n, if n == e.node then m[e.sid := LocalSession(e.userid, e.sid)] else m)
  {
    hide Legal, Births, OpenOf, IsOpen;
    NextBirths(nodes, h, e);
    var m' := if n == e.node then m[e.sid := LocalSession(e.userid, e.sid)] else m;
    assert forall sid :: sid in m ==> EntryTrue(h, n, sid, m[sid]) && sid in Births(h);
    forall sid | sid in m'
      ensures EntryTrue(h + [e], n, sid, m'[sid])
    {
      NextIsOpen(nodes, h, e, sid);
      if sid in m {
        assert EntryTrue(h, n, sid, m[sid]);
      }
    }
    forall sid | IsOpen(h + [e], sid) && Births(h + [e])[sid].node == n
      ensures sid in m' && m'[sid].LocalSession?
    {
      NextIsOpen(nodes, h, e, sid);
    }
  }

  lemma CloseKeepsMap(nodes: set<int>, h: seq<Step>, e: Step, n: int, m: SessionMap)
    requires Legal(nodes, h + [e]) && e.Close? && MapTrue(h, n, m)
    ensures n == e.node && e.sid in m ==> m[e.sid].LocalSession?
    ensures MapTrue(h + [e], n, if n == e.node then m - {e.sid} else m)
  {
    hide Legal, Births, OpenOf, IsOpen;
    NextBirths(nodes, h, e);
    var m' := if n == e.node then m - {e.sid} else m;
    if e.sid in m {
      assert EntryTrue(h, n, e.sid, m[e.sid]);
    }
    forall sid | sid in m'
      ensures EntryTrue(h + [e], n, sid, m'[sid])
    {
      NextIsOpen(nodes, h, e, sid);
      assert EntryTrue(h, n, sid, m[sid]);
    }
    forall sid | IsOpen(h + [e], sid) && Births(h + [e])[sid].node == n
      ensures sid in m' && m'[sid].LocalSession?
    {
      NextIsOpen(nodes, h, e, sid);
    }
  }

  /** Steps that neither connect nor close say nothing new about any session. */
  lemma QuietKeepsMap(nodes: set<int>, h: seq<Step>, e: Step, n: int, m: SessionMap)
    requires Legal(nodes, h + [e]) && !e.Connect? && !e.Close? && MapTrue(h, n, m)
    ensures MapTrue(h + [e], n, m)
  {
    hide Legal, Births, OpenOf, IsOpen;
    NextBirths(nodes, h, e);
    forall sid
      ensures IsOpen(h + [e], sid) == IsOpen(h, sid)
    {
      NextIsOpen(nodes, h, e, sid);
    }
    forall sid | sid in m
      ensures EntryTrue(h + [e], n, sid, m[sid])
    {
      assert EntryTrue(h, n, sid, m[sid]);
    }
  }

  /** What a lookup adds to a map is true and adds no local session. */
  lemma {:induction false} RemotesTrue(h: seq<Step>, n: int, m: SessionMap, cs: seq<SessionNodeCache>)
    requires MapTrue(h, n, m)
    requires forall c :: c in cs ==> c.sessionid in Births(h) && IsOpen(h, c.sessionid) &&
                                     Births(h)[c.sessionid] == Birth(c.userid, c.wsNode.id)
    ensures MapTrue(h, n, WithRemotes(m, cs)) && Locals(WithRemotes(m, cs)) == Locals(m)
    decreases |cs|
  {
    hide Births, IsOpen;
    if cs != [] {
      RemotesTrue(h, n, m, cs[..|cs| - 1]);
      var r, c := WithRemotes(m, cs[..|cs| - 1]), cs[|cs| - 1];
      if c.sessionid !in r {
        assert c in cs && Births(h)[c.sessionid].node != n;
        var r' := r[c.sessionid := RemoteSession(c)];
        forall sid | sid in r'
          ensures EntryTrue(h, n, sid, r'[sid])
        {
          assert sid in r ==> EntryTrue(h, n, sid, r[sid]);
        }
        assert Locals(r') == Locals(r);
      }
    }
  }

  // ---- one step ----

  lemma ConnectKeepsServer(nodes: set<int>, h: seq<Step>, e: Step, c: State, n: int)
    requires Legal(nodes, h + [e]) && e.Connect? && e.node in c.servers && n in c.servers
    requires ServerTrue(h, n, c.servers[n]) && ServerTrue(h, e.node, c.servers[e.node])
    ensures ServerTrue(h + [e], n, Next(c, e).servers[n])
  {
    hide Legal, MapTrue, Put;
    var m := c.servers[n].sessionMap;
    ConnectKeepsMap(nodes, h, e, n, m);
    if n == e.node {
      assert Locals(m[e.sid := LocalSession(e.userid, e.sid)]) == Locals(m) + {e.sid};
    }
  }

  lemma CloseKeepsServer(nodes: set<int>, h: seq<Step>, e: Step, c: State, n: int)
    requires Legal(nodes, h + [e]) && e.Close? && e.node in c.servers && n in c.servers
    requires ServerTrue(h, n, c.servers[n]) && ServerTrue(h, e.node, c.servers[e.node])
    ensures ServerTrue(h + [e], n, Next(c, e).servers[n])
  {
    hide Legal, MapTrue, Without;
    var m := c.servers[n].sessionMap;
    CloseKeepsMap(nodes, h, e, n, m);
    if n == e.node {
      if e.sid in m {
        assert Locals(m - {e.sid}) == Locals(m) - {e.sid};
        assert e.sid in Locals(m);
      } else {
        assert m - {e.sid} == m;
      }
    }
  }

  lemma LookupKeepsServer(nodes: set<int>, h: seq<Step>, e: Step, c: State, n: int)
    requires Legal(nodes, h + [e]) && e.Lookup? && e.node in c.servers && n in c.servers
    requires ServerTrue(h, n, c.servers[n]) && ServerTrue(h, e.node, c.servers[e.node])
    requires DirectoryTrue(h, c.users, e.userid)
    ensures ServerTrue(h + [e], n, Next(c, e).servers[n])
  {
    hide MapTrue, WithRemotes, IsOpen, Births;
    NextBirths(nodes, h, e);
    hide Legal;
    var m := c.servers[n].sessionMap;
    ListedIsBorn(nodes, h, c.users, e.userid);
    if n == e.node {
      RemotesTrue(h, n, m, Entries(c.users, e.userid));
      QuietKeepsMap(nodes, h, e, n, WithRemotes(m, Entries(c.users, e.userid)));
    } else {
      QuietKeepsMap(nodes, h, e, n, m);
    }
  }

  lemma {:induction false} NextKeepsRecords(nodes: set<int>, h: seq<Step>, e: Step, c: State)
    requires Legal(nodes, h + [e]) && e.node in c.servers
    requires RecordsTrue(h, c.sessions) && ServerTrue(h, e.node, c.servers[e.node])
    ensures RecordsTrue(h + [e], Next(c, e).sessions)
  {
    hide Legal, Next, RecordTrue, ServerTrue;
    forall sid
      ensures RecordTrue(h + [e], Next(c, e).sessions, sid)
    {
      NextKeepsRecord(nodes, h, e, c, sid);
    }
  }

  lemma NextKeepsRecord(nodes: set<int>, h: seq<Step>, e: Step, c: State, sid: string)
    requires Legal(nodes, h + [e]) && e.node in c.servers
    requires RecordTrue(h, c.sessions, sid) && ServerTrue(h, e.node, c.servers[e.node])
    ensures RecordTrue(h + [e], Next(c, e).sessions, sid)
  {
    hide Legal, Births, OpenOf, IsOpen, WithRemotes;
    NextBirths(nodes, h, e);
    NextIsOpen(nodes, h, e, sid);
  }

  lemma NextKeepsDirectory(nodes: set<int>, h: seq<Step>, e: Step, c: State, userid: string)
    requires Legal(nodes, h + [e]) && e.node in c.servers
    requires DirectoryTrue(h, c.users, userid) && ServerTrue(h, e.node, c.servers[e.node])
    ensures DirectoryTrue(h + [e], Next(c, e).users, userid)
  {
    hide Legal, MapTrue, OpensOf, Put, Without, WithRemotes;
    match e
    case Connect(_, _, _) => ConnectKeepsDirectory(nodes, h, e, c.At(e.node), userid);
    case Close(_, _) => CloseKeepsDirectory(nodes, h, e, c.At(e.node), userid);
    case _ => NextOpen(h, e, userid);
  }

  /** Every legal step keeps the invariant. */
  lemma NextKeepsInv(nodes: set<int>, h: seq<Step>, e: Step, c: State)
    requires Legal(nodes, h + [e]) && e.node in c.servers && Inv(h, c)
    ensures Inv(h + [e], Next(c, e))
  {
    hide Legal, ServerTrue, DirectoryTrue, RecordsTrue, Next;
    NextKeepsRecords(nodes, h, e, c);
    forall userid
      ensures DirectoryTrue(h + [e], Next(c, e).users, userid)
    {
      NextKeepsDirectory(nodes, h, e, c, userid);
    }
    NextServers(c, e);
    forall n | n in c.servers
      ensures ServerTrue(h + [e], n, Next(c, e).servers[n])
    {
      NextKeepsServer(nodes, h, e, c, n);
    }
  }

  lemma NextServers(c: State, e: Step)
    requires e.node in c.servers
    ensures Next(c, e).servers.Keys == c.servers.Keys
  {
  }

  lemma {:induction false} NextKeepsServer(nodes: set<int>, h: seq<Step>, e: Step, c: State, n: int)
    requires Legal(nodes, h + [e]) && e.node in c.servers && n in c.servers
    requires ServerTrue(h, n, c.servers[n]) && ServerTrue(h, e.node, c.servers[e.node])
    requires e.Lookup? ==> DirectoryTrue(h, c.users, e.userid)
    ensures n in Next(c, e).servers && ServerTrue(h + [e], n, Next(c, e).servers[n])
  {
    hide Legal, MapTrue, DirectoryTrue, Put, Without, WithRemotes;
    match e
    case Connect(_, _, _) => ConnectKeepsServer(nodes, h, e, c, n);
    case Close(_, _) => CloseKeepsServer(nodes, h, e, c, n);
    case Lookup(_, _) => LookupKeepsServer(nodes, h, e, c, n);
    case Notified(_, _) => QuietKeepsMap(nodes, h, e, n, c.servers[n].sessionMap);
  }

  /** The invariant holds after every legal run from a fresh cluster. */
  lemma {:induction false} RunsKeepInv(c: State, h: seq<Step>)
    requires Fresh(c) && Legal(c.servers.Keys, h)
    ensures Inv(h, Run(c, h))
    decreases |h|
  {
    if h == [] {
      forall n | n in c.servers
        ensures ServerTrue(h, n, c.servers[n])
      {
        assert Locals(c.servers[n].sessionMap) == {};
      }
    } else {
      var init, e := h[..|h| - 1], h[|h| - 1];
      assert h == init + [e];
      hide Inv, Next;
      RunsKeepInv(c, init);
      NextKeepsInv(c.servers.Keys, init, e, Run(c, init));
    }
  }

  // ---- addresses ----

  /** A node record with the id, host and port of the server of that id. */
  predicate TrueAddress(start: State, w: WsNode) {
    w.id in start.servers && w.Equals(start.servers[w.id].wsNode)
  }

  predicate TrueEntries(start: State, cs: seq<SessionNodeCache>) {
    forall c :: c in cs ==> TrueAddress(start, c.wsNode)
  }

  ghost predicate TrueMap(start: State, m: SessionMap) {
    forall sid :: sid in m && m[sid].RemoteSession? ==> TrueAddress(start, m[sid].sessionNodeCache.wsNode)
  }

  /** All node records a node holds or sees in the shared store. */
  ghost predicate TrueSite(start: State, s: Site) {
    && TrueAddress(start, s.wsNode) && TrueMap(start, s.sessionMap)
    && (forall u :: TrueEntries(start, Entries(s.users, u)))
    && forall sid :: sid in s.sessions ==> TrueAddress(start, s.sessions[sid].wsNode)
  }

  ghost predicate AddressesTrue(start: State, c: State) {
    forall n :: n in c.servers ==> TrueSite(start, c.At(n))
  }

  lemma {:induction false} TruePut(start: State, cs: seq<SessionNodeCache>, c: SessionNodeCache)
    requires TrueEntries(start, cs) && TrueAddress(start, c.wsNode)
    ensures TrueEntries(start, Put(cs, c))
  {
    if cs != [] {
      assert cs == [cs[0]] + cs[1..];
      TruePut(start, cs[1..], c);
    }
  }

  lemma {:induction false} TrueWithRemotes(start: State, m: SessionMap, cs: seq<SessionNodeCache>)
    requires TrueMap(start, m) && TrueEntries(start, cs)
    ensures TrueMap(start, WithRemotes(m, cs))
    decreases |cs|
  {
    if cs != [] {
      assert cs == cs[..|cs| - 1] + [cs[|cs| - 1]];
      TrueWithRemotes(start, m, cs[..|cs| - 1]);
    }
  }

  lemma SameAddress(start: State, w: WsNode, balance: int)
    requires TrueAddress(start, w)
    ensures TrueAddress(start, w.(balance := balance))
  {
  }

  lemma ConnectKeepsAddresses(start: State, s: Site, userid: string, sid: string)
    requires TrueSite(start, s)
    ensures TrueSite(start, Added(s, userid, sid))
  {
    hide Put, TrueAddress, TrueEntries;
    TruePut(start, Entries(s.users, userid), SessionNodeCache(userid, sid, s.wsNode));
    SameAddress(start, s.wsNode, s.wsNode.balance + 1);
    forall u
      ensures TrueEntries(start, Entries(Added(s, userid, sid).users, u))
    {
      assert TrueEntries(start, Entries(s.users, u));
    }
  }

  lemma CloseKeepsAddresses(start: State, s: Site, sid: string)
    requires TrueSite(start, s)
    ensures TrueSite(start, Removed(s, sid))
  {
    hide Without, TrueAddress;
    SameAddress(start, s.wsNode, s.wsNode.balance - 1);
    forall u
      ensures TrueEntries(start, Entries(Removed(s, sid).users, u))
    {
      assert TrueEntries(start, Entries(s.users, u));
    }
  }

  lemma LookupKeepsAddresses(start: State, s: Site, userid: string)
    requires TrueSite(start, s)
    ensures TrueSite(start, Fetched(s, userid))
  {
    hide WithRemotes, TrueAddress, TrueMap, TrueEntries;
    TrueWithRemotes(start, s.sessionMap, Entries(s.users, userid));
  }

  lemma SiteKeepsAddresses(start: State, c: State, n: int, s: Site)
    requires AddressesTrue(start, c) && TrueSite(start, s)
    ensures AddressesTrue(start, c.With(n, s))
  {
    hide TrueAddress, TrueMap, TrueEntries;
    var r := c.With(n, s);
    forall k | k in r.servers
      ensures TrueSite(start, r.At(k))
    {
      assert k != n ==> TrueSite(start, c.At(k));
    }
  }

  lemma NextKeepsAddresses(start: State, c: State, e: Step)
    requires AddressesTrue(start, c) && e.node in c.servers
    ensures AddressesTrue(start, Next(c, e))
  {
    var s := c.At(e.node);
    assert TrueSite(start, s);
    hide TrueAddress, TrueMap, TrueEntries, WithRemotes, Added, Removed, Fetched;
    match e {
      case Connect(_, userid, sid) =>
        ConnectKeepsAddresses(start, s, userid, sid);
        SiteKeepsAddresses(start, c, e.node, Added(s, userid, sid));
      case Lookup(_, userid) =>
        LookupKeepsAddresses(start, s, userid);
        SiteKeepsAddresses(start, c, e.node, Fetched(s, userid));
      case Close(_, sid) =>
        CloseKeepsAddresses(start, s, sid);
        SiteKeepsAddresses(start, c, e.node, Removed(s, sid));
      case Notified(_, sid) =>
        SiteKeepsAddresses(start, c, e.node, s.(sessionMap := RemoteRemoved(s.sessionMap, sid)));
    }
  }

  /** After any run whatever a node holds of another one has that node's own host and port. */
  lemma {:induction false} RunsKeepAddresses(c: State, h: seq<Step>)
    requires Fresh(c) && Legal(c.servers.Keys, h)
    ensures AddressesTrue(c, Run(c, h))
    decreases |h|
  {
    if h != [] {
      hide AddressesTrue, Next;
      RunsKeepAddresses(c, h[..|h| - 1]);
      NextKeepsAddresses(c, Run(c, h[..|h| - 1]), h[|h| - 1]);
    }
  }

  // ---- the results ----

  /** The kind of session a lookup on node n must give for an open session. */
  predicate Shows(n: int, userid: string, o: Open, session: ServerSession) {
    && session.GetSessionId() == o.sid
    && session.GetUserIdValue() == userid
    && (session.LocalSession? <==> o.node == n)
    && (session.RemoteSession? ==> session.sessionNodeCache.wsNode.id == o.node)
  }

  /**
   * On whatever node a user is looked up, after any run: exactly the user's open sessions,
   * in the order of connecting, local on their home node, remote with the true home elsewhere.
   */
  lemma {:induction false} LookupIsSound(c: State, h: seq<Step>, n: int, userid: string)
    requires Fresh(c) && Legal(c.servers.Keys, h) && n in c.servers
    ensures var found := Found(Run(c, h).At(n), userid);
            var open := OpenOf(h, userid);
            && (found.None? <==> open == [])
            && (found.Some? ==> |found.value| == |open|)
            && (found.Some? ==> forall i :: 0 <= i < |open| ==> Shows(n, userid, open[i], found.value[i]))
  {
    var r := Run(c, h);
    var nodes := c.servers.Keys;
    hide Run, Legal, Births, IsOpen, OpenOf, WithRemotes;
    RunsKeepInv(c, h);
    var m, cs := r.servers[n].sessionMap, Entries(r.users, userid);
    assert DirectoryTrue(h, r.users, userid) && ServerTrue(h, n, r.servers[n]);
    hide Inv, RecordsTrue;
    FoundIsSound(nodes, h, n, r.At(n), userid);
  }

  lemma {:induction false} FoundIsSound(nodes: set<int>, h: seq<Step>, n: int, s: Site, userid: string)
    requires Legal(nodes, h) && DirectoryTrue(h, s.users, userid) && MapTrue(h, n, s.sessionMap)
    ensures var found := Found(s, userid);
            var open := OpenOf(h, userid);
            && (found.None? <==> open == [])
            && (found.Some? ==> |found.value| == |open|)
            && (found.Some? ==> forall i :: 0 <= i < |open| ==> Shows(n, userid, open[i], found.value[i]))
  {
    hide Legal, Births, IsOpen, OpenOf, WithRemotes;
    var m, cs, open := s.sessionMap, Entries(s.users, userid), OpenOf(h, userid);
    ListedIsBorn(nodes, h, s.users, userid);
    RemotesTrue(h, n, m, cs);
    assert |open| == |cs|;
    forall i | 0 <= i < |cs|
      ensures Shows(n, userid, open[i], WithRemotes(m, cs)[cs[i].sessionid])
    {
      assert cs[i] in cs && OpensOf(cs)[i] == open[i];
      var sid := cs[i].sessionid;
      assert EntryTrue(h, n, sid, WithRemotes(m, cs)[sid]);
    }
  }

  /** After any run each node's balance is the number of its local sessions, and never negative. */
  lemma {:induction false} BalanceIsLocalSessions(c: State, h: seq<Step>, n: int)
    requires Fresh(c) && Legal(c.servers.Keys, h) && n in c.servers
    ensures var s := Run(c, h).servers[n];
            s.wsNode.balance == |Locals(s.sessionMap)| >= 0 &&
            forall sid :: sid in Locals(s.sessionMap) <==> IsOpen(h, sid) && Births(h)[sid].node == n
  {
    var s := Run(c, h).servers[n];
    hide Run, Legal, Births, IsOpen, OpenOf;
    RunsKeepInv(c, h);
    assert ServerTrue(h, n, s);
    forall sid
      ensures sid in Locals(s.sessionMap) <==> IsOpen(h, sid) && Births(h)[sid].node == n
    {
      if sid in s.sessionMap {
        assert EntryTrue(h, n, sid, s.sessionMap[sid]);
      }
    }
  }
}
