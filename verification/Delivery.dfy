/**
 * Delivery of one DATA message: a node that handles it looks the recipient up, writes
 * to the local sessions and sends one copy to the home node of every remote one, where
 * it is handled the same way.
 */
module Delivery {
  import opened Outcomes
  import opened Nodes
  import opened Sessions
  import opened Cluster
  import opened Pigeonholes

  /**
   * What does not change during a delivery: the fresh cluster the history starts from, the
   * recipient, the pairs of nodes with a connected sender, and the sessions with writable channels.
   */
  datatype Setting = Setting(start: State, userid: string, links: set<(int, int)>, writable: set<string>)

  /** The history so far, the nodes that copies are on their way to, and the sessions written to. */
  datatype Progress = Progress(h: seq<Step>, inflight: multiset<int>, written: multiset<string>)

  datatype Action = Other(step: Step) | Handle(node: int)

  // ---- handling at one node ----

  /** A local session is written to if its channel is writable. */
  function WriteOf(s: ServerSession, writable: set<string>): multiset<string> {
    if s.LocalSession? && s.sessionId in writable then multiset{s.sessionId} else multiset{}
  }

  /** A remote session gets a copy if the sender to its home is connected. */
  function CopyOf(n: int, s: ServerSession, links: set<(int, int)>): multiset<int> {
    if s.RemoteSession? && (n, s.sessionNodeCache.wsNode.id) in links
    then multiset{s.sessionNodeCache.wsNode.id} else multiset{}
  }

  function Writes(ss: seq<ServerSession>, writable: set<string>): multiset<string> {
    if ss == [] then multiset{} else WriteOf(ss[0], writable) + Writes(ss[1..], writable)
  }

  function Copies(n: int, ss: seq<ServerSession>, links: set<(int, int)>): multiset<int> {
    if ss == [] then multiset{} else CopyOf(n, ss[0], links) + Copies(n, ss[1..], links)
  }

  predicate Possible(p: Setting, d: Progress, a: Action) {
    && Legal(p.start.servers.Keys, d.h)
    && match a
       case Other(e) => Legal(p.start.servers.Keys, d.h + [e]) && OpenOf(d.h + [e], p.userid) == OpenOf(d.h, p.userid)
       case Handle(n) => n in d.inflight && n in p.start.servers
  }

  /** Handling at n; other steps of the cluster may come in between. */
  function Do(p: Setting, d: Progress, a: Action): Progress
    requires Possible(p, d, a)
  {
    match a
    case Other(e) => d.(h := d.h + [e])
    case Handle(n) =>
      var found := Found(Run(p.start, d.h).At(n), p.userid);
      var ss := if found.Some? then found.value else [];
      Progress(d.h + [Lookup(n, p.userid)],
               d.inflight - multiset{n} + Copies(n, ss, p.links),
               d.written + Writes(ss, p.writable))
  }

  /** Where a list of actions leads, if each of them is possible when it comes. */
  function Follow(p: Setting, d: Progress, acts: seq<Action>): Option<Progress> {
    if acts == [] then Some(d)
    else
      var before := Follow(p, d, acts[..|acts| - 1]);
      var a := acts[|acts| - 1];
      if before.None? || !Possible(p, before.value, a) then None else Some(Do(p, before.value, a))
  }

  predicate Can(p: Setting, d: Progress, acts: seq<Action>) {
    Follow(p, d, acts).Some?
  }

  function After(p: Setting, d: Progress, acts: seq<Action>): Progress
    requires Can(p, d, acts)
  {
    Follow(p, d, acts).value
  }

  /** The last action of a run, and the run before it. */
  lemma LastAction(p: Setting, d: Progress, acts: seq<Action>)
    requires acts != [] && Can(p, d, acts)
    ensures var init, a := acts[..|acts| - 1], acts[|acts| - 1];
            && Can(p, d, init) && Possible(p, After(p, d, init), a)
            && After(p, d, acts) == Do(p, After(p, d, init), a)
            && Handled(acts) == Handled(init) + if a.Handle? then 1 else 0
  {
    hide Possible, Do;
  }

  lemma OneMore(p: Setting, d: Progress, acts: seq<Action>, a: Action)
    requires Can(p, d, acts) && Possible(p, After(p, d, acts), a)
    ensures Can(p, d, acts + [a]) && After(p, d, acts + [a]) == Do(p, After(p, d, acts), a)
    ensures Handled(acts + [a]) == Handled(acts) + if a.Handle? then 1 else 0
  {
    hide Possible, Do;
    assert (acts + [a])[..|acts|] == acts;
  }

  function Handled(acts: seq<Action>): nat {
    if acts == [] then 0
    else Handled(acts[..|acts| - 1]) + if acts[|acts| - 1].Handle? then 1 else 0
  }

  function Start(h: seq<Step>, origin: int): Progress {
    Progress(h, multiset{origin}, multiset{})
  }

  // ---- in terms of the open sessions ----

  function OpenWrites(n: int, open: seq<Open>, writable: set<string>): multiset<string> {
    if open == [] then multiset{}
    else (if open[0].node == n && open[0].sid in writable then multiset{open[0].sid} else multiset{})
         + OpenWrites(n, open[1..], writable)
  }

  function OpenCopies(n: int, open: seq<Open>, links: set<(int, int)>): multiset<int> {
    if open == [] then multiset{}
    else (if open[0].node != n && (n, open[0].node) in links then multiset{open[0].node} else multiset{})
         + OpenCopies(n, open[1..], links)
  }

  lemma {:induction false} ShownWritesAndCopies(n: int, userid: string, open: seq<Open>, ss: seq<ServerSession>,
                                                writable: set<string>, links: set<(int, int)>)
    requires |open| == |ss| && forall i :: 0 <= i < |open| ==> Shows(n, userid, open[i], ss[i])
    ensures Writes(ss, writable) == OpenWrites(n, open, writable)
    ensures Copies(n, ss, links) == OpenCopies(n, open, links)
  {
    if open != [] {
      assert Shows(n, userid, open[0], ss[0]);
      ShownWritesAndCopies(n, userid, open[1..], ss[1..], writable, links);
    }
  }

  /** Handling depends on nothing but the recipient's open sessions. */
  lemma HandleIs(p: Setting, d: Progress, n: int)
    requires Fresh(p.start) && Possible(p, d, Handle(n))
    ensures var open := OpenOf(d.h, p.userid);
            Do(p, d, Handle(n)) == Progress(d.h + [Lookup(n, p.userid)],
                                            d.inflight - multiset{n} + OpenCopies(n, open, p.links),
                                            d.written + OpenWrites(n, open, p.writable))
  {
    hide Writes, Copies, OpenWrites, OpenCopies, Shows, Found, Run;
    LookupIsSound(p.start, d.h, n, p.userid);
    var found := Found(Run(p.start, d.h).At(n), p.userid);
    var ss := if found.Some? then found.value else [];
    ShownWritesAndCopies(n, p.userid, OpenOf(d.h, p.userid), ss, p.writable, p.links);
  }

  /** No action opens or closes a session of the recipient, and histories stay legal. */
  lemma ActionKeepsOpen(p: Setting, d: Progress, a: Action)
    requires Possible(p, d, a)
    ensures Legal(p.start.servers.Keys, Do(p, d, a).h)
    ensures OpenOf(Do(p, d, a).h, p.userid) == OpenOf(d.h, p.userid)
  {
    if a.Handle? {
      var e := Lookup(a.node, p.userid);
      Last(d.h, e);
      NextOpen(d.h, e, p.userid);
    }
  }

  lemma {:induction false} SameOpen(p: Setting, d: Progress, acts: seq<Action>)
    requires Can(p, d, acts) && Legal(p.start.servers.Keys, d.h)
    ensures Legal(p.start.servers.Keys, After(p, d, acts).h)
    ensures OpenOf(After(p, d, acts).h, p.userid) == OpenOf(d.h, p.userid)
    decreases |acts|
  {
    if acts != [] {
      LastAction(p, d, acts);
      hide Follow, Possible, Do, Legal, OpenOf;
      var init := acts[..|acts| - 1];
      SameOpen(p, d, init);
      ActionKeepsOpen(p, After(p, d, init), acts[|acts| - 1]);
    }
  }

  // ---- one home node ----

  predicate AllAt(open: seq<Open>, home: int) {
    forall o :: o in open ==> o.node == home
  }

  lemma {:induction false} WritesAway(n: int, open: seq<Open>, home: int, writable: set<string>)
    requires AllAt(open, home) && n != home
    ensures OpenWrites(n, open, writable) == multiset{}
  {
    if open != [] {
      assert open[0] in open;
      WritesAway(n, open[1..], home, writable);
    }
  }

  lemma {:induction false} CopiesAtOneHome(n: int, open: seq<Open>, home: int, links: set<(int, int)>)
    requires AllAt(open, home)
    ensures OpenCopies(n, open, links) ==
            multiset{}[home := if n != home && (n, home) in links then |open| else 0]
  {
    if open != [] {
      assert open[0] in open;
      CopiesAtOneHome(n, open[1..], home, links);
    }
  }

  function Times(w: multiset<string>, k: nat): multiset<string> {
    if k == 0 then multiset{} else Times(w, k - 1) + w
  }

  /** Where a delivery to sessions of one home stands after handling at so many nodes. */
  predicate OneHome(p: Setting, origin: int, home: int, open: seq<Open>, d: Progress, handled: nat) {
    var w := OpenWrites(home, open, p.writable);
    if handled == 0 then d.inflight == multiset{origin} && d.written == multiset{}
    else if origin == home then handled == 1 && d.inflight == multiset{} && d.written == w
    else if (origin, home) in p.links then
      && handled <= 1 + |open|
      && d.inflight == multiset{}[home := |open| - (handled - 1)]
      && d.written == Times(w, handled - 1)
    else handled == 1 && d.inflight == multiset{} && d.written == multiset{}
  }

  lemma HandlingKeepsOneHome(p: Setting, origin: int, home: int, d: Progress, handled: nat, n: int)
    requires Fresh(p.start) && Possible(p, d, Handle(n))
    requires AllAt(OpenOf(d.h, p.userid), home)
    requires OneHome(p, origin, home, OpenOf(d.h, p.userid), d, handled)
    ensures OneHome(p, origin, home, OpenOf(d.h, p.userid), Do(p, d, Handle(n)), handled + 1)
  {
    var open := OpenOf(d.h, p.userid);
    hide Do, Legal, OpenOf, OpenWrites, OpenCopies, AllAt, OneHome;
    HandleIs(p, d, n);
    CopiesAtOneHome(n, open, home, p.links);
    if n != home {
      WritesAway(n, open, home, p.writable);
    }
    OneHomeStep(p, origin, home, open, d, handled, n, Do(p, d, Handle(n)));
  }

  lemma OneHomeStep(p: Setting, origin: int, home: int, open: seq<Open>, d: Progress, handled: nat,
                    n: int, d': Progress)
    requires OneHome(p, origin, home, open, d, handled) && n in d.inflight
    requires d'.inflight == d.inflight - multiset{n} +
                            multiset{}[home := if n != home && (n, home) in p.links then |open| else 0]
    requires d'.written == d.written + if n == home then OpenWrites(home, open, p.writable) else multiset{}
    ensures OneHome(p, origin, home, open, d', handled + 1)
  {
    hide OpenWrites;
  }

  lemma OtherKeepsOneHome(p: Setting, origin: int, home: int, open: seq<Open>, d: Progress, handled: nat, e: Step)
    requires Possible(p, d, Other(e)) && OneHome(p, origin, home, open, d, handled)
    ensures OneHome(p, origin, home, open, Do(p, d, Other(e)), handled)
  {
  }

  lemma OneHomeStart(p: Setting, h: seq<Step>, origin: int, home: int)
    ensures Can(p, Start(h, origin), []) && Handled([]) == 0
    ensures OneHome(p, origin, home, OpenOf(h, p.userid), After(p, Start(h, origin), []), 0)
  {
  }

  lemma {:induction false} RunsKeepOneHome(p: Setting, h: seq<Step>, origin: int, home: int, acts: seq<Action>)
    requires Fresh(p.start) && Legal(p.start.servers.Keys, h)
    requires AllAt(OpenOf(h, p.userid), home) && Can(p, Start(h, origin), acts)
    ensures OneHome(p, origin, home, OpenOf(h, p.userid), After(p, Start(h, origin), acts), Handled(acts))
    decreases |acts|
  {
    hide Follow, Possible, Do, Legal, OpenOf, AllAt, OneHome, Handled, Fresh;
    if acts == [] {
      OneHomeStart(p, h, origin, home);
    } else {
      LastAction(p, Start(h, origin), acts);
      var init, a := acts[..|acts| - 1], acts[|acts| - 1];
      RunsKeepOneHome(p, h, origin, home, init);
      SameOpen(p, Start(h, origin), init);
      var d, open := After(p, Start(h, origin), init), OpenOf(h, p.userid);
      match a
      case Handle(n) => HandlingKeepsOneHome(p, origin, home, d, Handled(init), n);
      case Other(e) => OtherKeepsOneHome(p, origin, home, open, d, Handled(init), e);
    }
  }

  /**
   * To a user whose k sessions share one home, a message is handled at most 1 + k times, once
   * at its origin and otherwise at the home. When nothing is under way any more, each writable
   * session has been written to once if the message came from the home itself, k times if it
   * came from a node connected to the home, and otherwise not at all.
   */
  lemma {:induction false} OneHomeDelivery(p: Setting, h: seq<Step>, origin: int, home: int, acts: seq<Action>)
    requires Fresh(p.start) && Legal(p.start.servers.Keys, h)
    requires AllAt(OpenOf(h, p.userid), home) && Can(p, Start(h, origin), acts)
    ensures var open := OpenOf(h, p.userid);
            var d := After(p, Start(h, origin), acts);
            var k := if origin == home then 1 else if (origin, home) in p.links then |open| else 0;
            && Handled(acts) <= 1 + |open|
            && (d.inflight == multiset{} ==> d.written == Times(OpenWrites(home, open, p.writable), k))
  {
    var open := OpenOf(h, p.userid);
    var w := OpenWrites(home, open, p.writable);
    var d := After(p, Start(h, origin), acts);
    hide Can, After, Legal, OpenOf, AllAt, OpenWrites, Handled;
    RunsKeepOneHome(p, h, origin, home, acts);
    assert Times(w, 1) == Times(w, 0) + w == w;
    if d.inflight == multiset{} && Handled(acts) > 0 && origin != home && (origin, home) in p.links {
      assert d.inflight[home] == |open| - (Handled(acts) - 1);
    }
    if Handled(acts) == 0 {
      assert d.inflight[origin] == 1;
    }
  }

  /** How often each session is written to at a node: once if it is open there and writable. */
  lemma {:induction false} OnceAtItsNode(n: int, open: seq<Open>, writable: set<string>, sid: string)
    requires Distinct(open)
    ensures OpenWrites(n, open, writable)[sid] == if Open(sid, n) in open && sid in writable then 1 else 0
  {
    if open != [] {
      HeadDistinct(open);
      hide Distinct;
      OnceAtItsNode(n, open[1..], writable, sid);
    }
  }

  /** The home of each open session, once for every session. */
  function HomesOfAll(open: seq<Open>): (r: seq<int>)
    ensures |r| == |open|
  {
    seq(|open|, i requires 0 <= i < |open| => open[i].node)
  }

  /** How many copies go to each node: one for every session there, if it is another node and linked. */
  lemma {:induction false} OneCopyPerSession(n: int, open: seq<Open>, links: set<(int, int)>, m: int)
    ensures OpenCopies(n, open, links)[m] ==
            if m != n && (n, m) in links then multiset(HomesOfAll(open))[m] else 0
  {
    if open != [] {
      OneCopyPerSession(n, open[1..], links, m);
      assert HomesOfAll(open) == [open[0].node] + HomesOfAll(open[1..]);
    }
  }

  lemma {:induction false} TimesOnce(w: multiset<string>, k: nat, sid: string)
    requires w[sid] <= 1
    ensures Times(w, k)[sid] == if w[sid] == 1 then k else 0
  {
    if k > 0 {
      var before := Times(w, k - 1);
      TimesOnce(w, k - 1, sid);
      assert Times(w, k) == before + w;
      hide Times;
    }
  }

  /** So with one home every single session gets the message that often, and no other session does. */
  lemma {:induction false} EachSessionOf(p: Setting, h: seq<Step>, origin: int, home: int, acts: seq<Action>,
                                         sid: string)
    requires Fresh(p.start) && Legal(p.start.servers.Keys, h)
    requires AllAt(OpenOf(h, p.userid), home) && Can(p, Start(h, origin), acts)
    requires After(p, Start(h, origin), acts).inflight == multiset{}
    ensures var open := OpenOf(h, p.userid);
            After(p, Start(h, origin), acts).written[sid] ==
            if Open(sid, home) !in open || sid !in p.writable then 0
            else if origin == home then 1
            else if (origin, home) in p.links then |open|
            else 0
  {
    var open := OpenOf(h, p.userid);
    var k := if origin == home then 1 else if (origin, home) in p.links then |open| else 0;
    OpenBorn(p.start.servers.Keys, h, p.userid);
    hide Can, After, Legal, OpenOf, AllAt, Births, OpenWrites, Times, Distinct;
    OneHomeDelivery(p, h, origin, home, acts);
    OnceAtItsNode(home, open, p.writable, sid);
    TimesOnce(OpenWrites(home, open, p.writable), k, sid);
  }

  /** To a user with one session: exactly once from any origin that can reach its home, else never. */
  lemma {:induction false} ExactlyOnce(p: Setting, h: seq<Step>, origin: int, o: Open, acts: seq<Action>)
    requires Fresh(p.start) && Legal(p.start.servers.Keys, h)
    requires OpenOf(h, p.userid) == [o] && Can(p, Start(h, origin), acts)
    requires After(p, Start(h, origin), acts).inflight == multiset{}
    ensures Handled(acts) <= 2
    ensures After(p, Start(h, origin), acts).written ==
            if o.sid in p.writable && (origin == o.node || (origin, o.node) in p.links)
            then multiset{o.sid} else multiset{}
  {
    hide Can, After, Legal, Handled;
    OneHomeDelivery(p, h, origin, o.node, acts);
    var w := OpenWrites(o.node, [o], p.writable);
    assert [o][1..] == [];
    assert w == if o.sid in p.writable then multiset{o.sid} else multiset{};
    assert Times(w, 1) == Times(w, 0) + w == w;
  }

  // ---- any links ----

  predicate IsHome(open: seq<Open>, n: int) {
    exists o :: o in open && o.node == n
  }

  /** A copy for a session on n is sent by m. */
  predicate Leads(links: set<(int, int)>, m: int, n: int) {
    m != n && (m, n) in links
  }

  lemma {:induction false} HomesAreServers(nodes: set<int>, h: seq<Step>, userid: string)
    requires Legal(nodes, h)
    ensures forall o :: o in OpenOf(h, userid) ==> o.node in nodes
    decreases |h|
  {
    if h != [] {
      HomesAreServers(nodes, h[..|h| - 1], userid);
    }
  }

  lemma HomeIsServer(nodes: set<int>, h: seq<Step>, userid: string, o: Open)
    requires Legal(nodes, h) && o in OpenOf(h, userid)
    ensures o.node in nodes
  {
    hide Legal, OpenOf;
    HomesAreServers(nodes, h, userid);
  }

  lemma {:induction false} CopyForEveryOther(n: int, open: seq<Open>, links: set<(int, int)>, o: Open)
    requires o in open && Leads(links, n, o.node)
    ensures o.node in OpenCopies(n, open, links)
  {
    if open[0] != o {
      assert open == [open[0]] + open[1..];
      CopyForEveryOther(n, open[1..], links, o);
    }
  }

  lemma {:induction false} CopiesGoToHomes(n: int, open: seq<Open>, links: set<(int, int)>, m: int)
    requires m in OpenCopies(n, open, links)
    ensures IsHome(open, m) && Leads(links, n, m)
  {
    if m in OpenCopies(n, open[1..], links) {
      CopiesGoToHomes(n, open[1..], links, m);
    } else {
      assert open[0].node == m;
    }
  }

  /** A copy handled at n can be forwarded f times in a row. */
  predicate CanGo(open: seq<Open>, links: set<(int, int)>, n: int, f: nat)
    decreases f
  {
    f == 0 || exists o :: o in open && Leads(links, n, o.node) && CanGo(open, links, o.node, f - 1)
  }

  lemma NextHome(open: seq<Open>, links: set<(int, int)>, n: int, f: nat) returns (o: Open)
    requires f > 0 && CanGo(open, links, n, f)
    ensures o in open && Leads(links, n, o.node) && CanGo(open, links, o.node, f - 1)
  {
    o :| o in open && Leads(links, n, o.node) && CanGo(open, links, o.node, f - 1);
  }

  lemma {:induction false} CanGoLess(open: seq<Open>, links: set<(int, int)>, n: int, f: nat)
    requires CanGo(open, links, n, f + 1)
    ensures CanGo(open, links, n, f)
    decreases f
  {
    if f > 0 {
      var o := NextHome(open, links, n, f + 1);
      CanGoLess(open, links, o.node, f - 1);
    }
  }

  /** The handlings a copy at n gives rise to, its own included, down to the f-th forwarding. */
  function Total(open: seq<Open>, links: set<(int, int)>, n: int, f: nat): nat
    decreases f, |open| + 1
  {
    if f == 0 then 1 else 1 + TotalOf(open, open, links, n, f)
  }

  function TotalOf(rest: seq<Open>, open: seq<Open>, links: set<(int, int)>, n: int, f: nat): nat
    requires f > 0
    decreases f, |rest|
  {
    if rest == [] then 0
    else (if Leads(links, n, rest[0].node) then Total(open, links, rest[0].node, f - 1) else 0)
         + TotalOf(rest[1..], open, links, n, f)
  }

  /** Where no copy goes on further, looking deeper finds no more. */
  lemma {:induction false} TotalSettles(open: seq<Open>, links: set<(int, int)>, n: int, f: nat)
    requires !CanGo(open, links, n, f + 1)
    ensures Total(open, links, n, f + 1) == Total(open, links, n, f)
    decreases f, |open| + 1
  {
    TotalOfSettles(open, open, links, n, f);
  }

  lemma {:induction false} TotalOfSettles(rest: seq<Open>, open: seq<Open>, links: set<(int, int)>, n: int, f: nat)
    requires !CanGo(open, links, n, f + 1) && forall o :: o in rest ==> o in open
    ensures TotalOf(rest, open, links, n, f + 1) == if f == 0 then 0 else TotalOf(rest, open, links, n, f)
    decreases f, |rest|
  {
    if rest != [] {
      TotalOfSettles(rest[1..], open, links, n, f);
      var o := rest[0];
      assert o in open;
      if Leads(links, n, o.node) {
        assert !CanGo(open, links, o.node, f);
        TotalSettles(open, links, o.node, f - 1);
      }
    }
  }

  function Totals(open: seq<Open>, links: set<(int, int)>, f: nat): int -> nat {
    n => Total(open, links, n, f)
  }

  ghost function Weight(w: int -> nat, s: multiset<int>): nat {
    if exists x :: x in s then
      var x :| x in s;
      w(x) + Weight(w, s - multiset{x})
    else 0
  }

  lemma WeightUnfolds(w: int -> nat, s: multiset<int>) returns (y: int)
    requires exists x :: x in s
    ensures y in s && Weight(w, s) == w(y) + Weight(w, s - multiset{y})
  {
    y :| y in s && Weight(w, s) == w(y) + Weight(w, s - multiset{y});
  }

  lemma {:induction false} WeightOfOne(w: int -> nat, s: multiset<int>, x: int)
    requires x in s
    ensures Weight(w, s) == w(x) + Weight(w, s - multiset{x})
    decreases |s|
  {
    hide Weight;
    var y := WeightUnfolds(w, s);
    if y != x {
      WeightOfOne(w, s - multiset{y}, x);
      WeightOfOne(w, s - multiset{x}, y);
      assert s - multiset{x} - multiset{y} == s - multiset{y} - multiset{x};
    }
  }

  lemma {:induction false} WeightOfBoth(w: int -> nat, s: multiset<int>, t: multiset<int>)
    ensures Weight(w, s + t) == Weight(w, s) + Weight(w, t)
    decreases |s|
  {
    if x :| x in s {
      WeightOfOne(w, s, x);
      WeightOfOne(w, s + t, x);
      WeightOfBoth(w, s - multiset{x}, t);
      assert s + t - multiset{x} == s - multiset{x} + t;
    } else {
      assert forall x :: s[x] == 0;
      assert s + t == t;
    }
  }

  lemma WeightOfSingle(w: int -> nat, x: int)
    ensures Weight(w, multiset{x}) == w(x)
  {
    WeightOfOne(w, multiset{x}, x);
    assert multiset{x} - multiset{x} == multiset{};
  }

  /** The copies sent by n stand for the handlings below it. */
  lemma {:induction false} WeightOfCopies(rest: seq<Open>, open: seq<Open>, links: set<(int, int)>, n: int, f: nat)
    ensures Weight(Totals(open, links, f), OpenCopies(n, rest, links)) == TotalOf(rest, open, links, n, f + 1)
  {
    hide Weight, Total;
    var w := Totals(open, links, f);
    if rest == [] {
      WeightOfNothing(w);
    } else {
      WeightOfCopies(rest[1..], open, links, n, f);
      var m := rest[0].node;
      var copies := if Leads(links, n, m) then multiset{m} else multiset{};
      WeightOfBoth(w, copies, OpenCopies(n, rest[1..], links));
      WeightOfSingle(w, m);
      WeightOfNothing(w);
    }
  }

  lemma WeightOfNothing(w: int -> nat)
    ensures Weight(w, multiset{}) == 0
  {
  }

  /** What has been handled and what the copies under way give rise to make up the total. */
  ghost predicate Counted(p: Setting, open: seq<Open>, origin: int, f: nat, d: Progress, handled: nat) {
    && handled + Weight(Totals(open, p.links, f), d.inflight) == Total(open, p.links, origin, f)
    && forall n :: n in d.inflight ==> !CanGo(open, p.links, n, f + 1)
  }

  lemma HandledWeighs(open: seq<Open>, links: set<(int, int)>, inflight: multiset<int>, n: int, f: nat)
    requires n in inflight && !CanGo(open, links, n, f + 1)
    ensures var w := Totals(open, links, f);
            1 + Weight(w, inflight - multiset{n} + OpenCopies(n, open, links)) == Weight(w, inflight)
  {
    hide OpenCopies, Weight, CanGo;
    var w := Totals(open, links, f);
    WeightOfOne(w, inflight, n);
    WeightOfBoth(w, inflight - multiset{n}, OpenCopies(n, open, links));
    WeightOfCopies(open, open, links, n, f);
    TotalSettles(open, links, n, f);
  }

  lemma HandlingIsCounted(p: Setting, origin: int, f: nat, d: Progress, handled: nat, n: int)
    requires Fresh(p.start) && Possible(p, d, Handle(n))
    requires Counted(p, OpenOf(d.h, p.userid), origin, f, d, handled)
    ensures Counted(p, OpenOf(d.h, p.userid), origin, f, Do(p, d, Handle(n)), handled + 1)
  {
    hide Do, Fresh, Legal, OpenOf, OpenCopies, OpenWrites, Counted;
    HandleIs(p, d, n);
    CountedStep(p, OpenOf(d.h, p.userid), origin, f, d, handled, n, Do(p, d, Handle(n)));
  }

  lemma CountedStep(p: Setting, open: seq<Open>, origin: int, f: nat, d: Progress, handled: nat, n: int, d': Progress)
    requires n in d.inflight && Counted(p, open, origin, f, d, handled)
    requires d'.inflight == d.inflight - multiset{n} + OpenCopies(n, open, p.links)
    ensures Counted(p, open, origin, f, d', handled + 1)
  {
    hide OpenCopies, Weight, CanGo, Total;
    HandledWeighs(open, p.links, d.inflight, n, f);
    forall m | m in OpenCopies(n, open, p.links)
      ensures !CanGo(open, p.links, m, f + 1)
    {
      CopiesEndSooner(open, p.links, n, m, f);
    }
  }

  lemma CopiesEndSooner(open: seq<Open>, links: set<(int, int)>, n: int, m: int, f: nat)
    requires m in OpenCopies(n, open, links) && !CanGo(open, links, n, f + 1)
    ensures !CanGo(open, links, m, f + 1)
  {
    CopiesGoToHomes(n, open, links, m);
    if CanGo(open, links, m, f + 1) {
      CanGoLess(open, links, m, f);
    }
  }

  lemma CountedStart(p: Setting, h: seq<Step>, origin: int, f: nat)
    requires !CanGo(OpenOf(h, p.userid), p.links, origin, f + 1)
    ensures Can(p, Start(h, origin), []) && Handled([]) == 0
    ensures Counted(p, OpenOf(h, p.userid), origin, f, After(p, Start(h, origin), []), 0)
  {
    WeightOfSingle(Totals(OpenOf(h, p.userid), p.links, f), origin);
  }

  lemma {:induction false} RunsStayCounted(p: Setting, h: seq<Step>, origin: int, f: nat, acts: seq<Action>)
    requires Fresh(p.start) && Legal(p.start.servers.Keys, h)
    requires !CanGo(OpenOf(h, p.userid), p.links, origin, f + 1) && Can(p, Start(h, origin), acts)
    ensures Counted(p, OpenOf(h, p.userid), origin, f, After(p, Start(h, origin), acts), Handled(acts))
    decreases |acts|
  {
    hide Follow, Possible, Do, Legal, OpenOf, Handled, Fresh, CanGo, Counted;
    if acts == [] {
      CountedStart(p, h, origin, f);
    } else {
      LastAction(p, Start(h, origin), acts);
      var init, a := acts[..|acts| - 1], acts[|acts| - 1];
      RunsStayCounted(p, h, origin, f, init);
      SameOpen(p, Start(h, origin), init);
      var d, open := After(p, Start(h, origin), init), OpenOf(h, p.userid);
      match a
      case Handle(n) => HandlingIsCounted(p, origin, f, d, Handled(init), n);
      case Other(e) => OtherIsCounted(p, open, origin, f, d, Handled(init), e);
    }
  }

  /**
   * Where no copy can be forwarded more than f times in a row, the handlings do not depend on the
   * order in which copies are taken: there are never more than the total, and just as many when
   * nothing is under way any more.
   */
  lemma HandlingsAreCounted(p: Setting, h: seq<Step>, origin: int, f: nat, acts: seq<Action>)
    requires Fresh(p.start) && Legal(p.start.servers.Keys, h)
    requires !CanGo(OpenOf(h, p.userid), p.links, origin, f + 1) && Can(p, Start(h, origin), acts)
    ensures Handled(acts) <= Total(OpenOf(h, p.userid), p.links, origin, f)
    ensures After(p, Start(h, origin), acts).inflight == multiset{} ==>
              Handled(acts) == Total(OpenOf(h, p.userid), p.links, origin, f)
  {
    hide Can, After, Legal, OpenOf, Handled, Fresh, CanGo, Total;
    RunsStayCounted(p, h, origin, f, acts);
    WeightOfNothing(Totals(OpenOf(h, p.userid), p.links, f));
  }

  lemma OtherIsCounted(p: Setting, open: seq<Open>, origin: int, f: nat, d: Progress, handled: nat, e: Step)
    requires Possible(p, d, Other(e)) && Counted(p, open, origin, f, d, handled)
    ensures Counted(p, open, origin, f, Do(p, d, Other(e)), handled)
  {
  }

  /** A copy under way to n can be handled there, and then one is under way to each home n leads to. */
  lemma HandleNext(p: Setting, h: seq<Step>, origin: int, acts: seq<Action>, n: int, o: Open)
      returns (next: seq<Action>)
    requires Fresh(p.start) && Legal(p.start.servers.Keys, h) && Can(p, Start(h, origin), acts)
    requires n in After(p, Start(h, origin), acts).inflight && n in p.start.servers
    requires o in OpenOf(h, p.userid) && Leads(p.links, n, o.node)
    ensures Can(p, Start(h, origin), next) && Handled(next) == Handled(acts) + 1
    ensures o.node in After(p, Start(h, origin), next).inflight
  {
    hide Follow, Do, Fresh, Legal, OpenOf, OpenCopies, OpenWrites, Handled;
    next := acts + [Handle(n)];
    SameOpen(p, Start(h, origin), acts);
    OneMore(p, Start(h, origin), acts, Handle(n));
    HandleIs(p, After(p, Start(h, origin), acts), n);
    CopyForEveryOther(n, OpenOf(h, p.userid), p.links, o);
  }

  /** After these actions a copy is under way to n that can go on f times. */
  ghost predicate Ready(p: Setting, h: seq<Step>, origin: int, acts: seq<Action>, n: int, f: nat) {
    && Fresh(p.start) && Legal(p.start.servers.Keys, h) && Can(p, Start(h, origin), acts)
    && n in After(p, Start(h, origin), acts).inflight && n in p.start.servers
    && CanGo(OpenOf(h, p.userid), p.links, n, f)
  }

  lemma GoesOnce(p: Setting, h: seq<Step>, origin: int, acts: seq<Action>, n: int, f: nat)
      returns (next: seq<Action>, m: int)
    requires f > 0 && Ready(p, h, origin, acts, n, f)
    ensures Ready(p, h, origin, next, m, f - 1) && Handled(next) == Handled(acts) + 1
  {
    hide Can, After, Handled, Fresh, Legal, OpenOf, CanGo, Leads, Start;
    var o := NextHome(OpenOf(h, p.userid), p.links, n, f);
    m := o.node;
    HomeIsServer(p.start.servers.Keys, h, p.userid, o);
    next := HandleNext(p, h, origin, acts, n, o);
  }

  /** A copy that can go on f times is handled f times more. */
  lemma {:induction false} GoesOn(p: Setting, h: seq<Step>, origin: int, acts: seq<Action>, n: int, f: nat)
      returns (more: seq<Action>)
    requires Ready(p, h, origin, acts, n, f)
    ensures Can(p, Start(h, origin), more) && Handled(more) == Handled(acts) + f
    decreases f
  {
    hide Can, Handled, After;
    if f == 0 {
      more := acts;
    } else {
      hide Ready;
      var next, m := GoesOnce(p, h, origin, acts, n, f);
      more := GoesOn(p, h, origin, next, m, f - 1);
    }
  }

  /** No run of the delivery handles the message more than b times. */
  ghost predicate HandledAtMost(p: Setting, d: Progress, b: nat) {
    forall acts :: Can(p, d, acts) ==> Handled(acts) <= b
  }

  ghost predicate Ends(p: Setting, d: Progress) {
    exists b: nat :: HandledAtMost(p, d, b)
  }

  lemma EndsIfItStops(p: Setting, h: seq<Step>, origin: int, f: nat)
    requires Fresh(p.start) && Legal(p.start.servers.Keys, h)
    requires !CanGo(OpenOf(h, p.userid), p.links, origin, f + 1)
    ensures Ends(p, Start(h, origin))
  {
    hide Can, Handled, Legal, OpenOf, Total, CanGo, Counted;
    var b := Total(OpenOf(h, p.userid), p.links, origin, f);
    forall acts | Can(p, Start(h, origin), acts)
      ensures Handled(acts) <= b
    {
      HandlingsAreCounted(p, h, origin, f, acts);
    }
    assert HandledAtMost(p, Start(h, origin), b);
  }

  lemma StopsIfItEnds(p: Setting, h: seq<Step>, origin: int, b: nat)
    requires Fresh(p.start) && Legal(p.start.servers.Keys, h) && origin in p.start.servers
    requires HandledAtMost(p, Start(h, origin), b)
    ensures !CanGo(OpenOf(h, p.userid), p.links, origin, b + 1)
  {
    hide Legal, OpenOf, Fresh, CanGo;
    if CanGo(OpenOf(h, p.userid), p.links, origin, b + 1) {
      assert origin in multiset{origin};
      var acts := GoesOn(p, h, origin, [], origin, b + 1);
    }
  }

  // ---- circles ----

  /** A way that copies can take, from node to node. */
  predicate Way(open: seq<Open>, links: set<(int, int)>, w: seq<int>) {
    forall i :: 0 < i < |w| ==> IsHome(open, w[i]) && Leads(links, w[i - 1], w[i])
  }

  /** The way comes to the same node twice. */
  predicate Circles(open: seq<Open>, links: set<(int, int)>, origin: int, w: seq<int>, i: nat, j: nat) {
    i < j < |w| && w[0] == origin && w[i] == w[j] && Way(open, links, w)
  }

  ghost predicate ReachesCircle(open: seq<Open>, links: set<(int, int)>, origin: int) {
    exists w, i, j :: Circles(open, links, origin, w, i, j)
  }

  lemma {:induction false} CircleGoesOn(open: seq<Open>, links: set<(int, int)>, origin: int,
                                        w: seq<int>, i: nat, j: nat, k: nat, f: nat)
    requires Circles(open, links, origin, w, i, j) && k <= j
    ensures CanGo(open, links, w[k], f)
    decreases f
  {
    if f > 0 {
      var next := if k < j then k + 1 else i + 1;
      CircleGoesOn(open, links, origin, w, i, j, next, f - 1);
      assert w[next - 1] == w[k] && IsHome(open, w[next]);
    }
  }

  lemma {:induction false} WayTaken(open: seq<Open>, links: set<(int, int)>, n: int, f: nat) returns (w: seq<int>)
    requires CanGo(open, links, n, f)
    ensures |w| == f + 1 && w[0] == n && Way(open, links, w)
    decreases f
  {
    if f == 0 {
      w := [n];
    } else {
      var o := NextHome(open, links, n, f);
      var rest := WayTaken(open, links, o.node, f - 1);
      w := [n] + rest;
      assert forall i :: 0 < i < |w| ==> w[i] == rest[i - 1];
    }
  }

  function Homes(open: seq<Open>): set<int> {
    set o | o in open :: o.node
  }

  lemma LongWayCircles(open: seq<Open>, links: set<(int, int)>, origin: int)
    requires CanGo(open, links, origin, |Homes(open)| + 1)
    ensures ReachesCircle(open, links, origin)
  {
    hide CanGo;
    var w := WayTaken(open, links, origin, |Homes(open)| + 1);
    var i, j := Pigeonhole(w[1..], Homes(open));
    assert Circles(open, links, origin, w, i + 1, j + 1);
  }

  /**
   * Whatever the links: the handlings are bounded if and only if no circle of linked home nodes
   * can be reached from the origin.
   */
  lemma ForwardingEndsIffNoCircle(p: Setting, h: seq<Step>, origin: int)
    requires Fresh(p.start) && Legal(p.start.servers.Keys, h) && origin in p.start.servers
    ensures Ends(p, Start(h, origin)) <==> !ReachesCircle(OpenOf(h, p.userid), p.links, origin)
  {
    hide Legal, OpenOf, HandledAtMost, Fresh, CanGo, Circles, Homes;
    var open := OpenOf(h, p.userid);
    if b: nat :| HandledAtMost(p, Start(h, origin), b) {
      StopsIfItEnds(p, h, origin, b);
      if w, i, j :| Circles(open, p.links, origin, w, i, j) {
        CircleFromOrigin(open, p.links, origin, w, i, j, b + 1);
      }
    } else if !CanGo(open, p.links, origin, |Homes(open)| + 1) {
      EndsIfItStops(p, h, origin, |Homes(open)|);
    } else {
      LongWayCircles(open, p.links, origin);
    }
  }

  lemma CircleFromOrigin(open: seq<Open>, links: set<(int, int)>, origin: int, w: seq<int>, i: nat, j: nat, f: nat)
    requires Circles(open, links, origin, w, i, j)
    ensures CanGo(open, links, origin, f)
  {
    CircleGoesOn(open, links, origin, w, i, j, 0, f);
  }

  // ---- all peers connected ----

  predicate AllLinked(p: Setting) {
    forall m, n :: m in p.start.servers && n in p.start.servers && m != n ==> (m, n) in p.links
  }

  /** Copies are under way, and only to servers. */
  ghost predicate UnderWay(p: Setting, d: Progress) {
    (exists n :: n in d.inflight) && forall n :: n in d.inflight ==> n in p.start.servers
  }

  lemma HandlingKeepsUnderWay(p: Setting, d: Progress, n: int, o1: Open, o2: Open)
    requires Fresh(p.start) && AllLinked(p) && Possible(p, d, Handle(n)) && UnderWay(p, d)
    requires o1 in OpenOf(d.h, p.userid) && o2 in OpenOf(d.h, p.userid) && o1.node != o2.node
    ensures UnderWay(p, Do(p, d, Handle(n)))
  {
    var open := OpenOf(d.h, p.userid);
    HomesAreServers(p.start.servers.Keys, d.h, p.userid);
    HandleIs(p, d, n);
    hide Do, Legal, OpenOf, OpenWrites, OpenCopies;
    var o := if o1.node != n then o1 else o2;
    CopyForEveryOther(n, open, p.links, o);
    var d' := Do(p, d, Handle(n));
    assert o.node in d'.inflight;
    forall m | m in d'.inflight
      ensures m in p.start.servers
    {
      if m in OpenCopies(n, open, p.links) {
        CopiesGoToHomes(n, open, p.links, m);
      }
    }
  }

  /** With sessions on two nodes a message never comes to rest: there is always a copy under way. */
  lemma {:induction false} TwoHomesNeverRest(p: Setting, h: seq<Step>, origin: int, o1: Open, o2: Open,
                                             acts: seq<Action>)
    requires Fresh(p.start) && AllLinked(p) && Legal(p.start.servers.Keys, h) && origin in p.start.servers
    requires o1 in OpenOf(h, p.userid) && o2 in OpenOf(h, p.userid) && o1.node != o2.node
    requires Can(p, Start(h, origin), acts)
    ensures UnderWay(p, After(p, Start(h, origin), acts))
    decreases |acts|
  {
    if acts == [] {
      assert origin in multiset{origin};
    } else {
      LastAction(p, Start(h, origin), acts);
      hide Follow, Possible, Do, AllLinked, Legal, OpenOf, Fresh;
      var init, a := acts[..|acts| - 1], acts[|acts| - 1];
      TwoHomesNeverRest(p, h, origin, o1, o2, init);
      SameOpen(p, Start(h, origin), init);
      match a
      case Handle(n) => HandlingKeepsUnderWay(p, After(p, Start(h, origin), init), n, o1, o2);
      case Other(e) => OtherKeepsUnderWay(p, After(p, Start(h, origin), init), e);
    }
  }

  lemma OtherKeepsUnderWay(p: Setting, d: Progress, e: Step)
    requires Possible(p, d, Other(e)) && UnderWay(p, d)
    ensures UnderWay(p, Do(p, d, Other(e)))
  {
  }

  lemma TwoHomesCircle(open: seq<Open>, links: set<(int, int)>, origin: int, o1: Open, o2: Open)
    requires o1 in open && o2 in open && o1.node != o2.node
    requires forall m, n :: (m == origin || IsHome(open, m)) && IsHome(open, n) && m != n ==> (m, n) in links
    ensures ReachesCircle(open, links, origin)
  {
    var (a, b) := if o1.node != origin then (o1.node, o2.node) else (o2.node, o1.node);
    assert IsHome(open, a) && IsHome(open, b);
    assert Circles(open, links, origin, [origin, a, b, a], 1, 3);
  }

  lemma OneHomeNoCircle(open: seq<Open>, links: set<(int, int)>, origin: int, home: int)
    requires AllAt(open, home)
    ensures !ReachesCircle(open, links, origin)
  {
    forall w, i, j
      ensures !Circles(open, links, origin, w, i, j)
    {
      if Circles(open, links, origin, w, i, j) {
        ShortWay(open, links, w, home);
        WayLeadsHome(open, links, w, home, 1);
      }
    }
  }

  lemma WayLeadsHome(open: seq<Open>, links: set<(int, int)>, w: seq<int>, home: int, k: nat)
    requires Way(open, links, w) && AllAt(open, home) && 0 < k < |w|
    ensures w[k] == home && w[k - 1] != home
  {
    assert IsHome(open, w[k]) && Leads(links, w[k - 1], w[k]);
  }

  lemma ShortWay(open: seq<Open>, links: set<(int, int)>, w: seq<int>, home: int)
    requires Way(open, links, w) && AllAt(open, home)
    ensures |w| <= 2
  {
    if |w| > 2 {
      WayLeadsHome(open, links, w, home, 1);
      WayLeadsHome(open, links, w, home, 2);
    }
  }

  /** With all peers connected, forwarding ends if and only if the sessions share one home node. */
  lemma ForwardingEndsIffOneHome(p: Setting, h: seq<Step>, origin: int)
    requires Fresh(p.start) && AllLinked(p) && Legal(p.start.servers.Keys, h) && origin in p.start.servers
    ensures Ends(p, Start(h, origin)) <==> exists home :: AllAt(OpenOf(h, p.userid), home)
  {
    var open := OpenOf(h, p.userid);
    HomesAreServers(p.start.servers.Keys, h, p.userid);
    hide Legal, OpenOf, Ends, Fresh, ReachesCircle;
    ForwardingEndsIffNoCircle(p, h, origin);
    if home :| AllAt(open, home) {
      OneHomeNoCircle(open, p.links, origin, home);
    } else {
      assert !AllAt(open, 0);
      var o1 :| o1 in open;
      assert !AllAt(open, o1.node);
      var o2 :| o2 in open && o2.node != o1.node;
      TwoHomesCircle(open, p.links, origin, o1, o2);
    }
  }

  /** Two nodes that have just started. */
  function TwoServers(): State {
    State(map[1 := Server(WsNode(1, 0, "a", 80), map[]), 2 := Server(WsNode(2, 0, "b", 80), map[])], map[], map[])
  }

  /** For instance: two linked nodes and a user with a session on each. */
  lemma EndlessForwarding()
    ensures var p := Setting(TwoServers(), "u", {(1, 2), (2, 1)}, {});
            var h := [Connect(1, "u", "s"), Connect(2, "u", "t")];
            && Fresh(p.start) && AllLinked(p) && Legal(p.start.servers.Keys, h) && !Ends(p, Start(h, 1))
  {
    var p := Setting(TwoServers(), "u", {(1, 2), (2, 1)}, {});
    var e1, e2 := Connect(1, "u", "s"), Connect(2, "u", "t");
    var h := [e1, e2];
    Last([], e1);
    Last([e1], e2);
    NextOpen([], e1, "u");
    NextOpen([e1], e2, "u");
    assert [] + [e1] == [e1] && [e1] + [e2] == h;
    assert Births([e1]) == map["s" := Birth("u", 1)];
    assert OpenOf([e1], "u") == [Open("s", 1)] && OpenOf(h, "u") == [Open("s", 1), Open("t", 2)];
    assert Births([]) == map[] && Legal(p.start.servers.Keys, []) && Legal(p.start.servers.Keys, [e1]);
    assert AllLinked(p) && Fresh(p.start) && Legal(p.start.servers.Keys, h);
    hide AllLinked, Fresh, Legal, Ends;
    ForwardingEndsIffOneHome(p, h, 1);
    forall home
      ensures !AllAt(OpenOf(h, "u"), home)
    {
      assert Open("s", 1) in OpenOf(h, "u") && Open("t", 2) in OpenOf(h, "u");
    }
  }
}
