/** A server node: its record, its ZooKeeper path and its load counter. */
module Nodes {
  import opened Outcomes
  import opened Decimal

  /** `WsNode`; `Equals` leaves the balance out. */
  datatype WsNode = WsNode(id: int, balance: int, host: string, port: int) {
    predicate Equals(that: WsNode) {
      id == that.id && host == that.host && port == that.port
    }
  }

  // ---- paths ----

  const TEMPORARY_NODE_PATH: string := "/nodes/seq-"

  predicate OccursAt(s: string, p: string, i: nat) {
    i + |p| <= |s| && s[i..i + |p|] == p
  }

  /** The last position at or before `i` where `p` occurs, or -1. */
  function LastIndexOf(s: string, p: string, i: int): (r: int)
    requires i < |s| + 1
    ensures -1 <= r
    ensures r >= 0 ==> r <= i && OccursAt(s, p, r)
    ensures forall j :: r < j <= i && j >= 0 ==> !OccursAt(s, p, j)
    decreases i + 1
  {
    if i < 0 then -1 else if OccursAt(s, p, i) then i else LastIndexOf(s, p, i - 1)
  }

  /** What `Long.parseLong` accepts. */
  predicate Numeral(s: string) {
    s != "" && (if s[0] == '-' || s[0] == '+' then |s| > 1 && AllDigits(s[1..]) else AllDigits(s))
  }

  function NumeralValue(s: string): int
    requires Numeral(s)
  {
    if s[0] == '-' then -(Parse(s[1..]) as int) else if s[0] == '+' then Parse(s[1..]) else Parse(s)
  }

  function ParseLong(s: string): Outcome<int> {
    if Numeral(s) && -0x8000_0000_0000_0000 <= NumeralValue(s) < 0x8000_0000_0000_0000
    then Ok(NumeralValue(s)) else Throws
  }

  /** `getIdByPath`; a missing path, prefix or number is an exception. */
  function GetIdByPath(path: Option<string>): Outcome<int> {
    if path.None? then Throws
    else
      var p := path.value;
      var index := LastIndexOf(p, TEMPORARY_NODE_PATH, |p|);
      if index < 0 then Throws else ParseLong(p[index + |TEMPORARY_NODE_PATH|..])
  }

  lemma NumeralHasNoPrefix(s: string, i: nat)
    requires Numeral(s)
    ensures i < |s| ==> s[i] != '/'
  {
    if i < |s| {
      if i > 0 {
        assert s[1..][i - 1] == s[i];
      }
    }
  }

  lemma SlashesOfPrefix(p: string, j: nat)
    requires OccursAt(p, TEMPORARY_NODE_PATH, j)
    ensures p[j] == '/' && p[j + 6] == '/'
  {
    var t := p[j..j + |TEMPORARY_NODE_PATH|];
    assert t[0] == p[j] && t[6] == p[j + 6];
  }

  lemma NoLaterPrefix(dir: string, sid: string, j: nat)
    requires Numeral(sid) && j > |dir|
    ensures !OccursAt(dir + TEMPORARY_NODE_PATH + sid, TEMPORARY_NODE_PATH, j)
  {
    var p, n := dir + TEMPORARY_NODE_PATH + sid, |dir|;
    if j + 6 < |p| {
      var i := if j == n + 6 then j + 6 else j;
      if i >= n + |TEMPORARY_NODE_PATH| {
        NumeralHasNoPrefix(sid, i - n - |TEMPORARY_NODE_PATH|);
        assert p[i] == sid[i - n - |TEMPORARY_NODE_PATH|];
      } else {
        assert p[i] == TEMPORARY_NODE_PATH[i - n];
      }
      assert p[i] != '/';
    }
    if OccursAt(p, TEMPORARY_NODE_PATH, j) {
      SlashesOfPrefix(p, j);
    }
  }

  /** The id of a path is the number behind the prefix, whatever stands before it. */
  lemma IdIsTheNumber(dir: string, sid: string)
    requires Numeral(sid)
    ensures GetIdByPath(Some(dir + TEMPORARY_NODE_PATH + sid)) == ParseLong(sid)
  {
    var p := dir + TEMPORARY_NODE_PATH + sid;
    var index := LastIndexOf(p, TEMPORARY_NODE_PATH, |p|);
    assert OccursAt(p, TEMPORARY_NODE_PATH, |dir|);
    if index > |dir| {
      NoLaterPrefix(dir, sid, index);
    }
    assert p[|dir| + |TEMPORARY_NODE_PATH|..] == sid;
  }

  /** By character codes: any text, the prefix, at most one sign, and digits. */
  predicate Names(path: string, dir: string, sign: string, digits: string) {
    && path == dir + "/nodes/seq-" + (sign + digits)
    && sign in ["", "+", "-"] && digits != "" && DigitCodes(digits)
  }

  /** The id is what the places of the digits add up to, with the sign. */
  lemma IdIsThePlaceValue(path: string, dir: string, sign: string, digits: string)
    requires Names(path, dir, sign, digits)
    ensures var v := if sign == "-" then -PlaceValue(digits) else PlaceValue(digits);
            GetIdByPath(Some(path)) == if -0x8000_0000_0000_0000 <= v < 0x8000_0000_0000_0000 then Ok(v) else Throws
  {
    var sid := sign + digits;
    DigitsAreCodes(digits);
    ParseIsPlaceValue(digits);
    if sign == "" {
      assert sid == digits;
    } else {
      assert sid[1..] == digits;
    }
    hide Parse, PlaceValue, GetIdByPath;
    IdIsTheNumber(dir, sid);
  }

  lemma NumeralParts(s: string) returns (sign: string, digits: string)
    requires Numeral(s)
    ensures s == sign + digits && sign in ["", "+", "-"] && digits != "" && DigitCodes(digits)
  {
    if s[0] == '-' || s[0] == '+' {
      sign, digits := s[..1], s[1..];
      assert sign == [s[0]];
    } else {
      sign, digits := "", s;
      assert "" + s == s;
    }
    DigitsAreCodes(digits);
  }

  /** And only such paths have an id. */
  lemma IdOnlyOfNumbers(path: string)
    requires GetIdByPath(Some(path)).Ok?
    ensures exists dir, sid :: path == dir + TEMPORARY_NODE_PATH + sid && Numeral(sid)
  {
    hide Numeral, LastIndexOf;
    var index := LastIndexOf(path, TEMPORARY_NODE_PATH, |path|);
    var dir, sid := path[..index], path[index + |TEMPORARY_NODE_PATH|..];
    assert path == dir + TEMPORARY_NODE_PATH + sid;
  }

  lemma IdOnlyOfNames(path: string)
    requires GetIdByPath(Some(path)).Ok?
    ensures exists dir, sign, digits :: Names(path, dir, sign, digits)
  {
    IdOnlyOfNumbers(path);
    hide GetIdByPath, Numeral, DigitCodes;
    var dir, sid :| path == dir + TEMPORARY_NODE_PATH + sid && Numeral(sid);
    var sign, digits := NumeralParts(sid);
    assert Names(path, dir, sign, digits);
  }

  /** The path ZooKeeper makes of its counter, ten digits wide, leads back to the counter. */
  lemma IdOfSequentialPath(n: nat)
    requires n < 0x8000_0000
    ensures GetIdByPath(Some("/nodes/seq-" + Padded(n, 10))) == Ok(n)
    ensures |Padded(n, 10)| == 10 && DigitCodes(Padded(n, 10)) && PlaceValue(Padded(n, 10)) == n
  {
    PaddedPlaces(n, 10);
    var sid := Padded(n, 10);
    PaddedParses(n, 10);
    assert Pow10(10) == 10 * Pow10(9) == 100 * Pow10(8) == 1000 * Pow10(7);
    assert Pow10(7) == 10_000_000;
    IdIsTheNumber("", sid);
    assert "" + TEMPORARY_NODE_PATH + sid == TEMPORARY_NODE_PATH + sid;
  }

  lemma {:induction false} PaddedParses(n: nat, k: nat)
    ensures AllDigits(Padded(n, k)) && (n < Pow10(k) ==> Parse(Padded(n, k)) == n)
  {
    if k > 0 {
      var s := Padded(n, k);
      PaddedParses(n / 10, k - 1);
      assert s[..|s| - 1] == Padded(n / 10, k - 1);
    }
  }

  // ---- the local node ----

  /** `NettyWorker`; whether ZooKeeper accepts a write is a parameter. */
  class NettyWorker {
    var wsNode: WsNode
    var pathRegistered: Option<string>
    var inited: bool

    constructor (host: string, port: int)
      ensures wsNode == WsNode(0, 0, host, port) && pathRegistered == None && !inited
    {
      wsNode, pathRegistered, inited := WsNode(0, 0, host, port), None, false;
    }

    /** Only the first call registers the node; a failure is caught and leaves id 0. */
    method Init(created: Option<string>)
      modifies this
      ensures inited
      ensures old(inited) ==> wsNode == old(wsNode) && pathRegistered == old(pathRegistered)
      ensures !old(inited) ==>
                pathRegistered == (if created.Some? then created else old(pathRegistered)) &&
                wsNode == (if created.Some? && GetIdByPath(created).Ok?
                           then old(wsNode).(id := GetIdByPath(created).value) else old(wsNode))
    {
      if inited {
        return;
      }
      inited := true;
      if created.Some? {
        pathRegistered := created;
        var id := GetIdByPath(pathRegistered);
        if id.Ok? {
          wsNode := wsNode.(id := id.value);
        }
      }
    }

    /** The counter has moved even when the write to ZooKeeper fails. */
    method IncBalance(written: bool) returns (ok: bool)
      modifies this`wsNode
      ensures wsNode == old(wsNode).(balance := old(wsNode.balance) + 1) && ok == written
    {
      wsNode := wsNode.(balance := wsNode.balance + 1);
      ok := written;
    }

    method DecrBalance(written: bool) returns (ok: bool)
      modifies this`wsNode
      ensures wsNode == old(wsNode).(balance := old(wsNode.balance) - 1) && ok == written
    {
      wsNode := wsNode.(balance := wsNode.balance - 1);
      ok := written;
    }
  }
}
