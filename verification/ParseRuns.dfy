/**
 * The parse loop turn by turn, steps back included. A skipped field with a negative length
 * moves the cursor towards the start of the input and the loop goes on from there, so a parse
 * may never end; this module says when it does.
 */
module ParseRuns {
  import opened JsNumbers
  import opened Outcomes
  import opened Varints
  import opened Wire
  import opened Records
  import opened Pigeonholes

  /** The cursor, the numbers of the groups being skipped, innermost last, and the message so far. */
  datatype State = State(cursor: int, groups: seq<nat>, m: seq<Value>)

  /** A turn ends the parse, with the message and the cursor, or leads to the next state. */
  datatype Turned = Stop(r: Outcome<(seq<Value>, nat)>) | Go(s: State)

  /** `skipField` behind a header that ends at `c`; more open groups than `limit` exhaust the call stack. */
  function Skip(limit: nat, bytes: seq<byte>, s: State, h: Header, c: nat): Turned
    requires c <= |bytes|
  {
    var rest := bytes[c..];
    if h.wire == VARINT then Go(s.(cursor := c + SkipVarint(rest)))
    else if h.wire == FIXED64 then if |rest| < 8 then Stop(Throws) else Go(s.(cursor := c + 8))
    else if h.wire == FIXED32 then if |rest| < 4 then Stop(Throws) else Go(s.(cursor := c + 4))
    else if h.wire == DELIMITED then
      match Read32(rest)
      case Ok((n, k)) => if k + n > |rest| then Stop(Throws) else Go(s.(cursor := c + k + n))
      case _ => Stop(Throws)
    else if h.wire == START_GROUP && |s.groups| < limit then Go(s.(cursor := c, groups := s.groups + [h.no]))
    else Stop(Throws)
  }

  /** One turn: of the message's loop, or of `skipGroup` when a group is open. */
  function Turn(schema: Schema, limit: nat, bytes: seq<byte>, s: State): (r: Turned)
    requires |s.m| == |schema|
    ensures r.Go? ==> |r.s.m| == |schema|
  {
    if s.cursor == |bytes| then Stop(if s.groups == [] then Ok((s.m, |bytes|)) else Throws)
    else if s.cursor < 0 || s.cursor > |bytes| then Stop(Throws)
    else
      match NextField(bytes[s.cursor..])
      case Ok(h) =>
        var c := s.cursor + h.size;
        if s.groups != [] then
          var last := |s.groups| - 1;
          if h.wire != END_GROUP then Skip(limit, bytes, s, h, c)
          else if h.no == s.groups[last] then Go(s.(cursor := c, groups := s.groups[..last]))
          else Stop(Throws)
        else if h.wire == END_GROUP then Stop(Ok((s.m, c)))
        else if 1 <= h.no <= |schema| then
          match ReadValue(schema[h.no - 1], h.wire, bytes[c..])
          case Ok((v, k)) => Go(s.(cursor := c + k, m := s.m[h.no - 1 := v]))
          case _ => Stop(Throws)
        else Skip(limit, bytes, s, h, c)
      case _ => Stop(Throws)
  }

  function After(schema: Schema, limit: nat, bytes: seq<byte>, s: State, n: nat): (r: Turned)
    requires |s.m| == |schema|
    ensures r.Go? ==> |r.s.m| == |schema|
  {
    if n == 0 then Go(s)
    else
      match After(schema, limit, bytes, s, n - 1)
      case Go(t) => Turn(schema, limit, bytes, t)
      case stopped => stopped
  }

  function Start(m: seq<Value>): State {
    State(0, [], m)
  }

  ghost predicate Ends(schema: Schema, limit: nat, bytes: seq<byte>, s: State)
    requires |s.m| == |schema|
  {
    exists n: nat :: After(schema, limit, bytes, s, n).Stop?
  }

  /** The header of a delimited field with a negative length. */
  predicate NegativeLength(s: seq<byte>) {
    NextField(s).Ok? &&
    var h := NextField(s).value;
    h.wire == DELIMITED && Read32(s[h.size..]).Ok? && Read32(s[h.size..]).value.0 < 0
  }

  /** The turn at `s` skips a field whose length is negative. */
  predicate StepsBack(schema: Schema, bytes: seq<byte>, s: State) {
    && 0 <= s.cursor < |bytes| && NegativeLength(bytes[s.cursor..])
    && (s.groups != [] || !(1 <= NextField(bytes[s.cursor..]).value.no <= |schema|))
  }

  /** The turn at `s` opens one group more than the call stack holds. */
  predicate Overflows(schema: Schema, limit: nat, bytes: seq<byte>, s: State) {
    && 0 <= s.cursor < |bytes| && NextField(bytes[s.cursor..]).Ok? && |s.groups| >= limit
    && NextField(bytes[s.cursor..]).value.wire == START_GROUP
    && (s.groups != [] || !(1 <= NextField(bytes[s.cursor..]).value.no <= |schema|))
  }

  // ---- composing runs ----

  lemma {:induction false} Continue(schema: Schema, limit: nat, bytes: seq<byte>, s: State, i: nat, n: nat)
    requires |s.m| == |schema| && After(schema, limit, bytes, s, i).Go?
    ensures After(schema, limit, bytes, s, i + n) == After(schema, limit, bytes, After(schema, limit, bytes, s, i).s, n)
  {
    hide Turn;
    if n > 0 {
      Continue(schema, limit, bytes, s, i, n - 1);
    }
  }

  lemma OneTurn(schema: Schema, limit: nat, bytes: seq<byte>, s: State)
    requires |s.m| == |schema|
    ensures After(schema, limit, bytes, s, 1) == Turn(schema, limit, bytes, s)
  {
    hide Turn;
    assert After(schema, limit, bytes, s, 0) == Go(s);
  }

  /** Once stopped, a parse stays stopped. */
  lemma {:induction false} StillGoing(schema: Schema, limit: nat, bytes: seq<byte>, s: State, i: nat, n: nat)
    requires |s.m| == |schema| && i <= n && After(schema, limit, bytes, s, n).Go?
    ensures After(schema, limit, bytes, s, i).Go?
  {
    hide Turn;
    if i < n {
      StillGoing(schema, limit, bytes, s, i, n - 1);
    }
  }

  // ---- without a step back the parse is that of `ParseFrom` ----

  /** The call stack suffices when every byte to come opens a group. */
  predicate Room(limit: nat, bytes: seq<byte>, s: State) {
    |s.groups| + |bytes| - s.cursor <= limit
  }

  /** After n turns the call stack is exhausted, and there was no room from `s` on. */
  predicate Exhausted(schema: Schema, limit: nat, bytes: seq<byte>, s: State, n: nat)
    requires |s.m| == |schema|
  {
    var t := After(schema, limit, bytes, s, n);
    !Room(limit, bytes, s) && t.Go? && Overflows(schema, limit, bytes, t.s)
  }

  /** After n turns the skipping has come out as `r` says, or at a step back. */
  predicate Reached(schema: Schema, limit: nat, bytes: seq<byte>, s: State, n: nat, groups: seq<nat>, r: Outcome<nat>)
    requires |s.m| == |schema|
  {
    var t := After(schema, limit, bytes, s, n);
    || Exhausted(schema, limit, bytes, s, n)
    || match r
       case Ok(k) => t == Go(State(s.cursor + k, groups, s.m))
       case Throws => t == Stop(Throws)
       case Backward => t.Go? && StepsBack(schema, bytes, t.s)
  }

  lemma ReachedLater(schema: Schema, limit: nat, bytes: seq<byte>, s: State, i: nat, n: nat,
                     between: seq<nat>, k: nat, groups: seq<nat>, r: Outcome<nat>)
    requires |s.m| == |schema| && After(schema, limit, bytes, s, i) == Go(State(s.cursor + k, between, s.m))
    requires Room(limit, bytes, s) ==> Room(limit, bytes, State(s.cursor + k, between, s.m))
    requires Reached(schema, limit, bytes, State(s.cursor + k, between, s.m), n, groups, r)
    ensures Reached(schema, limit, bytes, s, i + n, groups, Later(k, r))
  {
    hide After, StepsBack, Overflows, Room;
    Continue(schema, limit, bytes, s, i, n);
  }

  lemma {:induction false} FieldRuns(schema: Schema, limit: nat, bytes: seq<byte>, s: State, h: Header) returns (n: nat)
    requires |s.m| == |schema| && 0 <= s.cursor < |bytes|
    requires NextField(bytes[s.cursor..]) == Ok(h) && h.wire != END_GROUP
    requires s.groups != [] || !(1 <= h.no <= |schema|)
    ensures Reached(schema, limit, bytes, s, n, s.groups,
                    Later(h.size, SkipField(bytes[s.cursor + h.size..], h.no, h.wire)))
    decreases |bytes| - s.cursor, 0
  {
    hide After, NextField, Read32, SkipGroup, SkipVarint;
    OneTurn(schema, limit, bytes, s);
    n := 1;
    if h.wire == START_GROUP && |s.groups| >= limit {
      n := 0;
      NoTurn(schema, limit, bytes, s);
    } else if h.wire == START_GROUP {
      hide Turn;
      SkipOpens(schema, limit, bytes, s, h);
      var inner := State(s.cursor + h.size, s.groups + [h.no], s.m);
      var more := GroupRuns(schema, limit, bytes, inner);
      assert inner.groups[..|inner.groups| - 1] == s.groups;
      GroupIsSkipped(bytes[s.cursor + h.size..], h.no);
      ReachedLater(schema, limit, bytes, s, 1, more, inner.groups, h.size, s.groups,
                   SkipGroup(bytes[s.cursor + h.size..], h.no));
      n := 1 + more;
    } else if h.wire == DELIMITED && Read32(bytes[s.cursor + h.size..]).Ok?
              && Read32(bytes[s.cursor + h.size..]).value.0 < 0 {
      n := 0;
      NoTurn(schema, limit, bytes, s);
    }
  }

  lemma NoTurn(schema: Schema, limit: nat, bytes: seq<byte>, s: State)
    requires |s.m| == |schema|
    ensures After(schema, limit, bytes, s, 0) == Go(s)
  {
  }

  lemma SkipOpens(schema: Schema, limit: nat, bytes: seq<byte>, s: State, h: Header)
    requires |s.m| == |schema| && |s.groups| < limit && 0 <= s.cursor < |bytes|
    requires NextField(bytes[s.cursor..]) == Ok(h) && h.wire == START_GROUP
    requires s.groups != [] || !(1 <= h.no <= |schema|)
    ensures Turn(schema, limit, bytes, s) == Go(State(s.cursor + h.size, s.groups + [h.no], s.m))
  {
    hide NextField;
  }

  lemma {:induction false} GroupRuns(schema: Schema, limit: nat, bytes: seq<byte>, s: State) returns (n: nat)
    requires |s.m| == |schema| && 0 <= s.cursor <= |bytes| && s.groups != []
    ensures Reached(schema, limit, bytes, s, n, s.groups[..|s.groups| - 1],
                    SkipGroup(bytes[s.cursor..], s.groups[|s.groups| - 1]))
    decreases |bytes| - s.cursor, 1
  {
    hide After, NextField, SkipField, Reached, Exhausted, StepsBack, Skip, Turn;
    n := 1;
    var rest, no, outer := bytes[s.cursor..], s.groups[|s.groups| - 1], s.groups[..|s.groups| - 1];
    TurnEnds(schema, limit, bytes, s);
    if s.cursor < |bytes| && NextField(rest).Ok? && NextField(rest).value.wire != END_GROUP {
      var h := NextField(rest).value;
      n := FieldRuns(schema, limit, bytes, s, h);
      assert rest[h.size..] == bytes[s.cursor + h.size..];
      var f := SkipField(rest[h.size..], h.no, h.wire);
      if Exhausted(schema, limit, bytes, s, n) {
        ReachedExhausted(schema, limit, bytes, s, n, outer, SkipGroup(rest, no));
      } else if f.Ok? {
        var k := h.size + f.value;
        ReachedGoes(schema, limit, bytes, s, n, s.groups, k);
        var t := State(s.cursor + k, s.groups, s.m);
        if k <= |rest| {
          assert rest[k..] == bytes[t.cursor..];
          var more := GroupRuns(schema, limit, bytes, t);
          ReachedLater(schema, limit, bytes, s, n, more, s.groups, k, outer, SkipGroup(rest[k..], no));
          n := n + more;
        } else {
          PastEnd(schema, limit, bytes, t, outer);
          ReachedLater(schema, limit, bytes, s, n, 1, s.groups, k, outer, Throws);
          n := n + 1;
        }
      } else {
        NotReached(schema, limit, bytes, s, n, s.groups, outer, f);
      }
    }
  }

  /** The last turn of a group, or the failure of its next header. */
  lemma TurnEnds(schema: Schema, limit: nat, bytes: seq<byte>, s: State)
    requires |s.m| == |schema| && 0 <= s.cursor <= |bytes| && s.groups != []
    ensures var rest := bytes[s.cursor..];
            (rest == [] || !NextField(rest).Ok? || NextField(rest).value.wire == END_GROUP) ==>
              Reached(schema, limit, bytes, s, 1, s.groups[..|s.groups| - 1], SkipGroup(rest, s.groups[|s.groups| - 1]))
  {
    hide After, NextField, SkipField;
    OneTurn(schema, limit, bytes, s);
  }

  lemma ReachedExhausted(schema: Schema, limit: nat, bytes: seq<byte>, s: State, n: nat,
                         groups: seq<nat>, r: Outcome<nat>)
    requires |s.m| == |schema| && Exhausted(schema, limit, bytes, s, n)
    ensures Reached(schema, limit, bytes, s, n, groups, r)
  {
    hide Exhausted;
  }

  lemma ReachedGoes(schema: Schema, limit: nat, bytes: seq<byte>, s: State, n: nat, groups: seq<nat>, k: nat)
    requires |s.m| == |schema| && Reached(schema, limit, bytes, s, n, groups, Ok(k))
    requires !Exhausted(schema, limit, bytes, s, n)
    ensures After(schema, limit, bytes, s, n) == Go(State(s.cursor + k, groups, s.m))
  {
    hide After, Exhausted;
  }

  lemma PastEnd(schema: Schema, limit: nat, bytes: seq<byte>, s: State, groups: seq<nat>)
    requires |s.m| == |schema| && s.cursor > |bytes|
    ensures Reached(schema, limit, bytes, s, 1, groups, Throws)
  {
    hide After;
    OneTurn(schema, limit, bytes, s);
  }

  lemma NotReached(schema: Schema, limit: nat, bytes: seq<byte>, s: State, n: nat,
                   g1: seq<nat>, g2: seq<nat>, r: Outcome<nat>)
    requires |s.m| == |schema| && !r.Ok? && Reached(schema, limit, bytes, s, n, g1, r)
    ensures Reached(schema, limit, bytes, s, n, g2, r)
  {
    hide After;
  }

  /** The end of a run as `ParseFrom` gives it, or a step back; or a stack smaller than the input is exhausted. */
  predicate Finished(schema: Schema, limit: nat, bytes: seq<byte>, s: State, n: nat,
                     r: Outcome<(seq<Value>, seq<byte>)>)
    requires |s.m| == |schema|
  {
    var t := After(schema, limit, bytes, s, n);
    || (|bytes| > limit && t.Go? && Overflows(schema, limit, bytes, t.s))
    || match r
       case Ok((m, rest)) => |rest| <= |bytes| && t == Stop(Ok((m, |bytes| - |rest|)))
       case Throws => t == Stop(Throws)
       case Backward => t.Go? && StepsBack(schema, bytes, t.s)
  }

  lemma FinishedLater(schema: Schema, limit: nat, bytes: seq<byte>, s: State, i: nat, n: nat, t: State,
                      r: Outcome<(seq<Value>, seq<byte>)>)
    requires |s.m| == |t.m| == |schema| && After(schema, limit, bytes, s, i) == Go(t)
    requires Finished(schema, limit, bytes, t, n, r)
    ensures Finished(schema, limit, bytes, s, i + n, r)
  {
    hide After, StepsBack, Overflows;
    Continue(schema, limit, bytes, s, i, n);
  }

  /** A known field in the loop. */
  lemma TurnReads(schema: Schema, limit: nat, bytes: seq<byte>, s: State, h: Header)
    requires |s.m| == |schema| && s.groups == [] && 0 <= s.cursor < |bytes|
    requires NextField(bytes[s.cursor..]) == Ok(h) && h.wire != END_GROUP && 1 <= h.no <= |schema|
    ensures Turn(schema, limit, bytes, s) ==
            match ReadValue(schema[h.no - 1], h.wire, bytes[s.cursor + h.size..])
            case Ok((v, k)) => Go(State(s.cursor + h.size + k, [], s.m[h.no - 1 := v]))
            case _ => Stop(Throws)
  {
    hide NextField, ReadValue, Skip;
  }

  lemma ParseReadsOne(schema: Schema, rest: seq<byte>, m: seq<Value>, h: Header)
    requires |m| == |schema| && NextField(rest) == Ok(h) && h.wire != END_GROUP && 1 <= h.no <= |schema|
    ensures ParseFrom(schema, rest, m) ==
            match ReadValue(schema[h.no - 1], h.wire, rest[h.size..])
            case Ok((v, k)) =>
              if k <= |rest| - h.size then ParseFrom(schema, rest[h.size..][k..], m[h.no - 1 := v]) else Throws
            case _ => Throws
  {
    hide NextField, SkipField, ReadValue;
  }

  lemma ParseReads(schema: Schema, bytes: seq<byte>, s: State, h: Header)
    requires |s.m| == |schema| && 0 <= s.cursor < |bytes|
    requires NextField(bytes[s.cursor..]) == Ok(h) && h.wire != END_GROUP && 1 <= h.no <= |schema|
    ensures ParseFrom(schema, bytes[s.cursor..], s.m) ==
            match ReadValue(schema[h.no - 1], h.wire, bytes[s.cursor + h.size..])
            case Ok((v, k)) =>
              var c := s.cursor + h.size + k;
              if c <= |bytes| then ParseFrom(schema, bytes[c..], s.m[h.no - 1 := v]) else Throws
            case _ => Throws
  {
    hide NextField, ParseFrom, ReadValue;
    var rest := bytes[s.cursor..];
    assert rest[h.size..] == bytes[s.cursor + h.size..];
    ParseReadsOne(schema, rest, s.m, h);
    var r := ReadValue(schema[h.no - 1], h.wire, bytes[s.cursor + h.size..]);
    if r.Ok? && h.size + r.value.1 <= |rest| {
      assert rest[h.size..][r.value.1..] == bytes[s.cursor + h.size + r.value.1..];
    }
  }

  /** The last turn of the loop. */
  lemma LoopEnds(schema: Schema, limit: nat, bytes: seq<byte>, s: State)
    requires |s.m| == |schema| && s.groups == [] && s.cursor >= 0
    requires s.cursor < |bytes| && NextField(bytes[s.cursor..]).Ok? ==>
               NextField(bytes[s.cursor..]).value.wire == END_GROUP
    ensures Finished(schema, limit, bytes, s, 1,
                     if s.cursor <= |bytes| then ParseFrom(schema, bytes[s.cursor..], s.m) else Throws)
  {
    hide After, NextField, SkipField, ReadValue, Skip, StepsBack;
    OneTurn(schema, limit, bytes, s);
  }

  /** An unknown field in the loop. */
  lemma LoopSkips(schema: Schema, bytes: seq<byte>, s: State, h: Header)
    requires |s.m| == |schema| && 0 <= s.cursor < |bytes|
    requires NextField(bytes[s.cursor..]) == Ok(h) && h.wire != END_GROUP && !(1 <= h.no <= |schema|)
    ensures var r := ParseFrom(schema, bytes[s.cursor..], s.m);
            match SkipField(bytes[s.cursor + h.size..], h.no, h.wire)
            case Ok(k) =>
              var c := s.cursor + h.size + k;
              r == if c <= |bytes| then ParseFrom(schema, bytes[c..], s.m) else Throws
            case Throws => r == Throws
            case Backward => r == Backward
  {
    hide NextField, SkipField, ReadValue;
    var rest := bytes[s.cursor..];
    assert rest[h.size..] == bytes[s.cursor + h.size..];
    var f := SkipField(bytes[s.cursor + h.size..], h.no, h.wire);
    if f.Ok? && h.size + f.value <= |rest| {
      assert rest[h.size..][f.value..] == bytes[s.cursor + h.size + f.value..];
    }
  }

  /** Turn by turn the loop comes to what `ParseFrom` says, or to the first step back. */
  lemma {:induction false} LoopRuns(schema: Schema, limit: nat, bytes: seq<byte>, s: State) returns (n: nat)
    requires |s.m| == |schema| && s.groups == [] && s.cursor >= 0
    ensures Finished(schema, limit, bytes, s, n,
                     if s.cursor <= |bytes| then ParseFrom(schema, bytes[s.cursor..], s.m) else Throws)
    decreases if s.cursor <= |bytes| then |bytes| - s.cursor + 1 else 0
  {
    hide After, NextField, SkipField, ReadValue, ParseFrom, Turn, StepsBack, Overflows;
    OneTurn(schema, limit, bytes, s);
    var header := if s.cursor < |bytes| then NextField(bytes[s.cursor..]) else Throws;
    if !header.Ok? || header.value.wire == END_GROUP {
      LoopEnds(schema, limit, bytes, s);
      n := 1;
    } else if 1 <= header.value.no <= |schema| {
      TurnReads(schema, limit, bytes, s, header.value);
      ParseReads(schema, bytes, s, header.value);
      n := 1;
      if Turn(schema, limit, bytes, s).Go? {
        var t := Turn(schema, limit, bytes, s).s;
        var more := LoopRuns(schema, limit, bytes, t);
        var r := if t.cursor <= |bytes| then ParseFrom(schema, bytes[t.cursor..], t.m) else Throws;
        FinishedLater(schema, limit, bytes, s, 1, more, t, r);
        n := 1 + more;
      }
    } else {
      var h := header.value;
      LoopSkips(schema, bytes, s, h);
      n := FieldRuns(schema, limit, bytes, s, h);
      var f := SkipField(bytes[s.cursor + h.size..], h.no, h.wire);
      if f.Ok? && !Exhausted(schema, limit, bytes, s, n) {
        var t := State(s.cursor + h.size + f.value, [], s.m);
        var more := LoopRuns(schema, limit, bytes, t);
        var r := if t.cursor <= |bytes| then ParseFrom(schema, bytes[t.cursor..], t.m) else Throws;
        FinishedLater(schema, limit, bytes, s, n, more, t, r);
        n := n + more;
      }
    }
  }

  /**
   * On every input the parse ends with what `ParseFrom` says, unless that is `Backward`: then it
   * comes to a skipped field with a negative length. A call stack for fewer groups than the input
   * has bytes may be exhausted before, which ends the parse as well.
   */
  lemma ParseEndsOrStepsBack(schema: Schema, limit: nat, bytes: seq<byte>, m: seq<Value>) returns (n: nat)
    requires |m| == |schema|
    ensures Finished(schema, limit, bytes, Start(m), n, ParseFrom(schema, bytes, m))
    ensures !ParseFrom(schema, bytes, m).Backward? ==> Ends(schema, limit, bytes, Start(m))
  {
    n := LoopRuns(schema, limit, bytes, Start(m));
    assert bytes[0..] == bytes;
    hide ParseFrom, Overflows;
    var t := After(schema, limit, bytes, Start(m), n);
    if t.Go? && Overflows(schema, limit, bytes, t.s) {
      OverflowThrows(schema, limit, bytes, t.s);
      assert After(schema, limit, bytes, Start(m), n + 1) == Turn(schema, limit, bytes, t.s);
    }
  }

  lemma OverflowThrows(schema: Schema, limit: nat, bytes: seq<byte>, s: State)
    requires |s.m| == |schema| && Overflows(schema, limit, bytes, s)
    ensures Turn(schema, limit, bytes, s) == Stop(Throws)
  {
    hide NextField;
  }

  // ---- inputs that cannot step back ----

  /** Nowhere in the input stands the header of a delimited field with a negative length. */
  predicate NoNegativeLength(bytes: seq<byte>) {
    forall i :: 0 <= i <= |bytes| ==> !NegativeLength(bytes[i..])
  }

  lemma NoNegativeTail(bytes: seq<byte>, i: nat)
    requires NoNegativeLength(bytes) && i <= |bytes|
    ensures NoNegativeLength(bytes[i..])
  {
    hide NegativeLength;
    assert forall j :: 0 <= j <= |bytes| - i ==> bytes[i..][j..] == bytes[i + j..];
  }

  lemma {:induction false} SkipsForward(s: seq<byte>, h: Header)
    requires NoNegativeLength(s) && NextField(s) == Ok(h)
    ensures !SkipField(s[h.size..], h.no, h.wire).Backward?
    decreases |s|, 0
  {
    hide Read32, NextField, SkipGroup;
    assert s[0..] == s;
    if h.wire == START_GROUP {
      hide NoNegativeLength;
      NoNegativeTail(s, h.size);
      SkipsGroupForward(s[h.size..], h.no);
    }
  }

  lemma {:induction false} SkipsGroupForward(s: seq<byte>, no: nat)
    requires NoNegativeLength(s)
    ensures !SkipGroup(s, no).Backward?
    decreases |s|, 1
  {
    hide NextField, SkipField, NoNegativeLength;
    if s != [] && NextField(s).Ok? {
      var h := NextField(s).value;
      SkipsForward(s, h);
      var f := SkipField(s[h.size..], h.no, h.wire);
      if f.Ok? && h.size + f.value <= |s| {
        NoNegativeTail(s, h.size + f.value);
        SkipsGroupForward(s[h.size + f.value..], no);
      }
    }
  }

  /** Such inputs are parsed to an end. */
  lemma {:induction false} ParsesForward(schema: Schema, s: seq<byte>, m: seq<Value>)
    requires NoNegativeLength(s) && |m| == |schema|
    ensures !ParseFrom(schema, s, m).Backward?
    decreases |s|
  {
    hide NextField, SkipField, ReadValue, NoNegativeLength;
    if s != [] && NextField(s).Ok? {
      var h := NextField(s).value;
      var rest := s[h.size..];
      NoNegativeTail(s, h.size);
      if 1 <= h.no <= |schema| {
        var r := ReadValue(schema[h.no - 1], h.wire, rest);
        if r.Ok? && r.value.1 <= |rest| {
          NoNegativeTail(rest, r.value.1);
          ParsesForward(schema, rest[r.value.1..], m[h.no - 1 := r.value.0]);
        }
      } else {
        SkipsForward(s, h);
        var f := SkipField(rest, h.no, h.wire);
        if f.Ok? && f.value <= |rest| {
          NoNegativeTail(rest, f.value);
          ParsesForward(schema, rest[f.value..], m);
        }
      }
    }
  }

  // ---- endless parses ----

  /** What decides the further course: the message plays no part in it. */
  predicate SameControl(s: State, t: State) {
    s.cursor == t.cursor && s.groups == t.groups
  }

  lemma TurnControl(schema: Schema, limit: nat, bytes: seq<byte>, s: State, t: State)
    requires |s.m| == |t.m| == |schema| && SameControl(s, t)
    ensures var a, b := Turn(schema, limit, bytes, s), Turn(schema, limit, bytes, t);
            (a.Go? <==> b.Go?) && (a.Go? ==> SameControl(a.s, b.s))
  {
    hide NextField, ReadValue, Read32, SkipVarint;
  }

  lemma {:induction false} AfterControl(schema: Schema, limit: nat, bytes: seq<byte>, s: State, t: State, n: nat)
    requires |s.m| == |t.m| == |schema| && SameControl(s, t)
    ensures var a, b := After(schema, limit, bytes, s, n), After(schema, limit, bytes, t, n);
            (a.Go? <==> b.Go?) && (a.Go? ==> SameControl(a.s, b.s))
  {
    hide Turn;
    if n > 0 {
      AfterControl(schema, limit, bytes, s, t, n - 1);
      var a, b := After(schema, limit, bytes, s, n - 1), After(schema, limit, bytes, t, n - 1);
      if a.Go? {
        TurnControl(schema, limit, bytes, a.s, b.s);
      }
    }
  }

  /** The parse is at the same cursor with the same groups open after i and after j turns. */
  predicate RecursAt(schema: Schema, limit: nat, bytes: seq<byte>, s: State, i: nat, j: nat)
    requires |s.m| == |schema|
  {
    var a, b := After(schema, limit, bytes, s, i), After(schema, limit, bytes, s, j);
    i < j && a.Go? && b.Go? && SameControl(a.s, b.s)
  }

  lemma {:induction false} RecurrenceGoesOn(schema: Schema, limit: nat, bytes: seq<byte>, s: State,
                                            i: nat, j: nat, n: nat)
    requires |s.m| == |schema| && RecursAt(schema, limit, bytes, s, i, j)
    ensures After(schema, limit, bytes, s, n).Go?
    decreases n
  {
    hide After, SameControl;
    if n <= j {
      StillGoing(schema, limit, bytes, s, n, j);
    } else {
      var a, b := After(schema, limit, bytes, s, i).s, After(schema, limit, bytes, s, j).s;
      Continue(schema, limit, bytes, s, j, n - j);
      Continue(schema, limit, bytes, s, i, n - j);
      AfterControl(schema, limit, bytes, a, b, n - j);
      RecurrenceGoesOn(schema, limit, bytes, s, i, j, i + n - j);
    }
  }

  /** A skipped field whose length leads back to its own first byte is read for ever. */
  lemma ReadForEver(schema: Schema, limit: nat, bytes: seq<byte>, s: State)
    requires |s.m| == |schema| && StepsBack(schema, bytes, s)
    requires var h := NextField(bytes[s.cursor..]).value;
             var (n, k) := Read32(bytes[s.cursor + h.size..]).value;
             h.size + k + n == 0
    ensures Turn(schema, limit, bytes, s) == Go(s) && !Ends(schema, limit, bytes, s)
  {
    hide NextField, Read32;
    OneTurn(schema, limit, bytes, s);
    NoTurn(schema, limit, bytes, s);
    hide Turn, After, StepsBack;
    forall n: nat
      ensures After(schema, limit, bytes, s, n).Go?
    {
      RecurrenceGoesOn(schema, limit, bytes, s, 0, 1, n);
    }
  }

  // ---- a parse that never ends comes back to where it was ----

  /** The field numbers that headers in the input have. */
  function Numbers(bytes: seq<byte>): set<nat> {
    set i | 0 <= i < |bytes| && NextField(bytes[i..]).Ok? :: NextField(bytes[i..]).value.no
  }

  /** All stacks of at most `limit` of these numbers. */
  function Stacks(numbers: set<nat>, limit: nat): set<seq<nat>> {
    if limit == 0 then {[]}
    else
      var shorter := Stacks(numbers, limit - 1);
      {[]} + set g, no | g in shorter && no in numbers :: g + [no]
  }

  lemma {:induction false} InStacks(numbers: set<nat>, limit: nat, g: seq<nat>)
    requires |g| <= limit && forall no :: no in g ==> no in numbers
    ensures g in Stacks(numbers, limit)
  {
    if g != [] {
      var init, no := g[..|g| - 1], g[|g| - 1];
      assert g == init + [no];
      InStacks(numbers, limit - 1, init);
      assert no in numbers;
    }
  }

  function Positions(n: nat): (r: set<int>)
    ensures forall c :: c in r <==> 0 <= c < n
  {
    if n == 0 then {} else Positions(n - 1) + {n - 1}
  }

  /** Where a parse that goes on can be: a place in the input, with a stack of its groups. */
  function Places(limit: nat, bytes: seq<byte>): set<(int, seq<nat>)> {
    var positions, stacks := Positions(|bytes|), Stacks(Numbers(bytes), limit);
    set c, g | c in positions && g in stacks :: (c, g)
  }

  /** The groups are opened by headers of the input, and no more than the limit. */
  predicate Tidy(limit: nat, bytes: seq<byte>, s: State) {
    |s.groups| <= limit && forall no :: no in s.groups ==> no in Numbers(bytes)
  }

  lemma TurnTidy(schema: Schema, limit: nat, bytes: seq<byte>, s: State)
    requires |s.m| == |schema| && Tidy(limit, bytes, s) && Turn(schema, limit, bytes, s).Go?
    ensures Tidy(limit, bytes, Turn(schema, limit, bytes, s).s) && 0 <= s.cursor < |bytes|
  {
    hide NextField, ReadValue, Read32, SkipVarint, Numbers;
    HeaderNumber(bytes, s.cursor);
  }

  lemma HeaderNumber(bytes: seq<byte>, i: int)
    ensures 0 <= i < |bytes| && NextField(bytes[i..]).Ok? ==> NextField(bytes[i..]).value.no in Numbers(bytes)
  {
    hide NextField;
  }

  lemma {:induction false} AfterTidy(schema: Schema, limit: nat, bytes: seq<byte>, s: State, n: nat)
    requires |s.m| == |schema| && Tidy(limit, bytes, s) && After(schema, limit, bytes, s, n).Go?
    ensures Tidy(limit, bytes, After(schema, limit, bytes, s, n).s)
  {
    hide Turn, Tidy;
    if n > 0 {
      AfterTidy(schema, limit, bytes, s, n - 1);
      TurnTidy(schema, limit, bytes, After(schema, limit, bytes, s, n - 1).s);
    }
  }

  function PlaceAfter(schema: Schema, limit: nat, bytes: seq<byte>, s: State, n: nat): (int, seq<nat>)
    requires |s.m| == |schema| && After(schema, limit, bytes, s, n).Go?
  {
    var t := After(schema, limit, bytes, s, n).s;
    (t.cursor, t.groups)
  }

  lemma PlaceInPlaces(schema: Schema, limit: nat, bytes: seq<byte>, s: State, n: nat)
    requires |s.m| == |schema| && Tidy(limit, bytes, s)
    requires After(schema, limit, bytes, s, n).Go? && After(schema, limit, bytes, s, n + 1).Go?
    ensures PlaceAfter(schema, limit, bytes, s, n) in Places(limit, bytes)
  {
    hide Turn, Stacks, Numbers;
    AfterTidy(schema, limit, bytes, s, n);
    var t := After(schema, limit, bytes, s, n).s;
    TurnTidy(schema, limit, bytes, t);
    InStacks(Numbers(bytes), limit, t.groups);
  }

  /** The places of the first n turns, in order. */
  lemma {:induction false} FirstPlaces(schema: Schema, limit: nat, bytes: seq<byte>, s: State, n: nat)
      returns (places: seq<(int, seq<nat>)>)
    requires |s.m| == |schema| && Tidy(limit, bytes, s) && After(schema, limit, bytes, s, n).Go?
    ensures |places| == n && forall i :: 0 <= i < n ==> places[i] in Places(limit, bytes)
    ensures forall i :: 0 <= i < n ==> After(schema, limit, bytes, s, i).Go? &&
                                       places[i] == PlaceAfter(schema, limit, bytes, s, i)
  {
    hide After, Places, Tidy;
    if n == 0 {
      places := [];
    } else {
      StillGoing(schema, limit, bytes, s, n - 1, n);
      var before := FirstPlaces(schema, limit, bytes, s, n - 1);
      PlaceInPlaces(schema, limit, bytes, s, n - 1);
      places := before + [PlaceAfter(schema, limit, bytes, s, n - 1)];
    }
  }

  lemma LongParseRecurs(schema: Schema, limit: nat, bytes: seq<byte>, s: State) returns (i: nat, j: nat)
    requires |s.m| == |schema| && Tidy(limit, bytes, s)
    requires After(schema, limit, bytes, s, |Places(limit, bytes)| + 1).Go?
    ensures RecursAt(schema, limit, bytes, s, i, j)
  {
    hide After, Places, Tidy;
    var places := FirstPlaces(schema, limit, bytes, s, |Places(limit, bytes)| + 1);
    i, j := Pigeonhole(places, Places(limit, bytes));
  }

  ghost predicate Recurs(schema: Schema, limit: nat, bytes: seq<byte>, s: State)
    requires |s.m| == |schema|
  {
    exists i: nat, j: nat :: RecursAt(schema, limit, bytes, s, i, j)
  }

  /**
   * Whatever the input and however deep the call stack: the parse ends if and only if it is
   * never twice at the same cursor with the same groups open. It then ends within as many
   * turns as there are places.
   */
  lemma EndsIffNothingRecurs(schema: Schema, limit: nat, bytes: seq<byte>, m: seq<Value>)
    requires |m| == |schema|
    ensures Ends(schema, limit, bytes, Start(m)) <==> !Recurs(schema, limit, bytes, Start(m))
    ensures Ends(schema, limit, bytes, Start(m)) <==>
            After(schema, limit, bytes, Start(m), |Places(limit, bytes)| + 1).Stop?
  {
    var s := Start(m);
    assert Tidy(limit, bytes, s);
    hide After, Places, Tidy, RecursAt;
    if After(schema, limit, bytes, s, |Places(limit, bytes)| + 1).Go? {
      var i, j := LongParseRecurs(schema, limit, bytes, s);
    }
    if i: nat, j: nat :| RecursAt(schema, limit, bytes, s, i, j) {
      forall n: nat
        ensures After(schema, limit, bytes, s, n).Go?
      {
        RecurrenceGoesOn(schema, limit, bytes, s, i, j, n);
      }
    }
  }

  // ---- examples ----

  /** A field of number 15, unknown to both messages, whose length is the given number. */
  function StepBack(n: int32): seq<byte> {
    Tag(15, DELIMITED) + EncodeSigned(n)
  }

  lemma StepBackReads(n: int32, rest: seq<byte>)
    requires n < 0
    ensures var s := StepBack(n) + rest;
            && |StepBack(n)| == 11 && NextField(s) == Ok(Header(15, DELIMITED, 1))
            && Read32(s[1..]) == Ok((n, 10))
  {
    hide NextField, Read32, EncodeSigned;
    assert Tag(15, DELIMITED) == [122];
    var s := StepBack(n) + rest;
    assert s == Tag(15, DELIMITED) + (EncodeSigned(n) + rest);
    ReadsTag(15, DELIMITED, EncodeSigned(n) + rest);
    SignedReadsBack(n, rest);
    assert s[1..] == EncodeSigned(n) + rest;
  }

  lemma FirstStepBack(schema: Schema, bytes: seq<byte>, m: seq<Value>)
    requires |m| == |schema| && StepsBack(schema, bytes, Start(m))
    ensures ParseFrom(schema, bytes, m).Backward?
  {
    hide NextField, Read32;
    assert bytes[0..] == bytes;
  }

  /** Eleven bytes that neither message is ever done with. */
  lemma ElevenBytesForEver(schema: Schema, limit: nat, m: seq<Value>)
    requires |m| == |schema| < 15
    ensures |StepBack(-11)| == 11
    ensures !Ends(schema, limit, StepBack(-11), Start(m)) && ParseFrom(schema, StepBack(-11), m).Backward?
  {
    var bytes := StepBack(-11);
    StepBackReads(-11, []);
    assert bytes + [] == bytes && bytes[0..] == bytes;
    hide NextField, Read32, StepBack, ParseFrom;
    assert StepsBack(schema, bytes, Start(m));
    FirstStepBack(schema, bytes, m);
    ReadForEver(schema, limit, bytes, Start(m));
  }

  /** A step back need not be endless: this one lands on its own last byte, which starts another field. */
  lemma StepBackMayEnd(schema: Schema, limit: nat, m: seq<Value>)
    requires |m| == |schema| < 15
    ensures var bytes := StepBack(-1) + [0, 0, 0, 0, 0, 0, 0, 0];
            && ParseFrom(schema, bytes, m).Backward?
            && After(schema, limit, bytes, Start(m), 3) == Stop(Ok((m, |bytes|)))
  {
    var zeros: seq<byte> := [0, 0, 0, 0, 0, 0, 0, 0];
    var bytes := StepBack(-1) + zeros;
    StepBackReads(-1, zeros);
    LastByte();
    assert bytes[10..] == [1] + zeros && bytes[0..] == bytes && |bytes| == 19;
    OneFixed64(zeros);
    hide NextField, Read32, StepBack, ParseFrom, After;
    FirstStepBack(schema, bytes, m);
    TurnsOfStepBack(schema, limit, bytes, m);
    hide Turn;
    OneTurn(schema, limit, bytes, Start(m));
    Continue(schema, limit, bytes, Start(m), 1, 1);
    OneTurn(schema, limit, bytes, State(10, [], m));
    Continue(schema, limit, bytes, Start(m), 2, 1);
    OneTurn(schema, limit, bytes, State(19, [], m));
  }

  lemma TurnsOfStepBack(schema: Schema, limit: nat, bytes: seq<byte>, m: seq<Value>)
    requires |m| == |schema| < 15 && |bytes| == 19
    requires NextField(bytes[0..]) == Ok(Header(15, DELIMITED, 1)) && Read32(bytes[1..]) == Ok((-1, 10))
    requires NextField(bytes[10..]) == Ok(Header(0, FIXED64, 1))
    ensures Turn(schema, limit, bytes, Start(m)) == Go(State(10, [], m))
    ensures Turn(schema, limit, bytes, State(10, [], m)) == Go(State(19, [], m))
    ensures Turn(schema, limit, bytes, State(19, [], m)) == Stop(Ok((m, 19)))
  {
    hide NextField, Read32, ReadValue, SkipVarint;
  }

  lemma LastByte()
    ensures |StepBack(-1)| == 11 && StepBack(-1)[10] == 1
  {
    hide Encode;
    StepBackReads(-1, []);
    TagOf15();
    LastOfMinusOne();
  }

  lemma TagOf15()
    ensures Tag(15, DELIMITED) == [122]
  {
  }

  lemma {:induction false} LastOfEncode(n: nat)
    ensures var e := Encode(n); e[|e| - 1] == if n < 128 then n else Encode(n / 128)[|Encode(n / 128)| - 1]
  {
  }

  lemma LastOfMinusOne()
    ensures var e := Encode(0xFFFF_FFFF_FFFF_FFFF); e[|e| - 1] == 1
  {
    hide Encode;
    LastOfEncode(0xFFFF_FFFF_FFFF_FFFF);
    LastOfEncode(0x1FF_FFFF_FFFF_FFFF);
    LastOfEncode(0x3_FFFF_FFFF_FFFF);
    LastOfEncode(0x7FF_FFFF_FFFF);
    LastOfEncode(0xF_FFFF_FFFF);
    LastOfEncode(0x1FFF_FFFF);
    LastOfEncode(0x3F_FFFF);
    LastOfEncode(0x7FFF);
    LastOfEncode(0xFF);
    LastOfEncode(1);
  }

  lemma OneFixed64(rest: seq<byte>)
    ensures NextField([1] + rest) == Ok(Header(0, FIXED64, 1))
  {
    assert Encode(1) == [1];
    ReadsTag(0, FIXED64, rest);
  }
}
