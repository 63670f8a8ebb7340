/** The process-wide room registry: a map from room code to the connections in that room.
    A JavaScript Set keeps its elements in insertion order and `forEach` visits them in that
    order, so a room's members are a sequence without duplicates. */
module RoomRegistry {
  import opened Frames

  type Members = seq<ConnId>
  type Registry = map<string, Members>

  /** No connection occurs twice: the Set semantics of a room. */
  predicate NoDup(m: Members)
  {
    forall i, j :: 0 <= i < j < |m| ==> m[i] != m[j]
  }

  /** The registry invariant: every room present has at least one member, and each room is a
      set. */
  predicate RoomsValid(rooms: Registry)
  {
    forall code :: code in rooms ==> |rooms[code]| > 0 && NoDup(rooms[code])
  }

  /** Set.prototype.add: append `x` unless it is already a member. */
  function Add(m: Members, x: ConnId): (r: Members)
    ensures forall y :: y in r <==> y in m || y == x
    ensures x in m ==> r == m
    ensures x !in m ==> r == m + [x]
    ensures NoDup(m) ==> NoDup(r)
  {
    if x in m then m else m + [x]
  }

  /** Set.prototype.delete: drop `x`, keeping the order of the others. */
  function Remove(m: Members, x: ConnId): (r: Members)
    ensures forall y :: y in r <==> y in m && y != x
    ensures NoDup(m) ==> NoDup(r)
    ensures |r| <= |m|
    ensures x !in m ==> r == m
    decreases |m|
  {
    if m == [] then []
    else if m[0] == x then Remove(m[1..], x)
    else
      var rest := Remove(m[1..], x);
      assert m[0] !in m[1..] ==> m[0] !in rest;
      [m[0]] + rest
  }

  /** Whether member `c` of `m` is sent a frame by a broadcast: it is not the excluded
      connection and its transport is open. */
  predicate Receives(m: Members, exclude: Option<ConnId>, open: set<ConnId>, c: ConnId)
  {
    c in m && Some(c) != exclude && c in open
  }

  /** Every send in `sends` goes to a different connection. */
  predicate DistinctTargets(sends: seq<Send>)
  {
    forall i, j :: 0 <= i < j < |sends| ==> sends[i].to != sends[j].to
  }

  /** Some send in `sends` goes to `c`. */
  predicate Reaches(sends: seq<Send>, c: ConnId)
  {
    exists i :: 0 <= i < |sends| && sends[i].to == c
  }

  /** The `forEach` of broadcastToRoom over the members of one room: one send of `f`, in
      member order, to each member that is not `exclude` and is open. */
  function Fanout(m: Members, exclude: Option<ConnId>, open: set<ConnId>, f: OutFrame): (r: seq<Send>)
    ensures |r| <= |m|
    ensures forall i :: 0 <= i < |r| ==> r[i].frame == f && Receives(m, exclude, open, r[i].to)
    ensures forall c :: Receives(m, exclude, open, c) ==> exists i :: 0 <= i < |r| && r[i].to == c
    ensures NoDup(m) ==> DistinctTargets(r)
    decreases |m|
  {
    if m == [] then []
    else
      var init, last := m[..|m| - 1], m[|m| - 1];
      assert m == init + [last];
      var rest := Fanout(init, exclude, open, f);
      assert forall c :: Receives(m, exclude, open, c) && c != last ==> Receives(init, exclude, open, c);
      if Some(last) != exclude && last in open then
        var r := rest + [Send(last, f)];
        assert r[|rest|].to == last;
        assert forall i :: 0 <= i < |rest| ==> r[i] == rest[i];
        r
      else rest
  }

  /** `a` occurs in `m` at an earlier position than `b`. */
  predicate Before(m: Members, a: ConnId, b: ConnId)
  {
    exists p, q :: 0 <= p < q < |m| && m[p] == a && m[q] == b
  }

  /** Two members in order after the first position are in the same order in the room. */
  lemma BeforeTail(m: Members, a: ConnId, b: ConnId)
    requires |m| > 0 && Before(m[1..], a, b)
    ensures Before(m, a, b)
  {
    var p, q :| 0 <= p < q < |m[1..]| && m[1..][p] == a && m[1..][q] == b;
    assert m[p + 1] == a && m[q + 1] == b;
  }

  /** The first member comes before every member after it. */
  lemma BeforeFirst(m: Members, b: ConnId)
    requires |m| > 0 && b in m[1..]
    ensures Before(m, m[0], b)
  {
    var q :| 0 <= q < |m[1..]| && m[1..][q] == b;
    assert m[q + 1] == b;
  }

  /** Set.prototype.delete keeps the insertion order of the remaining members: any two of
      them appear in the same order as in the room before. */
  lemma {:induction false} RemoveKeepsMemberOrder(m: Members, x: ConnId, i: nat, j: nat)
    requires i < j < |Remove(m, x)|
    ensures Before(m, Remove(m, x)[i], Remove(m, x)[j])
    decreases |m|
  {
    var r := Remove(m, x);
    var rest := Remove(m[1..], x);
    if m[0] == x {
      RemoveKeepsMemberOrder(m[1..], x, i, j);
      BeforeTail(m, r[i], r[j]);
    } else if i == 0 {
      assert r[j] == rest[j - 1];
      BeforeFirst(m, r[j]);
    } else {
      assert r[i] == rest[i - 1] && r[j] == rest[j - 1];
      RemoveKeepsMemberOrder(m[1..], x, i - 1, j - 1);
      BeforeTail(m, r[i], r[j]);
    }
  }

  /** The `forEach` of broadcastToRoom visits members in insertion order, so the sends go out
      in the order their targets joined the room. */
  lemma {:induction false} FanoutKeepsMemberOrder(m: Members, exclude: Option<ConnId>, open: set<ConnId>, f: OutFrame,
                                                  i: nat, j: nat)
    requires i < j < |Fanout(m, exclude, open, f)|
    ensures Before(m, Fanout(m, exclude, open, f)[i].to, Fanout(m, exclude, open, f)[j].to)
    decreases |m|
  {
    var r := Fanout(m, exclude, open, f);
    var init, last := m[..|m| - 1], m[|m| - 1];
    assert m == init + [last];
    var rest := Fanout(init, exclude, open, f);
    if j < |rest| {
      FanoutKeepsMemberOrder(init, exclude, open, f, i, j);
      var p, q :| 0 <= p < q < |init| && init[p] == rest[i].to && init[q] == rest[j].to;
      assert r[i] == rest[i] && r[j] == rest[j];
      assert m[p] == r[i].to && m[q] == r[j].to;
    } else {
      assert r == rest + [Send(last, f)];
      assert r[i] == rest[i] && rest[i].to in init;
      var p :| 0 <= p < |init| && init[p] == r[i].to;
      assert m[p] == r[i].to && m[|m| - 1] == r[j].to;
    }
  }

  /** broadcastToRoom: the fan-out over room `code`, or nothing when there is no such room. */
  function Broadcast(rooms: Registry, code: string, exclude: Option<ConnId>, open: set<ConnId>, f: OutFrame): seq<Send>
  {
    if code in rooms then Fanout(rooms[code], exclude, open, f) else []
  }

  /** Who a broadcast reaches: exactly the open members of the room other than `exclude`,
      each once, all with the same frame; an absent room reaches nobody. */
  lemma BroadcastReachesExactly(rooms: Registry, code: string, exclude: Option<ConnId>, open: set<ConnId>, f: OutFrame, c: ConnId)
    requires RoomsValid(rooms)
    ensures var sends := Broadcast(rooms, code, exclude, open, f);
      && DistinctTargets(sends)
      && (forall i :: 0 <= i < |sends| ==> sends[i].frame == f)
      && (Reaches(sends, c) <==> code in rooms && c in rooms[code] && Some(c) != exclude && c in open)
  {
    var sends := Broadcast(rooms, code, exclude, open, f);
    if code in rooms {
      if c in rooms[code] && Some(c) != exclude && c in open {
        assert Receives(rooms[code], exclude, open, c);
      }
    }
  }

  /** The connections a fan-out reaches, as a set. */
  function ReceiverSet(m: Members, exclude: Option<ConnId>, open: set<ConnId>): set<ConnId>
  {
    set c | c in m && Some(c) != exclude && c in open
  }

  function MemberSet(m: Members): set<ConnId>
  {
    set c | c in m
  }

  /** A room without duplicates has as many members as its sequence has entries. */
  lemma {:induction false} MemberSetSize(m: Members)
    requires NoDup(m)
    ensures |MemberSet(m)| == |m|
    decreases |m|
  {
    if m != [] {
      var init, last := m[..|m| - 1], m[|m| - 1];
      assert m == init + [last];
      MemberSetSize(init);
      assert MemberSet(m) == MemberSet(init) + {last};
      assert last !in MemberSet(init);
    }
  }

  /** Appending a member adds it to the receivers exactly when it receives. */
  lemma ReceiverSetSnoc(init: Members, last: ConnId, exclude: Option<ConnId>, open: set<ConnId>)
    ensures ReceiverSet(init + [last], exclude, open)
      == ReceiverSet(init, exclude, open) + (if Some(last) != exclude && last in open then {last} else {})
  {
    assert forall c :: c in init + [last] <==> c in init || c == last;
  }

  /** A fan-out makes exactly one send per receiving connection. */
  lemma {:induction false} FanoutSize(m: Members, exclude: Option<ConnId>, open: set<ConnId>, f: OutFrame)
    requires NoDup(m)
    ensures |Fanout(m, exclude, open, f)| == |ReceiverSet(m, exclude, open)|
    decreases |m|
  {
    if m != [] {
      var init, last := m[..|m| - 1], m[|m| - 1];
      assert m == init + [last];
      assert NoDup(init);
      FanoutSize(init, exclude, open, f);
      ReceiverSetSnoc(init, last, exclude, open);
      assert last !in ReceiverSet(init, exclude, open);
    }
  }

  /** The members of `m` other than `x` whose transport is no longer open. */
  function Defunct(m: Members, x: ConnId, open: set<ConnId>): set<ConnId>
  {
    set c | c in m && c != x && c !in open
  }

  /** A room of N members with the sender `x` excluded: every member that is neither `x` nor
      defunct is sent the frame, so the count is N - 1 minus the defunct members. */
  lemma FanoutExcludingSender(m: Members, x: ConnId, open: set<ConnId>, f: OutFrame)
    requires NoDup(m) && x in m
    ensures |Fanout(m, Some(x), open, f)| == |m| - 1 - |Defunct(m, x, open)|
  {
    var defunct := Defunct(m, x, open);
    var receivers := ReceiverSet(m, Some(x), open);
    FanoutSize(m, Some(x), open, f);
    MemberSetSize(m);
    assert MemberSet(m) == (receivers + defunct) + {x};
    assert x !in receivers + defunct;
    assert |MemberSet(m)| == |receivers + defunct| + 1;
    assert receivers !! defunct;
    assert |receivers + defunct| == |receivers| + |defunct|;
  }
}
