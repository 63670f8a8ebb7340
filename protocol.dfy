/** The per-connection protocol as a pure specification: what the `message` handler and the
    `close` handler of one connection do to the registry and to that connection's session,
    and which frames they send. Node runs each handler to completion on one thread, so each
    is one atomic step over the shared state. */
module Protocol {
  import opened Frames
  import opened RoomRegistry

  /** The closure variables of one connection: `currentRoom` and `username`. */
  datatype Session = Session(currentRoom: Option<string>, username: Option<string>)

  /** A connection's state when it opens: both variables null. */
  const Unaffiliated := Session(None, None)

  /** What one handler invocation leaves behind: the registry, the session, and the frames it
      sent, in order. */
  datatype Outcome = Outcome(rooms: Registry, session: Session, sends: seq<Send>)

  /** The catch block: a single error frame back to the sender; nothing else changes. */
  function Reject(rooms: Registry, s: Session, self: ConnId, e: ErrorReason): Outcome
  {
    Outcome(rooms, s, [Send(self, Error(e))])
  }

  /** The `message` event handler of connection `self`. `newCode` is what generateRoomCode
      returns if this frame creates a room; `timestamp` is the clock reading for a chat
      message; `open` is the set of connections whose transport is open. */
  function HandleMessage(rooms: Registry, s: Session, self: ConnId, data: Parsed,
                         newCode: string, timestamp: string, open: set<ConnId>): Outcome
  {
    match data
    case Malformed(detail) => Reject(rooms, s, self, ParseFailure(detail))
    case Object(f) =>
      if !Truthy(f.kind) then Reject(rooms, s, self, InvalidFormat)
      else if f.kind.value == CreateRoomType then CreateRoom(rooms, s, self, f, newCode)
      else if f.kind.value == JoinRoomType then JoinRoom(rooms, s, self, f, open)
      else if f.kind.value == MessageType then RelayMessage(rooms, s, self, f, timestamp, open)
      else Reject(rooms, s, self, UnknownType)
  }

  /** `create-room`: registers a room whose only member is the sender under `newCode`,
      replacing whatever room had that code. */
  function CreateRoom(rooms: Registry, s: Session, self: ConnId, f: InFrame, newCode: string): Outcome
  {
    if !Truthy(f.username) then Reject(rooms, s, self, UsernameRequired)
    else Outcome(rooms[newCode := [self]], Session(Some(newCode), f.username), [Send(self, RoomCreated(newCode))])
  }

  /** `join-room`: adds the sender to the room named by the upper-cased code. */
  function JoinRoom(rooms: Registry, s: Session, self: ConnId, f: InFrame, open: set<ConnId>): Outcome
  {
    if !Truthy(f.username) || !Truthy(f.code) then Reject(rooms, s, self, UsernameAndCodeRequired)
    else
      var code := Upper(f.code.value);
      if code !in rooms then Reject(rooms, s, self, InvalidRoomCode)
      else
        var rooms' := rooms[code := Add(rooms[code], self)];
        Outcome(rooms', Session(Some(code), f.username),
          [Send(self, RoomJoined)] + Broadcast(rooms', code, Some(self), open, UserJoined(f.username.value)))
  }

  /** `message`: relays the text to every open member of the current room, sender included. */
  function RelayMessage(rooms: Registry, s: Session, self: ConnId, f: InFrame, timestamp: string, open: set<ConnId>): Outcome
  {
    if !Truthy(f.text) || !Truthy(s.currentRoom) then Reject(rooms, s, self, InvalidMessage)
    else Outcome(rooms, s, Broadcast(rooms, s.currentRoom.value, None, open, Chat(f.text.value, s.username, timestamp)))
  }

  /** The `close` event handler of connection `self`. */
  function HandleClose(rooms: Registry, s: Session, self: ConnId, open: set<ConnId>): Outcome
  {
    if Truthy(s.currentRoom) && s.currentRoom.value in rooms then
      var code := s.currentRoom.value;
      var remaining := Remove(rooms[code], self);
      if |remaining| == 0 then Outcome(rooms - {code}, s, [])
      else
        var rooms' := rooms[code := remaining];
        Outcome(rooms', s, Broadcast(rooms', code, None, open, UserLeft(s.username)))
    else Outcome(rooms, s, [])
  }

  // ---------------------------------------------------------------------------------------
  // Rejections

  /** A frame with no (or an empty) `type`, or with a `type` the switch does not know, gets one
      error frame and changes nothing. */
  lemma UntypedOrUnknownFrameRejected(rooms: Registry, s: Session, self: ConnId, f: InFrame,
                                       newCode: string, timestamp: string, open: set<ConnId>)
    requires !Truthy(f.kind) || f.kind.value !in {CreateRoomType, JoinRoomType, MessageType}
    ensures var o := HandleMessage(rooms, s, self, Object(f), newCode, timestamp, open);
      && o.rooms == rooms && o.session == s
      && o.sends == [Send(self, Error(if Truthy(f.kind) then UnknownType else InvalidFormat))]
      && ErrorText(o.sends[0].frame.reason)
           == if Truthy(f.kind) then "Unknown message type" else "Invalid message format"
  {
  }

  /** Data that JSON.parse rejects, or that parses to a value whose `type` cannot be read,
      gets one error frame carrying the exception's own message, and changes nothing. */
  lemma MalformedFrameRejected(rooms: Registry, s: Session, self: ConnId, detail: string,
                               newCode: string, timestamp: string, open: set<ConnId>)
    ensures var o := HandleMessage(rooms, s, self, Malformed(detail), newCode, timestamp, open);
      && o.rooms == rooms && o.session == s
      && o.sends == [Send(self, Error(ParseFailure(detail)))]
      && ErrorText(o.sends[0].frame.reason) == detail
  {
  }

  /** Whatever the frame, a reply that carries an error is the only frame sent and comes with
      no change to the registry or the session. */
  lemma ErrorReplyLeavesStateUnchanged(rooms: Registry, s: Session, self: ConnId, data: Parsed,
                                       newCode: string, timestamp: string, open: set<ConnId>)
    ensures var o := HandleMessage(rooms, s, self, data, newCode, timestamp, open);
      (exists i :: 0 <= i < |o.sends| && o.sends[i].frame.Error?) ==>
        && o.rooms == rooms && o.session == s
        && |o.sends| == 1 && o.sends[0].to == self
  {
    NoErrorWhenAccepted(rooms, s, self, data, newCode, timestamp, open);
  }

  /** Every outcome of the message handler is either the catch block's single error frame or
      a set of sends none of which is an error. */
  lemma NoErrorWhenAccepted(rooms: Registry, s: Session, self: ConnId, data: Parsed,
                            newCode: string, timestamp: string, open: set<ConnId>)
    ensures var o := HandleMessage(rooms, s, self, data, newCode, timestamp, open);
      (exists e :: o == Reject(rooms, s, self, e)) ||
      (forall i :: 0 <= i < |o.sends| ==> !o.sends[i].frame.Error?)
  {
    var o := HandleMessage(rooms, s, self, data, newCode, timestamp, open);
    match data {
      case Malformed(detail) =>
        assert o == Reject(rooms, s, self, ParseFailure(detail));
      case Object(f) =>
        if !Truthy(f.kind) {
          assert o == Reject(rooms, s, self, InvalidFormat);
        } else if f.kind.value == CreateRoomType {
          assert o == CreateRoom(rooms, s, self, f, newCode);
          if !Truthy(f.username) {
            assert o == Reject(rooms, s, self, UsernameRequired);
          }
        } else if f.kind.value == JoinRoomType {
          assert o == JoinRoom(rooms, s, self, f, open);
          if !Truthy(f.username) || !Truthy(f.code) {
            assert o == Reject(rooms, s, self, UsernameAndCodeRequired);
          } else if Upper(f.code.value) !in rooms {
            assert o == Reject(rooms, s, self, InvalidRoomCode);
          } else {
            var code := Upper(f.code.value);
            var rooms' := rooms[code := Add(rooms[code], self)];
            var fan := Broadcast(rooms', code, Some(self), open, UserJoined(f.username.value));
            assert forall i :: 0 <= i < |fan| ==> fan[i].frame.UserJoined?;
            assert o.sends == [Send(self, RoomJoined)] + fan;
            forall i | 0 <= i < |o.sends| ensures !o.sends[i].frame.Error? {
              if i > 0 { assert o.sends[i] == fan[i - 1]; }
            }
          }
        } else if f.kind.value == MessageType {
          assert o == RelayMessage(rooms, s, self, f, timestamp, open);
          if !Truthy(f.text) || !Truthy(s.currentRoom) {
            assert o == Reject(rooms, s, self, InvalidMessage);
          }
        } else {
          assert o == Reject(rooms, s, self, UnknownType);
        }
    }
  }

  // ---------------------------------------------------------------------------------------
  // create-room

  /** `create-room` without a username is rejected; with one, the code maps to a room whose
      only member is the sender (whatever it held before), every other room is untouched, the
      session is in that room under that name, and the sender is told the code. */
  lemma CreateRoomEffect(rooms: Registry, s: Session, self: ConnId, f: InFrame,
                         newCode: string, timestamp: string, open: set<ConnId>)
    requires f.kind == Some(CreateRoomType)
    ensures var o := HandleMessage(rooms, s, self, Object(f), newCode, timestamp, open);
      if !Truthy(f.username) then
        && o.rooms == rooms && o.session == s && o.sends == [Send(self, Error(UsernameRequired))]
        && ErrorText(o.sends[0].frame.reason) == "Username required"
      else
        && o.rooms.Keys == rooms.Keys + {newCode}
        && o.rooms[newCode] == [self]
        && (forall k :: k in rooms && k != newCode ==> o.rooms[k] == rooms[k])
        && o.session == Session(Some(newCode), f.username)
        && o.sends == [Send(self, RoomCreated(newCode))]
  {
  }

  /** The code is not checked for collisions: creating a room under a code already in use
      drops every earlier member of that room. */
  lemma CreateRoomOverwritesExistingRoom(rooms: Registry, s: Session, self: ConnId, other: ConnId,
                                         f: InFrame, newCode: string, timestamp: string, open: set<ConnId>)
    requires f.kind == Some(CreateRoomType) && Truthy(f.username)
    requires newCode in rooms && other in rooms[newCode] && other != self
    ensures other !in HandleMessage(rooms, s, self, Object(f), newCode, timestamp, open).rooms[newCode]
  {
  }

  // ---------------------------------------------------------------------------------------
  // join-room

  /** `join-room` without a username or a code, or naming no existing room after
      upper-casing, is rejected and changes nothing. */
  lemma JoinRoomRejected(rooms: Registry, s: Session, self: ConnId, f: InFrame,
                         newCode: string, timestamp: string, open: set<ConnId>)
    requires f.kind == Some(JoinRoomType)
    requires !Truthy(f.username) || !Truthy(f.code) || Upper(f.code.value) !in rooms
    ensures var o := HandleMessage(rooms, s, self, Object(f), newCode, timestamp, open);
      && o.rooms == rooms && o.session == s
      && o.sends == [Send(self, Error(
           if !Truthy(f.username) || !Truthy(f.code) then UsernameAndCodeRequired else InvalidRoomCode))]
      && ErrorText(o.sends[0].frame.reason)
           == if !Truthy(f.username) || !Truthy(f.code) then "Username and room code required" else "Invalid room code"
  {
  }

  /** A successful `join-room`: the sender becomes a member of the room (unchanged if it
      already was), no other room changes, the session is in that room under the new name,
      and the first frame sent is `room-joined` to the sender. */
  lemma JoinRoomEffect(rooms: Registry, s: Session, self: ConnId, f: InFrame,
                       newCode: string, timestamp: string, open: set<ConnId>)
    requires f.kind == Some(JoinRoomType) && Truthy(f.username) && Truthy(f.code)
    requires Upper(f.code.value) in rooms
    ensures var code := Upper(f.code.value);
      var o := HandleMessage(rooms, s, self, Object(f), newCode, timestamp, open);
      && o.rooms.Keys == rooms.Keys
      && (forall k :: k in rooms && k != code ==> o.rooms[k] == rooms[k])
      && MemberSet(o.rooms[code]) == MemberSet(rooms[code]) + {self}
      && (self in rooms[code] ==> o.rooms[code] == rooms[code])
      && o.session == Session(Some(code), f.username)
      && |o.sends| >= 1 && o.sends[0] == Send(self, RoomJoined)
  {
    var code := Upper(f.code.value);
    JoinAccepted(rooms, s, self, f, newCode, timestamp, open);
    var m := Add(rooms[code], self);
    assert forall y :: y in m <==> y in rooms[code] || y == self;
  }

  /** After the `room-joined` reply, a successful `join-room` sends `user-joined` with the new
      name to exactly the open members of the room other than the sender, once each. */
  lemma JoinRoomNotifiesOthers(rooms: Registry, s: Session, self: ConnId, f: InFrame,
                               newCode: string, timestamp: string, open: set<ConnId>, c: ConnId)
    requires RoomsValid(rooms)
    requires f.kind == Some(JoinRoomType) && Truthy(f.username) && Truthy(f.code)
    requires Upper(f.code.value) in rooms
    ensures var code := Upper(f.code.value);
      var o := HandleMessage(rooms, s, self, Object(f), newCode, timestamp, open);
      && |o.sends| >= 1
      && DistinctTargets(o.sends[1..])
      && (forall i :: 1 <= i < |o.sends| ==> o.sends[i].frame == UserJoined(f.username.value))
      && (Reaches(o.sends[1..], c) <==> c in rooms[code] && c != self && c in open)
  {
    var code := Upper(f.code.value);
    var o := HandleMessage(rooms, s, self, Object(f), newCode, timestamp, open);
    var rooms' := rooms[code := Add(rooms[code], self)];
    assert RoomsValid(rooms');
    var fan := Broadcast(rooms', code, Some(self), open, UserJoined(f.username.value));
    assert o == JoinRoom(rooms, s, self, f, open);
    assert o.sends[1..] == fan;
    BroadcastReachesExactly(rooms', code, Some(self), open, UserJoined(f.username.value), c);
  }

  /** Joining does not leave the room the connection was in before: it stays a member there,
      and the session now only remembers the new room. */
  lemma JoinRoomKeepsEarlierMembership(rooms: Registry, s: Session, self: ConnId, f: InFrame,
                                       newCode: string, timestamp: string, open: set<ConnId>, earlier: string)
    requires f.kind == Some(JoinRoomType) && Truthy(f.username) && Truthy(f.code)
    requires Upper(f.code.value) in rooms
    requires earlier in rooms && self in rooms[earlier] && earlier != Upper(f.code.value)
    ensures var o := HandleMessage(rooms, s, self, Object(f), newCode, timestamp, open);
      earlier in o.rooms && self in o.rooms[earlier] && o.session.currentRoom != Some(earlier)
  {
  }

  // ---------------------------------------------------------------------------------------
  // message

  /** `message` needs a text and a current room; otherwise it is rejected. When accepted, the
      registry and the session are unchanged and the chat frame, stamped with the sender's
      name, goes once to each open member of the current room, the sender included. */
  lemma MessageEffect(rooms: Registry, s: Session, self: ConnId, f: InFrame,
                      newCode: string, timestamp: string, open: set<ConnId>, c: ConnId)
    requires RoomsValid(rooms)
    requires f.kind == Some(MessageType)
    ensures var o := HandleMessage(rooms, s, self, Object(f), newCode, timestamp, open);
      if !Truthy(f.text) || !Truthy(s.currentRoom) then
        && o.rooms == rooms && o.session == s && o.sends == [Send(self, Error(InvalidMessage))]
        && ErrorText(o.sends[0].frame.reason) == "Invalid message"
      else
        && o.rooms == rooms && o.session == s
        && DistinctTargets(o.sends)
        && (forall i :: 0 <= i < |o.sends| ==> o.sends[i].frame == Chat(f.text.value, s.username, timestamp))
        && (Reaches(o.sends, c) <==>
              s.currentRoom.value in rooms && c in rooms[s.currentRoom.value] && c in open)
  {
    if Truthy(f.text) && Truthy(s.currentRoom) {
      BroadcastReachesExactly(rooms, s.currentRoom.value, None, open, Chat(f.text.value, s.username, timestamp), c);
    }
  }

  /** The sender of an accepted message receives its own message back when it is an open
      member of its current room. */
  lemma MessageEchoesToSender(rooms: Registry, s: Session, self: ConnId, f: InFrame,
                              newCode: string, timestamp: string, open: set<ConnId>)
    requires RoomsValid(rooms)
    requires f.kind == Some(MessageType) && Truthy(f.text) && Truthy(s.currentRoom)
    requires s.currentRoom.value in rooms && self in rooms[s.currentRoom.value] && self in open
    ensures Send(self, Chat(f.text.value, s.username, timestamp))
              in HandleMessage(rooms, s, self, Object(f), newCode, timestamp, open).sends
  {
    MessageEffect(rooms, s, self, f, newCode, timestamp, open, self);
  }

  // ---------------------------------------------------------------------------------------
  // close

  /** On close, a connection whose current room still exists leaves it; the room is deleted
      exactly when the connection was its only member, and otherwise every remaining open
      member is told who left, once each. Without a current room, or when that room is gone,
      nothing changes and nothing is sent. The session itself is left as it was. */
  lemma CloseEffect(rooms: Registry, s: Session, self: ConnId, open: set<ConnId>, c: ConnId)
    requires RoomsValid(rooms)
    ensures var o := HandleClose(rooms, s, self, open);
      && o.session == s
      && (forall k :: k in rooms && Some(k) != s.currentRoom ==> k in o.rooms && o.rooms[k] == rooms[k])
      && if Truthy(s.currentRoom) && s.currentRoom.value in rooms then
           var code := s.currentRoom.value;
           && o.rooms.Keys <= rooms.Keys
           && (code !in o.rooms <==> MemberSet(rooms[code]) <= {self})
           && (code in o.rooms ==> MemberSet(o.rooms[code]) == MemberSet(rooms[code]) - {self})
           && DistinctTargets(o.sends)
           && (forall i :: 0 <= i < |o.sends| ==> o.sends[i].frame == UserLeft(s.username))
           && (Reaches(o.sends, c) <==> c in rooms[code] && c != self && c in open)
         else
           o.rooms == rooms && o.sends == []
  {
    if Truthy(s.currentRoom) && s.currentRoom.value in rooms {
      var code := s.currentRoom.value;
      var remaining := Remove(rooms[code], self);
      if |remaining| == 0 {
        assert MemberSet(rooms[code]) <= {self};
      } else {
        var rooms' := rooms[code := remaining];
        assert remaining[0] in MemberSet(rooms[code]) && remaining[0] != self;
        assert RoomsValid(rooms');
        BroadcastReachesExactly(rooms', code, None, open, UserLeft(s.username), c);
      }
    }
  }

  /** Running the close handler twice leaves the registry as running it once: the second run
      finds the connection already gone from its room. */
  lemma CloseTwiceSameRegistry(rooms: Registry, s: Session, self: ConnId, open: set<ConnId>)
    ensures var once := HandleClose(rooms, s, self, open);
      HandleClose(once.rooms, s, self, open).rooms == once.rooms
  {
    var once := HandleClose(rooms, s, self, open);
    if Truthy(s.currentRoom) && s.currentRoom.value in once.rooms {
      var code := s.currentRoom.value;
      assert self !in once.rooms[code];
    }
  }

  /** Once the last member has closed, the room's code no longer resolves: a later
      `join-room` with that code, in any letter case, is rejected as an invalid code. */
  lemma LastLeaverMakesRoomUnjoinable(rooms: Registry, s: Session, self: ConnId, open: set<ConnId>,
                                      s2: Session, other: ConnId, f: InFrame,
                                      newCode: string, timestamp: string)
    requires Truthy(s.currentRoom) && s.currentRoom.value in rooms
    requires rooms[s.currentRoom.value] == [self]
    requires f.kind == Some(JoinRoomType) && Truthy(f.username) && Truthy(f.code)
    requires Upper(f.code.value) == s.currentRoom.value
    ensures var closed := HandleClose(rooms, s, self, open).rooms;
      HandleMessage(closed, s2, other, Object(f), newCode, timestamp, open).sends
        == [Send(other, Error(InvalidRoomCode))]
  {
    assert Remove([self], self) == [];
  }

  /** A room created under a generated code (which the generator upper-cases) can be joined at
      once by another connection typing the code in any letter case; both are then members,
      creator first. */
  lemma CreatedRoomJoinableInAnyCase(rooms: Registry, sa: Session, a: ConnId, create: InFrame,
                                     sb: Session, b: ConnId, join: InFrame,
                                     generated: string, timestamp: string, open: set<ConnId>)
    requires create.kind == Some(CreateRoomType) && Truthy(create.username)
    requires generated != ""
    requires join.kind == Some(JoinRoomType) && Truthy(join.username) && join.code.Some?
    requires SameUpToAsciiCase(join.code.value, generated)
    requires a != b
    ensures var code := Upper(generated);
      var created := HandleMessage(rooms, sa, a, Object(create), code, timestamp, open);
      var joined := HandleMessage(created.rooms, sb, b, Object(join), code, timestamp, open);
      && joined.rooms[code] == [a, b]
      && joined.session.currentRoom == Some(code)
      && joined.sends[0] == Send(b, RoomJoined)
  {
    var code := Upper(generated);
    CaseInsensitiveCodes(join.code.value, generated);
    var created := HandleMessage(rooms, sa, a, Object(create), code, timestamp, open);
    assert created.rooms == rooms[code := [a]];
    assert Add([a], b) == [a, b];
    JoinAccepted(created.rooms, sb, b, join, code, timestamp, open);
  }

  /** Unfolds the accepted branch of `join-room`; a proof step for the lemmas above. */
  lemma JoinAccepted(rooms: Registry, s: Session, self: ConnId, f: InFrame,
                     newCode: string, timestamp: string, open: set<ConnId>)
    requires f.kind == Some(JoinRoomType) && Truthy(f.username) && Truthy(f.code)
    requires Upper(f.code.value) in rooms
    ensures var code := Upper(f.code.value);
      var o := HandleMessage(rooms, s, self, Object(f), newCode, timestamp, open);
      && o.rooms == rooms[code := Add(rooms[code], self)]
      && o.session == Session(Some(code), f.username)
      && |o.sends| >= 1 && o.sends[0] == Send(self, RoomJoined)
  {
  }

  /** Two users in one room, first half: alice creates room X7K2QA and is told its code; bob
      joins with the code in lower case, is told he joined, and alice is told bob arrived. */
  lemma AliceCreatesBobJoins(ts: string)
    ensures
      var alice, bob := 1, 2;
      var r1 := HandleMessage(map[], Unaffiliated, alice,
        Object(InFrame(Some(CreateRoomType), Some("alice"), None, None)), "X7K2QA", ts, {alice, bob});
      var r2 := HandleMessage(r1.rooms, Unaffiliated, bob,
        Object(InFrame(Some(JoinRoomType), Some("bob"), Some("x7k2qa"), None)), "", ts, {alice, bob});
      && r1.sends == [Send(alice, RoomCreated("X7K2QA"))]
      && r1.session == Session(Some("X7K2QA"), Some("alice"))
      && r2.sends == [Send(bob, RoomJoined), Send(alice, UserJoined("bob"))]
      && r2.session == Session(Some("X7K2QA"), Some("bob"))
      && r2.rooms == map["X7K2QA" := [alice, bob]]
  {
    var alice, bob := 1, 2;
    var r1 := HandleMessage(map[], Unaffiliated, alice,
      Object(InFrame(Some(CreateRoomType), Some("alice"), None, None)), "X7K2QA", ts, {alice, bob});
    assert r1.rooms == map["X7K2QA" := [alice]];
    var join := InFrame(Some(JoinRoomType), Some("bob"), Some("x7k2qa"), None);
    assert Upper("x7k2qa") == "X7K2QA" by {
      UpperAt("x7k2qa", 0);
      UpperAt("x7k2qa", 1);
      UpperAt("x7k2qa", 2);
      UpperAt("x7k2qa", 3);
      UpperAt("x7k2qa", 4);
      UpperAt("x7k2qa", 5);
    }
    var r2 := HandleMessage(r1.rooms, Unaffiliated, bob, Object(join), "", ts, {alice, bob});
    JoinAccepted(r1.rooms, Unaffiliated, bob, join, "", ts, {alice, bob});
    assert Add([alice], bob) == [alice, bob];
    var rooms2 := map["X7K2QA" := [alice, bob]];
    assert r2.rooms == rooms2;
    assert [alice, bob][..1] == [alice] && [alice][..0] == [];
    assert Fanout([alice], Some(bob), {alice, bob}, UserJoined("bob")) == [Send(alice, UserJoined("bob"))];
    assert Fanout([alice, bob], Some(bob), {alice, bob}, UserJoined("bob")) == [Send(alice, UserJoined("bob"))];
    assert r2.sends == [Send(bob, RoomJoined)] + Broadcast(rooms2, "X7K2QA", Some(bob), {alice, bob}, UserJoined("bob"));
  }

  /** Second half: alice says "hi" and both members get it, alice included; bob disconnects
      and alice is told; alice disconnects and the room is removed. */
  lemma AliceChatsThenBothLeave(ts: string)
    ensures
      var alice, bob := 1, 2;
      var rooms := map["X7K2QA" := [alice, bob]];
      var sa, sb := Session(Some("X7K2QA"), Some("alice")), Session(Some("X7K2QA"), Some("bob"));
      var r3 := HandleMessage(rooms, sa, alice,
        Object(InFrame(Some(MessageType), None, None, Some("hi"))), "", ts, {alice, bob});
      var r4 := HandleClose(r3.rooms, sb, bob, {alice});
      var r5 := HandleClose(r4.rooms, sa, alice, {});
      && r3.sends == [Send(alice, Chat("hi", Some("alice"), ts)), Send(bob, Chat("hi", Some("alice"), ts))]
      && r4.sends == [Send(alice, UserLeft(Some("bob")))]
      && r4.rooms == map["X7K2QA" := [alice]]
      && r5.rooms == map[]
  {
    var alice, bob := 1, 2;
    var hi := Chat("hi", Some("alice"), ts);
    assert Fanout([alice, bob], None, {alice, bob}, hi) == [Send(alice, hi), Send(bob, hi)];
    assert Remove([alice, bob], bob) == [alice];
    assert Fanout([alice], None, {alice}, UserLeft(Some("bob"))) == [Send(alice, UserLeft(Some("bob")))];
    assert Remove([alice], alice) == [];
  }

  // ---------------------------------------------------------------------------------------
  // Invariants

  /** A session in a room always has a name: both handlers that set `currentRoom` set a
      non-empty `username` alongside it. */
  predicate SessionValid(s: Session)
  {
    s.currentRoom.Some? ==> Truthy(s.username)
  }

  /** The message handler keeps both invariants: no room in the registry is empty or holds a
      connection twice, and a session with a room has a name. */
  lemma HandleMessageKeepsInvariants(rooms: Registry, s: Session, self: ConnId, data: Parsed,
                                     newCode: string, timestamp: string, open: set<ConnId>)
    requires RoomsValid(rooms) && SessionValid(s)
    ensures var o := HandleMessage(rooms, s, self, data, newCode, timestamp, open);
      RoomsValid(o.rooms) && SessionValid(o.session)
  {
  }

  /** The close handler keeps the registry invariant: the room is deleted when its last
      member leaves instead of staying behind empty. */
  lemma HandleCloseKeepsRoomsValid(rooms: Registry, s: Session, self: ConnId, open: set<ConnId>)
    requires RoomsValid(rooms)
    ensures RoomsValid(HandleClose(rooms, s, self, open).rooms)
  {
  }

  /** In a valid session an accepted chat message always names its sender. */
  lemma ChatNamesSender(rooms: Registry, s: Session, self: ConnId, f: InFrame,
                        newCode: string, timestamp: string, open: set<ConnId>)
    requires SessionValid(s)
    requires f.kind == Some(MessageType)
    ensures var o := HandleMessage(rooms, s, self, Object(f), newCode, timestamp, open);
      forall i :: 0 <= i < |o.sends| && o.sends[i].frame.Chat? ==> Truthy(o.sends[i].frame.sender)
  {
  }

  // ---------------------------------------------------------------------------------------
  // The whole server: every connection's handlers, interleaved

  /** The registry together with the session of every connection that is still open. */
  datatype World = World(rooms: Registry, sessions: map<ConnId, Session>)

  /** One handler run: a frame arriving on a connection, or a connection closing. */
  datatype Event =
    | Receive(conn: ConnId, data: Parsed, newCode: string, timestamp: string, open: set<ConnId>)
    | Disconnect(conn: ConnId, open: set<ConnId>)

  /** A connection that has not been seen yet has just opened. */
  function SessionOf(w: World, c: ConnId): Session
  {
    if c in w.sessions then w.sessions[c] else Unaffiliated
  }

  function Step(w: World, e: Event): World
  {
    match e
    case Receive(c, data, newCode, timestamp, open) =>
      var o := HandleMessage(w.rooms, SessionOf(w, c), c, data, newCode, timestamp, open);
      World(o.rooms, w.sessions[c := o.session])
    case Disconnect(c, open) =>
      var o := HandleClose(w.rooms, SessionOf(w, c), c, open);
      World(o.rooms, w.sessions - {c})
  }

  function Run(w: World, trace: seq<Event>): World
    decreases |trace|
  {
    if trace == [] then w else Run(Step(w, trace[0]), trace[1..])
  }

  predicate WorldValid(w: World)
  {
    RoomsValid(w.rooms) && forall c :: c in w.sessions ==> SessionValid(w.sessions[c])
  }

  /** From the empty registry, after any interleaving of frames and closes over any number
      of connections, no room is empty or holds a connection twice, and every session in a
      room has a name. */
  lemma {:induction false} RunKeepsWorldValid(w: World, trace: seq<Event>)
    requires WorldValid(w)
    ensures WorldValid(Run(w, trace))
    decreases |trace|
  {
    if trace != [] {
      var e := trace[0];
      match e {
        case Receive(c, data, newCode, timestamp, open) =>
          HandleMessageKeepsInvariants(w.rooms, SessionOf(w, c), c, data, newCode, timestamp, open);
        case Disconnect(c, open) =>
          HandleCloseKeepsRoomsValid(w.rooms, SessionOf(w, c), c, open);
      }
      RunKeepsWorldValid(Step(w, e), trace[1..]);
    }
  }

  lemma ServerStartsValid()
    ensures WorldValid(World(map[], map[]))
  {
  }
}
