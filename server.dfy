/** The WebSocket server's state as the handlers change it in place: one registry object
    shared by every connection, and one object per connection holding the variables its
    handlers close over. Each method is proved against the functions of Protocol. */
module Server {
  import opened Frames
  import opened RoomRegistry
  import opened Protocol

  /** The process-wide `rooms` map. */
  class Relay {
    var rooms: Registry

    ghost predicate Valid()
      reads this
    {
      RoomsValid(rooms)
    }

    constructor ()
      ensures rooms == map[] && Valid()
    {
      rooms := map[];
    }

    /** broadcastToRoom: walks the room's members in order and sends `frame` to each one
        that is not `exclude` and is open. Reads the registry and changes nothing. */
    method BroadcastToRoom(code: string, frame: OutFrame, exclude: Option<ConnId>, open: set<ConnId>)
      returns (sends: seq<Send>)
      ensures sends == Broadcast(rooms, code, exclude, open, frame)
    {
      sends := [];
      if code in rooms {
        var room := rooms[code];
        for i := 0 to |room|
          invariant sends == Fanout(room[..i], exclude, open, frame)
        {
          assert room[..i + 1][..i] == room[..i];
          var client := room[i];
          if Some(client) != exclude && client in open {
            sends := sends + [Send(client, frame)];
          }
        }
        assert room[..|room|] == room;
      }
    }
  }

  /** One WebSocket connection: its identity and the two closure variables of its handlers. */
  class Connection {
    const id: ConnId
    var currentRoom: Option<string>
    var username: Option<string>

    /** The connection handler: a new connection is in no room and has no name. */
    constructor (id: ConnId)
      ensures this.id == id && State() == Unaffiliated
    {
      this.id := id;
      currentRoom := None;
      username := None;
    }

    function State(): Session
      reads this
    {
      Session(currentRoom, username)
    }

    /** The `message` handler: dispatches on the frame's type, and turns every thrown error
        into a single error frame for this connection. */
    method OnMessage(relay: Relay, data: Parsed, newCode: string, timestamp: string, open: set<ConnId>)
      returns (sends: seq<Send>)
      modifies this, relay
      ensures var o := HandleMessage(old(relay.rooms), old(State()), id, data, newCode, timestamp, open);
        relay.rooms == o.rooms && State() == o.session && sends == o.sends
      ensures old(relay.Valid() && SessionValid(State())) ==> relay.Valid() && SessionValid(State())
    {
      ghost var rooms0, s0 := relay.rooms, State();
      var failure: Option<ErrorReason> := None;
      sends := [];
      match data {
        case Malformed(detail) =>
          failure := Some(ParseFailure(detail));
        case Object(f) =>
          if !Truthy(f.kind) {
            failure := Some(InvalidFormat);
          } else if f.kind.value == CreateRoomType {
            if !Truthy(f.username) {
              failure := Some(UsernameRequired);
            } else {
              username := f.username;
              relay.rooms := relay.rooms[newCode := [id]];
              currentRoom := Some(newCode);
              sends := [Send(id, RoomCreated(newCode))];
            }
          } else if f.kind.value == JoinRoomType {
            if !Truthy(f.username) || !Truthy(f.code) {
              failure := Some(UsernameAndCodeRequired);
            } else if Upper(f.code.value) !in relay.rooms {
              failure := Some(InvalidRoomCode);
            } else {
              var code := Upper(f.code.value);
              username := f.username;
              currentRoom := Some(code);
              relay.rooms := relay.rooms[code := Add(relay.rooms[code], id)];
              sends := [Send(id, RoomJoined)];
              var notices := relay.BroadcastToRoom(code, UserJoined(f.username.value), Some(id), open);
              sends := sends + notices;
            }
          } else if f.kind.value == MessageType {
            if !Truthy(f.text) || !Truthy(currentRoom) {
              failure := Some(InvalidMessage);
            } else {
              sends := relay.BroadcastToRoom(currentRoom.value, Chat(f.text.value, username, timestamp), None, open);
            }
          } else {
            failure := Some(UnknownType);
          }
      }
      if failure.Some? {
        sends := [Send(id, Error(failure.value))];
      }
      if RoomsValid(rooms0) && SessionValid(s0) {
        HandleMessageKeepsInvariants(rooms0, s0, id, data, newCode, timestamp, open);
      }
    }

    /** The `close` handler: leaves the current room, deleting it when it empties and
        otherwise telling the remaining members who left. */
    method OnClose(relay: Relay, open: set<ConnId>) returns (sends: seq<Send>)
      modifies relay
      ensures var o := HandleClose(old(relay.rooms), State(), id, open);
        relay.rooms == o.rooms && sends == o.sends
      ensures old(relay.Valid()) ==> relay.Valid()
    {
      ghost var rooms0 := relay.rooms;
      sends := [];
      if Truthy(currentRoom) && currentRoom.value in relay.rooms {
        var code := currentRoom.value;
        var room := Remove(relay.rooms[code], id);
        if |room| == 0 {
          relay.rooms := relay.rooms - {code};
        } else {
          relay.rooms := relay.rooms[code := room];
          sends := relay.BroadcastToRoom(code, UserLeft(username), None, open);
        }
      }
      if RoomsValid(rooms0) {
        HandleCloseKeepsRoomsValid(rooms0, State(), id, open);
      }
    }

    /** The `error` event together with the `close` event that its `ws.close()` causes: the
        close handler runs once, here. A caller modelling a failed connection calls this
        instead of `OnClose`, not in addition to it; a second run of the close handler would
        send `user-left` again to the members still in the room. */
    method OnError(relay: Relay, open: set<ConnId>) returns (sends: seq<Send>)
      modifies relay
      ensures var o := HandleClose(old(relay.rooms), State(), id, open);
        relay.rooms == o.rooms && sends == o.sends
    {
      sends := OnClose(relay, open);
    }
  }
}
