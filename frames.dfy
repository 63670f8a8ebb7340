/** The wire vocabulary of the relay: inbound frames as JSON.parse leaves them, outbound
    frames before JSON.stringify, and the two string conventions the handlers rely on
    (JavaScript truthiness of a field and String.prototype.toUpperCase on room codes). */
module Frames {

  datatype Option<T> = None | Some(value: T)

  /** A connection handle. The server compares WebSocket objects by identity; a distinct
      number per connection plays that role here. */
  type ConnId = nat

  /** JavaScript truthiness of an optional string: a missing field, null and "" are all
      falsy, every other string is truthy. */
  predicate Truthy(o: Option<string>)
  {
    o.Some? && o.value != ""
  }

  /** The `type` values the dispatcher recognises. */
  const CreateRoomType := "create-room"
  const JoinRoomType := "join-room"
  const MessageType := "message"

  /** An inbound frame after a successful JSON.parse: each field the handlers read is either
      present (as a string) or absent. `kind` is the frame's `type` field. */
  datatype InFrame = InFrame(
    kind: Option<string>,
    username: Option<string>,
    code: Option<string>,
    text: Option<string>)

  /** What JSON.parse (and the first property read on its result) produced: either an object
      whose fields can be read, or an exception whose message is `detail`. */
  datatype Parsed = Malformed(detail: string) | Object(frame: InFrame)

  /** Why a frame was rejected; each case is one `throw` of the message handler. */
  datatype ErrorReason =
    | ParseFailure(detail: string)
    | InvalidFormat
    | UsernameRequired
    | UsernameAndCodeRequired
    | InvalidRoomCode
    | InvalidMessage
    | UnknownType

  /** The `message` text carried by the error frame for each reason. */
  function ErrorText(e: ErrorReason): string
  {
    match e
    case ParseFailure(detail) => detail
    case InvalidFormat => "Invalid message format"
    case UsernameRequired => "Username required"
    case UsernameAndCodeRequired => "Username and room code required"
    case InvalidRoomCode => "Invalid room code"
    case InvalidMessage => "Invalid message"
    case UnknownType => "Unknown message type"
  }

  /** Outbound frames. `sender` and `leaver` are copied from the session's
      `username` variable, which JavaScript serialises as null when it was never set. */
  datatype OutFrame =
    | RoomCreated(code: string)
    | RoomJoined
    | UserJoined(joiner: string)
    | Chat(text: string, sender: Option<string>, timestamp: string)
    | UserLeft(leaver: Option<string>)
    | Error(reason: ErrorReason)

  /** One `send` call: the frame goes out on connection `to`. */
  datatype Send = Send(to: ConnId, frame: OutFrame)

  /** toUpperCase on one character, restricted to ASCII letters. */
  function UpperChar(c: char): char
  {
    if 'a' <= c <= 'z' then (c as int - 32) as char else c
  }

  predicate IsLowerAscii(c: char)
  {
    'a' <= c <= 'z'
  }

  /** toUpperCase on a string, character by character. */
  function Upper(s: string): (r: string)
    ensures |r| == |s|
    decreases |s|
  {
    if s == [] then [] else [UpperChar(s[0])] + Upper(s[1..])
  }

  /** Each character of the upper-cased string is its own character upper-cased. */
  lemma {:induction false} UpperAt(s: string, i: nat)
    requires i < |s|
    ensures Upper(s)[i] == UpperChar(s[i])
    decreases |s|
  {
    if i > 0 {
      UpperAt(s[1..], i - 1);
    }
  }

  /** An upper-cased string holds no lower-case ASCII letter. */
  lemma UpperHasNoLowercase(s: string)
    ensures forall i :: 0 <= i < |s| ==> !IsLowerAscii(Upper(s)[i])
  {
    forall i | 0 <= i < |s| ensures !IsLowerAscii(Upper(s)[i]) {
      UpperAt(s, i);
    }
  }

  /** Upper-casing twice is upper-casing once, so a code that came from the generator (which
      upper-cases) is its own normal form. */
  lemma {:induction false} UpperIdempotent(s: string)
    ensures Upper(Upper(s)) == Upper(s)
    decreases |s|
  {
    if s != [] {
      UpperIdempotent(s[1..]);
      assert Upper(s)[1..] == Upper(s[1..]);
    }
  }

  /** Two codes that differ only in the case of ASCII letters. */
  predicate SameUpToAsciiCase(a: string, b: string)
  {
    |a| == |b| && forall i :: 0 <= i < |a| ==> UpperChar(a[i]) == UpperChar(b[i])
  }

  /** Codes normalise to the same key exactly when they differ only in ASCII letter case. */
  lemma CaseInsensitiveCodes(a: string, b: string)
    ensures SameUpToAsciiCase(a, b) <==> Upper(a) == Upper(b)
  {
    if |a| == |b| {
      forall i | 0 <= i < |a| ensures Upper(a)[i] == UpperChar(a[i]) && Upper(b)[i] == UpperChar(b[i]) {
        UpperAt(a, i);
        UpperAt(b, i);
      }
    }
  }
}
