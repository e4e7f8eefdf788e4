/**
  The pin dashboard page (`Home` in app/page.tsx): a local mirror of the 256
  remote pin states, replaced wholesale by inbound snapshot frames, and a
  click handler that, while the socket is open, sends one `set` command
  asking the server to invert a pin.

  Frames reach the model already parsed: `Malformed` stands for text on
  which `JSON.parse` throws. Events are taken one at a time, in order.
*/
module Page {
  import opened Base
  import opened Json
  import opened SetCommand

  /** The number of pins the mirror holds. */
  const PinCount: nat := 256

  /** `WebSocket.readyState`: CONNECTING (0), OPEN (1), CLOSING (2), CLOSED (3). */
  datatype ReadyState = Connecting | Open | Closing | Closed

  /** An inbound message: text `JSON.parse` rejects, or the value it yields. */
  datatype Frame = Malformed | Parsed(data: JsonValue)

  /** The mirror the page starts from: 256 entries, all `false`. */
  function InitialPins(): (r: seq<JsonValue>)
    ensures |r| == PinCount
    ensures forall i :: 0 <= i < |r| ==> r[i] == JBool(false)
  {
    seq(PinCount, _ => JBool(false))
  }

  /** The array a frame installs, if it installs one: the frame parsed, reading
      its `pins` property did not throw, and that property is an array of
      exactly 256 entries. */
  function Snapshot(frame: Frame): (r: Option<seq<JsonValue>>)
    ensures r.Some? <==> frame.Parsed? && frame.data.JObject?
                         && Lookup(frame.data.members, "pins").Some?
                         && Lookup(frame.data.members, "pins").value.JArray?
                         && |Lookup(frame.data.members, "pins").value.items| == PinCount
    ensures r.Some? ==> Lookup(frame.data.members, "pins") == Some(JArray(r.value))
  {
    match frame
    case Malformed => None
    case Parsed(data) =>
      match PropertyGet(data, "pins")
      case Err(_) => None
      case Ok(pins) =>
        if pins.Some? && pins.value.JArray? && |pins.value.items| == PinCount
        then Some(pins.value.items) else None
  }

  /** The mirror after one inbound frame. */
  function NextPins(pins: seq<JsonValue>, frame: Frame): (r: seq<JsonValue>)
    ensures frame.Malformed? ==> r == pins
    ensures frame.Parsed? && !frame.data.JObject? ==> r == pins
    ensures frame.Parsed? && frame.data.JObject? ==>
              var p := Lookup(frame.data.members, "pins");
              if p.Some? && p.value.JArray? && |p.value.items| == PinCount
              then r == p.value.items else r == pins
    ensures |pins| == PinCount ==> |r| == PinCount
  {
    match Snapshot(frame)
    case Some(items) => items
    case None => pins
  }

  /** The command a click on cell `index` produces: none unless a socket
      exists and is open; otherwise a request to set that channel to the
      negation of its mirrored value. */
  function ClickCommand(pins: seq<JsonValue>, ws: Option<ReadyState>, index: nat): (r: Option<SetCmd>)
    requires index < |pins|
    ensures r.Some? <==> ws == Some(Open)
    ensures r.Some? ==> r.value.ch == index && (r.value.val <==> !Truthy(pins[index]))
  {
    if ws.None? || ws.value != Open then None
    else Some(SetCmd(index, !Truthy(pins[index])))
  }

  /** The texts a click hands to `ws.send`: none, or exactly one. */
  function ClickOutput(pins: seq<JsonValue>, ws: Option<ReadyState>, index: nat): (r: seq<string>)
    requires index < |pins|
    ensures |r| <= 1 && (|r| == 1 <==> ws == Some(Open))
    ensures |r| == 1 ==> Decode(r[0]) == Some(SetCmd(index, !Truthy(pins[index])))
  {
    match ClickCommand(pins, ws, index)
    case None => []
    case Some(cmd) => [Encode(cmd)]
  }

  // ---------------------------------------------------------------------
  // Sequences of frames

  /** The mirror after a sequence of frames, in arrival order. */
  function Replay(pins: seq<JsonValue>, frames: seq<Frame>): (r: seq<JsonValue>)
    ensures r == pins || exists k :: 0 <= k < |frames| && Snapshot(frames[k]) == Some(r)
    decreases |frames|
  {
    if frames == [] then pins else Replay(NextPins(pins, frames[0]), frames[1..])
  }

  /** The array installed by the last frame that installs one, if any. */
  function LastSnapshot(frames: seq<Frame>): (r: Option<seq<JsonValue>>)
    ensures r.Some? ==> |r.value| == PinCount
    decreases |frames|
  {
    if frames == [] then None
    else match Snapshot(frames[|frames| - 1])
      case Some(items) => Some(items)
      case None => LastSnapshot(frames[..|frames| - 1])
  }

  lemma {:induction false} ReplaySnoc(pins: seq<JsonValue>, frames: seq<Frame>, f: Frame)
    ensures Replay(pins, frames + [f]) == NextPins(Replay(pins, frames), f)
    decreases |frames|
  {
    if frames != [] {
      assert (frames + [f])[1..] == frames[1..] + [f];
      ReplaySnoc(NextPins(pins, frames[0]), frames[1..], f);
    }
  }

  /** Frames never merge: after any sequence, the mirror is exactly the array
      of the last accepted snapshot, or the starting mirror if none was. */
  lemma {:induction false} ReplayIsLastSnapshot(pins: seq<JsonValue>, frames: seq<Frame>)
    ensures Replay(pins, frames) == (if LastSnapshot(frames).Some? then LastSnapshot(frames).value else pins)
    decreases |frames|
  {
    if frames != [] {
      var front, f := frames[..|frames| - 1], frames[|frames| - 1];
      assert frames == front + [f];
      ReplaySnoc(pins, front, f);
      ReplayIsLastSnapshot(pins, front);
    }
  }

  /** The mirror has 256 entries after any sequence of frames. */
  lemma {:induction false} ReplayKeepsPinCount(pins: seq<JsonValue>, frames: seq<Frame>)
    requires |pins| == PinCount
    ensures |Replay(pins, frames)| == PinCount
  {
    ReplayIsLastSnapshot(pins, frames);
  }

  // ---------------------------------------------------------------------
  // The page as a state machine over events

  /** What the page holds: the mirror, the socket handle (absent, or present
      with its ready state), and every text handed to `ws.send` so far. */
  datatype PageState = PageState(pins: seq<JsonValue>, ws: Option<ReadyState>, sent: seq<string>)

  /** One event: an inbound message, a click on a cell, or a change of the
      socket handle or of its ready state. */
  datatype Event = Message(frame: Frame) | Click(index: nat) | Socket(ws: Option<ReadyState>)

  /** Clicks come from the rendered cells, so their index is below the
      mirror's length. */
  predicate ClicksInRange(events: seq<Event>)
  {
    forall k :: 0 <= k < |events| ==> events[k].Click? ==> events[k].index < PinCount
  }

  function Step(s: PageState, e: Event): (r: PageState)
    requires |s.pins| == PinCount
    requires e.Click? ==> e.index < PinCount
    ensures |r.pins| == PinCount
    ensures !e.Message? ==> r.pins == s.pins
    ensures !e.Click? ==> r.sent == s.sent
    ensures !e.Socket? ==> r.ws == s.ws
  {
    match e
    case Message(frame) => s.(pins := NextPins(s.pins, frame))
    case Click(index) => s.(sent := s.sent + ClickOutput(s.pins, s.ws, index))
    case Socket(ws) => s.(ws := ws)
  }

  function Run(s: PageState, events: seq<Event>): (r: PageState)
    requires |s.pins| == PinCount && ClicksInRange(events)
    ensures |r.pins| == PinCount
    decreases |events|
  {
    if events == [] then s else Run(Step(s, events[0]), events[1..])
  }

  /** The frames among a sequence of events. */
  function Messages(events: seq<Event>): (r: seq<Frame>)
    ensures |r| <= |events|
    decreases |events|
  {
    if events == [] then []
    else if events[0].Message? then [events[0].frame] + Messages(events[1..])
    else Messages(events[1..])
  }

  /** Only inbound frames change the mirror: clicks and socket changes leave
      it alone, so the mirror after any run is the replay of its frames. */
  lemma {:induction false} RunPinsAreReplay(s: PageState, events: seq<Event>)
    requires |s.pins| == PinCount && ClicksInRange(events)
    ensures Run(s, events).pins == Replay(s.pins, Messages(events))
    decreases |events|
  {
    if events != [] {
      RunPinsAreReplay(Step(s, events[0]), events[1..]);
    }
  }

  /** The page only ever sends well-formed `set` commands for channels
      0..255, and never takes back what it has sent. */
  lemma {:induction false} RunSendsOnlySetCommands(s: PageState, events: seq<Event>)
    requires |s.pins| == PinCount && ClicksInRange(events)
    ensures s.sent <= Run(s, events).sent
    ensures forall k :: |s.sent| <= k < |Run(s, events).sent| ==>
              Decode(Run(s, events).sent[k]).Some? && Decode(Run(s, events).sent[k]).value.ch < PinCount
    decreases |events|
  {
    if events != [] {
      var s' := Step(s, events[0]);
      RunSendsOnlySetCommands(s', events[1..]);
    }
  }

  /** The page component. `pins` and `ws` are its two React states; `sent`
      records, in order, every text passed to `ws.send`. */
  class Home {
    var pins: seq<JsonValue>
    var ws: Option<ReadyState>
    var sent: seq<string>

    ghost predicate Valid()
      reads this
    {
      |pins| == PinCount
    }

    function State(): PageState
      reads this
    {
      PageState(pins, ws, sent)
    }

    /** The first render: 256 `false` pins and no socket yet. */
    constructor ()
      ensures Valid()
      ensures forall i :: 0 <= i < |pins| ==> pins[i] == JBool(false)
      ensures ws == None && sent == []
    {
      pins := InitialPins();
      ws := None;
      sent := [];
    }

    /** `setWs(socket)`, or the socket's ready state moving on. */
    method SetSocket(socket: Option<ReadyState>)
      requires Valid()
      modifies this`ws
      ensures Valid()
      ensures State() == Step(old(State()), Socket(socket))
    {
      ws := socket;
    }

    /** `socket.onmessage`: install the frame's `pins` array when it is an
        array of exactly 256 entries; otherwise, and when the text does not
        parse or `data.pins` throws, leave the mirror as it was. */
    method OnMessage(frame: Frame)
      requires Valid()
      modifies this`pins
      ensures Valid()
      ensures State() == Step(old(State()), Message(frame))
    {
      var snapshot := Snapshot(frame);
      if snapshot.Some? {
        pins := snapshot.value;
      }
    }

    /** `handleClick(index)`: if there is an open socket, send the command
        that inverts pin `index`; the mirror itself is not touched. */
    method HandleClick(index: nat)
      requires Valid() && index < PinCount
      modifies this`sent
      ensures Valid()
      ensures State() == Step(old(State()), Click(index))
    {
      var msg := ClickCommand(pins, ws, index);
      if msg.None? {
        return;
      }
      sent := sent + [Encode(msg.value)];
    }
  }
}
