/** Collaborative document rooms: joining, updating, receiving and leaving, in every interleaving. */
module Crdt {
  import opened Bytes

  datatype Doc = Doc(ns: bytes, name: bytes)

  /** A room: its bytes, everything broadcast since it was opened, and its number of clients. */
  datatype Room = Room(state: bytes, sent: seq<bytes>, clientCount: nat)

  const CHANNEL_CAPACITY: nat := 256
  const SLASH: byte := '/' as int

  function Key(d: Doc): bytes {
    d.ns + [SLASH] + d.name
  }

  /** Document names are single path segments. */
  predicate Segment(d: Doc) {
    SLASH !in d.name
  }

  lemma KeyInjective(d: Doc, e: Doc)
    requires Segment(d) && Segment(e) && Key(d) == Key(e)
    ensures d == e
  {
    LastSeparator(SLASH, d.ns, d.name, e.ns, e.name);
  }

  // ---- What the three operations do ----

  /** The persisted state of a document; a document that was never saved is empty. */
  function Load(tags: map<Doc, bytes>, d: Doc): bytes {
    if d in tags then tags[d] else []
  }

  function Save(tags: map<Doc, bytes>, d: Doc, state: bytes): map<Doc, bytes> {
    if state == [] then tags else tags[d := state]
  }

  function Opened(rooms: map<bytes, Room>, tags: map<Doc, bytes>, d: Doc): Room {
    if Key(d) in rooms then rooms[Key(d)] else Room(Load(tags, d), [], 0)
  }

  function JoinRooms(rooms: map<bytes, Room>, tags: map<Doc, bytes>, d: Doc): map<bytes, Room> {
    var room := Opened(rooms, tags, d);
    rooms[Key(d) := room.(clientCount := room.clientCount + 1)]
  }

  function UpdateRooms(rooms: map<bytes, Room>, d: Doc, data: bytes): map<bytes, Room> {
    if Key(d) !in rooms then rooms
    else
      var room := rooms[Key(d)];
      rooms[Key(d) := room.(state := room.state + data, sent := room.sent + [data])]
  }

  function LeaveRooms(rooms: map<bytes, Room>, d: Doc): map<bytes, Room> {
    if Key(d) !in rooms then rooms
    else
      var room := rooms[Key(d)];
      if room.clientCount <= 1 then rooms - {Key(d)}
      else rooms[Key(d) := room.(clientCount := room.clientCount - 1)]
  }

  function LeaveTags(rooms: map<bytes, Room>, tags: map<Doc, bytes>, d: Doc): map<Doc, bytes> {
    if Key(d) in rooms && rooms[Key(d)].clientCount <= 1 then Save(tags, d, rooms[Key(d)].state) else tags
  }

  class Manager {
    var rooms: map<bytes, Room>
    var tags: map<Doc, bytes>

    constructor (tags: map<Doc, bytes>)
      ensures rooms == map[] && this.tags == tags
    {
      rooms := map[];
      this.tags := tags;
    }

    /** Gives the position of a new receiver and the state to start from. */
    method Join(d: Doc) returns (position: nat, state: bytes)
      modifies this`rooms
      ensures rooms == JoinRooms(old(rooms), tags, d)
      ensures position == |Opened(old(rooms), tags, d).sent| && state == Opened(old(rooms), tags, d).state
    {
      if Key(d) !in rooms {
        rooms := rooms[Key(d) := Room(Load(tags, d), [], 0)];
      }
      var room := rooms[Key(d)];
      rooms := rooms[Key(d) := room.(clientCount := room.clientCount + 1)];
      position := |room.sent|;
      state := room.state;
    }

    method ApplyUpdate(d: Doc, data: bytes)
      modifies this`rooms
      ensures rooms == UpdateRooms(old(rooms), d, data)
    {
      if Key(d) in rooms {
        var room := rooms[Key(d)];
        room := room.(state := room.state + data);
        room := room.(sent := room.sent + [data]);
        rooms := rooms[Key(d) := room];
      }
    }

    method Leave(d: Doc)
      modifies this
      ensures rooms == LeaveRooms(old(rooms), d) && tags == LeaveTags(old(rooms), old(tags), d)
    {
      if Key(d) !in rooms {
        return;
      }
      var room := rooms[Key(d)];
      var count := if room.clientCount == 0 then 0 else room.clientCount - 1;
      rooms := rooms[Key(d) := room.(clientCount := count)];
      if count == 0 {
        rooms := rooms - {Key(d)};
        if room.state != [] {
          tags := tags[d := room.state];
        }
      }
    }
  }

  // ---- Clients and steps ----

  /** A connected client: what it was sent first, and what it has received since. */
  datatype Client = Client(doc: Doc, joinedAt: nat, initial: bytes, received: seq<bytes>)

  datatype System = System(rooms: map<bytes, Room>, tags: map<Doc, bytes>, clients: map<nat, Client>)

  /** One atomic step of some client; a step that is not possible changes nothing. */
  datatype Step =
    | Join(id: nat, doc: Doc)
    | Update(id: nat, data: bytes)
    | Receive(id: nat)
    | Leave(id: nat)

  function Joined(s: System, id: nat, d: Doc): System {
    var room := Opened(s.rooms, s.tags, d);
    System(JoinRooms(s.rooms, s.tags, d), s.tags, s.clients[id := Client(d, |room.sent|, room.state, [])])
  }

  function Left(s: System, id: nat): System
    requires id in s.clients
  {
    var d := s.clients[id].doc;
    System(LeaveRooms(s.rooms, d), LeaveTags(s.rooms, s.tags, d), s.clients - {id})
  }

  /** The next broadcast for a client; one that has fallen more than the capacity behind leaves. */
  function Received(s: System, id: nat): System
    requires id in s.clients
  {
    var c := s.clients[id];
    if Key(c.doc) !in s.rooms then s
    else
      var sent, next := s.rooms[Key(c.doc)].sent, c.joinedAt + |c.received|;
      if next >= |sent| then s
      else if |sent| - next > CHANNEL_CAPACITY then Left(s, id)
      else s.(clients := s.clients[id := c.(received := c.received + [sent[next]])])
  }

  function Next(s: System, step: Step): System {
    match step
    case Join(id, d) => if id !in s.clients && Segment(d) then Joined(s, id, d) else s
    case Update(id, data) => if id in s.clients then Updated(s, s.clients[id].doc, data) else s
    case Receive(id) => if id in s.clients then Received(s, id) else s
    case Leave(id) => if id in s.clients then Left(s, id) else s
  }

  function Run(s: System, steps: seq<Step>): System
    decreases |steps|
  {
    if steps == [] then s else Run(Next(s, steps[0]), steps[1..])
  }

  /** The updates that the joined clients of `d` make during a run, in order. */
  function Log(s: System, steps: seq<Step>, d: Doc): seq<bytes>
    decreases |steps|
  {
    if steps == [] then []
    else StepLog(s, steps[0], d) + Log(Next(s, steps[0]), steps[1..], d)
  }

  function StepLog(s: System, step: Step, d: Doc): seq<bytes> {
    match step
    case Update(id, data) => if id in s.clients && s.clients[id].doc == d then [data] else []
    case _ => []
  }

  /** The current content of a document: its room's, or the persisted one. */
  function Content(s: System, d: Doc): bytes {
    if Key(d) in s.rooms then s.rooms[Key(d)].state else Load(s.tags, d)
  }

  // ---- The invariant ----

  ghost function ClientsOf(s: System, d: Doc): set<nat> {
    set id | id in s.clients && s.clients[id].doc == d
  }

  /** A room is open exactly while it has clients, counts them, and holds the persisted start and every update since. */
  ghost predicate RoomSound(s: System, d: Doc) {
    && (Key(d) in s.rooms <==> ClientsOf(s, d) != {})
    && (Key(d) in s.rooms ==>
        && s.rooms[Key(d)].clientCount == |ClientsOf(s, d)|
        && s.rooms[Key(d)].state == Load(s.tags, d) + Concat(s.rooms[Key(d)].sent))
  }

  /** What a client has seen is the room's history up to some point, each update once and none left out. */
  ghost predicate ClientSound(s: System, id: nat)
    requires id in s.clients
  {
    var c := s.clients[id];
    && Segment(c.doc)
    && Key(c.doc) in s.rooms
    && var sent := s.rooms[Key(c.doc)].sent;
       && c.joinedAt + |c.received| <= |sent|
       && c.received == sent[c.joinedAt..c.joinedAt + |c.received|]
       && c.initial == Load(s.tags, c.doc) + Concat(sent[..c.joinedAt])
  }

  ghost predicate Sound(s: System) {
    && (forall d :: Segment(d) ==> RoomSound(s, d))
    && (forall id :: id in s.clients ==> ClientSound(s, id))
  }

  /** A change of one document leaves the rooms and clients of the others as they were. */
  lemma OtherRoom(s: System, t: System, d: Doc, e: Doc)
    requires Segment(d) && Segment(e) && d != e && RoomSound(s, e)
    requires forall k :: k != Key(d) ==> (k in s.rooms <==> k in t.rooms) && (k in s.rooms ==> s.rooms[k] == t.rooms[k])
    requires ClientsOf(t, e) == ClientsOf(s, e) && Load(s.tags, e) == Load(t.tags, e)
    ensures RoomSound(t, e)
  {
    if Key(d) == Key(e) {
      KeyInjective(d, e);
    }
  }

  lemma OtherClient(s: System, t: System, d: Doc, id: nat)
    requires Segment(d) && id in s.clients && id in t.clients
    requires s.clients[id] == t.clients[id] && s.clients[id].doc != d
    requires ClientSound(s, id) && Load(s.tags, s.clients[id].doc) == Load(t.tags, s.clients[id].doc)
    requires forall k :: k != Key(d) ==> (k in s.rooms <==> k in t.rooms) && (k in s.rooms ==> s.rooms[k] == t.rooms[k])
    ensures ClientSound(t, id)
  {
    if Key(d) == Key(s.clients[id].doc) {
      KeyInjective(d, s.clients[id].doc);
    }
  }

  lemma JoinedClients(s: System, id: nat, d: Doc, e: Doc)
    requires id !in s.clients
    ensures ClientsOf(Joined(s, id, d), e) == if e == d then ClientsOf(s, e) + {id} else ClientsOf(s, e)
    ensures id !in ClientsOf(s, e)
  {
    hide Key;
    var t := Joined(s, id, d);
    forall i
      ensures i in ClientsOf(t, e) <==> i in ClientsOf(s, e) || (e == d && i == id)
    {
    }
  }

  lemma JoinedRoom(s: System, id: nat, d: Doc, e: Doc)
    requires Segment(d) && Segment(e) && RoomSound(s, d) && RoomSound(s, e) && id !in s.clients
    ensures RoomSound(Joined(s, id, d), e)
  {
    hide Concat, Key, ClientsOf;
    JoinedClients(s, id, d, e);
    if e == d {
      NothingSent();
    } else {
      OtherRoom(s, Joined(s, id, d), d, e);
    }
  }

  lemma JoinedClient(s: System, id: nat, d: Doc, i: nat)
    requires Segment(d) && RoomSound(s, d) && id !in s.clients && i in Joined(s, id, d).clients
    requires i != id ==> ClientSound(s, i)
    ensures ClientSound(Joined(s, id, d), i)
  {
    hide Concat, Key;
    NothingSent();
    if i == id {
      var room := Opened(s.rooms, s.tags, d);
      assert room.sent[..|room.sent|] == room.sent;
    } else if s.clients[i].doc != d {
      OtherClient(s, Joined(s, id, d), d, i);
    }
  }

  lemma {:induction false} JoinSound(s: System, id: nat, d: Doc)
    requires Sound(s) && id !in s.clients && Segment(d)
    ensures Sound(Joined(s, id, d))
  {
    hide RoomSound, ClientSound;
    forall e | Segment(e)
      ensures RoomSound(Joined(s, id, d), e)
    {
      JoinedRoom(s, id, d, e);
    }
    forall i | i in Joined(s, id, d).clients
      ensures ClientSound(Joined(s, id, d), i)
    {
      JoinedClient(s, id, d, i);
    }
  }

  lemma NothingSent()
    ensures Concat([]) == []
  {
  }

  function Updated(s: System, d: Doc, data: bytes): System {
    s.(rooms := UpdateRooms(s.rooms, d, data))
  }

  lemma UpdatedRoom(s: System, d: Doc, data: bytes, e: Doc)
    requires Segment(d) && Segment(e) && RoomSound(s, e) && Key(d) in s.rooms
    ensures RoomSound(Updated(s, d, data), e)
  {
    hide Concat, Key;
    var t := Updated(s, d, data);
    assert ClientsOf(t, e) == ClientsOf(s, e);
    if e == d {
      ConcatOne(s.rooms[Key(d)].sent, data);
    } else {
      OtherRoom(s, t, d, e);
    }
  }

  lemma UpdatedClient(s: System, d: Doc, data: bytes, i: nat)
    requires Segment(d) && i in s.clients && ClientSound(s, i) && Key(d) in s.rooms
    ensures ClientSound(Updated(s, d, data), i)
  {
    hide Concat, Key;
    var c := s.clients[i];
    if c.doc == d {
      LongerLog(s.rooms[Key(d)].sent, data, c.joinedAt, c.joinedAt + |c.received|);
    } else {
      OtherClient(s, Updated(s, d, data), d, i);
    }
  }

  lemma {:induction false} UpdateSound(s: System, d: Doc, data: bytes)
    requires Sound(s) && Segment(d) && Key(d) in s.rooms
    ensures Sound(Updated(s, d, data))
  {
    hide RoomSound, ClientSound, Key;
    forall e | Segment(e)
      ensures RoomSound(Updated(s, d, data), e)
    {
      UpdatedRoom(s, d, data, e);
    }
    forall i | i in s.clients
      ensures ClientSound(Updated(s, d, data), i)
    {
      UpdatedClient(s, d, data, i);
    }
  }

  lemma LongerLog(sent: seq<bytes>, data: bytes, a: nat, b: nat)
    requires a <= b <= |sent|
    ensures (sent + [data])[a..b] == sent[a..b] && (sent + [data])[..a] == sent[..a]
  {
  }

  lemma LeftClients(s: System, id: nat, e: Doc)
    requires id in s.clients
    ensures ClientsOf(Left(s, id), e) == ClientsOf(s, e) - {id}
    ensures id in ClientsOf(s, e) <==> s.clients[id].doc == e
  {
    hide LeaveRooms, LeaveTags;
  }

  lemma LeftRoom(s: System, id: nat, e: Doc)
    requires id in s.clients && ClientSound(s, id) && RoomSound(s, s.clients[id].doc) && Segment(e) && RoomSound(s, e)
    ensures RoomSound(Left(s, id), e)
  {
    hide Concat, Key, ClientsOf;
    var t, d := Left(s, id), s.clients[id].doc;
    LeftClients(s, id, e);
    if e == d {
      OneLess(ClientsOf(s, e), id);
    } else {
      assert ClientsOf(t, e) == ClientsOf(s, e);
      OtherRoom(s, t, d, e);
    }
  }

  lemma OneLess(s: set<nat>, id: nat)
    requires id in s
    ensures |s - {id}| == |s| - 1 && (s - {id} == {} <==> |s| <= 1)
  {
  }

  lemma LeftClient(s: System, id: nat, i: nat)
    requires id in s.clients && ClientSound(s, id) && RoomSound(s, s.clients[id].doc)
    requires i in s.clients && i != id && ClientSound(s, i)
    ensures ClientSound(Left(s, id), i)
  {
    hide Concat, Key;
    var d := s.clients[id].doc;
    if s.clients[i].doc == d {
      assert {id, i} <= ClientsOf(s, d);
      AtLeastTwo(ClientsOf(s, d), id, i);
    } else {
      OtherClient(s, Left(s, id), d, i);
    }
  }

  lemma AtLeastTwo(s: set<nat>, a: nat, b: nat)
    requires a in s && b in s && a != b
    ensures |s| >= 2
  {
    assert |s - {a} - {b}| == |s| - 2;
  }

  lemma {:induction false} LeaveSound(s: System, id: nat)
    requires Sound(s) && id in s.clients
    ensures Sound(Left(s, id))
  {
    hide RoomSound, LeaveRooms, LeaveTags;
    assert ClientSound(s, id);
    forall e | Segment(e)
      ensures RoomSound(Left(s, id), e)
    {
      LeftRoom(s, id, e);
    }
    forall i | i in Left(s, id).clients
      ensures ClientSound(Left(s, id), i)
    {
      LeftClient(s, id, i);
    }
  }

  lemma {:induction false} ReceiveSound(s: System, id: nat)
    requires Sound(s) && id in s.clients
    ensures Sound(Received(s, id))
  {
    hide Concat, Key, Left, RoomSound, Load;
    assert ClientSound(s, id);
    var c := s.clients[id];
    var sent, next := s.rooms[Key(c.doc)].sent, c.joinedAt + |c.received|;
    if next < |sent| && |sent| - next > CHANNEL_CAPACITY {
      LeaveSound(s, id);
    } else if next < |sent| {
      var t := s.(clients := s.clients[id := c.(received := c.received + [sent[next]])]);
      forall e | Segment(e)
        ensures RoomSound(t, e)
      {
        SameClients(s, t, id, e);
      }
      forall i | i in t.clients
        ensures ClientSound(t, i)
      {
        ReceivedClient(s, id, i, sent[next]);
      }
    }
  }

  lemma ReceivedClient(s: System, id: nat, i: nat, data: bytes)
    requires id in s.clients && i in s.clients && ClientSound(s, id) && ClientSound(s, i)
    requires var c := s.clients[id];
      var sent, next := s.rooms[Key(c.doc)].sent, c.joinedAt + |c.received|;
      next < |sent| && sent[next] == data
    ensures var c := s.clients[id];
      ClientSound(s.(clients := s.clients[id := c.(received := c.received + [data])]), i)
  {
    hide Concat, Key, Load;
    var c := s.clients[id];
    var sent, next := s.rooms[Key(c.doc)].sent, c.joinedAt + |c.received|;
    assert sent[c.joinedAt..next + 1] == sent[c.joinedAt..next] + [sent[next]];
  }

  lemma SameClients(s: System, t: System, id: nat, e: Doc)
    requires RoomSound(s, e) && id in s.clients && t.rooms == s.rooms && t.tags == s.tags
    requires t.clients.Keys == s.clients.Keys && forall i :: i in s.clients ==> t.clients[i].doc == s.clients[i].doc
    ensures RoomSound(t, e)
  {
    assert ClientsOf(t, e) == ClientsOf(s, e);
  }

  /** Every step keeps the invariant. */
  lemma {:induction false} NextSound(s: System, step: Step)
    requires Sound(s)
    ensures Sound(Next(s, step))
  {
    hide Concat, Key, Joined, Left, Received, Updated, RoomSound;
    match step {
      case Join(id, d) =>
        if id !in s.clients && Segment(d) {
          JoinSound(s, id, d);
        }
      case Update(id, data) =>
        if id in s.clients {
          assert ClientSound(s, id);
          UpdateSound(s, s.clients[id].doc, data);
        }
      case Receive(id) =>
        if id in s.clients {
          ReceiveSound(s, id);
        }
      case Leave(id) =>
        if id in s.clients {
          LeaveSound(s, id);
        }
    }
  }

  /** Before anyone joins, whatever has been persisted. */
  lemma InitiallySound(tags: map<Doc, bytes>)
    ensures Sound(System(map[], tags, map[]))
  {
    var s := System(map[], tags, map[]);
    forall d | Segment(d)
      ensures RoomSound(s, d)
    {
      assert ClientsOf(s, d) == {};
    }
  }

  // ---- Contents over whole runs ----

  lemma LeaveContent(s: System, id: nat, d: Doc)
    requires Sound(s) && id in s.clients && Segment(d)
    ensures Content(Left(s, id), d) == Content(s, d)
  {
    hide Concat, Key;
    var e := s.clients[id].doc;
    assert ClientSound(s, id) && RoomSound(s, e);
    assert id in ClientsOf(s, e);
    if d != e {
      DifferentKeys(d, e);
    }
  }

  lemma UpdateContent(s: System, e: Doc, data: bytes, d: Doc)
    requires Segment(d) && Segment(e) && Key(e) in s.rooms
    ensures Content(Updated(s, e, data), d) == Content(s, d) + Concat(if e == d then [data] else [])
  {
    hide Concat, Key;
    NothingSent();
    ConcatOne([], data);
    assert [] + [data] == [data];
    if d != e {
      DifferentKeys(d, e);
    }
  }

  lemma NextContent(s: System, step: Step, d: Doc)
    requires Sound(s) && Segment(d)
    ensures Content(Next(s, step), d) == Content(s, d) + Concat(StepLog(s, step, d))
  {
    hide Concat, Key, Left, Updated, RoomSound;
    NothingSent();
    match step {
      case Join(id, e) =>
        if Segment(e) && d != e {
          DifferentKeys(d, e);
        }
      case Update(id, data) =>
        if id in s.clients {
          assert ClientSound(s, id);
          UpdateContent(s, s.clients[id].doc, data, d);
        }
      case Receive(id) =>
        if id in s.clients {
          LeaveContent(s, id, d);
        }
      case Leave(id) =>
        if id in s.clients {
          LeaveContent(s, id, d);
        }
    }
  }

  /** After any interleaving, a document is what it was followed by every update made to it, in order. */
  lemma {:induction false} RunHistory(s: System, steps: seq<Step>, d: Doc)
    requires Sound(s) && Segment(d)
    ensures Sound(Run(s, steps))
    ensures Content(Run(s, steps), d) == Content(s, d) + Concat(Log(s, steps, d))
    decreases |steps|
  {
    hide Concat, Content, Next, StepLog, Sound;
    if steps == [] {
      NothingSent();
    } else {
      NextSound(s, steps[0]);
      NextContent(s, steps[0], d);
      RunHistory(Next(s, steps[0]), steps[1..], d);
      ConcatSplit(StepLog(s, steps[0], d), Log(Next(s, steps[0]), steps[1..], d));
    }
  }

  /** When nobody is in a document's room, all of its history is persisted. */
  lemma TornDownIsPersisted(tags: map<Doc, bytes>, steps: seq<Step>, d: Doc)
    requires Segment(d) && ClientsOf(Run(System(map[], tags, map[]), steps), d) == {}
    ensures Load(Run(System(map[], tags, map[]), steps).tags, d)
         == Load(tags, d) + Concat(Log(System(map[], tags, map[]), steps, d))
  {
    hide Concat, Run, Log;
    InitiallySound(tags);
    RunHistory(System(map[], tags, map[]), steps, d);
    assert RoomSound(Run(System(map[], tags, map[]), steps), d);
  }

  /** What a client was sent is a prefix of the document: updates of its room from the start, without gap or
      repetition. */
  lemma ClientSeesPrefix(s: System, id: nat)
    requires Sound(s) && id in s.clients
    ensures var c := s.clients[id];
      && Key(c.doc) in s.rooms
      && c.joinedAt + |c.received| <= |s.rooms[Key(c.doc)].sent|
      && c.initial + Concat(c.received)
         == Load(s.tags, c.doc) + Concat(s.rooms[Key(c.doc)].sent[..c.joinedAt + |c.received|])
      && c.initial + Concat(c.received) <= Content(s, c.doc)
  {
    hide Concat, Key;
    assert ClientSound(s, id);
    var c := s.clients[id];
    var sent, a, b := s.rooms[Key(c.doc)].sent, c.joinedAt, c.joinedAt + |c.received|;
    assert RoomSound(s, c.doc);
    ConcatSplit(sent[..a], sent[a..b]);
    assert sent[..a] + sent[a..b] == sent[..b];
    ConcatSplit(sent[..b], sent[b..]);
    assert sent[..b] + sent[b..] == sent;
  }

  // ---- Catching up ----

  /** How many broadcasts a client has not received yet. */
  function Behind(s: System, id: nat): int
    requires id in s.clients
  {
    var c := s.clients[id];
    if Key(c.doc) in s.rooms then |s.rooms[Key(c.doc)].sent| - (c.joinedAt + |c.received|) else 0
  }

  function Receives(id: nat, n: nat): seq<Step> {
    if n == 0 then [] else [Receive(id)] + Receives(id, n - 1)
  }

  /** One receive brings a client one update closer, and changes nothing else; one more than 256 behind is dropped. */
  lemma ReceiveCloser(s: System, id: nat)
    requires Sound(s) && id in s.clients && Behind(s, id) > 0
    ensures
      var t := Next(s, Receive(id));
      if Behind(s, id) <= 256 then
        t.rooms == s.rooms && t.tags == s.tags && id in t.clients && Behind(t, id) == Behind(s, id) - 1
        && t.clients[id].doc == s.clients[id].doc
      else id !in t.clients
  {
    hide Concat, Key;
    assert ClientSound(s, id);
  }

  /** A client that is at most 256 updates behind and keeps receiving ends with the whole document. */
  lemma {:induction false} CatchesUp(s: System, id: nat, n: nat)
    requires Sound(s) && id in s.clients && Behind(s, id) == n <= 256
    ensures
      var t := Run(s, Receives(id, n));
      && Sound(t) && id in t.clients && t.rooms == s.rooms && t.tags == s.tags && t.clients[id].doc == s.clients[id].doc
      && t.clients[id].initial + Concat(t.clients[id].received) == Content(s, s.clients[id].doc)
    decreases n
  {
    hide Concat, Key, Sound, Next;
    if n > 0 {
      ReceiveCloser(s, id);
      NextSound(s, Receive(id));
      assert Receives(id, n)[1..] == Receives(id, n - 1);
      CatchesUp(Next(s, Receive(id)), id, n - 1);
    } else {
      UpToDate(s, id);
    }
  }

  lemma UpToDate(s: System, id: nat)
    requires Sound(s) && id in s.clients && Behind(s, id) == 0
    ensures s.clients[id].initial + Concat(s.clients[id].received) == Content(s, s.clients[id].doc)
  {
    hide Concat, Key;
    assert ClientSound(s, id);
    ClientSeesPrefix(s, id);
    var c := s.clients[id];
    var sent := s.rooms[Key(c.doc)].sent;
    assert RoomSound(s, c.doc);
    assert sent[..c.joinedAt + |c.received|] == sent;
  }

  /** A client joins with the whole document so far. */
  lemma JoinsUpToDate(s: System, id: nat, d: Doc)
    requires Sound(s) && id !in s.clients && Segment(d)
    ensures
      var t := Next(s, Join(id, d));
      && id in t.clients && t.clients[id].doc == d && t.clients[id].initial == Content(s, d)
      && t.clients[id].received == [] && Behind(t, id) == 0
  {
    hide Concat, Key;
  }

  lemma DifferentKeys(d: Doc, e: Doc)
    requires Segment(d) && Segment(e) && d != e
    ensures Key(d) != Key(e)
  {
    if Key(d) == Key(e) {
      KeyInjective(d, e);
    }
  }
}
