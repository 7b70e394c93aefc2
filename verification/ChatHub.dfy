/** The chat example (examples/chat: hub.go, client.go) as a step system: the hub, and two pumps for every client, which
    talk over channels and interleave at every step. */
module ChatHub {
  import opened Masking

  type Text = seq<byte>
  type Id = nat

  const NEWLINE: byte := 0x0a
  const SPACE: byte := 0x20

  /** The capacity of a send channel. */
  const CAPACITY := 256

  predicate HasRoom(queue: seq<Text>) {
    |queue| < CAPACITY
  }

  // Texts

  predicate NoNewline(m: Text) {
    NEWLINE !in m
  }

  /** bytes.Replace of newlines with spaces. */
  function Flattened(m: Text): (r: Text)
    ensures |r| == |m| && NoNewline(r)
  {
    seq(|m|, i requires 0 <= i < |m| => if m[i] == NEWLINE then SPACE else m[i])
  }

  /** It keeps every byte but the newlines, and has a space exactly where one of those was. */
  lemma FlattenedKeeps(m: Text, i: nat)
    requires i < |m|
    ensures Flattened(m)[i] == if m[i] == 0x0a then 0x20 else m[i]
  {}

  /** The parts with newlines between them, as writePump writes them. */
  function Join(parts: seq<Text>): Text
    requires parts != []
  {
    if |parts| == 1 then parts[0] else Join(parts[..|parts| - 1]) + [NEWLINE] + parts[|parts| - 1]
  }

  /** The split of a text from its first byte and the split of the others. */
  function AddFirst(b: byte, r: seq<Text>): seq<Text>
    requires r != []
  {
    if b == NEWLINE then [[]] + r else [[b] + r[0]] + r[1..]
  }

  function Split(m: Text): (r: seq<Text>)
    ensures r != []
  {
    if m == [] then [[]]
    else
      AddFirst(m[0], Split(m[1..]))
  }

  function Concat(groups: seq<seq<Text>>): seq<Text> {
    if groups == [] then [] else Concat(groups[..|groups| - 1]) + groups[|groups| - 1]
  }

  /** What a peer gets that splits every message it receives. */
  function SplitAll(frames: seq<Text>): seq<Text> {
    if frames == [] then [] else SplitAll(frames[..|frames| - 1]) + Split(frames[|frames| - 1])
  }

  lemma SplitCons(b: byte, r: seq<Text>, more: seq<Text>)
    requires r != []
    ensures AddFirst(b, r + more) == AddFirst(b, r) + more
  {
    if b == NEWLINE {
      assert [[]] + (r + more) == [[]] + r + more;
    } else {
      var first := [[b] + r[0]];
      assert (r + more)[0] == r[0] && (r + more)[1..] == r[1..] + more;
      assert first + (r[1..] + more) == first + r[1..] + more;
    }
  }

  lemma {:induction false} SplitConcat(a: Text, b: Text)
    ensures Split(a + [NEWLINE] + b) == Split(a) + Split(b)
  {
    var whole := a + [NEWLINE] + b;
    if a == [] {
      assert whole[1..] == b;
    } else {
      SplitConcat(a[1..], b);
      assert whole[0] == a[0] && whole[1..] == a[1..] + [NEWLINE] + b;
      SplitCons(a[0], Split(a[1..]), Split(b));
    }
  }

  lemma {:induction false} SplitOne(m: Text)
    requires NoNewline(m)
    ensures Split(m) == [m]
  {
    if m != [] {
      SplitOne(m[1..]);
      assert m == [m[0]] + m[1..];
    }
  }

  lemma {:induction false} SplitJoin(parts: seq<Text>)
    requires parts != [] && forall m :: m in parts ==> NoNewline(m)
    ensures Split(Join(parts)) == parts
  {
    var last := parts[|parts| - 1];
    SplitOne(last);
    if |parts| > 1 {
      SplitJoin(parts[..|parts| - 1]);
      SplitConcat(Join(parts[..|parts| - 1]), last);
    }
  }

  // State

  datatype Reader =
    | Reading
    | Offering(message: Text)
    | Leaving
    | Gone

  /** Where writePump is: it waits in its select; it has taken a first message, and then knows how many others it will
      add; it has stopped, after the end of its channel or after a failure. */
  datatype Writer =
    | Waiting
    | Started(parts: seq<Text>, frame: Text)
    | Adding(parts: seq<Text>, frame: Text, n: nat)
    | Finished
    | Broken

  /** A client with its send channel: the queue, and how often the channel was closed. History: where the log of
      broadcasts was when it was registered and when it was removed; the messages that its writer has taken; the
      messages it has sent, and of which parts it has made each. */
  datatype Client = Client(
    queue: seq<Text>, closes: nat, reader: Reader, writer: Writer,
    joined: nat, removed: int, taken: seq<Text>, frames: seq<Text>, groups: seq<seq<Text>>)

  datatype HubPc =
    | Selecting
    | Broadcasting(message: Text, left: set<Id>)

  datatype State = State(hub: HubPc, clients: set<Id>, peers: map<Id, Client>, log: seq<Text>, panicked: bool)

  datatype Action =
    | Register(id: Id)
    | Receive(id: Id, message: Text, from: nat, to: nat)
    | Disconnect(id: Id)
    | Unregister(id: Id)
    | Broadcast(id: Id)
    | Offer(id: Id)
    | EndBroadcast
    | TakeFirst(id: Id)
    | CountQueued(id: Id)
    | TakeNext(id: Id)
    | SendFrame(id: Id)
    | SeeClosed(id: Id)
    | Break(id: Id)

  const INIT := State(Selecting, {}, map[], [], false)

  const NEW := Client([], 0, Reading, Waiting, 0, 0, [], [], [])

  // Steps

  /** A pump may take its step; receiving from a channel waits while it is open and empty. */
  predicate PumpReady(c: Client, a: Action) {
    match a
    case Receive(_, message, from, to) => c.reader.Reading? && from <= to <= |message|
    case Disconnect(_) => c.reader.Reading?
    case TakeFirst(_) => c.writer.Waiting? && c.queue != []
    case CountQueued(_) => c.writer.Started?
    case TakeNext(_) => c.writer.Adding? && c.writer.n > 0 && (c.queue != [] || c.closes > 0)
    case SendFrame(_) => c.writer.Adding? && c.writer.n == 0
    case SeeClosed(_) => c.writer.Waiting? && c.queue == [] && c.closes > 0
    case Break(_) => c.writer.Waiting? || c.writer.Started? || c.writer.Adding?
    case _ => false
  }

  /** The step may be taken. A client registers once: it is a new one for each connection. The hub takes the requests
      to register, unregister and broadcast in its select. */
  predicate Enabled(s: State, a: Action) {
    !s.panicked &&
    if a.Register? then s.hub.Selecting? && a.id !in s.peers
    else if a.EndBroadcast? then s.hub.Broadcasting? && s.hub.left == {}
    else
      a.id in s.peers &&
      var c := s.peers[a.id];
      if a.Unregister? then s.hub.Selecting? && c.reader.Leaving?
      else if a.Broadcast? then s.hub.Selecting? && c.reader.Offering?
      else if a.Offer? then s.hub.Broadcasting? && a.id in s.hub.left
      else PumpReady(c, a)
  }

  /** Close the send channel of a client and remove it; closing a closed channel panics. */
  function Remove(s: State, id: Id): State
    requires id in s.peers
  {
    var c := s.peers[id];
    s.(panicked := s.panicked || c.closes > 0, clients := s.clients - {id},
       peers := s.peers[id := c.(closes := c.closes + 1, removed := |s.log|)])
  }

  /** One round of the hub's loop over its clients: sending on a closed channel panics, and a client whose channel is
      full is removed without this message. */
  function OfferTo(s: State, id: Id): State
    requires id in s.peers && s.hub.Broadcasting?
  {
    var c := s.peers[id];
    var t := s.(hub := s.hub.(left := s.hub.left - {id}));
    if c.closes > 0 then t.(panicked := true)
    else if HasRoom(c.queue) then t.(peers := s.peers[id := c.(queue := c.queue + [s.hub.message])])
    else
      var u := Remove(t, id);
      u.(peers := u.peers[id := u.peers[id].(removed := |s.log| - 1)])
  }

  /** What a step of a pump does to its client. The text that TrimSpace leaves is a part of the message. */
  function PumpStep(c: Client, a: Action): Client
    requires PumpReady(c, a)
  {
    if a.Receive? then c.(reader := Offering(Flattened(a.message)[a.from..a.to]))
    else if a.Disconnect? then c.(reader := Leaving)
    else if a.TakeFirst? then
      c.(queue := c.queue[1..], taken := c.taken + [c.queue[0]], writer := Started([c.queue[0]], c.queue[0]))
    else if a.CountQueued? then c.(writer := Adding(c.writer.parts, c.writer.frame, |c.queue|))
    else if a.TakeNext? then
      // The receive from a closed and empty channel gives nil.
      var m := if c.queue != [] then c.queue[0] else [];
      c.(queue := if c.queue != [] then c.queue[1..] else [], taken := c.taken + [m],
         writer := Adding(c.writer.parts + [m], c.writer.frame + [NEWLINE] + m, c.writer.n - 1))
    else if a.SendFrame? then
      c.(frames := c.frames + [c.writer.frame], groups := c.groups + [c.writer.parts], writer := Waiting)
    else if a.SeeClosed? then c.(writer := Finished)
    else c.(writer := Broken)
  }

  predicate IsPumpStep(a: Action) {
    a.Receive? || a.Disconnect? || a.TakeFirst? || a.CountQueued? || a.TakeNext?
    || a.SendFrame? || a.SeeClosed? || a.Break?
  }

  function Do(s: State, a: Action): State
    requires Enabled(s, a)
  {
    if a.Register? then
      s.(clients := s.clients + {a.id}, peers := s.peers[a.id := NEW.(joined := |s.log|)])
    else if a.Unregister? then
      var t := s.(peers := s.peers[a.id := s.peers[a.id].(reader := Gone)]);
      if a.id in s.clients then Remove(t, a.id) else t
    else if a.Broadcast? then
      var m := s.peers[a.id].reader.message;
      s.(hub := Broadcasting(m, s.clients), log := s.log + [m],
         peers := s.peers[a.id := s.peers[a.id].(reader := Reading)])
    else if a.Offer? then OfferTo(s, a.id)
    else if a.EndBroadcast? then s.(hub := Selecting)
    else s.(peers := s.peers[a.id := PumpStep(s.peers[a.id], a)])
  }

  ghost predicate Run(states: seq<State>, moves: seq<Action>) {
    && |states| == |moves| + 1 && states[0] == INIT
    && forall i :: 0 <= i < |moves| ==>
         Enabled(states[i], moves[i]) && states[i + 1] == Do(states[i], moves[i])
  }

  // Invariants

  /** The end of the part of the log that has been offered to a client. */
  function Until(s: State, id: Id): int
    requires id in s.peers
  {
    if id !in s.clients then s.peers[id].removed
    else if s.hub.Broadcasting? && id in s.hub.left then |s.log| - 1
    else |s.log|
  }

  /** What was broadcast for a client: from its registration until now, or until its removal. */
  function BroadcastTo(s: State, id: Id): seq<Text>
    requires id in s.peers && s.peers[id].joined <= Until(s, id) <= |s.log|
  {
    s.log[s.peers[id].joined..Until(s, id)]
  }

  function Pending(w: Writer): seq<Text> {
    if w.Started? || w.Adding? then w.parts else []
  }

  ghost predicate ChannelInv(s: State, id: Id)
    requires id in s.peers
  {
    var c := s.peers[id];
    && c.closes == (if id in s.clients then 0 else 1)
    && c.joined <= Until(s, id) <= |s.log|
    && |c.queue| <= CAPACITY
    && c.taken + c.queue == BroadcastTo(s, id)
    && (c.reader.Offering? ==> NoNewline(c.reader.message))
  }

  ghost predicate WriterInv(c: Client) {
    && (if c.writer.Broken? then Concat(c.groups) <= c.taken else Concat(c.groups) + Pending(c.writer) == c.taken)
    && (Pending(c.writer) != [] ==> c.writer.frame == Join(c.writer.parts))
    && (c.writer.Started? || c.writer.Adding? ==> c.writer.parts != [])
    && (c.writer.Adding? ==> c.writer.n <= |c.queue|)
    && (c.writer.Finished? ==> c.queue == [] && c.closes > 0)
    && |c.frames| == |c.groups|
    && forall i :: 0 <= i < |c.groups| ==> c.groups[i] != [] && c.frames[i] == Join(c.groups[i])
  }

  ghost predicate HubInv(s: State) {
    && !s.panicked
    && (forall id :: id in s.clients ==> id in s.peers)
    && (s.hub.Broadcasting? ==> s.log != [] && s.log[|s.log| - 1] == s.hub.message && s.hub.left <= s.clients)
    && forall i :: 0 <= i < |s.log| ==> NoNewline(s.log[i])
  }

  ghost predicate Inv(s: State) {
    HubInv(s) && forall id :: id in s.peers ==> ChannelInv(s, id) && WriterInv(s.peers[id])
  }

  // Steps keep the invariant

  lemma TakeNextKeepsWriter(c: Client, a: Action)
    requires WriterInv(c) && a.TakeNext? && PumpReady(c, a)
    ensures WriterInv(PumpStep(c, a))
  {
    assert (c.writer.parts + [c.queue[0]])[..|c.writer.parts|] == c.writer.parts;
  }

  lemma SendFrameKeepsWriter(c: Client, a: Action)
    requires WriterInv(c) && a.SendFrame? && PumpReady(c, a)
    ensures WriterInv(PumpStep(c, a))
  {
    assert (c.groups + [c.writer.parts])[..|c.groups|] == c.groups;
  }

  lemma PumpKeepsWriter(c: Client, a: Action)
    requires WriterInv(c) && PumpReady(c, a)
    ensures WriterInv(PumpStep(c, a))
  {
    if a.TakeNext? {
      TakeNextKeepsWriter(c, a);
    } else if a.SendFrame? {
      SendFrameKeepsWriter(c, a);
    }
  }

  /** A pump moves texts from the queue to those taken, and does not close the channel. */
  lemma PumpMoves(c: Client, a: Action)
    requires WriterInv(c) && PumpReady(c, a)
    ensures var d := PumpStep(c, a);
            && d.taken + d.queue == c.taken + c.queue && |d.queue| <= |c.queue|
            && d.closes == c.closes && d.joined == c.joined && d.removed == c.removed
            && (d.reader.Offering? ==> d.reader == c.reader || NoNewline(d.reader.message))
  {
    if a.TakeFirst? || a.TakeNext? {
      assert c.taken + [c.queue[0]] + c.queue[1..] == c.taken + c.queue;
    }
  }

  lemma PumpKeepsChannel(s: State, a: Action)
    requires IsPumpStep(a) && Enabled(s, a) && ChannelInv(s, a.id) && WriterInv(s.peers[a.id])
    ensures ChannelInv(Do(s, a), a.id)
  {
    hide PumpStep, PumpReady, WriterInv;
    PumpMoves(s.peers[a.id], a);
    assert BroadcastTo(Do(s, a), a.id) == BroadcastTo(s, a.id);
  }

  lemma PumpKeepsOther(s: State, a: Action, id: Id)
    requires IsPumpStep(a) && Enabled(s, a) && id in s.peers && id != a.id && ChannelInv(s, id)
    ensures ChannelInv(Do(s, a), id)
  {
    hide PumpStep;
    assert BroadcastTo(Do(s, a), id) == BroadcastTo(s, id);
  }

  lemma PumpKeepsInv(s: State, a: Action)
    requires Inv(s) && IsPumpStep(a) && Enabled(s, a)
    ensures Inv(Do(s, a))
  {
    hide PumpStep, WriterInv, ChannelInv;
    var t := Do(s, a);
    PumpKeepsChannel(s, a);
    PumpKeepsWriter(s.peers[a.id], a);
    forall id | id in t.peers
      ensures ChannelInv(t, id) && WriterInv(t.peers[id])
    {
      if id != a.id {
        PumpKeepsOther(s, a, id);
      }
    }
  }

  /** A step of the hub with another client does not change what has been offered to this one. */
  lemma OthersKept(s: State, a: Action, id: Id)
    requires HubInv(s) && !IsPumpStep(a) && Enabled(s, a) && id in s.peers && (a.EndBroadcast? || a.id != id)
    requires ChannelInv(s, id)
    ensures var t := Do(s, a); id in t.peers && t.peers[id] == s.peers[id] && ChannelInv(t, id)
  {
    var t := Do(s, a);
    assert Until(t, id) == Until(s, id);
    assert t.log[..|s.log|] == s.log;
    assert BroadcastTo(t, id) == BroadcastTo(s, id);
  }

  lemma UnregisterKeeps(s: State, a: Action)
    requires HubInv(s) && a.Unregister? && Enabled(s, a) && ChannelInv(s, a.id) && WriterInv(s.peers[a.id])
    ensures ChannelInv(Do(s, a), a.id) && WriterInv(Do(s, a).peers[a.id])
  {
    assert BroadcastTo(Do(s, a), a.id) == BroadcastTo(s, a.id);
  }

  lemma BroadcastKeeps(s: State, a: Action)
    requires HubInv(s) && a.Broadcast? && Enabled(s, a) && ChannelInv(s, a.id) && WriterInv(s.peers[a.id])
    ensures ChannelInv(Do(s, a), a.id) && WriterInv(Do(s, a).peers[a.id])
  {
    assert BroadcastTo(Do(s, a), a.id) == BroadcastTo(s, a.id);
  }

  lemma OfferKeeps(s: State, a: Action)
    requires HubInv(s) && a.Offer? && Enabled(s, a) && ChannelInv(s, a.id) && WriterInv(s.peers[a.id])
    ensures ChannelInv(Do(s, a), a.id) && WriterInv(Do(s, a).peers[a.id])
  {
    var t, c := Do(s, a), s.peers[a.id];
    if |c.queue| < CAPACITY {
      assert s.log[c.joined..] == s.log[c.joined..|s.log| - 1] + [s.hub.message];
      assert BroadcastTo(t, a.id) == s.log[c.joined..];
    } else {
      assert BroadcastTo(t, a.id) == BroadcastTo(s, a.id);
    }
  }

  lemma HubStateKept(s: State, a: Action)
    requires Inv(s) && !IsPumpStep(a) && Enabled(s, a)
    ensures HubInv(Do(s, a))
  {
    if !a.Register? && !a.EndBroadcast? {
      assert ChannelInv(s, a.id);
    }
  }

  lemma HubKeepsInv(s: State, a: Action)
    requires Inv(s) && !IsPumpStep(a) && Enabled(s, a)
    ensures Inv(Do(s, a))
  {
    hide WriterInv;
    var t := Do(s, a);
    HubStateKept(s, a);
    forall id | id in t.peers
      ensures ChannelInv(t, id) && WriterInv(t.peers[id])
    {
      assert id in s.peers ==> ChannelInv(s, id) && WriterInv(s.peers[id]);
      HubKeepsClient(s, a, id);
    }
  }

  lemma HubKeepsClient(s: State, a: Action, id: Id)
    requires HubInv(s) && !IsPumpStep(a) && Enabled(s, a) && id in Do(s, a).peers
    requires id in s.peers ==> ChannelInv(s, id) && WriterInv(s.peers[id])
    ensures ChannelInv(Do(s, a), id) && WriterInv(Do(s, a).peers[id])
  {
    if a.EndBroadcast? || a.id != id {
      OthersKept(s, a, id);
    } else if a.Unregister? {
      UnregisterKeeps(s, a);
    } else if a.Broadcast? {
      BroadcastKeeps(s, a);
    } else if a.Offer? {
      OfferKeeps(s, a);
    } else {
      assert BroadcastTo(Do(s, a), id) == [];
    }
  }

  lemma {:induction false} RunInv(states: seq<State>, moves: seq<Action>, i: nat)
    requires Run(states, moves) && i < |states|
    ensures Inv(states[i])
  {
    if i > 0 {
      RunInv(states, moves, i - 1);
      var s, a := states[i - 1], moves[i - 1];
      if IsPumpStep(a) {
        PumpKeepsInv(s, a);
      } else {
        HubKeepsInv(s, a);
      }
    }
  }

  // Main results, over all runs

  lemma {:induction false} SplitGroups(frames: seq<Text>, groups: seq<seq<Text>>)
    requires |frames| == |groups|
    requires forall i :: 0 <= i < |groups| ==> groups[i] != [] && frames[i] == Join(groups[i])
    requires forall i :: 0 <= i < |groups| ==> forall m :: m in groups[i] ==> NoNewline(m)
    ensures SplitAll(frames) == Concat(groups)
  {
    if groups != [] {
      var last := |groups| - 1;
      SplitJoin(groups[last]);
      SplitGroups(frames[..last], groups[..last]);
    }
  }

  lemma {:induction false} GroupsFromConcat(groups: seq<seq<Text>>, i: nat, m: Text)
    requires i < |groups| && m in groups[i]
    ensures m in Concat(groups)
  {
    if i < |groups| - 1 {
      GroupsFromConcat(groups[..|groups| - 1], i, m);
    }
  }

  lemma OneStepRemoves(s: State, a: Action, id: Id)
    requires Inv(s) && Enabled(s, a) && id in s.clients && id !in Do(s, a).clients
    ensures id in s.peers && (a == Unregister(id) || (a == Offer(id) && |s.peers[id].queue| == 256))
  {
    hide WriterInv;
    assert ChannelInv(s, id);
  }

  /** In every run a client that was registered and is no more has been removed at one moment: it was leaving, or a
      broadcast found its channel full. */
  lemma {:induction false} OnlySlowAreDropped(states: seq<State>, moves: seq<Action>, i: nat, j: nat, id: Id)
    returns (k: nat)
    requires Run(states, moves) && i <= j < |states| && id in states[i].clients && id !in states[j].clients
    ensures i <= k < j && id in states[k].clients && id in states[k].peers
    ensures moves[k] == Unregister(id) || (moves[k] == Offer(id) && |states[k].peers[id].queue| == 256)
    decreases j
  {
    hide Do, Inv, Enabled;
    RunInv(states, moves, j - 1);
    if id in states[j - 1].clients {
      k := j - 1;
      OneStepRemoves(states[k], moves[k], id);
    } else {
      k := OnlySlowAreDropped(states, moves, i, j - 1, id);
    }
  }

  /** A removed client never comes back, and what was broadcast for it does not grow any more. */
  lemma {:induction false} RemovedForGood(states: seq<State>, moves: seq<Action>, i: nat, j: nat, id: Id)
    requires Run(states, moves) && i <= j < |states| && id in states[i].peers && id !in states[i].clients
    ensures id in states[j].peers && id !in states[j].clients
    ensures states[j].peers[id].removed == states[i].peers[id].removed
    ensures states[j].peers[id].joined == states[i].peers[id].joined && states[i].log <= states[j].log
    decreases j
  {
    hide Do, Enabled, ChannelInv, WriterInv;
    if i < j {
      RemovedForGood(states, moves, i, j - 1, id);
      RunInv(states, moves, j - 1);
      RemovedStays(states[j - 1], moves[j - 1], id);
    }
  }

  lemma RemovedStays(s: State, a: Action, id: Id)
    requires HubInv(s) && Enabled(s, a) && id in s.peers && id !in s.clients
    ensures var t := Do(s, a);
            && id in t.peers && id !in t.clients && s.log <= t.log
            && t.peers[id].removed == s.peers[id].removed && t.peers[id].joined == s.peers[id].joined
  {}

  /** At every moment of every run: nothing has sent on a closed channel or closed one twice; a channel is open exactly
      while its client is registered, and was otherwise closed once; what a client was sent and what is still queued for
      it are exactly the broadcasts since it was registered, up to its removal. */
  lemma HubIsSafe(states: seq<State>, moves: seq<Action>, i: nat, id: Id)
    requires Run(states, moves) && i < |states| && id in states[i].peers
    ensures var s, c := states[i], states[i].peers[id];
            && !s.panicked
            && c.closes == (if id in s.clients then 0 else 1)
            && c.joined <= Until(s, id) <= |s.log| && c.taken + c.queue == BroadcastTo(s, id)
  {
    RunInv(states, moves, i);
    assert ChannelInv(states[i], id);
  }

  /** A peer that splits its messages at newlines gets a beginning of the broadcasts for it, in order; while its writer
      works, the others are those in the message being made and those in the queue; and once the writer has seen the
      end of its channel, the peer has got them all. */
  lemma PeersGetBroadcasts(states: seq<State>, moves: seq<Action>, i: nat, id: Id)
    requires Run(states, moves) && i < |states| && id in states[i].peers
    ensures var s, c := states[i], states[i].peers[id];
            && c.joined <= Until(s, id) <= |s.log|
            && SplitAll(c.frames) <= BroadcastTo(s, id)
            && (!c.writer.Broken? ==> SplitAll(c.frames) + Pending(c.writer) + c.queue == BroadcastTo(s, id))
            && (c.writer.Finished? ==> id !in s.clients && SplitAll(c.frames) == BroadcastTo(s, id))
  {
    RunInv(states, moves, i);
    var s, c := states[i], states[i].peers[id];
    assert ChannelInv(s, id) && WriterInv(c);
    forall k, m | 0 <= k < |c.groups| && m in c.groups[k]
      ensures NoNewline(m)
    {
      GroupsFromConcat(c.groups, k, m);
      assert m in c.taken + c.queue;
    }
    SplitGroups(c.frames, c.groups);
    assert c.taken <= BroadcastTo(s, id);
  }

  /** The receives that follow the count of the queue neither wait nor see the end of the channel. */
  lemma CountedAreThere(states: seq<State>, moves: seq<Action>, i: nat, id: Id)
    requires Run(states, moves) && i < |states| && id in states[i].peers
    requires states[i].peers[id].writer.Adding? && states[i].peers[id].writer.n > 0
    ensures Enabled(states[i], TakeNext(id)) && states[i].peers[id].queue != []
  {
    RunInv(states, moves, i);
    assert WriterInv(states[i].peers[id]);
  }

  /** The writer's next message takes up what was queued when it counted, all of it and in order: what it has put into
      the message and what it still counts are what they were then. */
  lemma {:induction false} OneMessageTakesQueue(states: seq<State>, moves: seq<Action>, k: nat, i: nat, id: Id)
    requires Run(states, moves) && k < i < |states| && moves[k] == CountQueued(id)
    requires SendFrame(id) !in moves[k..i] && Break(id) !in moves[k..i]
    ensures id in states[k].peers && states[k].peers[id].writer.Started?
    ensures id in states[i].peers && states[i].peers[id].writer.Adding?
    ensures var c, d := states[k].peers[id], states[i].peers[id];
            d.writer.n <= |d.queue| && d.writer.parts + d.queue[..d.writer.n] == c.writer.parts + c.queue
    decreases i
  {
    RunInv(states, moves, i);
    if i == k + 1 {
      var c := states[k].peers[id];
      assert c.queue[..|c.queue|] == c.queue;
    } else {
      assert moves[k..i][..i - 1 - k] == moves[k..i - 1];
      assert moves[k..i][i - 1 - k] == moves[i - 1];
      OneMessageTakesQueue(states, moves, k, i - 1, id);
      RunInv(states, moves, i - 1);
      AddingKept(states[i - 1], moves[i - 1], id);
    }
  }

  lemma AddingKept(s: State, a: Action, id: Id)
    requires Enabled(s, a) && id in s.peers && s.peers[id].writer.Adding? && a != SendFrame(id) && a != Break(id)
    requires s.peers[id].writer.n <= |s.peers[id].queue| && !Do(s, a).panicked
    ensures id in Do(s, a).peers
    ensures var c, d := s.peers[id], Do(s, a).peers[id];
            && d.writer.Adding? && d.writer.n <= |d.queue|
            && d.writer.parts + d.queue[..d.writer.n] == c.writer.parts + c.queue[..c.writer.n]
  {
    var c, d := s.peers[id], Do(s, a).peers[id];
    if a == TakeNext(id) {
      assert c.queue[..c.writer.n] == [c.queue[0]] + c.queue[1..][..c.writer.n - 1];
    }
  }

  /** A client whose read pump has unregistered it is not registered, and one whose pump has ended will be: its request
      stays until the hub takes it. */
  ghost predicate Leaves(s: State, moves: seq<Action>, id: Id) {
    && (Disconnect(id) in moves ==> id in s.peers && (s.peers[id].reader.Leaving? || s.peers[id].reader.Gone?))
    && (id in s.peers && s.peers[id].reader.Gone? ==> id !in s.clients)
  }

  lemma LeavesStep(s: State, moves: seq<Action>, a: Action, id: Id)
    requires Enabled(s, a) && Leaves(s, moves, id)
    ensures Leaves(Do(s, a), moves + [a], id)
  {}

  /** In every run: the end of a client's connection is followed by its request to unregister, and that by its removal.
      */
  lemma {:induction false} GoneAreRemoved(states: seq<State>, moves: seq<Action>, i: nat, id: Id)
    requires Run(states, moves) && i < |states|
    ensures Leaves(states[i], moves[..i], id)
  {
    hide Do, Enabled;
    if i > 0 {
      GoneAreRemoved(states, moves, i - 1, id);
      assert moves[..i] == moves[..i - 1] + [moves[i - 1]];
      LeavesStep(states[i - 1], moves[..i - 1], moves[i - 1], id);
    }
  }

  /** Once the writer sees the end of its channel, it has sent everything that was broadcast for its client. */
  lemma EndSeenAfterAll(states: seq<State>, moves: seq<Action>, i: nat, id: Id)
    requires Run(states, moves) && i < |moves| && moves[i] == SeeClosed(id)
    ensures id in states[i + 1].peers && states[i + 1].peers[id].writer.Finished?
    ensures var s := states[i + 1];
            && s.peers[id].joined <= Until(s, id) <= |s.log|
            && SplitAll(s.peers[id].frames) == BroadcastTo(s, id)
  {
    PeersGetBroadcasts(states, moves, i + 1, id);
  }

  // Where the broadcasts come from

  /** What a client asks to be broadcast when it sends a message of which TrimSpace leaves the part up to to. */
  function AsBroadcast(message: Text, from: nat, to: nat): Text
    requires from <= to <= |message|
  {
    seq(to - from, i requires 0 <= i < to - from =>
      if message[from + i] == 0x0a then 0x20 else message[from + i])
  }

  /** What a client has sent, one text for each of its messages. */
  function SentBy(moves: seq<Action>, id: Id): seq<Text> {
    if moves == [] then []
    else
      var before, a := SentBy(moves[..|moves| - 1], id), moves[|moves| - 1];
      if a.Receive? && a.id == id && a.from <= a.to <= |a.message|
      then before + [AsBroadcast(a.message, a.from, a.to)] else before
  }

  /** The clients whose messages the hub has broadcast, in order. */
  function Authors(moves: seq<Action>): seq<Id> {
    if moves == [] then []
    else
      var before, a := Authors(moves[..|moves| - 1]), moves[|moves| - 1];
      if a.Broadcast? then before + [a.id] else before
  }

  /** The part of the log that comes from one client. */
  function PartOf(log: seq<Text>, authors: seq<Id>, id: Id): seq<Text>
    requires |log| == |authors|
  {
    if log == [] then []
    else
      var before, last := PartOf(log[..|log| - 1], authors[..|log| - 1], id), |log| - 1;
      if authors[last] == id then before + [log[last]] else before
  }

  /** What a client has sent and the hub has not yet taken. */
  function Proposed(s: State, id: Id): seq<Text> {
    if id in s.peers && s.peers[id].reader.Offering? then [s.peers[id].reader.message] else []
  }

  /** The broadcasts that come from a client, and then the one that it offers, are what it has sent. */
  ghost predicate Sourced(s: State, moves: seq<Action>, id: Id) {
    && |Authors(moves)| == |s.log|
    && PartOf(s.log, Authors(moves), id) + Proposed(s, id) == SentBy(moves, id)
  }

  lemma FlattenedPart(message: Text, from: nat, to: nat)
    requires from <= to <= |message|
    ensures Flattened(message)[from..to] == AsBroadcast(message, from, to)
  {
    forall i | 0 <= i < to - from
      ensures Flattened(message)[from..to][i] == AsBroadcast(message, from, to)[i]
    {
      FlattenedKeeps(message, from + i);
    }
  }

  lemma PartOfMore(log: seq<Text>, authors: seq<Id>, m: Text, author: Id, id: Id)
    requires |log| == |authors|
    ensures PartOf(log + [m], authors + [author], id)
         == PartOf(log, authors, id) + if author == id then [m] else []
  {
    assert (log + [m])[..|log|] == log && (authors + [author])[..|log|] == authors;
  }

  lemma MovesMore(moves: seq<Action>, a: Action, id: Id)
    ensures Authors(moves + [a]) == Authors(moves) + if a.Broadcast? then [a.id] else []
    ensures SentBy(moves + [a], id)
         == SentBy(moves, id) + if a.Receive? && a.id == id && a.from <= a.to <= |a.message|
                                then [AsBroadcast(a.message, a.from, a.to)] else []
  {
    assert (moves + [a])[..|moves|] == moves;
  }

  lemma ReceiveSourced(s: State, a: Action)
    requires Enabled(s, a) && a.Receive?
    ensures Do(s, a).log == s.log && Proposed(s, a.id) == []
    ensures Proposed(Do(s, a), a.id) == [AsBroadcast(a.message, a.from, a.to)]
  {
    FlattenedPart(a.message, a.from, a.to);
  }

  /** The steps that are not of the reader of this client do not change what it offers. */
  lemma ProposedKept(s: State, a: Action, id: Id)
    requires Enabled(s, a) && (a.EndBroadcast? || a.id != id || !(a.Receive? || a.Broadcast?))
    ensures Proposed(Do(s, a), id) == Proposed(s, id)
    ensures !a.Broadcast? ==> Do(s, a).log == s.log
  {}

  lemma SourcedStep(s: State, moves: seq<Action>, a: Action, id: Id)
    requires Enabled(s, a) && Sourced(s, moves, id)
    ensures Sourced(Do(s, a), moves + [a], id)
  {
    hide AsBroadcast, SentBy, Authors, PartOf;
    MovesMore(moves, a, id);
    assert Authors(moves) + [] == Authors(moves) && SentBy(moves, id) + [] == SentBy(moves, id);
    if a.Broadcast? {
      var m := s.peers[a.id].reader.message;
      PartOfMore(s.log, Authors(moves), m, a.id, id);
      if a.id == id {
        assert Proposed(s, id) == [m] && Proposed(Do(s, a), id) == [];
      } else {
        ProposedKept(s, a, id);
      }
    } else if a.Receive? && a.id == id {
      ReceiveSourced(s, a);
    } else {
      ProposedKept(s, a, id);
    }
  }

  /** In every run, from the moves alone: each broadcast is the text of one message of one client, with a space for
      every newline and the ends trimmed; those of a client are broadcast in the order in which it sent them, none
      twice, and none is left out but for the last, while the hub has not taken it. */
  lemma {:induction false} BroadcastsAreSent(states: seq<State>, moves: seq<Action>, i: nat, id: Id)
    requires Run(states, moves) && i < |states|
    ensures Sourced(states[i], moves[..i], id)
  {
    if i == 0 {
      assert moves[..0] == [];
    } else {
      hide Do, Enabled, Sourced;
      BroadcastsAreSent(states, moves, i - 1, id);
      assert moves[..i] == moves[..i - 1] + [moves[i - 1]];
      SourcedStep(states[i - 1], moves[..i - 1], moves[i - 1], id);
    }
  }
}
