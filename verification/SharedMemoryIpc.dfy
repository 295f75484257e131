/** The shared-memory message protocol of ddm/src/ipc/shared_memory_ipc.cpp as a state
    machine: any number of clients, one server, one buffer and two auto-reset events.
    Every byte that is copied is a step of its own. */
module SharedMemoryIpc {
  import opened Bits
  import opened Collections
  import opened Memory

  type Message = m: seq<byte> | |m| < 0x1_0000_0000 witness []

  /** The sizes given to create, in the clients and in the server. */
  datatype Config = Config(clientMax: u32, serverMax: u32)

  /** A client inside send: past its wait, or with some bytes of the frame written. */
  datatype Client = Waited(msg: Message) | Writing(msg: Message, written: nat)

  /** The server inside recv: past its wait, or with some bytes of the message read. */
  datatype Server = Idle | Woken | Reading(size: nat, got: seq<byte>)

  /** The sends that returned true, the receives that returned true, and the calls that
      returned false after a successful wait are recorded in the last four fields. */
  datatype State = State(mem: seq<byte>, sendEvent: bool, recvEvent: bool, active: map<nat, Client>, server: Server,
                         sent: seq<Message>, received: seq<seq<byte>>, refused: nat, rejected: nat)

  datatype Step =
    | ClientWait(c: nat, msg: Message)
    | ClientCheck(c: nat)
    | ClientWrite(c: nat)
    | ClientSignal(c: nat)
    | ServerWait
    | ServerCheck
    | ServerRead
    | ServerSignal

  /** What a client writes: the size in four bytes, then the message. */
  function Frame(m: Message): (f: seq<byte>)
    ensures |f| == |m| + 4
  {
    [WordByte(|m|, 0), WordByte(|m|, 1), WordByte(|m|, 2), WordByte(|m|, 3)] + m
  }

  /** Both events are created when nobody has them yet: send is set, recv is not. */
  predicate Initial(g: Config, s: State) {
    |s.mem| >= g.clientMax && |s.mem| >= g.serverMax && |s.mem| >= 4
    && s == State(s.mem, true, false, map[], Idle, [], [], 0, 0)
  }

  // ---------- Steps ----------

  function ClientStep(g: Config, s: State, step: Step): Option<State>
    requires step.ClientWait? || step.ClientCheck? || step.ClientWrite? || step.ClientSignal?
  {
    match step
    case ClientWait(c, msg) =>
      if c !in s.active && s.sendEvent then Some(s.(sendEvent := false, active := s.active[c := Waited(msg)])) else None
    case ClientCheck(c) =>
      if c in s.active && s.active[c].Waited? then
        var msg := s.active[c].msg;
        if |msg| + 4 > g.clientMax then Some(s.(active := s.active - {c}, refused := s.refused + 1))
        else Some(s.(active := s.active[c := Writing(msg, 0)]))
      else None
    case ClientWrite(c) =>
      if c in s.active && s.active[c].Writing? && s.active[c].written < |s.active[c].msg| + 4
         && s.active[c].written < |s.mem| then
        var Writing(msg, k) := s.active[c];
        Some(s.(mem := s.mem[k := Frame(msg)[k]], active := s.active[c := Writing(msg, k + 1)]))
      else None
    case ClientSignal(c) =>
      if c in s.active && s.active[c].Writing? && s.active[c].written == |s.active[c].msg| + 4 then
        Some(s.(recvEvent := true, active := s.active - {c}, sent := s.sent + [s.active[c].msg]))
      else None
  }

  function ServerStep(g: Config, s: State, step: Step): Option<State>
    requires step.ServerWait? || step.ServerCheck? || step.ServerRead? || step.ServerSignal?
  {
    match step
    case ServerWait =>
      if s.server.Idle? && s.recvEvent then Some(s.(recvEvent := false, server := Woken)) else None
    case ServerCheck =>
      if s.server.Woken? && |s.mem| >= 4 then
        var size := Load32(s.mem, 0);
        if size + 4 > g.serverMax then Some(s.(server := Idle, rejected := s.rejected + 1))
        else Some(s.(server := Reading(size, [])))
      else None
    case ServerRead =>
      if s.server.Reading? && |s.server.got| < s.server.size && 4 + |s.server.got| < |s.mem| then
        Some(s.(server := Reading(s.server.size, s.server.got + [s.mem[4 + |s.server.got|]])))
      else None
    case ServerSignal =>
      if s.server.Reading? && |s.server.got| == s.server.size then
        Some(s.(server := Idle, sendEvent := true, received := s.received + [s.server.got]))
      else None
  }

  /** The state after a step, if the step can be taken. */
  function Next(g: Config, s: State, step: Step): Option<State> {
    if step.ClientWait? || step.ClientCheck? || step.ClientWrite? || step.ClientSignal? then ClientStep(g, s, step)
    else ServerStep(g, s, step)
  }

  /** The state after an interleaving of any length. */
  function Run(g: Config, s: State, steps: seq<Step>): Option<State> {
    if steps == [] then Some(s)
    else
      var before := Run(g, s, steps[..|steps| - 1]);
      if before.None? then None else Next(g, before.value, steps[|steps| - 1])
  }

  // ---------- Invariant ----------

  /** Who may touch the buffer. */
  datatype Owner = Senders | Sender(c: nat) | Receiver | Reader | Nobody

  /** The four places where ownership shows, and nothing else, follow from the owner. */
  ghost predicate Owns(s: State, o: Owner) {
    s.sendEvent == o.Senders? && s.recvEvent == o.Receiver? && s.server.Idle? == !o.Reader?
    && (forall c :: c in s.active <==> o == Sender(c))
    && s.refused + s.rejected == if o.Nobody? then 1 else 0
  }

  /** The frame of message m is in the buffer. */
  predicate Holds(s: State, m: Message) { |m| + 4 <= |s.mem| && s.mem[..|m| + 4] == Frame(m) }

  /** One message is on its way: sent, not yet received. */
  ghost predicate InFlight(g: Config, s: State, m: Message) {
    s.sent == s.received + [m] && |m| + 4 <= g.clientMax
  }

  /** What the owner may rely on. */
  ghost predicate Contents(g: Config, s: State, o: Owner) {
    match o
    case Senders => s.received == s.sent
    case Sender(c) => s.received == s.sent && c in s.active && Progress(g, s, s.active[c])
    case Receiver => exists m: Message :: InFlight(g, s, m) && Holds(s, m)
    case Reader => exists m: Message :: InFlight(g, s, m) && Holds(s, m) && ReadSoFar(g, s, m)
    case Nobody => if s.refused == 1 then s.received == s.sent
                   else exists m: Message :: InFlight(g, s, m) && |m| + 4 > g.serverMax
  }

  predicate Progress(g: Config, s: State, client: Client) {
    client.Writing? ==>
      var f := Frame(client.msg);
      |f| <= g.clientMax && client.written <= |f| && client.written <= |s.mem|
      && s.mem[..client.written] == f[..client.written]
  }

  predicate ReadSoFar(g: Config, s: State, m: Message) {
    s.server.Reading? ==>
      s.server.size == |m| && |m| + 4 <= g.serverMax && |s.server.got| <= |m| && s.server.got == m[..|s.server.got|]
  }

  ghost predicate Invariant(g: Config, s: State, o: Owner) {
    |s.mem| >= g.clientMax && |s.mem| >= g.serverMax && |s.mem| >= 4 && Owns(s, o) && Contents(g, s, o)
  }

  /** The size read back is the size written. */
  lemma FrameSize(s: State, m: Message)
    requires Holds(s, m)
    ensures |s.mem| >= 4 && Load32(s.mem, 0) == |m|
  {
    var f := Frame(m);
    assert forall i :: 0 <= i < 4 ==> s.mem[i] == s.mem[..|m| + 4][i] == f[i];
    WordOfBytes(|m|);
  }

  // ---------- Every step keeps it ----------

  lemma ClientKeeps(g: Config, s: State, o: Owner, step: Step) returns (p: Owner)
    requires step.ClientWait? || step.ClientCheck? || step.ClientWrite? || step.ClientSignal?
    requires Invariant(g, s, o) && ClientStep(g, s, step).Some?
    ensures Invariant(g, ClientStep(g, s, step).value, p)
  {
    var t := ClientStep(g, s, step).value;
    match step
    case ClientWait(c, _) =>
      p := Sender(c);
    case ClientCheck(c) =>
      p := if |s.active[c].msg| + 4 > g.clientMax then Nobody else o;
    case ClientWrite(c) =>
      p := o;
      var Writing(msg, k) := s.active[c];
      assert t.mem[..k + 1] == s.mem[..k] + [Frame(msg)[k]] == Frame(msg)[..k + 1];
    case ClientSignal(c) =>
      p := Receiver;
      var m := s.active[c].msg;
      assert Frame(m)[..|m| + 4] == Frame(m);
      assert InFlight(g, t, m) && Holds(t, m);
  }

  lemma ServerKeeps(g: Config, s: State, o: Owner, step: Step) returns (p: Owner)
    requires step.ServerWait? || step.ServerCheck? || step.ServerRead? || step.ServerSignal?
    requires Invariant(g, s, o) && ServerStep(g, s, step).Some?
    ensures Invariant(g, ServerStep(g, s, step).value, p)
  {
    var t := ServerStep(g, s, step).value;
    assert o.Receiver? || o.Reader?;
    var m: Message :| InFlight(g, s, m) && Holds(s, m) && (o.Reader? ==> ReadSoFar(g, s, m));
    match step
    case ServerWait =>
      p := Reader;
      assert InFlight(g, t, m) && Holds(t, m) && ReadSoFar(g, t, m);
    case ServerCheck =>
      FrameSize(s, m);
      if |m| + 4 > g.serverMax {
        p := Nobody;
        assert InFlight(g, t, m);
      } else {
        p := o;
        assert InFlight(g, t, m) && Holds(t, m) && ReadSoFar(g, t, m);
      }
    case ServerRead =>
      p := o;
      var k := |s.server.got|;
      assert s.mem[4 + k] == s.mem[..|m| + 4][4 + k] == Frame(m)[4 + k] == m[k];
      assert t.server.got == m[..k + 1];
      assert InFlight(g, t, m) && Holds(t, m) && ReadSoFar(g, t, m);
    case ServerSignal =>
      p := Senders;
      assert s.server.got == m;
  }

  // ---------- Runs ----------

  lemma {:induction false} RunKeeps(g: Config, s: State, o: Owner, steps: seq<Step>) returns (p: Owner)
    requires Invariant(g, s, o) && Run(g, s, steps).Some?
    ensures Invariant(g, Run(g, s, steps).value, p)
  {
    if steps == [] {
      p := o;
    } else {
      var last := steps[|steps| - 1];
      var q := RunKeeps(g, s, o, steps[..|steps| - 1]);
      var before := Run(g, s, steps[..|steps| - 1]).value;
      if last.ClientWait? || last.ClientCheck? || last.ClientWrite? || last.ClientSignal? {
        p := ClientKeeps(g, before, q, last);
      } else {
        p := ServerKeeps(g, before, q, last);
      }
    }
  }

  lemma Reachable(g: Config, s: State, steps: seq<Step>) returns (o: Owner)
    requires Initial(g, s) && Run(g, s, steps).Some?
    ensures Invariant(g, Run(g, s, steps).value, o)
  {
    o := RunKeeps(g, s, Senders, steps);
  }

  /** How many of the four hold: the send event is set, a client writes, the receive event
      is set, the server reads. */
  function Tokens(s: State): nat {
    (if s.sendEvent then 1 else 0) + |s.active| + (if s.recvEvent then 1 else 0) + (if s.server.Idle? then 0 else 1)
  }

  /** In every interleaving exactly one of the four holds until a call fails after its wait,
      and none from then on; at most one call ever fails like that. */
  lemma OneOwner(g: Config, s: State, steps: seq<Step>)
    requires Initial(g, s) && Run(g, s, steps).Some?
    ensures var t := Run(g, s, steps).value;
      Tokens(t) + t.refused + t.rejected == 1
  {
    var o := Reachable(g, s, steps);
    var t := Run(g, s, steps).value;
    match o
    case Sender(c) => assert t.active.Keys == {c};
    case _ => assert t.active.Keys == {};
  }

  /** The successful receives are a prefix of the completed sends, and miss at most the last. */
  lemma Delivery(g: Config, s: State, steps: seq<Step>)
    requires Initial(g, s) && Run(g, s, steps).Some?
    ensures var t := Run(g, s, steps).value;
      t.received <= t.sent && |t.sent| <= |t.received| + 1
  {
    var o := Reachable(g, s, steps);
  }

  /** No process can take a step. */
  ghost predicate Stuck(g: Config, s: State) { forall step :: Next(g, s, step).None? }

  /** The protocol is stuck exactly when a call has failed after its wait. */
  lemma StuckIff(g: Config, s: State, o: Owner)
    requires Invariant(g, s, o)
    ensures Stuck(g, s) <==> s.refused + s.rejected > 0
  {
    match o
    case Senders => assert Next(g, s, ClientWait(0, [])).Some?;
    case Nobody =>
    case _ => ForcedOnly(g, s, o, Forced(s, o));
  }

  // ---------- Progress ----------

  /** The step of the owner of the buffer. */
  function Forced(s: State, o: Owner): Step {
    match o
    case Sender(c) =>
      if c in s.active && s.active[c].Writing? then
        if s.active[c].written < |s.active[c].msg| + 4 then ClientWrite(c) else ClientSignal(c)
      else ClientCheck(c)
    case Reader =>
      if s.server.Reading? then if |s.server.got| < s.server.size then ServerRead else ServerSignal
      else ServerCheck
    case _ => ServerWait
  }

  /** While somebody owns the buffer, the owner's step is possible and no other. */
  lemma ForcedOnly(g: Config, s: State, o: Owner, step: Step)
    requires Invariant(g, s, o) && !o.Senders? && !o.Nobody?
    ensures Next(g, s, step).Some? <==> step == Forced(s, o)
  {
  }

  /** How many steps are left until the message on its way is received. */
  ghost function Left(s: State, o: Owner): int {
    match o
    case Sender(c) =>
      if c !in s.active then 0
      else if s.active[c].Waited? then 2 * |s.active[c].msg| + 9
      else 2 * |s.active[c].msg| + 8 - s.active[c].written
    case Receiver => if s.sent == [] then 0 else |s.sent[|s.sent| - 1]| + 3
    case Reader =>
      if s.server.Reading? then s.server.size - |s.server.got| + 1
      else if s.sent == [] then 0 else |s.sent[|s.sent| - 1]| + 2
    case _ => 0
  }

  /** What will have been received by then. */
  ghost function Pending(s: State, o: Owner): seq<Message> {
    if o.Sender? && o.c in s.active then s.sent + [s.active[o.c].msg] else s.sent
  }

  /** The message passes the size checks of the client and of the server. */
  predicate Fits(g: Config, m: Message) { |m| + 4 <= g.clientMax && |m| + 4 <= g.serverMax }

  /** The message on its way, if there is one, fits. */
  predicate HasRoom(g: Config, s: State, o: Owner) {
    match o
    case Senders => true
    case Sender(c) => c in s.active && Fits(g, s.active[c].msg)
    case Nobody => false
    case _ => s.sent != [] && Fits(g, s.sent[|s.sent| - 1])
  }

  /** Only a client's wait brings a new message; every other step keeps what is known of it. */
  lemma RoomKept(g: Config, s: State, o: Owner, step: Step) returns (p: Owner)
    requires Invariant(g, s, o) && Next(g, s, step).Some?
    ensures var t := Next(g, s, step).value;
      Invariant(g, t, p) && (HasRoom(g, t, p) <==> HasRoom(g, s, o) && (step.ClientWait? ==> Fits(g, step.msg)))
  {
    if step.ClientWait? || step.ClientCheck? || step.ClientWrite? || step.ClientSignal? {
      p := ClientKeeps(g, s, o, step);
    } else {
      var m: Message :| InFlight(g, s, m) && Holds(s, m) && (o.Reader? ==> ReadSoFar(g, s, m));
      FrameSize(s, m);
      p := ServerKeeps(g, s, o, step);
    }
  }

  /** The owner's step brings the message one step closer. */
  ghost predicate Closer(g: Config, s: State, o: Owner, t: State, p: Owner) {
    HasRoom(g, t, p) && Left(t, p) == Left(s, o) - 1 >= 0 && Pending(t, p) == Pending(s, o)
  }

  lemma ForcedStep(g: Config, s: State, o: Owner) returns (p: Owner)
    requires Invariant(g, s, o) && HasRoom(g, s, o) && !o.Senders?
    ensures Next(g, s, Forced(s, o)).Some?
    ensures var t := Next(g, s, Forced(s, o)).value; Invariant(g, t, p) && Closer(g, s, o, t, p)
  {
    var step := Forced(s, o);
    ForcedOnly(g, s, o, step);
    p := RoomKept(g, s, o, step);
    if o.Sender? {
      CloserClient(g, s, o, p);
    } else {
      CloserServer(g, s, o, p);
    }
  }

  lemma CloserClient(g: Config, s: State, o: Owner, p: Owner)
    requires Invariant(g, s, o) && HasRoom(g, s, o) && o.Sender? && Next(g, s, Forced(s, o)).Some?
    requires var t := Next(g, s, Forced(s, o)).value; Invariant(g, t, p) && HasRoom(g, t, p)
    ensures Closer(g, s, o, Next(g, s, Forced(s, o)).value, p)
  {
  }

  lemma CloserServer(g: Config, s: State, o: Owner, p: Owner)
    requires Invariant(g, s, o) && HasRoom(g, s, o) && (o.Receiver? || o.Reader?) && Next(g, s, Forced(s, o)).Some?
    requires var t := Next(g, s, Forced(s, o)).value; Invariant(g, t, p) && HasRoom(g, t, p)
    ensures Closer(g, s, o, Next(g, s, Forced(s, o)).value, p)
  {
    var m: Message :| InFlight(g, s, m) && Holds(s, m) && (o.Reader? ==> ReadSoFar(g, s, m));
    FrameSize(s, m);
  }

  lemma {:induction false} RunFirst(g: Config, s: State, step: Step, rest: seq<Step>)
    requires Next(g, s, step).Some?
    ensures Run(g, s, [step] + rest) == Run(g, Next(g, s, step).value, rest)
  {
    var steps := [step] + rest;
    if rest == [] {
      assert steps[..0] == [] && steps == [step];
    } else {
      assert steps[..|steps| - 1] == [step] + rest[..|rest| - 1];
      RunFirst(g, s, step, rest[..|rest| - 1]);
    }
  }

  /** A message that has room is received in a number of steps known in advance, after which
      the send event is set again. */
  lemma {:induction false} Drains(g: Config, s: State, o: Owner) returns (steps: seq<Step>)
    requires Invariant(g, s, o) && HasRoom(g, s, o) && Left(s, o) >= 0
    ensures |steps| == Left(s, o) && Run(g, s, steps).Some?
    ensures var t := Run(g, s, steps).value;
      t.sendEvent && t.received == t.sent == Pending(s, o)
    decreases Left(s, o)
  {
    if o.Senders? {
      steps := [];
    } else {
      var step := Forced(s, o);
      var p := ForcedStep(g, s, o);
      var rest := Drains(g, Next(g, s, step).value, p);
      RunFirst(g, s, step, rest);
      steps := [step] + rest;
    }
  }

  // ---------- Messages that do not fit ----------

  /** The messages that clients have got past their wait with. */
  predicate AllFit(g: Config, steps: seq<Step>) {
    forall i :: 0 <= i < |steps| && steps[i].ClientWait? ==> Fits(g, steps[i].msg)
  }

  lemma {:induction false} RoomIff(g: Config, s: State, steps: seq<Step>) returns (o: Owner)
    requires Initial(g, s) && Run(g, s, steps).Some?
    ensures var t := Run(g, s, steps).value;
      Invariant(g, t, o) && (HasRoom(g, t, o) <==> AllFit(g, steps))
  {
    if steps == [] {
      o := Senders;
    } else {
      var last, before := steps[|steps| - 1], steps[..|steps| - 1];
      var q := RoomIff(g, s, before);
      o := RoomKept(g, Run(g, s, before).value, q, last);
      AllFitNext(g, steps);
    }
  }

  lemma AllFitNext(g: Config, steps: seq<Step>)
    requires steps != []
    ensures var last := steps[|steps| - 1];
      AllFit(g, steps) <==> AllFit(g, steps[..|steps| - 1]) && (last.ClientWait? ==> Fits(g, last.msg))
  {
    var before := steps[..|steps| - 1];
    if AllFit(g, steps) {
      forall i | 0 <= i < |before| && before[i].ClientWait? ensures Fits(g, before[i].msg) {
        assert before[i] == steps[i];
      }
    }
  }

  ghost predicate SendsAgain(g: Config, s: State, more: seq<Step>) {
    Run(g, s, more).Some? && Run(g, s, more).value.sendEvent
  }

  /** A client can send again, sooner or later, if and only if every message that a client
      has waited with so far passes both size checks. */
  lemma SendsAgainIff(g: Config, s: State, steps: seq<Step>)
    requires Initial(g, s) && Run(g, s, steps).Some?
    ensures (exists more :: SendsAgain(g, Run(g, s, steps).value, more)) <==> AllFit(g, steps)
  {
    var o := RoomIff(g, s, steps);
    var t := Run(g, s, steps).value;
    if AllFit(g, steps) {
      LeftPositive(g, t, o);
      var more := Drains(g, t, o);
      assert SendsAgain(g, t, more);
    } else {
      forall more ensures !SendsAgain(g, t, more) {
        if Run(g, t, more).Some? {
          var p := NoRoomKept(g, t, o, more);
        }
      }
    }
  }

  lemma LeftPositive(g: Config, s: State, o: Owner)
    requires Invariant(g, s, o) && HasRoom(g, s, o)
    ensures Left(s, o) >= 0
  {
    if o.Reader? {
      var m: Message :| InFlight(g, s, m) && Holds(s, m) && ReadSoFar(g, s, m);
    }
  }

  lemma {:induction false} NoRoomKept(g: Config, s: State, o: Owner, more: seq<Step>) returns (p: Owner)
    requires Invariant(g, s, o) && !HasRoom(g, s, o) && Run(g, s, more).Some?
    ensures var t := Run(g, s, more).value; Invariant(g, t, p) && !HasRoom(g, t, p) && !t.sendEvent
  {
    if more == [] {
      p := o;
    } else {
      var before := more[..|more| - 1];
      var q := NoRoomKept(g, s, o, before);
      p := RoomKept(g, Run(g, s, before).value, q, more[|more| - 1]);
    }
  }

  /** How many steps are left until a message that does not fit fails its check. */
  ghost function LeftToFail(g: Config, s: State, o: Owner): int {
    match o
    case Sender(c) =>
      if c !in s.active then 0
      else if s.active[c].Writing? then |s.active[c].msg| + 7 - s.active[c].written
      else if |s.active[c].msg| + 4 > g.clientMax then 1
      else |s.active[c].msg| + 8
    case Receiver => 2
    case Reader => 1
    case _ => 0
  }

  /** A message that does not fit leaves the protocol stuck after a number of steps known in
      advance, refused by the client or rejected by the server. */
  lemma {:induction false} Sticks(g: Config, s: State, o: Owner) returns (steps: seq<Step>)
    requires Invariant(g, s, o) && !HasRoom(g, s, o) && LeftToFail(g, s, o) >= 0
    ensures |steps| == LeftToFail(g, s, o) && Run(g, s, steps).Some?
    ensures var t := Run(g, s, steps).value;
      Stuck(g, t) && t.rejected == if Refused(g, s, o) then 0 else 1
    decreases LeftToFail(g, s, o)
  {
    if o.Nobody? {
      steps := [];
      StuckIff(g, s, o);
    } else {
      var step := Forced(s, o);
      var p := FailingStep(g, s, o);
      var rest := Sticks(g, Next(g, s, step).value, p);
      RunFirst(g, s, step, rest);
      steps := [step] + rest;
    }
  }

  /** The client refuses the message, or has refused it. */
  ghost predicate Refused(g: Config, s: State, o: Owner) {
    if o.Nobody? then s.rejected == 0
    else o.Sender? && o.c in s.active && |s.active[o.c].msg| + 4 > g.clientMax
  }

  lemma FailingStep(g: Config, s: State, o: Owner) returns (p: Owner)
    requires Invariant(g, s, o) && !HasRoom(g, s, o) && !o.Nobody?
    ensures Next(g, s, Forced(s, o)).Some?
    ensures var t := Next(g, s, Forced(s, o)).value;
      Invariant(g, t, p) && !HasRoom(g, t, p) && LeftToFail(g, t, p) == LeftToFail(g, s, o) - 1 >= 0
      && (Refused(g, t, p) <==> Refused(g, s, o))
  {
    var step := Forced(s, o);
    ForcedOnly(g, s, o, step);
    if o.Receiver? || o.Reader? {
      var m: Message :| InFlight(g, s, m) && Holds(s, m) && (o.Reader? ==> ReadSoFar(g, s, m));
      FrameSize(s, m);
    }
    p := RoomKept(g, s, o, step);
  }

  /** From the start, two steps are enough: a wait, and the check of a message too large
      for the client's own size. */
  lemma StuckInTwo(g: Config, s: State, c: nat, msg: Message)
    requires Initial(g, s) && |msg| + 4 > g.clientMax
    ensures var steps := [ClientWait(c, msg), ClientCheck(c)];
      Run(g, s, steps).Some? && Stuck(g, Run(g, s, steps).value)
  {
    var steps := [ClientWait(c, msg), ClientCheck(c)];
    RunFirst(g, s, ClientWait(c, msg), [ClientCheck(c)]);
    RunFirst(g, Next(g, s, ClientWait(c, msg)).value, ClientCheck(c), []);
    assert [ClientCheck(c)] == [ClientCheck(c)] + [] && steps == [ClientWait(c, msg)] + [ClientCheck(c)];
    var o := Reachable(g, s, steps);
    StuckIff(g, Run(g, s, steps).value, o);
  }

  /** The first message gets through to the server, and the next send is possible. */
  ghost predicate Delivers(g: Config, s: State, c: nat, msg: Message, more: seq<Step>) {
    var end := Run(g, s, [ClientWait(c, msg)] + more);
    end.Some? && end.value.received == end.value.sent == [msg] && end.value.sendEvent
  }

  /** It does in some run exactly if its frame is no longer than the sizes of both sides. */
  lemma FirstDelivered(g: Config, s: State, c: nat, msg: Message)
    requires Initial(g, s)
    ensures (exists more :: Delivers(g, s, c, msg, more)) <==> |msg| + 4 <= g.clientMax && |msg| + 4 <= g.serverMax
  {
    var wait := ClientWait(c, msg);
    var t := Next(g, s, wait).value;
    var o := RoomKept(g, s, Senders, wait);
    if HasRoom(g, t, o) {
      LeftPositive(g, t, o);
      var more := Drains(g, t, o);
      RunFirst(g, s, wait, more);
      assert [] + [msg] == [msg];
      assert Delivers(g, s, c, msg, more);
    } else {
      forall more ensures !Delivers(g, s, c, msg, more) {
        RunFirst(g, s, wait, more);
        if Run(g, t, more).Some? {
          var p := NoRoomKept(g, t, o, more);
        }
      }
    }
  }

  ghost predicate Rejects(g: Config, s: State, steps: seq<Step>) {
    Run(g, s, steps).Some? && Run(g, s, steps).value.rejected > 0
  }

  /** The server's check fails in some run exactly if the clients may write more than the
      server may read. */
  lemma RejectsIff(g: Config, s: State)
    requires Initial(g, s)
    ensures (exists steps :: Rejects(g, s, steps)) <==> g.clientMax > g.serverMax && g.clientMax >= 4
  {
    if g.clientMax > g.serverMax && g.clientMax >= 4 {
      var msg: Message := seq(g.clientMax - 4, _ => 0);
      var wait := ClientWait(0, msg);
      var t := Next(g, s, wait).value;
      var o := RoomKept(g, s, Senders, wait);
      var rest := Sticks(g, t, o);
      RunFirst(g, s, wait, rest);
      assert Rejects(g, s, [wait] + rest);
    } else {
      forall steps ensures !Rejects(g, s, steps) {
        if Run(g, s, steps).Some? {
          var o := Reachable(g, s, steps);
        }
      }
    }
  }
}
