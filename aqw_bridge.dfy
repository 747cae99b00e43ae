/** The local relay of `AqwBridge.kt`: the decision taken on the first read of
    an accepted connection (stop, answer a Flash socket-policy probe, or open
    the upstream connection and forward the first chunk), the effects the
    connection handler performs on each path, the phases those effects walk
    through, and the `running` / `serverSocket` lifecycle of the bridge with
    its accept loop. Socket I/O appears only as recorded effects. */
module AqwBridge {
  import opened Wrappers

  type Byte = b: int | 0 <= b < 256

  /** Size of the buffer handed to the first `read`. */
  const BufferSize: nat := 1024

  const PolicyRequestText: string := "<policy-file-request/>"

  const PolicyDocumentText: string :=
    "<?xml version=\"1.0\"?><cross-domain-policy><allow-access-from domain=\"*\" to-ports=\"*\" /></cross-domain-policy>"

  /** Text as bytes, one byte per character: an ASCII character is its own
      code and any other character becomes `?`, as the JVM's US-ASCII
      encoder writes it. The two texts the relay encodes are ASCII, and on
      ASCII text this agrees with `toByteArray()`, which encodes in UTF-8. */
  function AsciiBytes(s: string): (r: seq<Byte>)
    ensures |r| == |s|
    ensures forall i :: 0 <= i < |s| && s[i] as int < 128 ==> r[i] == s[i] as int
  {
    seq(|s|, i requires 0 <= i < |s| => if s[i] as int < 128 then s[i] as int else '?' as int)
  }

  /** The probe the classifier looks for, as bytes. */
  function PolicyRequest(): seq<Byte>
  {
    AsciiBytes(PolicyRequestText)
  }

  /** The bytes written back on the policy path: the source's policy text,
      which ends in a NUL character, encoded. */
  function PolicyReply(): seq<Byte>
  {
    AsciiBytes(PolicyDocumentText + [0 as char])
  }

  /** The reply is the policy document followed by exactly one zero byte. */
  lemma PolicyReplyTerminated()
    ensures PolicyReply() == AsciiBytes(PolicyDocumentText) + [0]
    ensures |PolicyReply()| == |PolicyDocumentText| + 1
  {
    assert (PolicyDocumentText + [0 as char])[|PolicyDocumentText|] == 0 as char;
  }

  // ---------------------------------------------------------------------
  // Substring search on bytes
  // ---------------------------------------------------------------------

  /** `pat` occurs somewhere in `s`: the meaning of `contains`. */
  ghost predicate Occurs(pat: seq<Byte>, s: seq<Byte>)
  {
    exists i :: OccursAt(pat, s, i)
  }

  ghost predicate OccursAt(pat: seq<Byte>, s: seq<Byte>, i: int)
  {
    0 <= i && i + |pat| <= |s| && s[i..i + |pat|] == pat
  }

  /** Search by trying each start position in turn. */
  function Contains(s: seq<Byte>, pat: seq<Byte>): bool
    decreases |s|
  {
    if |pat| <= |s| && s[..|pat|] == pat then true
    else if |s| == 0 then false
    else Contains(s[1..], pat)
  }

  lemma {:induction false} ContainsIffOccurs(s: seq<Byte>, pat: seq<Byte>)
    ensures Contains(s, pat) <==> Occurs(pat, s)
    decreases |s|
  {
    if |pat| <= |s| && s[..|pat|] == pat {
      assert OccursAt(pat, s, 0);
    } else if |s| == 0 {
    } else {
      ContainsIffOccurs(s[1..], pat);
      if Occurs(pat, s[1..]) {
        var i :| OccursAt(pat, s[1..], i);
        assert s[i + 1..i + 1 + |pat|] == s[1..][i..i + |pat|];
        assert OccursAt(pat, s, i + 1);
      }
      if Occurs(pat, s) {
        var i :| OccursAt(pat, s, i);
        assert i != 0;
        assert s[1..][i - 1..i - 1 + |pat|] == s[i..i + |pat|];
        assert OccursAt(pat, s[1..], i - 1);
      }
    }
  }

  // ---------------------------------------------------------------------
  // First-chunk classification
  // ---------------------------------------------------------------------

  datatype Action =
    | Stop
    | Policy(reply: seq<Byte>)
    | Forward(host: string, port: int, first: seq<Byte>)

  /** What `handleConnection` decides from the first `read`: `read` is the
      value `read(buffer)` returned, -1 for end of stream. Only
      `buffer[..read]` is looked at. */
  function Classify(targetHost: string, targetPort: int, buffer: seq<Byte>, read: int): (a: Action)
    requires |buffer| == BufferSize && -1 <= read <= BufferSize
    ensures a.Stop? <==> read == -1
    ensures a.Policy? <==> read != -1 && Occurs(PolicyRequest(), buffer[..read])
    ensures a.Policy? ==> a.reply == PolicyReply()
    ensures a.Forward? ==> a.host == targetHost && a.port == targetPort && a.first == buffer[..read]
  {
    if read == -1 then Stop
    else
      ContainsIffOccurs(buffer[..read], PolicyRequest());
      if Contains(buffer[..read], PolicyRequest()) then Policy(PolicyReply())
      else Forward(targetHost, targetPort, buffer[..read])
  }

  /** The bytes past `read` never influence the decision. */
  lemma ClassifyReadsOnlyPrefix(targetHost: string, targetPort: int, b1: seq<Byte>, b2: seq<Byte>, read: int)
    requires |b1| == BufferSize && |b2| == BufferSize && -1 <= read <= BufferSize
    requires read >= 0 ==> b1[..read] == b2[..read]
    ensures Classify(targetHost, targetPort, b1, read) == Classify(targetHost, targetPort, b2, read)
  {
  }

  /** A probe surrounded by any other bytes is still answered locally. */
  lemma ProbeAnywhereIsPolicy(targetHost: string, targetPort: int, buffer: seq<Byte>, read: int,
                              before: seq<Byte>, after: seq<Byte>)
    requires |buffer| == BufferSize && 0 <= read <= BufferSize
    requires buffer[..read] == before + PolicyRequest() + after
    ensures Classify(targetHost, targetPort, buffer, read) == Policy(PolicyReply())
  {
    var s := buffer[..read];
    assert s[|before|..|before| + |PolicyRequest()|] == PolicyRequest();
    assert OccursAt(PolicyRequest(), s, |before|);
  }

  // ---------------------------------------------------------------------
  // The connection handler as a sequence of effects
  // ---------------------------------------------------------------------

  datatype Direction = ClientToUpstream | UpstreamToClient

  /** An I/O effect the handler completed on the client or upstream socket. */
  datatype Effect =
    | WriteClient(bytes: seq<Byte>)
    | FlushClient
    | CloseClient
    | OpenUpstream(host: string, port: int)
    | WriteUpstream(bytes: seq<Byte>)
    | StartCopy(direction: Direction)

  /** The operations each decision performs, in order, when none throws. */
  function Plan(a: Action): (plan: seq<Effect>)
    ensures a.Stop? <==> plan == []
    ensures forall i :: 0 <= i < |plan| ==> (TouchesUpstream(plan[i]) <==> a.Forward?)
  {
    match a
    case Stop => []
    case Policy(reply) => [WriteClient(reply), FlushClient, CloseClient]
    case Forward(host, port, first) =>
      [OpenUpstream(host, port), WriteUpstream(first), StartCopy(ClientToUpstream), StartCopy(UpstreamToClient)]
  }

  /** The outcome of the first `read` (or of getting the streams before it). */
  datatype FirstRead = ReadThrew | ReadReturned(count: int)

  predicate ValidRead(first: FirstRead)
  {
    first.ReadReturned? ==> -1 <= first.count <= BufferSize
  }

  /** The effects of one `handleConnection` run. `faultAt` is the index, in
      the plan, of the first operation that throws an `Exception` (the failed
      connect, a failed write, ...); the effects completed before it are kept
      and the `catch (e: Exception)` closes the client. The `close()` in the
      `catch` is taken to succeed. */
  function HandleConnection(targetHost: string, targetPort: int, buffer: seq<Byte>,
                            first: FirstRead, faultAt: Option<nat>): (trace: seq<Effect>)
    requires |buffer| == BufferSize && ValidRead(first)
    ensures first == ReadReturned(-1) ==> trace == []
    ensures first == ReadThrew ==> trace == [CloseClient]
  {
    match first
    case ReadThrew => [CloseClient]
    case ReadReturned(read) =>
      var plan := Plan(Classify(targetHost, targetPort, buffer, read));
      if faultAt.Some? && faultAt.value < |plan| then plan[..faultAt.value] + [CloseClient]
      else plan
  }

  /** A plan step throws. */
  predicate Faulted(targetHost: string, targetPort: int, buffer: seq<Byte>, read: int, faultAt: Option<nat>)
    requires |buffer| == BufferSize && -1 <= read <= BufferSize
  {
    faultAt.Some? && faultAt.value < |Plan(Classify(targetHost, targetPort, buffer, read))|
  }

  predicate TouchesUpstream(e: Effect)
  {
    e.OpenUpstream? || e.WriteUpstream? || e.StartCopy?
  }

  /** Policy path: no upstream socket, the only bytes written are the policy
      reply, then flush and close; a fault still ends with the close. */
  lemma PolicySession(targetHost: string, targetPort: int, buffer: seq<Byte>, read: int,
                       faultAt: Option<nat>)
    requires |buffer| == BufferSize && 0 <= read <= BufferSize
    requires Occurs(PolicyRequest(), buffer[..read])
    ensures var trace := HandleConnection(targetHost, targetPort, buffer, ReadReturned(read), faultAt);
      && (forall i :: 0 <= i < |trace| ==> !TouchesUpstream(trace[i]))
      && (forall i :: 0 <= i < |trace| && trace[i].WriteClient? ==> trace[i].bytes == PolicyReply())
      && trace != [] && trace[|trace| - 1] == CloseClient
      && (!Faulted(targetHost, targetPort, buffer, read, faultAt) ==>
            trace == [WriteClient(PolicyReply()), FlushClient, CloseClient])
  {
    var r := PolicyReply();
    var plan := Plan(Classify(targetHost, targetPort, buffer, read));
    assert plan == [WriteClient(r), FlushClient, CloseClient];
    var trace := HandleConnection(targetHost, targetPort, buffer, ReadReturned(read), faultAt);
    if faultAt == Some(0) {
      assert trace == [CloseClient];
    } else if faultAt == Some(1) {
      assert trace == [WriteClient(r), CloseClient];
    } else {
      assert trace == [WriteClient(r), FlushClient, CloseClient];
    }
  }

  /** Forwarding path: nothing is written to the client; the only upstream
      connection is the first effect and goes to the target; the only
      upstream write is the second and carries `buffer[..read]` unchanged;
      copy tasks start only after it. */
  lemma ForwardSession(targetHost: string, targetPort: int, buffer: seq<Byte>, read: int,
                        faultAt: Option<nat>)
    requires |buffer| == BufferSize && 0 <= read <= BufferSize
    requires !Occurs(PolicyRequest(), buffer[..read])
    ensures var trace := HandleConnection(targetHost, targetPort, buffer, ReadReturned(read), faultAt);
      && (forall i :: 0 <= i < |trace| ==> !trace[i].WriteClient? && !trace[i].FlushClient?)
      && (forall i :: 0 <= i < |trace| && trace[i].OpenUpstream? ==>
            i == 0 && trace[i] == OpenUpstream(targetHost, targetPort))
      && (forall i :: 0 <= i < |trace| && trace[i].WriteUpstream? ==>
            i == 1 && trace[i].bytes == buffer[..read] && trace[0].OpenUpstream?)
      && (forall i :: 0 <= i < |trace| && trace[i].StartCopy? ==> i >= 2 && trace[1].WriteUpstream?)
      && (Faulted(targetHost, targetPort, buffer, read, faultAt) <==> CloseClient in trace)
      && (!Faulted(targetHost, targetPort, buffer, read, faultAt) ==>
            trace == [OpenUpstream(targetHost, targetPort), WriteUpstream(buffer[..read]),
                      StartCopy(ClientToUpstream), StartCopy(UpstreamToClient)])
  {
    var plan := Plan(Classify(targetHost, targetPort, buffer, read));
    assert plan == [OpenUpstream(targetHost, targetPort), WriteUpstream(buffer[..read]),
                    StartCopy(ClientToUpstream), StartCopy(UpstreamToClient)];
    var trace := HandleConnection(targetHost, targetPort, buffer, ReadReturned(read), faultAt);
    if Faulted(targetHost, targetPort, buffer, read, faultAt) {
      assert trace == plan[..faultAt.value] + [CloseClient];
      assert trace[|trace| - 1] == CloseClient;
      forall i | 0 <= i < |trace| - 1 ensures trace[i] == plan[i] { }
    }
  }

  /** Any exception in the handler, the first read included, ends with the
      client socket closed. */
  lemma ExceptionClosesClient(targetHost: string, targetPort: int, buffer: seq<Byte>,
                              first: FirstRead, faultAt: Option<nat>)
    requires |buffer| == BufferSize && ValidRead(first)
    requires first.ReadThrew? || Faulted(targetHost, targetPort, buffer, first.count, faultAt)
    ensures var trace := HandleConnection(targetHost, targetPort, buffer, first, faultAt);
      trace != [] && trace[|trace| - 1] == CloseClient
  {
  }

  // ---------------------------------------------------------------------
  // Session phases
  // ---------------------------------------------------------------------

  /** Where a session stands after a prefix of its effects. `Closed` records
      whether an upstream socket was opened and left open by the `catch`. */
  datatype Phase =
    | Dispatching
    | PolicyWritten
    | PolicyFlushed
    | UpstreamOpen
    | FirstForwarded
    | Relaying(copies: nat)
    | Closed(upstreamLeftOpen: bool)

  /** The phase machine: the only effects each phase allows. */
  function Next(p: Phase, e: Effect): Option<Phase>
  {
    match (p, e)
    case (Dispatching, WriteClient(_)) => Some(PolicyWritten)
    case (Dispatching, OpenUpstream(_, _)) => Some(UpstreamOpen)
    case (Dispatching, CloseClient) => Some(Closed(false))
    case (PolicyWritten, FlushClient) => Some(PolicyFlushed)
    case (PolicyWritten, CloseClient) => Some(Closed(false))
    case (PolicyFlushed, CloseClient) => Some(Closed(false))
    case (UpstreamOpen, WriteUpstream(_)) => Some(FirstForwarded)
    case (UpstreamOpen, CloseClient) => Some(Closed(true))
    case (FirstForwarded, StartCopy(_)) => Some(Relaying(1))
    case (FirstForwarded, CloseClient) => Some(Closed(true))
    case (Relaying(n), StartCopy(_)) => if n == 1 then Some(Relaying(2)) else None
    case (Relaying(_), CloseClient) => Some(Closed(true))
    case _ => None
  }

  function Run(p: Phase, trace: seq<Effect>): Option<Phase>
    decreases |trace|
  {
    if trace == [] then Some(p)
    else match Next(p, trace[0])
      case None => None
      case Some(q) => Run(q, trace[1..])
  }

  /** On the policy path the walk ends with the client closed and no
      upstream socket, whatever step throws. */
  lemma PolicyPhases(targetHost: string, targetPort: int, buffer: seq<Byte>, read: int,
                      faultAt: Option<nat>)
    requires |buffer| == BufferSize && 0 <= read <= BufferSize
    requires Occurs(PolicyRequest(), buffer[..read])
    ensures Run(Dispatching, HandleConnection(targetHost, targetPort, buffer, ReadReturned(read), faultAt))
         == Some(Closed(false))
  {
    var trace := HandleConnection(targetHost, targetPort, buffer, ReadReturned(read), faultAt);
    PolicySession(targetHost, targetPort, buffer, read, faultAt);
    var r := PolicyReply();
    if faultAt == Some(0) {
      assert trace == [CloseClient];
    } else if faultAt == Some(1) {
      assert trace == [WriteClient(r), CloseClient];
      assert Run(Dispatching, trace) == Run(PolicyWritten, [CloseClient]);
    } else {
      assert trace == [WriteClient(r), FlushClient, CloseClient];
      assert Run(Dispatching, trace) == Run(PolicyWritten, [FlushClient, CloseClient]);
    }
  }

  /** The forwarding plan: connect, send the first bytes, start both copy
      tasks. */
  lemma ForwardPlan(targetHost: string, targetPort: int, buffer: seq<Byte>, read: int)
    requires |buffer| == BufferSize && 0 <= read <= BufferSize
    requires !Occurs(PolicyRequest(), buffer[..read])
    ensures Plan(Classify(targetHost, targetPort, buffer, read))
         == [OpenUpstream(targetHost, targetPort), WriteUpstream(buffer[..read]),
             StartCopy(ClientToUpstream), StartCopy(UpstreamToClient)]
  {
  }

  /** A forward that fails at the connect or at the first write. */
  lemma ForwardFailsEarly(targetHost: string, targetPort: int, buffer: seq<Byte>, read: int, f: nat)
    requires |buffer| == BufferSize && 0 <= read <= BufferSize
    requires !Occurs(PolicyRequest(), buffer[..read]) && f < 2
    ensures Run(Dispatching, HandleConnection(targetHost, targetPort, buffer, ReadReturned(read), Some(f)))
         == Some(if f == 0 then Closed(false) else Closed(true))
  {
    var trace := HandleConnection(targetHost, targetPort, buffer, ReadReturned(read), Some(f));
    var o := OpenUpstream(targetHost, targetPort);
    ForwardPlan(targetHost, targetPort, buffer, read);
    if f == 0 {
      assert trace == [CloseClient];
    } else {
      assert trace == [o, CloseClient];
      assert Run(Dispatching, trace) == Run(UpstreamOpen, [CloseClient]);
    }
  }

  /** A forward that fails while starting the copy tasks. */
  lemma ForwardFailsLate(targetHost: string, targetPort: int, buffer: seq<Byte>, read: int, f: nat)
    requires |buffer| == BufferSize && 0 <= read <= BufferSize
    requires !Occurs(PolicyRequest(), buffer[..read]) && 2 <= f < 4
    ensures Run(Dispatching, HandleConnection(targetHost, targetPort, buffer, ReadReturned(read), Some(f)))
         == Some(Closed(true))
  {
    var trace := HandleConnection(targetHost, targetPort, buffer, ReadReturned(read), Some(f));
    var o, w := OpenUpstream(targetHost, targetPort), WriteUpstream(buffer[..read]);
    var c1 := StartCopy(ClientToUpstream);
    ForwardPlan(targetHost, targetPort, buffer, read);
    if f == 2 {
      assert trace == [o, w, CloseClient];
      assert Run(Dispatching, trace) == Run(UpstreamOpen, [w, CloseClient]);
      assert Run(UpstreamOpen, [w, CloseClient]) == Run(FirstForwarded, [CloseClient]);
    } else {
      assert trace == [o, w, c1, CloseClient];
      assert Run(Dispatching, trace) == Run(UpstreamOpen, [w, c1, CloseClient]);
      assert Run(UpstreamOpen, [w, c1, CloseClient]) == Run(FirstForwarded, [c1, CloseClient]);
      assert Run(FirstForwarded, [c1, CloseClient]) == Run(Relaying(1), [CloseClient]);
    }
  }

  /** A forward in which no step throws ends relaying with both copy tasks. */
  lemma ForwardRelays(targetHost: string, targetPort: int, buffer: seq<Byte>, read: int, faultAt: Option<nat>)
    requires |buffer| == BufferSize && 0 <= read <= BufferSize
    requires !Occurs(PolicyRequest(), buffer[..read]) && (faultAt.None? || faultAt.value >= 4)
    ensures Run(Dispatching, HandleConnection(targetHost, targetPort, buffer, ReadReturned(read), faultAt))
         == Some(Relaying(2))
  {
    var trace := HandleConnection(targetHost, targetPort, buffer, ReadReturned(read), faultAt);
    var o, w := OpenUpstream(targetHost, targetPort), WriteUpstream(buffer[..read]);
    var c1, c2 := StartCopy(ClientToUpstream), StartCopy(UpstreamToClient);
    ForwardPlan(targetHost, targetPort, buffer, read);
    assert trace == [o, w, c1, c2];
    assert Run(Dispatching, trace) == Run(UpstreamOpen, [w, c1, c2]);
    assert Run(UpstreamOpen, [w, c1, c2]) == Run(FirstForwarded, [c1, c2]);
    assert Run(FirstForwarded, [c1, c2]) == Run(Relaying(1), [c2]);
    assert Run(Relaying(1), [c2]) == Run(Relaying(2), []);
  }

  /** On the forwarding path the walk relays with both copy tasks when no
      step throws; a failed connect ends with nothing upstream, and a later
      failure ends with the upstream socket left open. */
  lemma ForwardPhases(targetHost: string, targetPort: int, buffer: seq<Byte>, read: int,
                      faultAt: Option<nat>)
    requires |buffer| == BufferSize && 0 <= read <= BufferSize
    requires !Occurs(PolicyRequest(), buffer[..read])
    ensures Run(Dispatching, HandleConnection(targetHost, targetPort, buffer, ReadReturned(read), faultAt))
         == Some(if faultAt.None? || faultAt.value >= 4 then Relaying(2)
                 else if faultAt.value == 0 then Closed(false)
                 else Closed(true))
  {
    if faultAt.None? || faultAt.value >= 4 {
      ForwardRelays(targetHost, targetPort, buffer, read, faultAt);
    } else if faultAt.value < 2 {
      ForwardFailsEarly(targetHost, targetPort, buffer, read, faultAt.value);
    } else {
      ForwardFailsLate(targetHost, targetPort, buffer, read, faultAt.value);
    }
  }

  /** Every handler run is a walk of the phase machine from `Dispatching`,
      and where it ends is fixed by the read and the fault: it stays in
      `Dispatching` only on end of stream, relays with both copy tasks only
      when forwarding met no fault, and otherwise ends closed, with an
      upstream socket left open exactly when forwarding failed after the
      connect. */
  lemma SessionPhases(targetHost: string, targetPort: int, buffer: seq<Byte>,
                       first: FirstRead, faultAt: Option<nat>)
    requires |buffer| == BufferSize && ValidRead(first)
    ensures var final := Run(Dispatching, HandleConnection(targetHost, targetPort, buffer, first, faultAt));
      && final.Some?
      && (final.value == Dispatching <==> first == ReadReturned(-1))
      && (final.value == Relaying(2) <==>
            first.ReadReturned? && first.count != -1 && !Occurs(PolicyRequest(), buffer[..first.count])
            && !Faulted(targetHost, targetPort, buffer, first.count, faultAt))
      && (final.value == Closed(true) <==>
            first.ReadReturned? && first.count != -1 && !Occurs(PolicyRequest(), buffer[..first.count])
            && faultAt.Some? && 1 <= faultAt.value < 4)
      && (final.value.Dispatching? || final.value.Closed? || final.value == Relaying(2))
  {
    match first
    case ReadThrew =>
      assert Run(Dispatching, [CloseClient]) == Some(Closed(false));
    case ReadReturned(read) =>
      if read == -1 {
      } else if Occurs(PolicyRequest(), buffer[..read]) {
        PolicyPhases(targetHost, targetPort, buffer, read, faultAt);
      } else {
        ForwardPhases(targetHost, targetPort, buffer, read, faultAt);
        ForwardPlan(targetHost, targetPort, buffer, read);
      }
  }

  // ---------------------------------------------------------------------
  // Bridge lifecycle and accept loop
  // ---------------------------------------------------------------------

  /** A bound `ServerSocket`: its port, and whether `close()` was called. */
  datatype Listener = Listener(port: int, closed: bool)

  /** The two lifecycle fields of the bridge. */
  datatype Lifecycle = Lifecycle(running: bool, serverSocket: Option<Listener>)

  const Created: Lifecycle := Lifecycle(false, None)

  /** `start()` on the caller's thread: only `running` changes. */
  function Started(s: Lifecycle): (t: Lifecycle)
    ensures t.running && t.serverSocket == s.serverSocket
  {
    s.(running := true)
  }

  /** The listener thread bound `ServerSocket(port)`. */
  function Bound(s: Lifecycle, port: int): (t: Lifecycle)
    ensures t.running == s.running && t.serverSocket == Some(Listener(port, false))
  {
    s.(serverSocket := Some(Listener(port, false)))
  }

  /** `stop()`: clears `running` and closes the server socket if there is one. */
  function Stopped(s: Lifecycle): (t: Lifecycle)
    ensures !t.running
    ensures t.serverSocket.None? <==> s.serverSocket.None?
    ensures t.serverSocket.Some? ==>
      t.serverSocket.value.closed && t.serverSocket.value.port == s.serverSocket.value.port
  {
    match s.serverSocket
    case None => Lifecycle(false, None)
    case Some(l) => Lifecycle(false, Some(l.(closed := true)))
  }

  /** A second `stop()` changes nothing. */
  lemma StopIdempotent(s: Lifecycle)
    ensures Stopped(Stopped(s)) == Stopped(s)
  {
  }

  /** `stop()` before `start()` changes nothing. */
  lemma StopBeforeStart()
    ensures Stopped(Created) == Created
  {
  }

  /** If `stop()` runs after `start()` but before the listener thread binds,
      the thread still binds and its socket is never closed. */
  lemma StopBeforeBindLeavesListenerOpen(port: int)
    ensures var s := Bound(Stopped(Started(Created)), port);
      !s.running && s.serverSocket == Some(Listener(port, false))
  {
  }

  /** The result of one `accept()` call. */
  datatype AcceptOutcome = Accepted(client: nat) | AcceptThrew

  /** The clients handed to `handleConnection`: every accepted one, in order,
      up to the first `accept()` that throws, which ends the loop. */
  function AcceptedBeforeFailure(outcomes: seq<AcceptOutcome>): (clients: seq<nat>)
    ensures |clients| <= |outcomes|
    ensures forall i :: 0 <= i < |clients| ==> outcomes[i] == Accepted(clients[i])
    ensures |clients| < |outcomes| ==> outcomes[|clients|].AcceptThrew?
  {
    if outcomes == [] || outcomes[0].AcceptThrew? then []
    else [outcomes[0].client] + AcceptedBeforeFailure(outcomes[1..])
  }

  class Bridge {
    const localPort: int
    const targetHost: string
    const targetPort: int
    var serverSocket: Option<Listener>
    var running: bool

    function State(): Lifecycle
      reads this
    {
      Lifecycle(running, serverSocket)
    }

    constructor (localPort: int, targetHost: string, targetPort: int)
      ensures this.localPort == localPort && this.targetHost == targetHost && this.targetPort == targetPort
      ensures State() == Created
    {
      this.localPort := localPort;
      this.targetHost := targetHost;
      this.targetPort := targetPort;
      serverSocket := None;
      running := false;
    }

    /** `start()`: sets `running`; the thread it spawns is `ListenerThread`. */
    method Start()
      modifies this
      ensures State() == Started(old(State()))
    {
      running := true;
    }

    /** The accept loop: while `running`, each accepted client is dispatched,
        and the first `accept()` that throws ends the loop. `outcomes` is the
        sequence of results `accept()` gives. */
    method AcceptLoop(outcomes: seq<AcceptOutcome>) returns (dispatched: seq<nat>)
      ensures dispatched == if running then AcceptedBeforeFailure(outcomes) else []
    {
      dispatched := [];
      var i := 0;
      while running && i < |outcomes|
        invariant 0 <= i <= |outcomes|
        invariant i <= |AcceptedBeforeFailure(outcomes)|
        invariant running ==> dispatched == AcceptedBeforeFailure(outcomes)[..i]
        invariant !running ==> dispatched == [] && i == 0
      {
        match outcomes[i]
        case AcceptThrew =>
          assert |AcceptedBeforeFailure(outcomes)| == i;
          return;
        case Accepted(client) =>
          dispatched := dispatched + [client];
        i := i + 1;
      }
    }

    /** The listener thread: `ServerSocket(localPort)` either throws (the
        exception is logged and the thread ends) or binds, then the accept
        loop runs. */
    method ListenerThread(bindSucceeds: bool, outcomes: seq<AcceptOutcome>) returns (dispatched: seq<nat>)
      modifies this
      ensures State() == if bindSucceeds then Bound(old(State()), localPort) else old(State())
      ensures dispatched == if bindSucceeds && running then AcceptedBeforeFailure(outcomes) else []
    {
      if !bindSucceeds {
        return [];
      }
      serverSocket := Some(Listener(localPort, false));
      dispatched := AcceptLoop(outcomes);
    }

    /** `stop()`. */
    method Stop()
      modifies this
      ensures State() == Stopped(old(State()))
    {
      running := false;
      match serverSocket
      case Some(l) => serverSocket := Some(l.(closed := true));
      case None =>
    }
  }
}
