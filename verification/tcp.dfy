/**
 * The TCP node's connections (`TCPCommunicationModule`): the decision a
 * handshake socket takes on its first line, admission of incoming peers,
 * the filter every later line passes, the bounded dialling of outgoing
 * connections, and the list queries.
 *
 * The connection list is a sequence of `Conn`s in the order they were
 * added. A connection is removed by identity, so each carries an `id`.
 */
module TcpConnections {
  import opened JavaTypes
  import opened ConnectedPeers
  import opened Messages
  import opened Dispatcher
  import opened Events

  datatype Conn = Conn(id: nat, peer: Peer, incoming: bool)

  /** The node's advertised address and its incoming-connection limit. */
  datatype Config = Config(self: Peer, maxIncoming: Int32)

  /** Text of the reply to a bad first line. */
  const HandshakeInvalid := "Invalid Protocol when handshaking"
  /** Text of the reply to a bad later line. */
  const LineInvalid := "Invalid Protocol"
  /** Attempts made to open an outgoing socket. */
  const MaxTries: nat := 5

  // ---------------------------------------------------------------------
  // List queries
  // ---------------------------------------------------------------------

  /** `getIncomingNum`: every listed connection is established, so this counts the incoming ones. */
  function IncomingNum(cs: seq<Conn>): (n: nat)
    ensures n <= |cs|
  {
    if cs == [] then 0 else (if cs[0].incoming then 1 else 0) + IncomingNum(cs[1..])
  }

  /** `getConnectedPeers`: every connection's peer, in list order. */
  function PeersOf(cs: seq<Conn>): (ps: seq<Peer>)
    ensures |ps| == |cs| && forall i | 0 <= i < |cs| :: ps[i] == cs[i].peer
  {
    if cs == [] then [] else [cs[0].peer] + PeersOf(cs[1..])
  }

  /** `close`: the connection with that identity leaves the list; the others stay in order. */
  function Close(cs: seq<Conn>, id: nat): (r: seq<Conn>)
    ensures forall c | c in r :: c in cs && c.id != id
    ensures forall c | c in cs && c.id != id :: c in r
    ensures |r| <= |cs|
  {
    if cs == [] then []
    else if cs[0].id == id then Close(cs[1..], id)
    else [cs[0]] + Close(cs[1..], id)
  }

  /** Closing a connection never raises the incoming count. */
  lemma {:induction false} CloseIncoming(cs: seq<Conn>, id: nat)
    ensures IncomingNum(Close(cs, id)) <= IncomingNum(cs)
  {
    if cs != [] {
      CloseIncoming(cs[1..], id);
    }
  }

  /** The index of the first connection to `p`, if any. */
  function FirstTo(cs: seq<Conn>, p: Peer): (r: Option<nat>)
    ensures r.Some? ==> r.value < |cs| && cs[r.value].peer == p
    ensures r.Some? ==> forall j | 0 <= j < r.value :: cs[j].peer != p
    ensures r.None? ==> forall j | 0 <= j < |cs| :: cs[j].peer != p
  {
    if cs == [] then None
    else if cs[0].peer == p then Some(0)
    else match FirstTo(cs[1..], p)
      case None => None
      case Some(i) => Some(i + 1)
  }

  /**
   * `disconnectPeer`: close the first connection whose peer `equals` the
   * given one and report whether there was one.
   */
  function DisconnectPeer(cs: seq<Conn>, p: Peer): (r: (seq<Conn>, bool))
    ensures r.1 <==> exists i | 0 <= i < |cs| :: cs[i].peer == p
    ensures !r.1 ==> r.0 == cs
    ensures r.1 ==> r.0 == Close(cs, cs[FirstTo(cs, p).value].id)
  {
    match FirstTo(cs, p)
    case None => (cs, false)
    case Some(i) => (Close(cs, cs[i].id), true)
  }

  // ---------------------------------------------------------------------
  // Handshake
  // ---------------------------------------------------------------------

  /**
   * `connections.contains(peer)`: `ArrayList.contains` asks the peer
   * whether it `equals` each element, and an element is a connection, not
   * a peer.
   */
  predicate ListContains(cs: seq<Conn>, p: Peer)
  {
    cs != [] && (Equals(p, NotAPeer) || ListContains(cs[1..], p))
  }

  /** The admission test as written never finds a peer in the list, whatever the list holds. */
  lemma {:induction false} ListContainsNever(cs: seq<Conn>, p: Peer)
    ensures !ListContains(cs, p)
  {
    if cs != [] {
      ListContainsNever(cs[1..], p);
    }
  }

  /**
   * What a handshake socket did with its first line: the connection list
   * afterwards, the lines it wrote back, the peers it then dials, and
   * whether it became a connection.
   */
  datatype Opening = Opening(conns: seq<Conn>, out: seq<Message>, dial: seq<Peer>, established: bool)

  /** `handleInvalidProtocol`: reply and close. */
  function Invalid(cs: seq<Conn>): Opening
  {
    Opening(cs, [InvalidProtocol(HandshakeInvalid)], [], false)
  }

  /**
   * `handshakeHandler` for a socket that is `incoming` (accepted) or not
   * (dialled), on the decoded first line (`None` when decoding gave null).
   * A new connection gets identity `id`.
   */
  function HandshakeStep(cfg: Config, cs: seq<Conn>, incoming: bool, m: Option<Message>, id: nat): (r: Opening)
    ensures r.established <==> |r.conns| == |cs| + 1
    ensures !r.established ==> r.conns == cs
    ensures r.established ==> r.conns[..|cs|] == cs && r.conns[|cs|].id == id && r.conns[|cs|].incoming == incoming
    ensures r.dial != [] ==> !incoming && m.Some? && m.value.ConnectionRefused? && r.dial == m.value.peers
    ensures r.established && incoming ==> m.Some? && m.value.HandshakeRequest?
                                          && r.conns[|cs|].peer == m.value.hostPort
                                          && IncomingNum(cs) < cfg.maxIncoming as int
    ensures r.established && !incoming ==> m.Some? && m.value.HandshakeResponse?
                                           && r.conns[|cs|].peer == m.value.hostPort
  {
    match m
    case Some(HandshakeResponse(hp)) =>
      if !incoming then Opening(cs + [Conn(id, hp, false)], [], [], true) else Invalid(cs)
    case Some(HandshakeRequest(hp)) =>
      if !incoming then Invalid(cs)
      else if !ListContains(cs, hp) && IncomingNum(cs) < cfg.maxIncoming as int then
        Opening(cs + [Conn(id, hp, true)], [HandshakeResponse(cfg.self)], [], true)
      else
        Opening(cs, [ConnectionRefused(PeersOf(cs))], [], false)
    case Some(ConnectionRefused(ps)) =>
      if !incoming then Opening(cs, [], ps, false) else Invalid(cs)
    case _ => Invalid(cs)
  }

  /**
   * The handshake table: a response or a refusal is accepted only on a
   * dialled socket, a request only on an accepted one; anything else gets
   * the invalid-protocol reply and the socket closes.
   */
  lemma HandshakeTable(cfg: Config, cs: seq<Conn>, incoming: bool, m: Option<Message>, id: nat)
    ensures var r := HandshakeStep(cfg, cs, incoming, m, id);
            var accepted := m.Some? && ((m.value.HandshakeRequest? && incoming)
                                        || ((m.value.HandshakeResponse? || m.value.ConnectionRefused?) && !incoming));
            && (!accepted ==> r == Invalid(cs))
            && (accepted && m.value.HandshakeResponse? ==> r.established && r.out == [])
            && (accepted && m.value.ConnectionRefused? ==> !r.established && r.out == [] && r.dial == m.value.peers)
  {
  }

  /** The request `sendSync` writes for each generated event, in order. */
  function SyncLines(events: seq<FileSystemEvent>): (ls: seq<Message>)
    requires forall k | 0 <= k < |events| :: events[k].kind != OtherEvent
    ensures |ls| == |events|
    ensures forall k | 0 <= k < |events| :: IsRequest(ls[k]) && Some(ls[k]) == HandleEvent(events[k])
  {
    seq(|events|, k requires 0 <= k < |events| => HandleEvent(events[k]).value)
  }

  /**
   * A handshake step with what follows it on the socket: once the
   * connection is established, the new `Connection`'s constructor sends
   * the sync requests for the generated events, after the handshake's own
   * reply.
   */
  function Open(cfg: Config, cs: seq<Conn>, incoming: bool, m: Option<Message>, id: nat,
                events: seq<FileSystemEvent>): (r: Opening)
    requires forall k | 0 <= k < |events| :: events[k].kind != OtherEvent
    ensures var h := HandshakeStep(cfg, cs, incoming, m, id);
            r.conns == h.conns && r.dial == h.dial && r.established == h.established
    ensures var h := HandshakeStep(cfg, cs, incoming, m, id);
            && |h.out| <= |r.out| && r.out[..|h.out|] == h.out
            && (r.established ==> r.out[|h.out|..] == SyncLines(events))
            && (!r.established ==> r.out == h.out)
  {
    var h := HandshakeStep(cfg, cs, incoming, m, id);
    if h.established then
      var out := h.out + SyncLines(events);
      assert out[|h.out|..] == SyncLines(events) && out[..|h.out|] == h.out;
      h.(out := out)
    else h
  }

  /**
   * The sync requests go out exactly on an established connection: a
   * dialled socket that reads a handshake response writes only them; an
   * admitted request is answered first; a socket that does not become a
   * connection writes no request at all.
   */
  lemma OpenSyncs(cfg: Config, cs: seq<Conn>, incoming: bool, m: Option<Message>, id: nat,
                  events: seq<FileSystemEvent>)
    requires forall k | 0 <= k < |events| :: events[k].kind != OtherEvent
    ensures var r := Open(cfg, cs, incoming, m, id, events);
            && (!incoming && m.Some? && m.value.HandshakeResponse? ==> r.established && r.out == SyncLines(events))
            && (incoming && r.established ==> r.out == [HandshakeResponse(cfg.self)] + SyncLines(events))
            && (!r.established ==> forall k | 0 <= k < |r.out| :: !IsRequest(r.out[k]))
  {
    var h := HandshakeStep(cfg, cs, incoming, m, id);
    var r := Open(cfg, cs, incoming, m, id, events);
    if r.established {
      assert r.out == r.out[..|h.out|] + r.out[|h.out|..];
    }
  }

  /**
   * As written, an accepted handshake request is admitted iff the incoming
   * limit has room: the peer being already connected plays no part. A
   * refusal lists the peer of every connection.
   */
  lemma AdmissionAsWritten(cfg: Config, cs: seq<Conn>, hp: Peer, id: nat)
    ensures var r := HandshakeStep(cfg, cs, true, Some(HandshakeRequest(hp)), id);
            && (r.established <==> IncomingNum(cs) < cfg.maxIncoming as int)
            && (r.established ==> r.out == [HandshakeResponse(cfg.self)])
            && (!r.established ==> r.out == [ConnectionRefused(PeersOf(cs))])
  {
    ListContainsNever(cs, hp);
  }

  /** Every step keeps the incoming connections within the limit. */
  lemma HandshakeKeepsLimit(cfg: Config, cs: seq<Conn>, incoming: bool, m: Option<Message>, id: nat)
    requires IncomingNum(cs) <= cfg.maxIncoming as int
    ensures IncomingNum(HandshakeStep(cfg, cs, incoming, m, id).conns) <= cfg.maxIncoming as int
  {
    var r := HandshakeStep(cfg, cs, incoming, m, id);
    if r.established {
      IncomingAppend(cs, r.conns[|cs|]);
      assert r.conns == cs + [r.conns[|cs|]];
    }
  }

  lemma {:induction false} IncomingAppend(cs: seq<Conn>, c: Conn)
    ensures IncomingNum(cs + [c]) == IncomingNum(cs) + (if c.incoming then 1 else 0)
  {
    if cs != [] {
      assert (cs + [c])[1..] == cs[1..] + [c];
      IncomingAppend(cs[1..], c);
    }
  }

  /** No two connections go to the same peer. */
  predicate DistinctPeers(cs: seq<Conn>)
  {
    forall i, j | 0 <= i < j < |cs| :: cs[i].peer != cs[j].peer
  }

  /**
   * As written, a peer that is already connected is admitted again: the
   * list then holds two connections to it.
   */
  lemma DuplicateAdmission(hp: Peer)
    ensures var cfg := Config(Peer("self", 8111), 2);
            var cs := [Conn(0, hp, true)];
            && DistinctPeers(cs)
            && !DistinctPeers(HandshakeStep(cfg, cs, true, Some(HandshakeRequest(hp)), 1).conns)
  {
    var cfg := Config(Peer("self", 8111), 2);
    var cs := [Conn(0, hp, true)];
    var r := HandshakeStep(cfg, cs, true, Some(HandshakeRequest(hp)), 1);
    assert IncomingNum(cs) == 1;
    ListContainsNever(cs, hp);
    assert r.conns == [Conn(0, hp, true), Conn(1, hp, true)];
  }

  /** Whether `p` already has a connection, compared as peers. */
  predicate Connected(cs: seq<Conn>, p: Peer)
  {
    exists i | 0 <= i < |cs| :: cs[i].peer == p
  }

  /**
   * The admission test with the membership check done on peers, as the
   * dialling side does it; everything else as in `HandshakeStep`.
   */
  function HandshakeStepCorrected(cfg: Config, cs: seq<Conn>, incoming: bool, m: Option<Message>, id: nat): (r: Opening)
    ensures r.established && incoming ==> m.Some? && m.value.HandshakeRequest? && !Connected(cs, m.value.hostPort)
    ensures !(incoming && m.Some? && m.value.HandshakeRequest?) ==> r == HandshakeStep(cfg, cs, incoming, m, id)
  {
    if incoming && m.Some? && m.value.HandshakeRequest? then
      var hp := m.value.hostPort;
      if !Connected(cs, hp) && IncomingNum(cs) < cfg.maxIncoming as int then
        Opening(cs + [Conn(id, hp, true)], [HandshakeResponse(cfg.self)], [], true)
      else
        Opening(cs, [ConnectionRefused(PeersOf(cs))], [], false)
    else HandshakeStep(cfg, cs, incoming, m, id)
  }

  /** With the correction, accepting a peer never gives it a second connection. */
  lemma CorrectedAdmitsOnce(cfg: Config, cs: seq<Conn>, m: Option<Message>, id: nat)
    requires DistinctPeers(cs)
    ensures DistinctPeers(HandshakeStepCorrected(cfg, cs, true, m, id).conns)
  {
    var r := HandshakeStepCorrected(cfg, cs, true, m, id);
    if r.established {
      assert forall i | 0 <= i < |cs| :: r.conns[i] == cs[i];
    }
  }

  // ---------------------------------------------------------------------
  // Established connections
  // ---------------------------------------------------------------------

  /** The verdict on a line received on an established connection. */
  datatype Verdict = Pass | Stop(reply: Option<Message>)

  /**
   * `checkReveive`: handshake messages and undecodable lines are answered
   * with an invalid-protocol message and stop the connection; an
   * invalid-protocol message stops it silently; the rest pass on to the
   * request handler.
   */
  function CheckReceive(m: Option<Message>): (v: Verdict)
    ensures v == Pass <==> m.Some? && !m.value.HandshakeRequest? && !m.value.HandshakeResponse?
                           && !m.value.ConnectionRefused? && !m.value.InvalidProtocol?
    ensures v == Stop(None) <==> m.Some? && m.value.InvalidProtocol?
  {
    match m
    case None => Stop(Some(InvalidProtocol(LineInvalid)))
    case Some(HandshakeRequest(_)) => Stop(Some(InvalidProtocol(LineInvalid)))
    case Some(HandshakeResponse(_)) => Stop(Some(InvalidProtocol(LineInvalid)))
    case Some(ConnectionRefused(_)) => Stop(Some(InvalidProtocol(LineInvalid)))
    case Some(InvalidProtocol(_)) => Stop(None)
    case _ => Pass
  }

  /** The connection list and the lines sent after one received line. */
  datatype Received = Received(conns: seq<Conn>, out: seq<Message>)

  /**
   * One iteration of `Connection.run` for connection `id`: a line that
   * passes the filter is handed to the request handler and its replies are
   * written in order; otherwise the connection closes.
   */
  function ReceiveLine(st: Store, io: Outcomes, cs: seq<Conn>, id: nat, m: Option<Message>, blockSize: Int64): (r: Received)
    requires CheckReceive(m) == Pass ==> HandlerDefined(st, io, m)
    ensures CheckReceive(m) == Pass ==> r == Received(cs, HandleRequest(st, io, m, blockSize).replies)
    ensures CheckReceive(m) != Pass ==> r.conns == Close(cs, id)
    ensures CheckReceive(m) != Pass ==> r.out == (if CheckReceive(m).reply.Some? then [CheckReceive(m).reply.value] else [])
  {
    match CheckReceive(m)
    case Pass => Received(cs, HandleRequest(st, io, m, blockSize).replies)
    case Stop(reply) => Received(Close(cs, id), if reply.Some? then [reply.value] else [])
  }

  /** The request handler only ever sees file-system and client messages on an established connection. */
  lemma DispatcherNeverSeesHandshakes(m: Option<Message>)
    requires CheckReceive(m) == Pass
    ensures m.Some? && ExchangeOf(m.value) != Some(Exchange.Handshake)
  {
  }

  // ---------------------------------------------------------------------
  // Dialling
  // ---------------------------------------------------------------------

  datatype Dialled = AlreadyConnected | Opened(tries: nat) | GaveUp

  /**
   * `InitHandShakeTask.run`: skip a peer that is already connected;
   * otherwise try to open a socket, at most `MaxTries` times. Try `k`
   * succeeds iff `k < |opens|` and `opens[k]`.
   */
  method Dial(cs: seq<Conn>, p: Peer, opens: seq<bool>) returns (r: Dialled)
    ensures r == AlreadyConnected <==> Connected(cs, p)
    ensures r.Opened? ==> 1 <= r.tries <= MaxTries && r.tries <= |opens| && opens[r.tries - 1]
    ensures r.Opened? ==> forall k | 0 <= k < r.tries - 1 :: !opens[k]
    ensures r == GaveUp <==> !Connected(cs, p) && forall k | 0 <= k < MaxTries && k < |opens| :: !opens[k]
  {
    var trycount := MaxTries;
    while trycount > 0
      invariant 0 <= trycount <= MaxTries
      invariant !Connected(cs, p) ==> forall k | 0 <= k < MaxTries - trycount :: k < |opens| ==> !opens[k]
      invariant trycount < MaxTries ==> !Connected(cs, p)
      decreases trycount
    {
      var i := 0;
      while i < |cs|
        invariant 0 <= i <= |cs|
        invariant forall j | 0 <= j < i :: cs[j].peer != p
      {
        if cs[i].peer == p {
          return AlreadyConnected;
        }
        i := i + 1;
      }
      var k := MaxTries - trycount;
      if k < |opens| && opens[k] {
        return Opened(k + 1);
      }
      trycount := trycount - 1;
    }
    return GaveUp;
  }
}
