/**
 * The UDP node's sessions (`UDPCommunicationModule`): one session per peer
 * address, the handshake and dispatch decision taken for each received
 * message, the retry scan's consequences, and the registry queries.
 *
 * The map from peer to connection is a sequence of sessions with distinct
 * peers, in the order the peers were first seen. Every handler is one
 * atomic step that returns the new registry and the datagrams sent, in
 * order; the clock is the parameter `now`.
 */
module UdpSessions {
  import opened JavaTypes
  import opened Documents
  import opened ConnectedPeers
  import opened Messages
  import opened Codec
  import opened CodecLaws
  import opened Dispatcher
  import opened PendingRequests
  import opened Events

  datatype Session = Session(peer: Peer, incoming: bool, connected: bool, pending: seq<Pending>)

  /** A datagram sent to a peer. */
  datatype Datagram = Datagram(to: Peer, msg: Message)

  /** The node's own advertised address, its incoming-connection limit and its configured block size. */
  datatype Config = Config(self: Peer, maxIncoming: Int32, blockSize: Int64)

  /** A registry and the datagrams one step sent. */
  datatype Step = Step(reg: seq<Session>, out: seq<Datagram>)

  /** Text of the invalid-protocol message this module sends. */
  const FormatInvalid := "invalid protocol format"

  // ---------------------------------------------------------------------
  // Registry
  // ---------------------------------------------------------------------

  /** The registry is a map: no peer has two sessions. */
  predicate Unique(reg: seq<Session>)
  {
    forall i, j | 0 <= i < j < |reg| :: reg[i].peer != reg[j].peer
  }

  predicate Registered(reg: seq<Session>, p: Peer)
  {
    exists i | 0 <= i < |reg| :: reg[i].peer == p
  }

  /** Where `p`'s session sits, if it has one. */
  function IndexOf(reg: seq<Session>, p: Peer): (r: Option<nat>)
    ensures r.Some? ==> r.value < |reg| && reg[r.value].peer == p
    ensures r.Some? ==> forall j | 0 <= j < r.value :: reg[j].peer != p
    ensures r.None? <==> !Registered(reg, p)
  {
    if reg == [] then None
    else if reg[0].peer == p then Some(0)
    else match IndexOf(reg[1..], p)
      case None => (assert forall i | 1 <= i < |reg| :: reg[i] == reg[1..][i - 1]; None)
      case Some(i) => Some(i + 1)
  }

  /** `endConnection`: the peer's session leaves the map; every other session stays, in order. */
  function Remove(reg: seq<Session>, p: Peer): (r: seq<Session>)
    ensures !Registered(r, p)
    ensures forall q | q != p :: Registered(r, q) <==> Registered(reg, q)
    ensures Unique(reg) ==> Unique(r)
    ensures |r| <= |reg|
  {
    if reg == [] then []
    else
      var rest := Remove(reg[1..], p);
      assert reg == [reg[0]] + reg[1..];
      RegistryCons(reg[0], reg[1..]);
      if reg[0].peer == p then rest
      else
        RegistryCons(reg[0], rest);
        [reg[0]] + rest
  }

  /** Registration and uniqueness of a registry split at its first session. */
  lemma RegistryCons(s: Session, rest: seq<Session>)
    ensures forall q :: Registered([s] + rest, q) <==> q == s.peer || Registered(rest, q)
    ensures Unique([s] + rest) <==> !Registered(rest, s.peer) && Unique(rest)
  {
    RegisteredCons(s, rest);
    UniqueCons(s, rest);
  }

  lemma RegisteredCons(s: Session, rest: seq<Session>)
    ensures forall q :: Registered([s] + rest, q) <==> q == s.peer || Registered(rest, q)
  {
    var r := [s] + rest;
    forall q ensures Registered(r, q) <==> q == s.peer || Registered(rest, q) {
      if Registered(r, q) && q != s.peer {
        var i :| 0 <= i < |r| && r[i].peer == q;
        assert rest[i - 1].peer == q;
      }
      if Registered(rest, q) {
        var i :| 0 <= i < |rest| && rest[i].peer == q;
        assert r[i + 1].peer == q;
      }
      if q == s.peer {
        assert r[0].peer == q;
      }
    }
  }

  lemma UniqueCons(s: Session, rest: seq<Session>)
    ensures Unique([s] + rest) <==> !Registered(rest, s.peer) && Unique(rest)
  {
    var r := [s] + rest;
    if Unique(r) {
      forall i, j | 0 <= i < j < |rest| ensures rest[i].peer != rest[j].peer {
        assert rest[i].peer == r[i + 1].peer && rest[j].peer == r[j + 1].peer;
      }
      assert forall i | 0 <= i < |rest| :: rest[i].peer == r[i + 1].peer && r[0].peer == s.peer;
    }
    if !Registered(rest, s.peer) && Unique(rest) {
      forall i, j | 0 <= i < j < |r| ensures r[i].peer != r[j].peer {
        if i == 0 {
          assert r[j].peer == rest[j - 1].peer;
        } else {
          assert r[i].peer == rest[i - 1].peer && r[j].peer == rest[j - 1].peer;
        }
      }
    }
  }

  /** Whether a session counts against the incoming limit. */
  function CountsIncoming(s: Session): nat
  {
    if s.connected && s.incoming then 1 else 0
  }

  /** `getIncomingConnectionsNum`: connected sessions that the peer opened. */
  function IncomingCount(reg: seq<Session>): (n: nat)
    ensures n <= |reg|
  {
    if reg == [] then 0 else CountsIncoming(reg[0]) + IncomingCount(reg[1..])
  }

  /** `getConnectedPeers`: the peers of connected sessions, in registry order. */
  function ConnectedList(reg: seq<Session>): (ps: seq<Peer>)
    ensures |ps| <= |reg|
    ensures forall p :: p in ps <==> exists i | 0 <= i < |reg| :: reg[i].peer == p && reg[i].connected
  {
    if reg == [] then []
    else
      var rest := ConnectedList(reg[1..]);
      assert forall i | 1 <= i < |reg| :: reg[1..][i - 1] == reg[i];
      (if reg[0].connected then [reg[0].peer] else []) + rest
  }

  /** No more sessions are counted as incoming than there are connected peers. */
  lemma {:induction false} IncomingAmongConnected(reg: seq<Session>)
    ensures IncomingCount(reg) <= |ConnectedList(reg)|
  {
    if reg != [] {
      IncomingAmongConnected(reg[1..]);
    }
  }

  /** Replacing one session changes the incoming count by that session's difference only. */
  lemma {:induction false} IncomingCountUpdate(reg: seq<Session>, i: nat, s: Session)
    requires i < |reg|
    ensures IncomingCount(reg[i := s]) == IncomingCount(reg) - CountsIncoming(reg[i]) + CountsIncoming(s)
  {
    if i == 0 {
      assert reg[i := s][1..] == reg[1..];
    } else {
      assert reg[i := s][1..] == reg[1..][i - 1 := s];
      IncomingCountUpdate(reg[1..], i - 1, s);
    }
  }

  /** Ending a session never raises the incoming count. */
  lemma {:induction false} IncomingCountRemove(reg: seq<Session>, p: Peer)
    ensures IncomingCount(Remove(reg, p)) <= IncomingCount(reg)
  {
    if reg != [] {
      IncomingCountRemove(reg[1..], p);
    }
  }

  /** An appended session that is not connected is not counted. */
  lemma {:induction false} IncomingCountAppend(reg: seq<Session>, s: Session)
    requires !s.connected
    ensures IncomingCount(reg + [s]) == IncomingCount(reg)
  {
    if reg != [] {
      assert (reg + [s])[1..] == reg[1..] + [s];
      IncomingCountAppend(reg[1..], s);
    }
  }

  /** A replacement with the same peer keeps the registry a map. */
  lemma UniqueUpdate(reg: seq<Session>, i: nat, s: Session)
    requires Unique(reg) && i < |reg| && s.peer == reg[i].peer
    ensures Unique(reg[i := s])
  {
  }

  // ---------------------------------------------------------------------
  // Sending
  // ---------------------------------------------------------------------

  /** `send(m, false)` for each message in turn: the datagrams, and the session's pending list after. */
  function SendAll(s: Session, ms: seq<Message>, now: int): (r: (Session, seq<Datagram>))
    ensures r.0.peer == s.peer && r.0.incoming == s.incoming && r.0.connected == s.connected
    ensures |r.1| == |ms| && forall k | 0 <= k < |ms| :: r.1[k] == Datagram(s.peer, ms[k])
    ensures |s.pending| <= |r.0.pending| && r.0.pending[..|s.pending|] == s.pending
    ensures (forall k | 0 <= k < |ms| :: IsRequest(ms[k])) ==> r.0.pending == s.pending + Fresh(ms, now)
    ensures (forall k | 0 <= k < |ms| :: !IsRequest(ms[k])) ==> r.0.pending == s.pending
    decreases |ms|
  {
    if ms == [] then (s, [])
    else
      var s1 := s.(pending := Record(s.pending, ms[0], false, now));
      var rest := SendAll(s1, ms[1..], now);
      assert rest.0.pending[..|s.pending|] == rest.0.pending[..|s1.pending|][..|s.pending|];
      SendAllStep(s, ms, now);
      (rest.0, [Datagram(s.peer, ms[0])] + rest.1)
  }

  /** Splitting the messages at the first: the first is recorded, and the rest are all requests, or all not, as the whole is. */
  lemma SendAllStep(s: Session, ms: seq<Message>, now: int)
    requires ms != []
    ensures Fresh(ms, now) == [Pending(ms[0], now, 0)] + Fresh(ms[1..], now)
    ensures (forall k | 0 <= k < |ms| :: IsRequest(ms[k]))
            ==> Record(s.pending, ms[0], false, now) == s.pending + [Pending(ms[0], now, 0)]
                && forall k | 0 <= k < |ms[1..]| :: IsRequest(ms[1..][k])
    ensures (forall k | 0 <= k < |ms| :: !IsRequest(ms[k]))
            ==> Record(s.pending, ms[0], false, now) == s.pending
                && forall k | 0 <= k < |ms[1..]| :: !IsRequest(ms[1..][k])
  {
    assert forall k | 0 <= k < |ms| - 1 :: ms[1..][k] == ms[k + 1];
  }

  /** `startConnection`: the session is connected and forgets what it was waiting for. */
  function Start(s: Session): (r: Session)
    ensures r.peer == s.peer && r.incoming == s.incoming
    ensures r.connected && r.pending == []
  {
    s.(connected := true, pending := [])
  }

  /**
   * `initHandshake(p)`: a peer with no session gets an outgoing,
   * unconnected one, and a handshake request naming this node is sent and
   * recorded as pending; a known peer changes nothing.
   */
  function InitHandshake(cfg: Config, reg: seq<Session>, p: Peer, now: int): (r: Step)
    ensures Registered(reg, p) ==> r == Step(reg, [])
    ensures !Registered(reg, p) ==>
            && r.reg == reg + [Session(p, false, false, [Pending(HandshakeRequest(cfg.self), now, 0)])]
            && r.out == [Datagram(p, HandshakeRequest(cfg.self))]
  {
    if IndexOf(reg, p).Some? then Step(reg, [])
    else
      var m := HandshakeRequest(cfg.self);
      Step(reg + [Session(p, false, false, Record([], m, false, now))], [Datagram(p, m)])
  }

  /** A handshake started with each listed peer, in list order. */
  function InitAll(cfg: Config, reg: seq<Session>, ps: seq<Peer>, now: int): (r: Step)
    ensures |reg| <= |r.reg| && r.reg[..|reg|] == reg
    ensures forall p | p in ps :: Registered(r.reg, p)
    decreases |ps|
  {
    if ps == [] then Step(reg, [])
    else
      var a := InitHandshake(cfg, reg, ps[0], now);
      assert Registered(a.reg, ps[0]) by {
        if !Registered(reg, ps[0]) { assert a.reg[|reg|].peer == ps[0]; }
      }
      var b := InitAll(cfg, a.reg, ps[1..], now);
      assert Registered(b.reg, ps[0]) by {
        var i :| 0 <= i < |a.reg| && a.reg[i].peer == ps[0];
        assert b.reg[i] == a.reg[i];
      }
      assert b.reg[..|reg|] == b.reg[..|a.reg|][..|reg|];
      Step(b.reg, a.out + b.out)
  }

  /** Starting handshakes keeps the registry a map and adds only unconnected sessions. */
  lemma {:induction false} InitAllKeepsInvariants(cfg: Config, reg: seq<Session>, ps: seq<Peer>, now: int)
    requires Unique(reg)
    ensures Unique(InitAll(cfg, reg, ps, now).reg)
    ensures IncomingCount(InitAll(cfg, reg, ps, now).reg) == IncomingCount(reg)
    decreases |ps|
  {
    if ps != [] {
      var a := InitHandshake(cfg, reg, ps[0], now);
      if !Registered(reg, ps[0]) {
        var s := Session(ps[0], false, false, [Pending(HandshakeRequest(cfg.self), now, 0)]);
        IncomingCountAppend(reg, s);
        assert Unique(a.reg);
      }
      InitAllKeepsInvariants(cfg, a.reg, ps[1..], now);
    }
  }

  // ---------------------------------------------------------------------
  // Receiving
  // ---------------------------------------------------------------------

  /** `listen`: a datagram from an unknown peer opens an incoming, unconnected session. */
  function Arrive(reg: seq<Session>, from: Peer): (r: seq<Session>)
    ensures Registered(r, from)
    ensures Registered(reg, from) ==> r == reg
    ensures !Registered(reg, from) ==> r == reg + [Session(from, true, false, [])]
  {
    if IndexOf(reg, from).Some? then reg
    else
      var r := reg + [Session(from, true, false, [])];
      assert r[|reg|].peer == from;
      r
  }

  /** What the dispatcher needs of a message the session hands it after re-encoding. */
  predicate Dispatchable(st: Store, io: Outcomes, m: Message)
  {
    Convertible(Encode(m)) && HandlerDefined(st, io, Decode(Encode(m)))
  }

  /**
   * A connected session hands any other message to the request handler
   * (as its text, so it is decoded again), sends the replies in order, and
   * retires the pending request a received response answers.
   */
  function Dispatch(cfg: Config, st: Store, io: Outcomes, s: Session, m: Message, now: int): (r: (Session, seq<Datagram>))
    requires Dispatchable(st, io, m)
    ensures r.0.peer == s.peer && r.0.connected == s.connected && r.0.incoming == s.incoming
    ensures var h := HandleRequest(st, io, Decode(Encode(m)), cfg.blockSize);
            |r.1| == |h.replies| && forall k | 0 <= k < |r.1| :: r.1[k] == Datagram(s.peer, h.replies[k])
    ensures IsRequest(m) ==> |s.pending| <= |r.0.pending| && r.0.pending[..|s.pending|] == s.pending
    ensures var sent := SendAll(s, HandleRequest(st, io, Decode(Encode(m)), cfg.blockSize).replies, now).0.pending;
            !IsRequest(m) ==> r.0.pending == Retire(sent, m)
  {
    var h := HandleRequest(st, io, Decode(Encode(m)), cfg.blockSize);
    var sent := SendAll(s, h.replies, now);
    var t := if IsRequest(m) then sent.0 else sent.0.(pending := Retire(sent.0.pending, m));
    (t, sent.1)
  }

  /** `handleInvalidProtocol`: tell the peer, then end the session. */
  function Reject(reg: seq<Session>, from: Peer): (r: Step)
    ensures !Registered(r.reg, from)
    ensures r.out == [Datagram(from, InvalidProtocol(FormatInvalid))]
  {
    Step(Remove(reg, from), [Datagram(from, InvalidProtocol(FormatInvalid))])
  }

  /**
   * `handleReceived` for the session of `from`, on the decoded message
   * (`None` when decoding gave null).
   */
  function Process(cfg: Config, st: Store, io: Outcomes, reg: seq<Session>, from: Peer,
                   m: Option<Message>, now: int): (r: Step)
    requires Registered(reg, from)
    requires m.Some? && !m.value.HandshakeRequest? && !m.value.HandshakeResponse?
             && !m.value.ConnectionRefused? && !m.value.InvalidProtocol? && SessionOf(reg, from).connected
             ==> Dispatchable(st, io, m.value)
    ensures m.None? ==> r == Reject(reg, from)
    ensures m.Some? && !m.value.ConnectionRefused? ==> forall k | 0 <= k < |r.out| :: r.out[k].to == from
  {
    var i := IndexOf(reg, from).value;
    var s := reg[i];
    match m
    case None => Reject(reg, from)
    case Some(HandshakeRequest(_)) =>
      if s.connected then Step(reg, [Datagram(from, HandshakeResponse(cfg.self))])
      else if IncomingCount(reg) < cfg.maxIncoming as int then
        Step(reg[i := Start(s)], [Datagram(from, HandshakeResponse(cfg.self))])
      else
        Step(Remove(reg, from), [Datagram(from, ConnectionRefused(ConnectedList(reg)))])
    case Some(HandshakeResponse(_)) =>
      if s.connected then Step(reg, []) else Step(reg[i := Start(s)], [])
    case Some(ConnectionRefused(ps)) =>
      InitAll(cfg, Remove(reg, from), ps, now)
    case Some(InvalidProtocol(_)) =>
      if s.connected then Reject(reg, from) else Step(Remove(reg, from), [])
    case Some(other) =>
      if !s.connected then Reject(reg, from)
      else
        var d := Dispatch(cfg, st, io, s, other, now);
        Step(reg[i := d.0], d.1)
  }

  /** A datagram from `from` arrives and is handled. */
  function Receive(cfg: Config, st: Store, io: Outcomes, reg: seq<Session>, from: Peer,
                   m: Option<Message>, now: int): (r: Step)
    requires m.Some? && !m.value.HandshakeRequest? && !m.value.HandshakeResponse?
             && !m.value.ConnectionRefused? && !m.value.InvalidProtocol? && SessionOf(Arrive(reg, from), from).connected
             ==> Dispatchable(st, io, m.value)
    ensures m.None? ==> !Registered(r.reg, from) && r.out == [Datagram(from, InvalidProtocol(FormatInvalid))]
  {
    Process(cfg, st, io, Arrive(reg, from), from, m, now)
  }

  /** The session of a registered peer. */
  function SessionOf(reg: seq<Session>, p: Peer): Session
    requires Registered(reg, p)
  {
    reg[IndexOf(reg, p).value]
  }

  // ---------------------------------------------------------------------
  // Decision table
  // ---------------------------------------------------------------------

  /**
   * Before the handshake completes, a handshake request is accepted iff
   * fewer than the maximum incoming sessions are connected; a refusal
   * lists the connected peers and ends the session.
   */
  lemma HandshakeAdmission(cfg: Config, st: Store, io: Outcomes, reg: seq<Session>, from: Peer, hp: Peer, now: int)
    requires Registered(reg, from) && !SessionOf(reg, from).connected
    ensures var r := Process(cfg, st, io, reg, from, Some(HandshakeRequest(hp)), now);
            && (Registered(r.reg, from) <==> IncomingCount(reg) < cfg.maxIncoming as int)
            && (Registered(r.reg, from) ==> SessionOf(r.reg, from).connected && SessionOf(r.reg, from).pending == []
                                            && r.out == [Datagram(from, HandshakeResponse(cfg.self))])
            && (!Registered(r.reg, from) ==> r.out == [Datagram(from, ConnectionRefused(ConnectedList(reg)))])
  {
    var i := IndexOf(reg, from).value;
    var r := Process(cfg, st, io, reg, from, Some(HandshakeRequest(hp)), now);
    if IncomingCount(reg) < cfg.maxIncoming as int {
      assert r.reg == reg[i := Start(reg[i])];
      assert r.reg[i].peer == from;
      IndexOfFirst(r.reg, from, i);
    }
  }

  /** `IndexOf` finds the first session of a peer; in a map, the only one. */
  lemma IndexOfFirst(reg: seq<Session>, p: Peer, i: nat)
    requires i < |reg| && reg[i].peer == p
    requires forall j | 0 <= j < i :: reg[j].peer != p
    ensures IndexOf(reg, p) == Some(i)
  {
    if i > 0 {
      assert forall j | 0 <= j < i - 1 :: reg[1..][j].peer != p by {
        forall j | 0 <= j < i - 1 ensures reg[1..][j].peer != p { assert reg[1..][j] == reg[j + 1]; }
      }
      IndexOfFirst(reg[1..], p, i - 1);
    }
  }

  /** Once connected, a handshake request is answered and a handshake response ignored; the registry stays. */
  lemma ConnectedHandshakes(cfg: Config, st: Store, io: Outcomes, reg: seq<Session>, from: Peer, hp: Peer, now: int)
    requires Registered(reg, from) && SessionOf(reg, from).connected
    ensures Process(cfg, st, io, reg, from, Some(HandshakeRequest(hp)), now)
            == Step(reg, [Datagram(from, HandshakeResponse(cfg.self))])
    ensures Process(cfg, st, io, reg, from, Some(HandshakeResponse(hp)), now) == Step(reg, [])
  {
  }

  /**
   * A refusal ends the session and starts a handshake with every listed
   * peer that has no session yet, whether or not the session was connected.
   */
  lemma RefusalRedirects(cfg: Config, st: Store, io: Outcomes, reg: seq<Session>, from: Peer, ps: seq<Peer>, now: int)
    requires Registered(reg, from)
    ensures var r := Process(cfg, st, io, reg, from, Some(ConnectionRefused(ps)), now);
            && (from !in ps ==> !Registered(r.reg, from))
            && (forall p | p in ps :: Registered(r.reg, p))
  {
    var rem := Remove(reg, from);
    var r := InitAll(cfg, rem, ps, now);
    if from !in ps {
      NotInitialised(cfg, rem, ps, now, from);
    }
  }

  /** Starting handshakes with other peers never registers `p`. */
  lemma {:induction false} NotInitialised(cfg: Config, reg: seq<Session>, ps: seq<Peer>, now: int, p: Peer)
    requires !Registered(reg, p) && p !in ps
    ensures !Registered(InitAll(cfg, reg, ps, now).reg, p)
    decreases |ps|
  {
    if ps != [] {
      var a := InitHandshake(cfg, reg, ps[0], now);
      assert !Registered(a.reg, p) by {
        if !Registered(reg, ps[0]) {
          forall i | 0 <= i < |a.reg| ensures a.reg[i].peer != p {
            if i < |reg| { assert a.reg[i] == reg[i]; }
          }
        }
      }
      NotInitialised(cfg, a.reg, ps[1..], now, p);
    }
  }

  /**
   * Before the handshake, an invalid-protocol message ends the session
   * silently and anything other than a handshake message is rejected.
   */
  lemma UnconnectedRejects(cfg: Config, st: Store, io: Outcomes, reg: seq<Session>, from: Peer, m: Message, now: int)
    requires Registered(reg, from) && !SessionOf(reg, from).connected
    requires !m.HandshakeRequest? && !m.HandshakeResponse? && !m.ConnectionRefused?
    ensures var r := Process(cfg, st, io, reg, from, Some(m), now);
            && !Registered(r.reg, from)
            && (m.InvalidProtocol? ==> r.out == [])
            && (!m.InvalidProtocol? ==> r.out == [Datagram(from, InvalidProtocol(FormatInvalid))])
  {
  }

  /**
   * The first datagram from a new peer, if it is not a handshake message,
   * is rejected without reaching the handler: the peer is told and keeps
   * no session.
   */
  lemma NewPeerRejected(cfg: Config, st: Store, io: Outcomes, reg: seq<Session>, from: Peer, m: Message, now: int)
    requires !Registered(reg, from)
    requires !m.HandshakeRequest? && !m.HandshakeResponse? && !m.ConnectionRefused? && !m.InvalidProtocol?
    ensures !SessionOf(Arrive(reg, from), from).connected
    ensures var r := Receive(cfg, st, io, reg, from, Some(m), now);
            && !Registered(r.reg, from)
            && r.out == [Datagram(from, InvalidProtocol(FormatInvalid))]
  {
    IndexOfFirst(Arrive(reg, from), from, |reg|);
  }

  /**
   * A connected session dispatches every non-handshake message: the
   * handler's replies go back in order and the requests among them start
   * waiting; a request received keeps every earlier pending entry, and a
   * response received then retires the first pending request it answers.
   */
  lemma ConnectedDispatches(cfg: Config, st: Store, io: Outcomes, reg: seq<Session>, from: Peer, m: Message, now: int)
    requires Unique(reg) && Registered(reg, from) && SessionOf(reg, from).connected
    requires !m.HandshakeRequest? && !m.HandshakeResponse? && !m.ConnectionRefused? && !m.InvalidProtocol?
    requires Dispatchable(st, io, m)
    ensures var r := Process(cfg, st, io, reg, from, Some(m), now);
            var h := HandleRequest(st, io, Decode(Encode(m)), cfg.blockSize);
            var before := SessionOf(reg, from).pending;
            && Registered(r.reg, from)
            && SessionOf(r.reg, from).connected
            && r.out == seq(|h.replies|, k requires 0 <= k < |h.replies| => Datagram(from, h.replies[k]))
            && (IsRequest(m) ==> |before| <= |SessionOf(r.reg, from).pending|
                                 && SessionOf(r.reg, from).pending[..|before|] == before)
            && (!IsRequest(m) ==> SessionOf(r.reg, from).pending
                                  == Retire(SendAll(SessionOf(reg, from), h.replies, now).0.pending, m))
  {
    var i := IndexOf(reg, from).value;
    var r := Process(cfg, st, io, reg, from, Some(m), now);
    var d := Dispatch(cfg, st, io, reg[i], m, now);
    assert r.reg == reg[i := d.0];
    IndexOfFirst(r.reg, from, i);
  }

  // ---------------------------------------------------------------------
  // Incoming limit
  // ---------------------------------------------------------------------

  /**
   * As written, a handshake response received on a session the peer
   * opened connects it without the incoming-limit check, so an
   * unsolicited response pushes the count past the maximum.
   */
  lemma UnsolicitedResponseExceedsLimit(st: Store, io: Outcomes, hp: Peer)
    ensures var cfg := Config(Peer("self", 8000), 1, 8192);
            var a := Session(Peer("a", 1), true, true, []);
            var b := Peer("b", 2);
            var reg := [a];
            && IncomingCount(reg) <= cfg.maxIncoming as int
            && IncomingCount(Receive(cfg, st, io, reg, b, Some(HandshakeResponse(hp)), 0).reg) > cfg.maxIncoming as int
  {
    var cfg := Config(Peer("self", 8000), 1, 8192);
    var a := Session(Peer("a", 1), true, true, []);
    var b := Peer("b", 2);
    var reg := [a];
    var reg1 := Arrive(reg, b);
    assert reg1 == [a, Session(b, true, false, [])];
    assert IndexOf(reg1, b) == Some(1);
    var r := Receive(cfg, st, io, reg, b, Some(HandshakeResponse(hp)), 0);
    assert r.reg == [a, Session(b, true, true, [])];
    assert IncomingCount(r.reg[1..]) == 1;
  }

  /**
   * `handleReceived` with the handshake response accepted only on
   * sessions this node opened, as on the TCP side; on a session the peer
   * opened it is rejected as an invalid message.
   */
  function ProcessCorrected(cfg: Config, st: Store, io: Outcomes, reg: seq<Session>, from: Peer,
                            m: Option<Message>, now: int): (r: Step)
    requires Registered(reg, from)
    requires m.Some? && !m.value.HandshakeRequest? && !m.value.HandshakeResponse?
             && !m.value.ConnectionRefused? && !m.value.InvalidProtocol? && SessionOf(reg, from).connected
             ==> Dispatchable(st, io, m.value)
    ensures !(m.Some? && m.value.HandshakeResponse?) ==> r == Process(cfg, st, io, reg, from, m, now)
  {
    var s := SessionOf(reg, from);
    if m.Some? && m.value.HandshakeResponse? && !s.connected && s.incoming then Reject(reg, from)
    else Process(cfg, st, io, reg, from, m, now)
  }

  /** A map of sessions whose connected incoming sessions are within the limit. */
  predicate WithinLimit(cfg: Config, reg: seq<Session>)
  {
    Unique(reg) && IncomingCount(reg) <= Max0(cfg.maxIncoming as int)
  }

  function Max0(x: int): nat { if x < 0 then 0 else x }

  /** With the correction, no step takes the registry past the incoming limit or breaks it as a map. */
  lemma CorrectedKeepsLimit(cfg: Config, st: Store, io: Outcomes, reg: seq<Session>, from: Peer,
                            m: Option<Message>, now: int)
    requires WithinLimit(cfg, reg) && Registered(reg, from)
    requires m.Some? && !m.value.HandshakeRequest? && !m.value.HandshakeResponse?
             && !m.value.ConnectionRefused? && !m.value.InvalidProtocol? && SessionOf(reg, from).connected
             ==> Dispatchable(st, io, m.value)
    ensures WithinLimit(cfg, ProcessCorrected(cfg, st, io, reg, from, m, now).reg)
  {
    IncomingCountRemove(reg, from);
    match m
    case None =>
    case Some(HandshakeRequest(_)) => HandshakeKeepsLimit(cfg, st, io, reg, from, m, now);
    case Some(HandshakeResponse(_)) => HandshakeKeepsLimit(cfg, st, io, reg, from, m, now);
    case Some(ConnectionRefused(ps)) => InitAllKeepsInvariants(cfg, Remove(reg, from), ps, now);
    case Some(InvalidProtocol(_)) =>
    case Some(other) => DispatchKeepsLimit(cfg, st, io, reg, from, other, now);
  }

  lemma HandshakeKeepsLimit(cfg: Config, st: Store, io: Outcomes, reg: seq<Session>, from: Peer,
                            m: Option<Message>, now: int)
    requires WithinLimit(cfg, reg) && Registered(reg, from)
    requires m.Some? && (m.value.HandshakeRequest? || m.value.HandshakeResponse?)
    ensures WithinLimit(cfg, ProcessCorrected(cfg, st, io, reg, from, m, now).reg)
  {
    var i := IndexOf(reg, from).value;
    var s := reg[i];
    IncomingCountRemove(reg, from);
    if m.value.HandshakeRequest? {
      if !s.connected && IncomingCount(reg) < cfg.maxIncoming as int {
        IncomingCountUpdate(reg, i, Start(s));
        UniqueUpdate(reg, i, Start(s));
      }
    } else if !s.connected && !s.incoming {
      IncomingCountUpdate(reg, i, Start(s));
      UniqueUpdate(reg, i, Start(s));
    }
  }

  lemma DispatchKeepsLimit(cfg: Config, st: Store, io: Outcomes, reg: seq<Session>, from: Peer,
                           m: Message, now: int)
    requires WithinLimit(cfg, reg) && Registered(reg, from)
    requires !m.HandshakeRequest? && !m.HandshakeResponse? && !m.ConnectionRefused? && !m.InvalidProtocol?
    requires SessionOf(reg, from).connected ==> Dispatchable(st, io, m)
    ensures WithinLimit(cfg, ProcessCorrected(cfg, st, io, reg, from, Some(m), now).reg)
  {
    var i := IndexOf(reg, from).value;
    var s := reg[i];
    IncomingCountRemove(reg, from);
    if s.connected {
      var d := Dispatch(cfg, st, io, s, m, now);
      IncomingCountUpdate(reg, i, d.0);
      UniqueUpdate(reg, i, d.0);
    }
  }

  // ---------------------------------------------------------------------
  // Retry scan, sync, broadcast and client commands
  // ---------------------------------------------------------------------

  /**
   * One retry scan of `p`'s session: resent requests go out in order; if a
   * request has used up its resends the session ends.
   */
  function RetryStep(reg: seq<Session>, p: Peer, now: int): (r: Step)
    requires Registered(reg, p)
    ensures var sc := RetryScan(SessionOf(reg, p).pending, now);
            && (sc.expired <==> !Registered(r.reg, p))
            && |r.out| == |sc.resent|
            && forall k | 0 <= k < |r.out| :: r.out[k] == Datagram(p, sc.resent[k])
  {
    var i := IndexOf(reg, p).value;
    var sc := RetryScan(reg[i].pending, now);
    var out := seq(|sc.resent|, k requires 0 <= k < |sc.resent| => Datagram(p, sc.resent[k]));
    if sc.expired then Step(Remove(reg, p), out)
    else
      var r := reg[i := reg[i].(pending := sc.kept)];
      assert r[i].peer == p;
      Step(r, out)
  }

  /** `sync`: the request for each generated event is sent to the session's peer and recorded as pending. */
  function Sync(s: Session, events: seq<FileSystemEvent>, now: int): (r: (Session, seq<Datagram>))
    requires forall k | 0 <= k < |events| :: events[k].kind != OtherEvent
    ensures |r.1| == |events|
    ensures forall k | 0 <= k < |events| :: r.1[k] == Datagram(s.peer, HandleEvent(events[k]).value)
    ensures |r.0.pending| == |s.pending| + |events|
    ensures r.0.pending[..|s.pending|] == s.pending
    ensures forall k | 0 <= k < |events| :: r.0.pending[|s.pending| + k] == Pending(HandleEvent(events[k]).value, now, 0)
  {
    var ms := seq(|events|, k requires 0 <= k < |events| => HandleEvent(events[k]).value);
    SyncAllRequests(s, ms, now);
    SendAll(s, ms, now)
  }

  /** Sending only requests records every one of them, in order, as waiting since `now` with no resends. */
  lemma SyncAllRequests(s: Session, ms: seq<Message>, now: int)
    requires forall k | 0 <= k < |ms| :: IsRequest(ms[k])
    ensures SendAll(s, ms, now).0.pending == s.pending + Fresh(ms, now)
  {
  }

  /** One datagram carrying `m` to each of `ps`, in order. */
  function Addressed(ps: seq<Peer>, m: Message): (ds: seq<Datagram>)
    ensures |ds| == |ps| && forall k | 0 <= k < |ps| :: ds[k] == Datagram(ps[k], m)
  {
    if ps == [] then [] else [Datagram(ps[0], m)] + Addressed(ps[1..], m)
  }

  /** `broadcast`: the message goes to every connected session, in registry order. */
  function Broadcast(reg: seq<Session>, m: Message, now: int): (r: Step)
    ensures |r.reg| == |reg|
    ensures forall i | 0 <= i < |reg| ::
              r.reg[i] == reg[i].(pending := if reg[i].connected then Record(reg[i].pending, m, false, now)
                                             else reg[i].pending)
    ensures r.out == Addressed(ConnectedList(reg), m)
  {
    if reg == [] then Step([], [])
    else
      var rest := Broadcast(reg[1..], m, now);
      // `send(m)` to a connected session: one datagram, and a request waits for its reply.
      var out := if reg[0].connected then [Datagram(reg[0].peer, m)] + rest.out else rest.out;
      assert out == Addressed(ConnectedList(reg), m) by {
        BroadcastOut(reg, m);
      }
      var head := reg[0].(pending := if reg[0].connected then Record(reg[0].pending, m, false, now) else reg[0].pending);
      var kept := [head] + rest.reg;
      assert forall i | 0 <= i < |reg| :: kept[i] == reg[i].(pending := if reg[i].connected then Record(reg[i].pending, m, false, now)
                                                                    else reg[i].pending) by {
        forall i | 1 <= i < |reg|
          ensures kept[i] == reg[i].(pending := if reg[i].connected then Record(reg[i].pending, m, false, now)
                                                else reg[i].pending)
        {
          assert kept[i] == rest.reg[i - 1] && reg[i] == reg[1..][i - 1];
        }
      }
      Step(kept, out)
  }

  /** The datagrams to the connected sessions split at the first session. */
  lemma BroadcastOut(reg: seq<Session>, m: Message)
    requires reg != []
    ensures Addressed(ConnectedList(reg), m)
            == (if reg[0].connected then [Datagram(reg[0].peer, m)] else []) + Addressed(ConnectedList(reg[1..]), m)
  {
    assert ConnectedList(reg) == (if reg[0].connected then [reg[0].peer] else []) + ConnectedList(reg[1..]);
  }

  /**
   * `disconnectPeer`: succeeds iff the peer has a connected session, which
   * then ends; otherwise nothing changes.
   */
  function DisconnectPeer(reg: seq<Session>, p: Peer): (r: (seq<Session>, bool))
    ensures r.1 <==> Registered(reg, p) && SessionOf(reg, p).connected
    ensures r.1 ==> !Registered(r.0, p)
    ensures !r.1 ==> r.0 == reg
  {
    if IndexOf(reg, p).Some? && reg[IndexOf(reg, p).value].connected then (Remove(reg, p), true)
    else (reg, false)
  }
}
