/**
 * The requests a UDP session has sent and not yet seen answered, with
 * their retransmission bookkeeping: recording a sent request, retiring it
 * when a reply arrives, and the periodic retry scan.
 *
 * A pending entry is the request itself plus the two counters every
 * protocol object carries: when it was created (refreshed on each resend)
 * and how many times it has been resent (zero at creation).
 */
module PendingRequests {
  import opened JavaTypes
  import opened Messages

  /** Milliseconds a request may wait for its reply before it is resent. */
  const RetryInterval: int := 3000
  /** Resends allowed before the session is given up. */
  const MaxRetry: int := 4

  datatype Pending = Pending(request: Message, createdAt: int, retry: int)

  /**
   * `send(m, resend)` on the pending list, the datagram itself aside: a
   * request sent for the first time starts waiting with no resends; resends
   * and non-requests change nothing.
   */
  function Record(ps: seq<Pending>, m: Message, resend: bool, now: int): (r: seq<Pending>)
    ensures IsRequest(m) && !resend <==> |r| == |ps| + 1
    ensures |r| == |ps| + 1 ==> r[..|ps|] == ps && r[|ps|] == Pending(m, now, 0)
    ensures |r| != |ps| + 1 ==> r == ps
  {
    if IsRequest(m) && !resend then ps + [Pending(m, now, 0)] else ps
  }

  /** The entries that sending each of `ms` for the first time starts, in order. */
  function Fresh(ms: seq<Message>, now: int): seq<Pending>
  {
    seq(|ms|, k requires 0 <= k < |ms| => Pending(ms[k], now, 0))
  }

  /** The index of the first pending request whose `pairTo` accepts `reply`, if any. */
  function FirstPaired(ps: seq<Pending>, reply: Message): (r: Option<nat>)
    ensures r.Some? ==> r.value < |ps| && PairTo(ps[r.value].request, reply)
    ensures r.Some? ==> forall j | 0 <= j < r.value :: !PairTo(ps[j].request, reply)
    ensures r.None? ==> forall j | 0 <= j < |ps| :: !PairTo(ps[j].request, reply)
  {
    if ps == [] then None
    else if PairTo(ps[0].request, reply) then Some(0)
    else match FirstPaired(ps[1..], reply)
      case None => None
      case Some(i) => Some(i + 1)
  }

  /**
   * `removeSendPending(reply)`: walk the list and drop the first request
   * that the reply answers; an unanswered reply leaves the list alone.
   */
  function Retire(ps: seq<Pending>, reply: Message): (r: seq<Pending>)
    ensures FirstPaired(ps, reply).None? ==> r == ps
    ensures FirstPaired(ps, reply).Some? ==>
            var i := FirstPaired(ps, reply).value;
            r == ps[..i] + ps[i + 1..]
  {
    if ps == [] then []
    else if PairTo(ps[0].request, reply) then ps[1..]
    else
      var rest := Retire(ps[1..], reply);
      match FirstPaired(ps[1..], reply)
      case None => [ps[0]] + rest
      case Some(i) =>
        assert FirstPaired(ps, reply) == Some(i + 1);
        assert ps[1..][..i] == ps[1..i + 1] && ps[1..][i + 1..] == ps[i + 2..];
        assert [ps[0]] + ps[1..i + 1] == ps[..i + 1];
        [ps[0]] + rest
  }

  /**
   * Recording a request and then receiving a reply it answers, with no
   * earlier entry answering that reply, leaves the list as it was.
   */
  lemma RecordThenRetire(ps: seq<Pending>, m: Message, now: int, reply: Message)
    requires IsRequest(m) && PairTo(m, reply)
    requires forall j | 0 <= j < |ps| :: !PairTo(ps[j].request, reply)
    ensures Retire(Record(ps, m, false, now), reply) == ps
  {
    var r := Record(ps, m, false, now);
    assert forall j | 0 <= j < |ps| :: r[j] == ps[j];
    assert FirstPaired(r, reply) == Some(|ps|);
    assert r[..|ps|] == ps;
  }

  /** Waited longer than the retry interval. */
  predicate Overdue(p: Pending, now: int)
  {
    now - p.createdAt > RetryInterval
  }

  /** Every resend count lies between zero and the maximum. */
  predicate RetryBounded(ps: seq<Pending>)
  {
    forall i | 0 <= i < |ps| :: 0 <= ps[i].retry <= MaxRetry
  }

  /** The requests of the overdue entries, in list order. */
  function OverdueRequests(ps: seq<Pending>, now: int): (ms: seq<Message>)
    ensures |ms| <= |ps|
  {
    if ps == [] then []
    else (if Overdue(ps[0], now) then [ps[0].request] else []) + OverdueRequests(ps[1..], now)
  }

  /** An overdue entry that has used up its resends. */
  predicate Exhausted(p: Pending, now: int)
  {
    Overdue(p, now) && p.retry >= MaxRetry
  }

  /** The index of the first exhausted entry, if any. */
  function FirstExhausted(ps: seq<Pending>, now: int): (r: Option<nat>)
    ensures r.Some? ==> r.value < |ps| && Exhausted(ps[r.value], now)
    ensures r.Some? ==> forall j | 0 <= j < r.value :: !Exhausted(ps[j], now)
    ensures r.None? <==> forall j | 0 <= j < |ps| :: !Exhausted(ps[j], now)
  {
    if ps == [] then None
    else if Exhausted(ps[0], now) then Some(0)
    else match FirstExhausted(ps[1..], now)
      case None => (assert forall j | 1 <= j < |ps| :: ps[j] == ps[1..][j - 1]; None)
      case Some(i) => Some(i + 1)
  }

  /** An entry after a scan that reached it: resent with its count raised if overdue, untouched otherwise. */
  function Refreshed(p: Pending, now: int): Pending
  {
    if Overdue(p, now) then Pending(p.request, now, p.retry + 1) else p
  }

  /**
   * The outcome of one scan: the list afterwards, the requests resent in
   * order, and whether the session must end.
   */
  datatype Scan = Scan(kept: seq<Pending>, resent: seq<Message>, expired: bool)

  /**
   * `retryScan` at time `now`: each overdue entry with resends left gets
   * its count raised by one, its time refreshed and its request resent
   * unchanged; the first overdue entry with none left stops the scan and
   * ends the session. The clock is read once for the whole scan.
   */
  function RetryScan(ps: seq<Pending>, now: int): (r: Scan)
    ensures |r.kept| == |ps|
    ensures forall i | 0 <= i < |ps| :: r.kept[i].request == ps[i].request
    ensures r.expired <==> exists i | 0 <= i < |ps| :: Exhausted(ps[i], now)
    ensures !r.expired ==> r.resent == OverdueRequests(ps, now)
    ensures !r.expired ==> forall i | 0 <= i < |ps| :: r.kept[i] == Refreshed(ps[i], now)
  {
    if ps == [] then Scan([], [], false)
    else
      var p := ps[0];
      if Exhausted(p, now) then Scan(ps, [], true)
      else
        var rest := RetryScan(ps[1..], now);
        var q := Refreshed(p, now);
        assert forall i | 1 <= i < |ps| :: ps[1..][i - 1] == ps[i];
        var r := Scan([q] + rest.kept, (if Overdue(p, now) then [p.request] else []) + rest.resent, rest.expired);
        r
  }

  /**
   * A scan that ends the session stops at the first exhausted entry: the
   * entries before it are refreshed and their overdue requests resent, and
   * it and every entry after it stay as they were.
   */
  lemma RetryScanExpired(ps: seq<Pending>, now: int)
    requires RetryScan(ps, now).expired
    ensures FirstExhausted(ps, now).Some?
    ensures var r := RetryScan(ps, now);
            var k := FirstExhausted(ps, now).value;
            && r.resent == OverdueRequests(ps[..k], now)
            && (forall i | 0 <= i < k :: r.kept[i] == Refreshed(ps[i], now))
            && r.kept[k..] == ps[k..]
  {
    ExpiredResent(ps, now);
    ExpiredKept(ps, now);
  }

  /** A scan that ends the session resends the overdue requests before the first exhausted entry. */
  lemma {:induction false} ExpiredResent(ps: seq<Pending>, now: int)
    requires RetryScan(ps, now).expired
    ensures FirstExhausted(ps, now).Some?
    ensures RetryScan(ps, now).resent == OverdueRequests(ps[..FirstExhausted(ps, now).value], now)
  {
    if !Exhausted(ps[0], now) {
      var head := if Overdue(ps[0], now) then [ps[0].request] else [];
      var rest := RetryScan(ps[1..], now);
      assert RetryScan(ps, now).resent == head + rest.resent && rest.expired;
      ExpiredResent(ps[1..], now);
      var j := FirstExhausted(ps[1..], now).value;
      assert FirstExhausted(ps, now) == Some(j + 1);
      OverduePrefixCons(ps, j, now);
    }
  }

  /** The overdue requests of a non-empty prefix split at its first entry. */
  lemma OverduePrefixCons(ps: seq<Pending>, j: nat, now: int)
    requires j < |ps|
    ensures OverdueRequests(ps[..j + 1], now)
            == (if Overdue(ps[0], now) then [ps[0].request] else []) + OverdueRequests(ps[1..][..j], now)
  {
    assert ps[..j + 1][1..] == ps[1..][..j];
  }

  lemma DropCons(x: Pending, rest: seq<Pending>, j: nat)
    requires j <= |rest|
    ensures ([x] + rest)[j + 1..] == rest[j..]
  {
  }

  /** A scan that ends the session refreshes the entries before the first exhausted one and keeps the rest. */
  lemma ExpiredKept(ps: seq<Pending>, now: int)
    requires RetryScan(ps, now).expired
    ensures FirstExhausted(ps, now).Some?
    ensures var r := RetryScan(ps, now);
            var k := FirstExhausted(ps, now).value;
            && (forall i | 0 <= i < k :: r.kept[i] == Refreshed(ps[i], now))
            && r.kept[k..] == ps[k..]
  {
    ExpiredPrefix(ps, now);
    ExpiredSuffix(ps, now);
  }

  lemma ExpiredPrefix(ps: seq<Pending>, now: int)
    requires RetryScan(ps, now).expired
    ensures FirstExhausted(ps, now).Some?
    ensures forall i | 0 <= i < FirstExhausted(ps, now).value :: RetryScan(ps, now).kept[i] == Refreshed(ps[i], now)
  {
    ExpiredSuffix(ps, now);
    forall i | 0 <= i < FirstExhausted(ps, now).value ensures RetryScan(ps, now).kept[i] == Refreshed(ps[i], now) {
      ExpiredAt(ps, now, i);
    }
  }

  /** The entry at `i`, before the first exhausted one, is refreshed. */
  lemma {:induction false} ExpiredAt(ps: seq<Pending>, now: int, i: nat)
    requires FirstExhausted(ps, now).Some? && i < FirstExhausted(ps, now).value
    ensures RetryScan(ps, now).kept[i] == Refreshed(ps[i], now)
  {
    var rest := RetryScan(ps[1..], now).kept;
    assert RetryScan(ps, now).kept == [Refreshed(ps[0], now)] + rest;
    if i > 0 {
      var tail := ps[1..];
      assert FirstExhausted(tail, now) == Some(FirstExhausted(ps, now).value - 1);
      ExpiredAt(tail, now, i - 1);
      assert tail[i - 1] == ps[i];
    }
  }

  lemma {:induction false} ExpiredSuffix(ps: seq<Pending>, now: int)
    requires RetryScan(ps, now).expired
    ensures FirstExhausted(ps, now).Some?
    ensures RetryScan(ps, now).kept[FirstExhausted(ps, now).value..] == ps[FirstExhausted(ps, now).value..]
  {
    if !Exhausted(ps[0], now) {
      var kept := RetryScan(ps, now).kept;
      var rest := RetryScan(ps[1..], now).kept;
      assert kept == [Refreshed(ps[0], now)] + rest;
      ExpiredSuffix(ps[1..], now);
      var j := FirstExhausted(ps[1..], now).value;
      assert FirstExhausted(ps, now) == Some(j + 1);
      DropCons(Refreshed(ps[0], now), rest, j);
      assert ps[j + 1..] == ps[1..][j..];
    }
  }

  /** A scan never takes a resend count past the maximum. */
  lemma {:induction false} RetryScanBounded(ps: seq<Pending>, now: int)
    requires RetryBounded(ps)
    ensures RetryBounded(RetryScan(ps, now).kept)
  {
    if ps != [] && !Exhausted(ps[0], now) {
      var r := RetryScan(ps, now);
      var rest := RetryScan(ps[1..], now);
      assert RetryBounded(ps[1..]) by {
        forall i | 0 <= i < |ps| - 1 ensures 0 <= ps[1..][i].retry <= MaxRetry {
          assert ps[1..][i] == ps[i + 1];
        }
      }
      RetryScanBounded(ps[1..], now);
      forall i | 0 <= i < |ps| ensures 0 <= r.kept[i].retry <= MaxRetry {
        if i > 0 {
          assert r.kept[i] == rest.kept[i - 1];
        }
      }
    }
  }

  /** Resends and the end of the session over a series of scans at the given times. */
  datatype Tally = Tally(resends: nat, ended: bool)

  /** Scanning at each time in turn, stopping once a scan ends the session. */
  function Rescan(ps: seq<Pending>, times: seq<int>): Tally
    decreases |times|
  {
    if times == [] then Tally(0, false)
    else
      var s := RetryScan(ps, times[0]);
      if s.expired then Tally(|s.resent|, true)
      else
        var t := Rescan(s.kept, times[1..]);
        Tally(|s.resent| + t.resends, t.ended)
  }

  /** A request that is never answered is resent at most `MaxRetry` times in all, whatever the scan times. */
  lemma {:induction false} UnansweredResentAtMostMax(m: Message, createdAt: int, retry: int, times: seq<int>)
    requires 0 <= retry <= MaxRetry
    ensures Rescan([Pending(m, createdAt, retry)], times).resends <= MaxRetry - retry
    decreases |times|
  {
    if times != [] {
      var ps := [Pending(m, createdAt, retry)];
      var s := RetryScan(ps, times[0]);
      if !s.expired {
        assert s.kept == [s.kept[0]];
        if Overdue(ps[0], times[0]) {
          assert s.resent == [m];
          UnansweredResentAtMostMax(m, times[0], retry + 1, times[1..]);
        } else {
          assert s.resent == [];
          UnansweredResentAtMostMax(m, createdAt, retry, times[1..]);
        }
      }
    }
  }

  /** Each scan comes more than one retry interval after the one before it. */
  predicate SpacedOut(createdAt: int, times: seq<int>)
  {
    && (|times| > 0 ==> times[0] - createdAt > RetryInterval)
    && (forall j | 0 <= j < |times| - 1 :: times[j + 1] - times[j] > RetryInterval)
  }

  /**
   * A request that is never answered, scanned once per interval, is resent
   * exactly the remaining number of times and the next scan ends the
   * session: a fresh request gets four resends and then the peer is dropped.
   */
  lemma {:induction false} UnansweredEndsSession(m: Message, createdAt: int, retry: int, times: seq<int>)
    requires 0 <= retry <= MaxRetry
    requires |times| >= MaxRetry + 1 - retry && SpacedOut(createdAt, times)
    ensures Rescan([Pending(m, createdAt, retry)], times) == Tally(MaxRetry - retry, true)
    decreases |times|
  {
    var ps := [Pending(m, createdAt, retry)];
    var s := RetryScan(ps, times[0]);
    assert Overdue(ps[0], times[0]);
    if retry < MaxRetry {
      assert !s.expired && s.resent == [m];
      assert s.kept == [Pending(m, times[0], retry + 1)];
      var rest := times[1..];
      assert forall j | 0 <= j < |rest| - 1 :: rest[j + 1] - rest[j] > RetryInterval by {
        forall j | 0 <= j < |rest| - 1 ensures rest[j + 1] - rest[j] > RetryInterval {
          assert rest[j] == times[j + 1] && rest[j + 1] == times[j + 2];
        }
      }
      UnansweredEndsSession(m, times[0], retry + 1, rest);
    } else {
      assert s.expired && s.resent == [];
    }
  }
}
