/**
 * A peer address (host and port), its document form, and the parser for
 * the `host:port` strings found in the configuration.
 */
module ConnectedPeers {
  import opened JavaTypes
  import opened Documents

  datatype Peer = Peer(host: string, port: Int32)

  /** The `{host, port}` document a peer is written as. */
  function ToDoc(p: Peer): (d: Doc)
    ensures HasStr(d, "host") && d["host"].str == p.host
    ensures HasLong(d, "port") && d["port"].long == p.port
    ensures FromDoc(d) == Some(p)
  {
    map["host" := VStr(p.host), "port" := VLong(p.port)]
  }

  /**
   * Reading a `{host, port}` document back: the host must be a string and the
   * port a long, which is narrowed to `int` as the decoders do.
   */
  function FromDoc(d: Doc): (r: Option<Peer>)
    ensures r.Some? <==> HasStr(d, "host") && HasLong(d, "port")
    ensures r.Some? ==> r.value.host == d["host"].str
    ensures r.Some? && IntMin <= d["port"].long <= IntMax ==> r.value.port == d["port"].long
  {
    if HasStr(d, "host") && HasLong(d, "port")
    then Some(Peer(d["host"].str, LongToInt(d["port"].long)))
    else None
  }

  /** A Java object a peer can be compared with by `equals`. */
  datatype JavaObject = APeer(peer: Peer) | NotAPeer

  /** `ConnectedPeer.equals`: another peer with the same host and port. */
  function Equals(p: Peer, o: JavaObject): (r: bool)
    ensures r <==> o == APeer(p)
  {
    o.APeer? && o.peer.host == p.host && o.peer.port == p.port
  }

  /** `String.hashCode` over the UTF-16 units of `s`, with `int` wrap-around. */
  function StringHash(s: string): Int32
  {
    UnitsHash(Utf16Units(s))
  }

  /** The polynomial hash `h = 31 * h + unit` over a sequence of code units. */
  function UnitsHash(us: seq<int>): Int32
  {
    if |us| == 0 then 0 else WrapInt(31 * UnitsHash(us[..|us| - 1]) + us[|us| - 1])
  }

  /** `Objects.hash(host, port)`. */
  function HashCode(p: Peer): Int32
  {
    WrapInt(31 * WrapInt(31 * 1 + StringHash(p.host)) + p.port)
  }

  /** A character beyond the basic plane is hashed as its two surrogate units, high first. */
  lemma SupplementaryHashesPair(c: char)
    requires c as int >= 0x1_0000
    ensures StringHash([c]) == 31 * CharUnits(c)[0] + CharUnits(c)[1]
  {
    var us := CharUnits(c);
    assert [c][1..] == [];
    assert Utf16Units([c]) == us;
    assert us[..|us| - 1] == [us[0]];
    assert UnitsHash([us[0]]) == us[0] by {
      assert [us[0]][..0] == [];
    }
    assert UnitsHash(us) == WrapInt(31 * us[0] + us[1]);
  }

  /** Peers that are `equals` have the same hash code, as hash-based collections need. */
  lemma EqualPeersHashAlike(p: Peer, q: Peer)
    requires Equals(p, APeer(q))
    ensures HashCode(p) == HashCode(q)
  {
  }

  /**
   * Two ports of one host never share a hash code: the port is added last
   * and every `int` is distinct modulo 2^32.
   */
  lemma PortsHashApart(host: string, a: Int32, b: Int32)
    requires a != b
    ensures HashCode(Peer(host, a)) != HashCode(Peer(host, b))
  {
    var c := 31 * WrapInt(31 * 1 + StringHash(host));
    if WrapInt(c + a) == WrapInt(c + b) {
      WrapIntApart(c, a, b);
    }
  }

  /** Adding two different `int`s to one value never wraps to the same `int`. */
  lemma WrapIntApart(c: int, a: Int32, b: Int32)
    requires WrapInt(c + a) == WrapInt(c + b)
    ensures a == b
  {
    var x, y := c + a, c + b;
    assert x % 0x1_0000_0000 == y % 0x1_0000_0000;
    assert x == 0x1_0000_0000 * (x / 0x1_0000_0000) + x % 0x1_0000_0000;
    assert y == 0x1_0000_0000 * (y / 0x1_0000_0000) + y % 0x1_0000_0000;
  }

  // ---------------------------------------------------------------------
  // `String.split(":")`

  /** Every field between colons, empty ones included. */
  function SplitOnColon(s: string): (r: seq<string>)
    ensures |r| >= 1
    ensures forall i | 0 <= i < |r| :: ':' !in r[i]
    decreases |s|
  {
    if |s| == 0 then [""]
    else if s[0] == ':' then [""] + SplitOnColon(s[1..])
    else
      var rest := SplitOnColon(s[1..]);
      [[s[0]] + rest[0]] + rest[1..]
  }

  function DropTrailingEmpty(xs: seq<string>): (r: seq<string>)
    ensures |r| <= |xs| && r == xs[..|r|]
    ensures |r| > 0 ==> r[|r| - 1] != ""
    ensures forall i | |r| <= i < |xs| :: xs[i] == ""
  {
    if |xs| == 0 then []
    else if xs[|xs| - 1] == "" then DropTrailingEmpty(xs[..|xs| - 1])
    else xs
  }

  /** A non-empty field survives the removal of trailing empty fields. */
  lemma DropKeepsField(xs: seq<string>, i: nat)
    requires i < |xs| && xs[i] != ""
    ensures |DropTrailingEmpty(xs)| > i && DropTrailingEmpty(xs)[i] == xs[i]
  {
  }

  /**
   * Java's `split(":")`: a string without a colon is returned whole;
   * otherwise the fields, with trailing empty fields removed.
   */
  function JavaSplit(s: string): (r: seq<string>)
  {
    if ':' !in s then [s] else DropTrailingEmpty(SplitOnColon(s))
  }

  lemma {:induction false} SplitWithoutColon(s: string)
    requires ':' !in s
    ensures SplitOnColon(s) == [s]
    decreases |s|
  {
    if |s| > 0 {
      SplitWithoutColon(s[1..]);
      assert [s[0]] + s[1..] == s;
    }
  }

  lemma {:induction false} SplitAfterField(a: string, b: string)
    requires ':' !in a
    ensures SplitOnColon(a + [':'] + b) == [a] + SplitOnColon(b)
    decreases |a|
  {
    if |a| == 0 {
      assert a + [':'] + b == [':'] + b;
      assert ([':'] + b)[1..] == b;
    } else {
      var s := a + [':'] + b;
      assert s[0] == a[0];
      assert s[1..] == a[1..] + [':'] + b;
      SplitAfterField(a[1..], b);
      assert [a[0]] + a[1..] == a;
    }
  }

  // ---------------------------------------------------------------------
  // `Integer.parseInt` and `Integer.toString`, decimal digits '0'..'9'

  predicate IsDigit(c: char) { '0' <= c <= '9' }

  predicate AllDigits(s: string) { forall i | 0 <= i < |s| :: IsDigit(s[i]) }

  function DigitValue(c: char): nat
    requires IsDigit(c)
  {
    (c as int) - ('0' as int)
  }

  function DigitChar(d: nat): (c: char)
    requires d < 10
    ensures IsDigit(c) && DigitValue(c) == d
  {
    (('0' as int) + d) as char
  }

  /** The value of a non-empty run of decimal digits, most significant first. */
  function DigitsValue(s: string): nat
    requires AllDigits(s)
    decreases |s|
  {
    if |s| == 0 then 0 else 10 * DigitsValue(s[..|s| - 1]) + DigitValue(s[|s| - 1])
  }

  /**
   * `Integer.parseInt(s)`: an optional sign followed by at least one digit,
   * whose value fits in an `int`; anything else throws, modelled as `None`.
   */
  function ParseInt(s: string): (r: Option<Int32>)
    ensures r.Some? ==> |s| >= 1
    ensures r.Some? && IsDigit(s[0]) ==> AllDigits(s) && r.value == DigitsValue(s)
    ensures r.Some? ==> AllDigits(s) || (|s| >= 2 && (s[0] == '-' || s[0] == '+') && AllDigits(s[1..]))
  {
    if |s| == 0 then None
    else if s[0] == '-' || s[0] == '+' then
      if |s| == 1 || !AllDigits(s[1..]) then None
      else
        var v: int := if s[0] == '-' then 0 - DigitsValue(s[1..]) else DigitsValue(s[1..]);
        if IntMin <= v <= IntMax then Some(v) else None
    else if AllDigits(s) && DigitsValue(s) <= IntMax then Some(DigitsValue(s))
    else None
  }

  /** The decimal digits of `n` without leading zeros. */
  function NatDigits(n: nat): (s: string)
    ensures |s| >= 1 && AllDigits(s)
    decreases n
  {
    if n < 10 then [DigitChar(n)] else NatDigits(n / 10) + [DigitChar(n % 10)]
  }

  /** `Integer.toString(n)`. */
  function IntToString(n: Int32): (s: string)
    ensures ':' !in s
  {
    NoColonInDigits(if n < 0 then -(n as int) else n);
    if n < 0 then "-" + NatDigits(-(n as int)) else NatDigits(n)
  }

  lemma NoColonInDigits(n: nat)
    ensures ':' !in NatDigits(n)
  {
  }

  lemma {:induction false} DigitsValueOfNatDigits(n: nat)
    ensures DigitsValue(NatDigits(n)) == n
    decreases n
  {
    if n >= 10 {
      DigitsValueOfNatDigits(n / 10);
      var s := NatDigits(n);
      assert s[..|s| - 1] == NatDigits(n / 10);
    }
  }

  /** `Integer.parseInt` reads back what `Integer.toString` writes. */
  lemma ParseIntToString(n: Int32)
    ensures ParseInt(IntToString(n)) == Some(n)
  {
    var m: nat := if n < 0 then -(n as int) else n;
    DigitsValueOfNatDigits(m);
    var d := NatDigits(m);
    if n < 0 {
      var s := "-" + d;
      assert s[1..] == d;
    } else {
      assert IsDigit(d[0]);
    }
  }

  // ---------------------------------------------------------------------
  // `convertConnectedPeer`

  /**
   * `ConnectedPeer.convertConnectedPeer`: the first field of the split is
   * the host and the second is parsed as the port; a missing field or a bad
   * port number gives null.
   */
  function ConvertConnectedPeer(hostPort: string): (r: Option<Peer>)
    ensures r.Some? ==> ':' in hostPort && ':' !in r.value.host
  {
    var hp := JavaSplit(hostPort);
    if |hp| < 2 then None
    else
      assert ':' in hostPort;
      match ParseInt(hp[1])
      case None => None
      case Some(port) => Some(Peer(hp[0], port))
  }

  /** The `host:port` text of a peer. */
  function PeerText(p: Peer): string
  {
    p.host + ":" + IntToString(p.port)
  }

  /**
   * Parsing the text of a peer gives the peer back, provided its host has
   * no colon of its own.
   */
  lemma ConvertPeerText(p: Peer)
    requires ':' !in p.host
    ensures ConvertConnectedPeer(PeerText(p)) == Some(p)
  {
    var t := IntToString(p.port);
    var s := PeerText(p);
    assert s == p.host + [':'] + t;
    assert s[|p.host|] == ':';
    SplitAfterField(p.host, t);
    SplitWithoutColon(t);
    ParseIntToString(p.port);
    assert SplitOnColon(s) == [p.host, t];
    assert t != "";
  }

  /**
   * The host is the first field and the port is the parse of the second;
   * whatever follows a second colon is ignored, and a port that does not
   * parse gives null.
   */
  lemma {:induction false} ConvertFields(h: string, t: string, rest: string)
    requires ':' !in h && ':' !in t
    requires rest == [] || rest[0] == ':'
    ensures ConvertConnectedPeer(h + [':'] + t + rest) ==
            (match ParseInt(t)
             case None => None
             case Some(port) => Some(Peer(h, port)))
  {
    var s := h + [':'] + t + rest;
    assert s[|h|] == ':';
    LeadingFields(h, t, rest);
    var xs := SplitOnColon(s);
    var hp := DropTrailingEmpty(xs);
    if t != "" {
      DropKeepsField(xs, 1);
      assert hp[1] == t && hp[0] == h;
    } else {
      assert ParseInt(t) == None;
    }
  }

  /** The split of `h:t` followed by more fields begins with `h` and `t`. */
  lemma {:induction false} LeadingFields(h: string, t: string, rest: string)
    requires ':' !in h && ':' !in t
    requires rest == [] || rest[0] == ':'
    ensures var xs := SplitOnColon(h + [':'] + t + rest); |xs| >= 2 && xs[0] == h && xs[1] == t
  {
    assert h + [':'] + t + rest == h + [':'] + (t + rest);
    SplitAfterField(h, t + rest);
    if rest == [] {
      assert t + rest == t;
      SplitWithoutColon(t);
    } else {
      assert t + rest == t + [':'] + rest[1..];
      SplitAfterField(t, rest[1..]);
    }
  }

}
