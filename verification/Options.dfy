/** The connect message and the options it carries. */
module Options {
  import opened Seq32

  const CTL_CONNECT: byte := 0
  const TCP_OPT_EOL: byte := 0
  const TCP_OPT_NOOP: byte := 1
  const TCP_OPT_MSS: byte := 2
  const TCP_OPT_WND_SCALE: byte := 3
  const TCP_OPT_FIN_ACK: byte := 254

  /** The longest connect message: the code and both options. */
  const MAX_CONNECT: nat := 7

  /** The fields that parsing an option list writes.  `complete` is false when
      the list is cut short, in which case the rules for absent options are not
      applied. */
  datatype Negotiation = Negotiation(
    swndScale: byte, finAck: bool, sawScale: bool, sawFinAck: bool, complete: bool)

  /** The message queued when connecting (queue_connect_message). */
  function ConnectMessage(wndScaling: bool, rwndScale: byte, finAck: bool): (m: seq<byte>)
    ensures 1 <= |m| <= MAX_CONNECT && m[0] == CTL_CONNECT
  {
    [CTL_CONNECT]
    + (if wndScaling then [TCP_OPT_WND_SCALE, 1, rwndScale] else [])
    + (if finAck then [TCP_OPT_FIN_ACK, 1, 0] else [])
  }

  /** The message byte by byte: a zero, then window scaling as option 3 and FIN-ACK as
      option 254, each with a length of one. */
  lemma MessageLayout(rwndScale: byte)
    ensures ConnectMessage(false, rwndScale, false) == [0]
    ensures ConnectMessage(true, rwndScale, false) == [0, 3, 1, rwndScale]
    ensures ConnectMessage(false, rwndScale, true) == [0, 254, 1, 0]
    ensures ConnectMessage(true, rwndScale, true) == [0, 3, 1, rwndScale, 254, 1, 0]
  {
  }

  function Apply(n: Negotiation, kind: byte, data: seq<byte>): Negotiation {
    if kind == TCP_OPT_WND_SCALE then
      n.(swndScale := if |data| == 1 then data[0] else n.swndScale, sawScale := true)
    else if kind == TCP_OPT_FIN_ACK then
      n.(finAck := true, sawFinAck := true)
    else
      n
  }

  /** Options read from position `pos` of the list on. */
  function ParseFrom(d: seq<byte>, pos: nat, n: Negotiation): Negotiation
    requires pos <= |d|
    decreases |d| - pos
  {
    if pos == |d| || d[pos] == TCP_OPT_EOL then n.(complete := true)
    else if d[pos] == TCP_OPT_NOOP then ParseFrom(d, pos + 1, n)
    else if |d| < pos + 2 || |d| < pos + 2 + d[pos + 1] then n
    else ParseFrom(d, pos + 2 + d[pos + 1], Apply(n, d[pos], d[pos + 2..pos + 2 + d[pos + 1]]))
  }

  /** The loop of parse_options: it reads within bounds and ends on every byte
      string. */
  method ParseOptions(data: seq<byte>, swndScale: byte, finAck: bool) returns (n: Negotiation)
    ensures n == ParseFrom(data, 0, Negotiation(swndScale, finAck, false, false, false))
  {
    n := Negotiation(swndScale, finAck, false, false, false);
    ghost var start := n;
    var len := |data|;
    var pos := 0;
    while pos < len
      invariant 0 <= pos <= len
      invariant !n.complete
      invariant ParseFrom(data, pos, n) == ParseFrom(data, 0, start)
    {
      var kind := data[pos];
      if kind == TCP_OPT_EOL {
        break;
      } else if kind == TCP_OPT_NOOP {
        pos := pos + 1;
        continue;
      }
      pos := pos + 1;
      if len < pos + 1 {
        return;
      }
      var optLen := data[pos];
      pos := pos + 1;
      if len < pos + optLen {
        return;
      }
      n := Apply(n, kind, data[pos..pos + optLen]);
      pos := pos + optLen;
    }
    n := n.(complete := true);
  }

  // The handshake ------------------------------------------------------------

  /** What one end brings to the handshake: whether it knows window scaling, the
      scale of its own window and whether FIN-ACK is on. */
  datatype Party = Party(wndScaling: bool, rwndScale: byte, swndScale: byte, finAck: bool) {
    function Message(): seq<byte> { ConnectMessage(wndScaling, rwndScale, finAck) }

    /** The party after processing the peer's connect message.  A party whose
        peer sends no scale falls back to an unscaled receive buffer. */
    function Hears(message: seq<byte>): Party
      requires |message| > 0
    {
      var n := ParseFrom(message[1..], 0, Negotiation(swndScale, finAck, false, false, false));
      if !n.complete then this.(swndScale := n.swndScale, finAck := n.finAck)
      else
        var fallBack := !n.sawScale && rwndScale > 0;
        Party(wndScaling,
              if fallBack then 0 else rwndScale,
              if fallBack then 0 else n.swndScale,
              n.finAck && n.sawFinAck)
    }
  }

  /** All of parse_options, with the resize of the receive buffer left to the
      caller: it is due when the scale of the own window has changed. */
  method HearOptions(p: Party, message: seq<byte>) returns (q: Party)
    requires |message| > 0
    ensures q == p.Hears(message)
    ensures q.rwndScale != p.rwndScale ==> q.rwndScale == 0
    ensures q.wndScaling == p.wndScaling
  {
    var n := ParseOptions(message[1..], p.swndScale, p.finAck);
    q := p.(swndScale := n.swndScale, finAck := n.finAck);
    if !n.complete {
      return;
    }
    if !n.sawScale && p.rwndScale > 0 {
      q := q.(rwndScale := 0, swndScale := 0);
    }
    if !n.sawFinAck {
      q := q.(finAck := false);
    }
  }

  /** A parsed connect message says exactly what was put into it. */
  lemma ConnectRoundTrip(p: Party, n: Negotiation)
    ensures ParseFrom(p.Message()[1..], 0, n) ==
            Negotiation(if p.wndScaling then p.rwndScale else n.swndScale,
                        n.finAck || p.finAck, n.sawScale || p.wndScaling, n.sawFinAck || p.finAck, true)
  {
    var d := p.Message()[1..];
    var tail := if p.finAck then [TCP_OPT_FIN_ACK, 1, 0] else [];
    assert d == (if p.wndScaling then [TCP_OPT_WND_SCALE, 1, p.rwndScale] else []) + tail;
    if p.wndScaling {
      assert d[2..3] == [p.rwndScale];
      var n' := Apply(n, TCP_OPT_WND_SCALE, [p.rwndScale]);
      assert ParseFrom(d, 0, n) == ParseFrom(d, 3, n');
      if p.finAck {
        assert ParseFrom(d, 3, n') == ParseFrom(d, 6, Apply(n', TCP_OPT_FIN_ACK, d[5..6]));
      }
    } else if p.finAck {
      assert ParseFrom(d, 0, n) == ParseFrom(d, 3, Apply(n, TCP_OPT_FIN_ACK, d[2..3]));
    }
  }

  /** A connects, B listens: B answers with what it has become. */
  function ListenerAfter(a: Party, b: Party): Party { b.Hears(a.Message()) }

  function ConnectorAfter(a: Party, b: Party): Party { a.Hears(ListenerAfter(a, b).Message()) }

  /** Both ends agree on FIN-ACK, and what they agree on is the connecting
      side's setting: a listener that has it switched off is overruled. */
  lemma HandshakeAgreesOnFinAck(a: Party, b: Party)
    ensures ListenerAfter(a, b).finAck == ConnectorAfter(a, b).finAck == a.finAck
  {
    ConnectRoundTrip(a, Negotiation(b.swndScale, b.finAck, false, false, false));
    ConnectRoundTrip(ListenerAfter(a, b), Negotiation(a.swndScale, a.finAck, false, false, false));
  }

  /** Each end scales the windows it hears by the scale its peer uses, exactly
      when the peers' support for scaling matches or there is nothing to scale.
      In the failing case a connecting side with a large buffer falls back to an
      unscaled one after it has announced a scale, and the listener keeps
      multiplying its windows. */
  lemma HandshakeScales(a: Party, b: Party)
    requires a.swndScale == 0 && b.swndScale == 0
    ensures ListenerAfter(a, b).swndScale == ConnectorAfter(a, b).rwndScale <==>
            a.rwndScale == 0 || a.wndScaling == b.wndScaling
    ensures ConnectorAfter(a, b).swndScale == ListenerAfter(a, b).rwndScale <==>
            b.wndScaling || b.rwndScale == 0 || !a.wndScaling
  {
    ConnectRoundTrip(a, Negotiation(b.swndScale, b.finAck, false, false, false));
    ConnectRoundTrip(ListenerAfter(a, b), Negotiation(a.swndScale, a.finAck, false, false, false));
  }

  /** A copy of the peer's connect message changes nothing. */
  lemma HearingAgain(p: Party, q: Party)
    ensures p.Hears(q.Message()).Hears(q.Message()) == p.Hears(q.Message())
  {
    ConnectRoundTrip(q, Negotiation(p.swndScale, p.finAck, false, false, false));
    var r := p.Hears(q.Message());
    ConnectRoundTrip(q, Negotiation(r.swndScale, r.finAck, false, false, false));
  }
}
