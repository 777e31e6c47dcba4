/** What an acknowledgement does to the send half, the round-trip estimate and
    the connection state. */
module Acking {
  import opened Seq32
  import opened Segments
  import opened States
  import opened SendLoop
  import opened Connection
  import S = Sending

  // The acknowledgement number -----------------------------------------------

  /** An acknowledgement number the residue comparisons place correctly.  Once
      the FIN has been repeated, `nxt` counts more positions than the peer can
      have seen, and the peer must not acknowledge them. */
  ghost predicate Answers(seg: S.Segment, ackPos: int, s: S.Sender) {
    && seg.ack == Wrap(ackPos) && -0x8000_0000 <= ackPos - s.una <= 0x8000_0000
    && (s.fins >= 2 ==> ackPos <= s.End() + 1)
  }

  lemma InFlightBound(s: S.Sender)
    requires S.Ok(s) && |s.kept| <= MAX_UNACKED && s.fins < 0x1000_0000
    ensures 0 <= s.nxt - s.una < 0x4000_0000
    ensures !s.finAcked ==> s.nxt - s.una <= |s.kept| + s.fins && s.una + |s.kept| == s.End()
    ensures s.una < s.nxt ==> s.k > 0
    ensures s.k > 0 ==> s.slist != [] && s.slist[0].xmit > 0 && (s.stream.sealed || s.slist[0].len > 0)
  {
    hide Laid, Total, S.OnlyPlain, S.ResetsAt, EmptyAtEnd;
    TotalSplit(s.slist, s.k);
    S.LaidEmpty(0, 0);
    if s.k == 0 {
      assert s.slist[..s.k] == [];
    }
  }

  /** Which acknowledgement is valuable, which one a duplicate. */
  lemma AckIs(ack: u32, ackPos: int, una: int, nxt: int)
    requires ack == Wrap(ackPos) && -0x8000_0000 <= ackPos - una <= 0x8000_0000 && 0 <= nxt - una < 0x4000_0000
    ensures Larger(ack, Wrap(una)) && SmallerOrEqual(ack, Wrap(nxt)) <==> una < ackPos <= nxt
    ensures ack == Wrap(una) <==> ackPos == una
    ensures una < ackPos <= nxt ==> Sub(ack, Wrap(una)) == ackPos - una
  {
    hide Wrap, Sub, Larger, LargerOrEqual;
    AcceptedAckIsInFlight(ack, una, nxt);
    WrapInjective(ackPos, una);
    var n: int := Sub(ack, Wrap(una));
    if 1 <= n <= nxt - una {
      WrapInjective(ackPos, una + n);
    }
  }

  // Round-trip time ----------------------------------------------------------

  /** The estimates after a measurement, in 32-bit arithmetic. */
  function Measured(t: Timing, rtt: nat): (r: Timing)
    requires rtt < 0x8000_0000
    ensures MIN_RTO <= r.rxRto <= MAX_RTO
    ensures r == t.(rxRttvar := r.rxRttvar, rxSrtt := r.rxSrtt, rxRto := r.rxRto)
  {
    var d := ToSigned32(rtt - t.rxSrtt);
    var rttvar: u32 := if t.rxSrtt == 0 then rtt / 2 else Wrap(Wrap(3 * t.rxRttvar) + (if d < 0 then -d else d)) / 4;
    var srtt: u32 := if t.rxSrtt == 0 then rtt else Wrap((Wrap(7 * t.rxSrtt) + rtt) / 8);
    t.(rxRttvar := rttvar, rxSrtt := srtt, rxRto := Bound(MIN_RTO, Wrap(srtt + Max(1, Wrap(4 * rttvar))), MAX_RTO))
  }

  /** The estimate lies between the one before and the measurement. */
  predicate Between(t: Timing, rtt: nat)
    requires rtt < 0x8000_0000
  {
    Min(t.rxSrtt, rtt) <= Measured(t, rtt).rxSrtt <= Max(t.rxSrtt, rtt)
  }

  /** The smoothed estimate moves towards every measurement and past none exactly
      if seven times the estimate fits 32 bits. */
  lemma MeasuredIsBetween(t: Timing)
    ensures (forall rtt: nat :: rtt < 0x8000_0000 ==> Between(t, rtt)) <==> 7 * t.rxSrtt < 0x1_0000_0000
  {
    hide Wrap;
    if 7 * t.rxSrtt < 0x1_0000_0000 {
      forall rtt: nat | rtt < 0x8000_0000 ensures Between(t, rtt) {
        WrapNear(7 * t.rxSrtt);
        WrapNear((Wrap(7 * t.rxSrtt) + rtt) / 8);
      }
    } else {
      var rtt := Min(t.rxSrtt, 0x7FFF_FFFF);
      WrapTooLarge(7 * t.rxSrtt);
      WrapNear((Wrap(7 * t.rxSrtt) + rtt) / 8);
      assert !Between(t, rtt);
    }
  }

  lemma WrapTooLarge(n: nat)
    requires n >= 0x1_0000_0000
    ensures Wrap(n) <= n - 0x1_0000_0000
  {
  }

  /** The first queued segment has been acknowledged, and would still be sent. */
  predicate AckedHead(s: S.Sender, limit: nat) { s.finAcked && s.slist != [] && s.slist[0].xmit < limit }

  /** The congestion window after a partial acknowledgement of `n` bytes. */
  function Deflated(z: Sizing, n: nat): u32 { Wrap(z.cwnd + z.mss - Min(n, z.cwnd)) }

  /** The window shrinks by what has left the network, less a segment, and never below a
      segment. */
  lemma DeflatedKeepsSegment(z: Sizing, n: nat)
    requires z.cwnd + z.mss < MODULUS
    ensures Deflated(z, n) == Max(z.cwnd + z.mss - n, z.mss)
  {
    WrapNear(z.cwnd + z.mss - Min(n, z.cwnd));
  }

  /** The sizes then: the first segment went out again first, which may have changed
      the segment size. */
  ghost predicate DeflatedAfterSearch(z: Sizing, y: Sizing, n: nat) {
    exists x :: Searched(z, x) && y == x.(cwnd := Deflated(x, n))
  }

  // Freeing segments ---------------------------------------------------------

  /** The loop that releases acknowledged segments. */
  method FreeSegments(slist: seq<SSegment>, n: nat, largest0: nat) returns (rest: seq<SSegment>, largest: nat)
    requires n <= Total(slist)
    ensures rest == DropAcked(slist, n)
    ensures largest0 <= largest
  {
    rest, largest := slist, largest0;
    var nFree := n;
    while nFree > 0
      invariant 0 <= nFree <= Total(rest) && DropAcked(rest, nFree) == DropAcked(slist, n)
      invariant largest0 <= largest
      decreases nFree, |rest|
    {
      var data := rest[0];
      if nFree < data.len {
        rest := [data.(len := data.len - nFree, sn := Add(data.sn, nFree))] + rest[1..];
        nFree := 0;
      } else {
        largest := Max(largest, data.len);
        nFree := nFree - data.len;
        rest := rest[1..];
      }
    }
  }

  // The clock ----------------------------------------------------------------

  /** What the clock finds when it looks at the timers: the send half and the
      network as they are then, which timers are due, whether nothing has been heard
      for 15 seconds and the state. */
  datatype Due = Due(snd: S.Sender, net: Network, rto: bool, probe: bool, ack: bool, silent: bool,
                     state: TcpState)

  /** `n` is an instant the clock shows as `now`, and `b` the one `noted`, so
      close that 32 bits tell them apart. */
  ghost predicate Instants(n: int, now: u32, b: int, noted: u32) {
    now == Wrap(n) && noted == Wrap(b) && 0 <= n - b < 0x4000_0000
  }

  ghost predicate RtoMeans(rto: bool, t: Timing, now: u32) {
    forall n, b :: Instants(n, now, b, t.rtoBase) ==> (rto <==> t.rtoBase != 0 && n - b >= t.rxRto)
  }

  /** What being due means.  The retransmission timer and the acknowledgement that waits
      are due once their time has passed since they were started; a probe, once the
      retransmission timeout has passed since bytes were last sent to a closed window.
      If a segment goes out again first, the timeout has grown, and that segment must
      be an empty one. */
  ghost predicate TimersDue(d: Due, state: TcpState, tx: Outgoing, t: Timing, a: Activity, now: u32) {
    && RtoMeans(d.rto, t, now)
    && (t.ackDelay < 0x8000_0000 ==>
          forall n, b :: Instants(n, now, b, a.tAck) ==> (d.ack <==> a.tAck != 0 && n - b >= t.ackDelay))
    && (forall n, b :: Instants(n, now, b, a.lastSend) ==>
          (d.probe <==>
             && tx.sndWnd == 0
             && if d.rto then tx.slist != [] && tx.slist[0].len == 0 && n - b >= Backed(state, t.rxRto)
                else n - b >= t.rxRto))
    && (forall n, b :: Instants(n, now, b, a.lastRecv) ==> (d.silent <==> n - b >= 15000))
  }

  ghost predicate Probes(p: S.Packet, s: S.Sender) { p.seg.data == [] && p.pos == s.nxt - 1 }

  /** What it does.  The retransmission timer sends the first segment again, with a
      window of one segment; a probe of a closed window goes out one position back,
      also behind that segment; an acknowledgement that waits goes out if nothing else
      did.  Nothing more is sent.  The connection is given up if the segment cannot be
      sent, or instead of a probe after 15 seconds of silence. */
  ghost predicate Served(d: Due, s: S.Sender, m: Network, closed: bool, z: Sizing, f: Recovery) {
    && d.net.out <= m.out
    && (d.state != Closed && closed ==> (d.rto && Stuck(d.snd.slist, d.state, d.net, m)) || (d.probe && d.silent))
    && (d.state != Closed && d.rto && !closed ==>
          && |m.out| == |d.net.out| + (if d.probe then 2 else 1) && OfHead(m.out[|d.net.out|], d.snd)
          && (d.probe ==> Probes(m.out[|d.net.out| + 1], d.snd))
          && z.cwnd == z.mss && f.ssthresh == Max((s.nxt - s.una) / 2, 2 * z.mss))
    && (d.state != Closed && d.probe && d.silent ==> closed)
    && (d.state != Closed && !d.rto && d.probe && !d.silent ==>
          !closed && |m.out| == |d.net.out| + 1 && Probes(m.out[|d.net.out|], d.snd))
    && (d.state != Closed && !d.rto && !d.probe && d.ack ==>
          && !closed && |m.out| == |d.net.out| + 1 && m.out[|d.net.out|].seg.data == []
          && m.out[|d.net.out|].pos == d.snd.nxt)
    && (d.state != Closed && !d.rto && !d.probe && !d.ack ==> !closed && m == d.net)
  }

  // The connection state -----------------------------------------------------

  /** The coupling between the moment a FIN is found acknowledged and the change
      of state that this causes. */
  ghost predicate AckedIn(state: TcpState, finAck: bool, s: S.Sender, rtoBase: u32, found: bool) {
    if !found then Coupled(state, finAck, s, rtoBase)
    else
      && s.finAcked && finAck && state in {FinWait1, Closing, LastAck} && s.k == |s.slist|
      && (state != LastAck ==> s.nxt == s.una && rtoBase == 0 && FinTotal(s) <= 1)
      && NoReset(s.slist) && FinTotal(s) < 0x1000_0000
  }

  lemma AckedInIsLoose(state: TcpState, finAck: bool, s: S.Sender, rtoBase: u32, found: bool)
    requires AckedIn(state, finAck, s, rtoBase, found)
    ensures Loose(finAck, s)
  {
  }

  /** `ackPos` taken in: the FIN is acknowledged exactly when the number covers
      everything queued and one position more. */
  lemma AckTaken(state: TcpState, finAck: bool, s: S.Sender, t: S.Sender, rtoBase: u32, rtoBase': u32, n: nat)
    requires S.Ok(s) && Coupled(state, finAck, s, rtoBase) && state != Closed
    requires 0 < n <= s.nxt - s.una && |s.kept| <= MAX_UNACKED && |s.kept| <= Total(s.slist)
    requires s.fins >= 2 ==> n <= |s.kept| + 1
    requires n <= |s.kept| + 1 && t == S.Acknowledged(s, n, n == |s.kept| + 1)
    requires rtoBase' != 0 ==> t.una != t.nxt
    ensures S.Ok(t) && t.slist[t.k..] == s.slist[s.k..] && t.k <= |t.slist|
    ensures AckedIn(state, finAck, t, rtoBase', n == |s.kept| + 1)
    ensures rtoBase' != 0 ==> t.k > 0
  {
    hide S.Ok, S.Acknowledged, FinCount, Total;
    InFlightBound(s);
    NotAckedTwice(s, n);
    FinWasSent(s, n);
    S.AcknowledgedKeeps(s, n, n == |s.kept| + 1);
    AckedFields(s, n, n == |s.kept| + 1);
    AckedNoReset(s, n, n == |s.kept| + 1);
    WaitingBound(s);
    WaitingBound(t);
    InFlightBound(t);
    assert Waiting(t) == Waiting(s);
  }

  lemma NotAckedTwice(s: S.Sender, n: nat)
    requires S.Ok(s)
    ensures s.fins > 0 ==> s.stream.sealed
    ensures s.finAcked ==> s.fins > 0
  {
    hide S.Partition, S.InFlight;
  }

  lemma FinWasSent(s: S.Sender, n: nat)
    requires n <= s.nxt - s.una && (!s.finAcked ==> s.nxt - s.una <= |s.kept| + s.fins) && !s.finAcked
    ensures n == |s.kept| + 1 ==> s.fins > 0
  {
  }

  lemma AckedFields(s: S.Sender, n: nat, fin: bool)
    requires n <= |s.kept| + (if fin then 1 else 0) && (fin ==> n == |s.kept| + 1) && |s.kept| <= Total(s.slist)
    ensures var t := S.Acknowledged(s, n, fin);
            && t.una == s.una + n && t.nxt == s.nxt && t.fins == s.fins && t.stream == s.stream
            && t.kept == s.kept[if fin then n - 1 else n..] && t.finAcked == (s.finAcked || fin)
  {
  }

  lemma AckedNoReset(s: S.Sender, n: nat, fin: bool)
    requires n <= |s.kept| + (if fin then 1 else 0) && (fin ==> n == |s.kept| + 1) && |s.kept| <= Total(s.slist)
    ensures NoReset(s.slist) ==> NoReset(S.Acknowledged(s, n, fin).slist)
  {
    hide Total, DropAcked;
    var bytes := if fin then n - 1 else n;
    DropAckedShape(s.slist, bytes);
    var t := DropAcked(s.slist, bytes);
    if NoReset(s.slist) && t != [] {
      forall i | 0 <= i < |t| ensures !t[i].flags.rst {
        if i > 0 {
          assert t[i] == t[1..][i - 1] == s.slist[|s.slist| - |t| + i];
        }
      }
    }
  }

  /** The acknowledgement covers the FIN and leaves a segment that would be sent
      again: a FIN sent before, fewer than 30 times. */
  predicate FinHeadLeft(s: S.Sender, ackPos: int) {
    && CoversFin(s, ackPos) && |s.kept| <= Total(s.slist)
    && var q := DropAcked(s.slist, |s.kept|); q != [] && q[0].xmit < 30
  }

  /** The echoed timestamp of a segment does not lie in the future. */
  predicate Timed(seg: S.Segment, now: u32) { seg.tsecr == 0 || TimeDiff(now, seg.tsecr) >= 0 }

  /** An acknowledgement on which the program stops.  In recovery it covers the FIN
      and yet lies before `recover`, so that an acknowledged FIN is sent again;
      otherwise the congestion window is empty and is divided by. */
  predicate Fatal(s: S.Sender, f: Recovery, cwnd: u32, seg: S.Segment, ackPos: int, now: u32) {
    && s.una < ackPos <= s.nxt && Timed(seg, now)
    && if f.dupAcks < 3 then cwnd == 0 else !LargerOrEqual(seg.ack, f.recover) && FinHeadLeft(s, ackPos)
  }

  /** The head of the queue must go out again: for the third duplicate acknowledgement in
      a row, or for one in the middle of recovery. */
  predicate Resends(s: S.Sender, f: Recovery, seg: S.Segment, ackPos: int) {
    if s.una < ackPos <= s.nxt then f.dupAcks >= 3 && !LargerOrEqual(seg.ack, f.recover)
    else ackPos == s.una < s.nxt && seg.data == [] && f.dupAcks == 2
  }

  /** The head of the queue `q` cannot go out: it has been sent too often, 15 times if
      established and 30 otherwise, or the network has refused it. */
  ghost predicate Stuck(q: seq<SSegment>, state: TcpState, n: Network, m: Network) {
    (q != [] && q[0].xmit >= if state == Established then 15 else 30) || m.failures > n.failures
  }

  /** The connection is given up: the head must go out again and cannot. */
  ghost predicate GivesUp(state: TcpState, s: S.Sender, f: Recovery, seg: S.Segment, ackPos: int, n: Network,
                          m: Network) {
    Resends(s, f, seg, ackPos) && Stuck(if ackPos == s.una then s.slist else Released(s, ackPos).slist, state, n, m)
  }

  /** Hearing a connect message makes no difference to that. */
  lemma GivesUpGreeted(state: TcpState, next: TcpState, s: S.Sender, t: S.Sender, f: Recovery, e: Recovery, c: u32,
                       d: u32, seg: S.Segment, ackPos: int, n: Network, m: Network)
    requires Undecided(state, s, t, f, e, c, d) && GivesUp(next, t, e, seg, ackPos, n, m)
    requires t.una == s.una && t.nxt == s.nxt
    ensures GivesUp(next, s, f, seg, ackPos, n, m)
  {
    hide LargerOrEqual, Released, Stuck;
  }

  lemma GivesUpLater(state: TcpState, s: S.Sender, f: Recovery, seg: S.Segment, ackPos: int, n: Network, m: Network,
                     o: Network)
    requires GivesUp(state, s, f, seg, ackPos, n, m) && m.failures <= o.failures
    ensures GivesUp(state, s, f, seg, ackPos, n, o)
  {
    hide Resends, Released;
  }

  /** Why a segment that is heeded is not taken in: its timestamp is from the future, or
      its FIN comes with data; and if it closes the connection, that is given up. */
  ghost predicate Rejects(next: TcpState, state: TcpState, finAck: bool, s: S.Sender, f: Recovery, seg: S.Segment,
                          ackPos: int, now: u32, n: Network, m: Network) {
    if next == Closed then GivesUp(state, s, f, seg, ackPos, n, m)
    else (s.una < ackPos <= s.nxt && !Timed(seg, now)) || (finAck && seg.flags.fin && seg.data != [])
  }

  lemma RejectsGreeted(state: TcpState, next: TcpState, now': TcpState, finAck: bool, s: S.Sender, t: S.Sender,
                       f: Recovery, e: Recovery, c: u32, d: u32, seg: S.Segment, ackPos: int, now: u32, n: Network,
                       m: Network)
    requires Undecided(state, s, t, f, e, c, d) && Rejects(next, now', finAck, t, e, seg, ackPos, now, n, m)
    requires t.una == s.una && t.nxt == s.nxt
    ensures Rejects(next, now', finAck, s, f, seg, ackPos, now, n, m)
  {
    hide Undecided, GivesUp, Timed;
    if next == Closed {
      GivesUpGreeted(state, now', s, t, f, e, c, d, seg, ackPos, n, m);
    }
  }

  lemma RejectsFin(next: TcpState, state: TcpState, finAck: bool, s: S.Sender, f: Recovery, seg: S.Segment,
                   ackPos: int, now: u32, n: Network, m: Network)
    requires next != Closed && finAck && seg.flags.fin && seg.data != []
    ensures Rejects(next, state, finAck, s, f, seg, ackPos, now, n, m)
  {
  }

  /** A segment on which the program stops: acceptable, and with such an
      acknowledgement. */
  predicate Stops(conv: u32, state: TcpState, s: S.Sender, f: Recovery, cwnd: u32, seg: S.Segment, ackPos: int,
                  now: u32) {
    && seg.conv == conv && state != Closed && !(HasSentFin(state) && seg.data != []) && !seg.flags.rst
    && (seg.flags.ctl ==> Connects(seg) && state != SynSent)
    && Fatal(s, f, cwnd, seg, ackPos, now)
  }

  /** What hearing a connect message leaves of the things that decide about that. */
  ghost predicate Undecided(state: TcpState, s: S.Sender, t: S.Sender, f: Recovery, e: Recovery, c: u32, d: u32) {
    && e == f.(ssthresh := e.ssthresh)
    && (if state == Listen then s.una == s.nxt && t.una == t.nxt else t == s)
    && (if state == SynSent then d > 0 else d == c)
  }

  lemma UndecidedCovers(state: TcpState, s: S.Sender, t: S.Sender, f: Recovery, e: Recovery, c: u32, d: u32,
                        ackPos: int)
    requires Undecided(state, s, t, f, e, c, d)
    ensures CoversFin(t, ackPos) == CoversFin(s, ackPos)
  {
  }

  lemma FatalGreeted(state: TcpState, finAck: bool, s: S.Sender, t: S.Sender, rtoBase: u32, f: Recovery, e: Recovery,
                     c: u32, d: u32,
                     seg: S.Segment, ackPos: int, now: u32)
    requires S.Ok(s) && Coupled(state, finAck, s, rtoBase) && !HasSentFin(state) && Undecided(state, s, t, f, e, c, d)
    ensures Fatal(t, e, d, seg, ackPos, now) <==> Fatal(s, f, c, seg, ackPos, now) && state != SynSent
  {
    hide S.Ok, Coupled, FinHeadLeft, LargerOrEqual, Timed;
    NoFinCovered(state, finAck, s, rtoBase, ackPos);
  }

  /** Before a FIN is queued, nothing covers it. */
  lemma NoFinCovered(state: TcpState, finAck: bool, s: S.Sender, rtoBase: u32, ackPos: int)
    requires S.Ok(s) && Coupled(state, finAck, s, rtoBase) && !HasSentFin(state)
    ensures !FinHeadLeft(s, ackPos)
  {
    hide Laid, Total, FinCount, SentPrefix, EmptyAtEnd, S.OnlyPlain, S.OnlyLastEmpty, S.ResetsAt, DropAcked;
    TotalSplit(s.slist, s.k);
  }

  lemma AckedHeadIsFin(s: S.Sender, t: S.Sender, state: TcpState, ackPos: int, nAcked: nat, found: bool)
    requires s.una < ackPos <= s.nxt && !s.finAcked && t.finAcked == found && |s.kept| == Total(s.slist)
              && nAcked <= |s.kept|
    requires t.slist == DropAcked(s.slist, nAcked) && (found <==> ackPos == s.End() + 1)
              && (found ==> nAcked == |s.kept| && HasSentFin(state))
    ensures AckedHead(t, if state == Established then 15 else 30) <==> FinHeadLeft(s, ackPos)
  {
    hide DropAcked, Total;
  }

  /** The transitions on a FIN received and on the own FIN found acknowledged. */
  function NextState(state: TcpState, fin: bool, found: bool): TcpState {
    match state
    case Established => if fin then CloseWait else state
    case Closing => if found then TimeWait else state
    case LastAck => if found then Closed else state
    case FinWait1 => if found && fin then TimeWait else if found then FinWait2 else if fin then Closing else state
    case FinWait2 => if fin then TimeWait else state
    case _ => state
  }

  /** The state after a segment: the handshake first, then the FINs. */
  function StateAfter(state: TcpState, connect: bool, finAck: bool, fin: bool, found: bool): TcpState {
    var s := if state == SynReceived && !connect then Established else state;
    if finAck then NextState(s, fin, found) else s
  }

  /** Whether an acknowledgement number covers the FIN: it is in flight and one more
      than everything queued. */
  predicate CoversFin(s: S.Sender, ackPos: int) { s.una < ackPos <= s.nxt && ackPos == s.End() + 1 }

  /** The handshake ends: an accepted segment that is no connect message leaves no socket
      in SYN-RECEIVED, and a connect message heard in SYN-SENT a synchronised one. */
  lemma HandshakeEnds(s: TcpState, finAck: bool, fin: bool, found: bool)
    ensures StateAfter(s, false, finAck, fin, found) != SynReceived
    ensures s == SynReceived && !fin ==> StateAfter(s, false, finAck, fin, found) == Established
    ensures Greeted(Listen) == SynReceived && Synchronised(StateAfter(Greeted(SynSent), true, finAck, fin, found))
  {
  }

  /** States of a synchronised connection. */
  predicate Synchronised(s: TcpState) { s != Listen && s != SynSent && s != SynReceived }

  /** The states keep account of the two FINs: the own one has been acknowledged
      in FIN-WAIT-2, TIME-WAIT and CLOSED, the peer's has been received in the
      states the socket says so of, and every change is one `set_state` allows. */
  lemma NextStateAccounts(state: TcpState, fin: bool, found: bool)
    requires Synchronised(state) && state != Closed && (found ==> state in {FinWait1, Closing, LastAck})
    ensures var next := NextState(state, fin, found);
            && (next == state || Forward(state, next))
            && (HasSentFin(next) <==> HasSentFin(state))
            && (HasReceivedFin(next) <==> HasReceivedFin(state) || fin)
            && (next in {FinWait2, TimeWait, Closed} <==> state in {FinWait2, TimeWait} || found)
  {
  }

  lemma NextStateCoupled(state: TcpState, finAck: bool, s: S.Sender, rtoBase: u32, fin: bool, found: bool)
    requires AckedIn(state, finAck, s, rtoBase, found) && state != Closed
    ensures NextState(state, fin, found) == state || Forward(state, NextState(state, fin, found))
    ensures Coupled(NextState(state, fin, found), finAck, s, rtoBase)
  {
    hide FinCount;
  }

  // Retransmission -----------------------------------------------------------

  /** Sending the first segment again changes counts and perhaps cuts it; what
      waits and where `nxt` is stay. */
  lemma Resent(s: S.Sender, n: nat)
    requires S.Ok(s) && s.k > 0 && n <= s.slist[0].len
    ensures var t := S.Transmitted(s, 0, n);
            && t.nxt == s.nxt && t.fins == s.fins && t.una == s.una && t.stream == s.stream && t.finAcked == s.finAcked
            && t.k <= |t.slist| && Waiting(t) == Waiting(s) && (t.k == |t.slist| <==> s.k == |s.slist|)
  {
    hide S.Partition, S.Closing, Total;
    if n < s.slist[0].len {
      S.SplitAt(s.slist, 0, n);
      assert S.Cut(s, 0, n).slist[s.k + 1..] == s.slist[s.k..];
      assert S.Transmitted(s, 0, n).slist[s.k + 1..] == S.Cut(s, 0, n).slist[s.k + 1..];
    } else {
      assert S.Transmitted(s, 0, n).slist[s.k..] == s.slist[s.k..];
    }
  }

  lemma AckedInResent(state: TcpState, finAck: bool, s: S.Sender, n: nat, rtoBase: u32, rtoBase': u32, found: bool)
    requires S.Ok(s) && s.k > 0 && n <= s.slist[0].len
    requires AckedIn(state, finAck, s, rtoBase, found) && (rtoBase' == rtoBase || !s.finAcked)
              && Later(s, S.Transmitted(s, 0, n))
    ensures AckedIn(state, finAck, S.Transmitted(s, 0, n), rtoBase', found)
  {
    hide S.Ok, S.Transmitted, FinCount, NoReset;
    Resent(s, n);
  }

  /** One packet more. */
  lemma DeliveredOne(n: Network, m: Network, s: S.Sender, ack: int, field: nat)
    requires n.out <= m.out && n.failures <= m.failures && |m.out| <= |n.out| + 1
    requires |m.out| == |n.out| + 1 ==> Fresh(m.out[|n.out|], s.stream, ack, field, s.una, s.nxt)
    ensures Delivered(n, m, s, ack, field)
  {
  }

  lemma HeadCanGo(state: TcpState, finAck: bool, s: S.Sender, rtoBase: u32, found: bool)
    requires S.Ok(s) && s.k > 0 && AckedIn(state, finAck, s, rtoBase, found) && state != Closed
    ensures s.slist != [] && (s.stream.sealed || s.slist[0].len > 0) && !s.slist[0].flags.rst
  {
    hide S.Partition, FinCount, Total;
  }

  lemma AckedQueue(s: S.Sender, n: nat, fin: bool)
    requires n <= |s.kept| + (if fin then 1 else 0) && (fin ==> n == |s.kept| + 1) && |s.kept| <= Total(s.slist)
    ensures S.Acknowledged(s, n, fin).slist == DropAcked(s.slist, if fin then n - 1 else n)
  {
  }

  /** A valuable acknowledgement covers bytes that are kept, and the FIN only if
      it was sent. */
  lemma AckFits(state: TcpState, finAck: bool, s: S.Sender, rtoBase: u32, seg: S.Segment, ackPos: int)
    requires S.Ok(s) && Coupled(state, finAck, s, rtoBase) && state != Closed && |s.kept| <= MAX_UNACKED
    requires Answers(seg, ackPos, s) && s.una < ackPos <= s.nxt
    ensures Sub(seg.ack, Wrap(s.una)) == ackPos - s.una <= |s.kept| + 1 && |s.kept| == Total(s.slist)
    ensures ackPos - s.una == |s.kept| + 1 ==> HasSentFin(state)
    ensures ackPos == s.End() + 1 <==> ackPos - s.una == |s.kept| + 1
    ensures 0 <= s.nxt - ackPos < 0x4000_0000
  {
    hide Wrap, Sub, Laid, S.OnlyPlain, S.ResetsAt, S.OnlyLastEmpty, EmptyAtEnd, SentPrefix, FinCount, Total;
    InFlightBound(s);
    AckIs(seg.ack, ackPos, s.una, s.nxt);
  }

  // The congestion window ----------------------------------------------------

  /** Fast recovery, between an acknowledgement and the decision to leave. */
  ghost predicate Entered(f: Recovery, size: Sizing, s: S.Sender, recoverPos: int, strained: bool) {
    f.dupAcks >= 3 ==>
      && f.recover == Wrap(recoverPos) && recoverPos <= s.nxt && s.una - recoverPos < 0x4000_0000
      && (strained || 2 * size.mss <= f.ssthresh)
  }

  lemma StillEntered(f: Recovery, size: Sizing, s: S.Sender, t: S.Sender, recoverPos: int, strained: bool, largest: nat)
    requires Recovering(f, size, s, recoverPos, strained) && s.una <= t.una < s.una + 0x4000_0000 && t.nxt == s.nxt
    ensures Entered(f, size.(largest := largest), t, recoverPos, strained)
  {
  }

  /** What a duplicate acknowledgement of bytes in flight counts for.  The third in a
      row enters recovery: half of what is in flight as threshold, and three segments
      more as window; each further one adds a segment. */
  ghost predicate Counted(f: Recovery, e: Recovery, z: Sizing, y: Sizing, inFlight: int, sndNxt: u32) {
    && e.dupAcks == (f.dupAcks + 1) % 256
    && (if e.dupAcks == 3 then e.recover == sndNxt && e.ssthresh == Max(inFlight / 2, 2 * y.mss)
          && y.cwnd == e.ssthresh + 3 * y.mss
        else e == f.(dupAcks := e.dupAcks) && y == z.(cwnd := if e.dupAcks > 3 then Wrap(z.cwnd + z.mss) else z.cwnd))
  }

  // What an acknowledgement does ---------------------------------------------

  /** The fields an acknowledgement and the sending after it work on. */
  datatype Flight = Flight(
    snd: S.Sender, tx: Outgoing, size: Sizing, time: Timing, fast: Recovery, act: Activity, net: Network)

  /** One packet more, made of the head of the queue of `s`. */
  ghost predicate HeadAgain(s: S.Sender, a: Flight, b: Flight, now: u32) {
    && |b.net.out| == |a.net.out| + 1 && a.net.out <= b.net.out && OfHead(b.net.out[|a.net.out|], s)
    && s.slist != [] && Stamped(a.act, b.act, s.slist[0].len > 0, now)
  }

  /** A duplicate acknowledgement. */
  ghost predicate Duplicated(a: Flight, b: Flight, bytes: bool, now: u32) {
    if bytes || a.snd.una == a.snd.nxt then
      && b.net == a.net && b.snd == a.snd && b.size == a.size && b.act == a.act && b.time == a.time
      && b.fast == if bytes then a.fast else a.fast.(dupAcks := 0)
    else
      && Counted(a.fast, b.fast, a.size, b.size, a.snd.nxt - a.snd.una, b.tx.sndNxt) && TimerKept(a.time, b.time)
      && if a.fast.dupAcks == 2 then HeadAgain(a.snd, a, b, now)
         else b.net == a.net && b.snd == a.snd && b.act == a.act && b.time == a.time
  }

  /** The timer after a valuable acknowledgement: off if nothing is in flight any more,
      otherwise started again. */
  ghost predicate Rearmed(t: Timing, u: Timing, idle: bool, now: u32) {
    && u == t.(rtoBase := u.rtoBase)
    && (idle ==> u.rtoBase == 0) && (!idle && now != 0 ==> u.rtoBase == now)
  }

  /** A valuable acknowledgement: of `n` bytes, or of the FIN too, which leaves the send
      half `s`.  The round-trip time is measured; outside recovery the window grows; at
      the end of recovery it is what is in flight and a segment more, at most the
      threshold; in the middle of it the head goes out again and the window deflates. */
  ghost predicate Valued(a: Flight, b: Flight, s: S.Sender, n: nat, seg: S.Segment, now: u32) {
    && Timed(seg, now)
    && Rearmed(if seg.tsecr == 0 then a.time else Measured(a.time, TimeDiff(now, seg.tsecr)), b.time,
               s.una == s.nxt, now)
    && if a.fast.dupAcks < 3 then
         && b.net == a.net && b.act == a.act && b.fast == a.fast.(dupAcks := 0) && a.size.cwnd > 0
         && b.size == a.size.(largest := b.size.largest, cwnd := Wrap(Opened(a.size, a.fast.ssthresh)))
       else if LargerOrEqual(seg.ack, a.fast.recover) then
         && b.net == a.net && b.act == a.act && b.fast == a.fast.(dupAcks := 0)
         && 0 <= s.nxt - s.una
         && b.size == a.size.(largest := b.size.largest, cwnd := b.size.cwnd)
         && b.size.cwnd == Min(a.fast.ssthresh, s.nxt - s.una + a.size.mss)
       else
         && b.fast == a.fast && HeadAgain(s, a, b, now)
         && (exists largest :: DeflatedAfterSearch(a.size.(largest := largest), b.size, n))
         && (b.net.failures == a.net.failures ==>
               b.size == a.size.(largest := b.size.largest, cwnd := Deflated(a.size, n)))
  }

  /** What the window does after the acknowledgement itself, from `m` to `b`. */
  ghost predicate Grown(m: Flight, b: Flight, n: nat, ack: u32, now: u32) {
    if m.fast.dupAcks < 3 then
      && b.net == m.net && b.act == m.act && b.time == m.time && b.fast == m.fast.(dupAcks := 0) && m.size.cwnd > 0
      && b.size == m.size.(cwnd := Wrap(Opened(m.size, m.fast.ssthresh)))
    else if LargerOrEqual(ack, m.fast.recover) then
      && b.net == m.net && b.act == m.act && b.time == m.time && b.fast == m.fast.(dupAcks := 0)
      && 0 <= m.snd.nxt - m.snd.una
      && b.size == m.size.(cwnd := b.size.cwnd)
      && b.size.cwnd == Min(m.fast.ssthresh, m.snd.nxt - m.snd.una + m.size.mss)
    else
      && b.fast == m.fast && HeadAgain(m.snd, m, b, now) && TimerKept(m.time, b.time)
      && m.snd.una < m.snd.nxt && DeflatedAfterSearch(m.size, b.size, n)
      && (b.net.failures == m.net.failures ==> b.size == m.size.(cwnd := Deflated(m.size, n)))
  }

  /** The send half after an acknowledgement of everything before `ackPos`. */
  function Released(s: S.Sender, ackPos: int): S.Sender {
    var fin, n := CoversFin(s, ackPos), ackPos - s.una;
    if n < 0 || |s.kept| > Total(s.slist) || (if fin then n != |s.kept| + 1 else n > |s.kept|) then s
    else S.Acknowledged(s, n, fin)
  }

  /** What the acknowledgement number of a segment does. */
  ghost predicate AckEffect(a: Flight, b: Flight, seg: S.Segment, ackPos: int, now: u32) {
    if a.snd.una < ackPos <= a.snd.nxt then
      var n := ackPos - a.snd.una;
      Valued(a, b, Released(a.snd, ackPos), if CoversFin(a.snd, ackPos) then n - 1 else n, seg, now)
    else if ackPos == a.snd.una then Duplicated(a, b, seg.data != [], now)
    else b == a
  }

  lemma ValuedFrom(a: Flight, m: Flight, b: Flight, n: nat, seg: S.Segment, now: u32)
    requires Timed(seg, now) && m.net == a.net && m.act == a.act && m.fast == a.fast
    requires m.size == a.size.(largest := m.size.largest)
    requires m.time == (if seg.tsecr == 0 then a.time else Measured(a.time, TimeDiff(now, seg.tsecr))).(
                         rtoBase := if m.snd.una == m.snd.nxt then 0 else now)
    requires Grown(m, b, n, seg.ack, now)
    ensures Valued(a, b, m.snd, n, seg, now)
  {
    hide Measured, TimeDiff, OfHead, Wrap, LargerOrEqual, DeflatedAfterSearch;
    assert a.size.(largest := m.size.largest) == m.size;
  }

  /** A valuable acknowledgement taken in, before the window: the round-trip time is
      measured, the bytes are released and the timer is set. */
  ghost predicate Settles(a: Flight, m: Flight, seg: S.Segment, ackPos: int, n: nat, now: u32) {
    && a.snd.una < ackPos <= a.snd.nxt && Timed(seg, now)
    && m.net == a.net && m.act == a.act && m.fast == a.fast && m.size == a.size.(largest := m.size.largest)
    && m.time == (if seg.tsecr == 0 then a.time else Measured(a.time, TimeDiff(now, seg.tsecr))).(
                   rtoBase := if m.snd.una == m.snd.nxt then 0 else now)
    && m.snd == Released(a.snd, ackPos) && n == ackPos - a.snd.una - (if CoversFin(a.snd, ackPos) then 1 else 0)
    && Heard(a.snd, m.snd, a.tx, m.tx, ackPos, seg.wnd, true) && m.tx.sndUna == seg.ack
  }

  lemma SettlesNot(a: Flight, seg: S.Segment, ackPos: int, now: u32)
    requires !Timed(seg, now)
    ensures seg.tsecr != 0 && !Fatal(a.snd, a.fast, a.size.cwnd, seg, ackPos, now)
    ensures Heard(a.snd, a.snd, a.tx, a.tx, ackPos, seg.wnd, false)
  {
  }

  lemma SettlesEnds(a: Flight, m: Flight, b: Flight, seg: S.Segment, ackPos: int, n: nat, now: u32, ok: bool,
                    aborted: bool, found: bool, limit: nat, state: TcpState)
    requires Settles(a, m, seg, ackPos, n, now) && (found <==> CoversFin(a.snd, ackPos))
    requires AckedHead(m.snd, limit) <==> FinHeadLeft(a.snd, ackPos)
    requires !ok && !aborted ==>
               && m.fast.dupAcks >= 3 && !LargerOrEqual(m.tx.sndUna, m.fast.recover)
               && Stuck(m.snd.slist, state, m.net, b.net)
    requires ok ==> Grown(m, b, n, m.tx.sndUna, now)
    requires aborted <==> if m.fast.dupAcks < 3 then m.size.cwnd == 0
                          else !LargerOrEqual(m.tx.sndUna, m.fast.recover) && AckedHead(m.snd, limit)
    requires b.snd.una == m.snd.una && b.snd.nxt == m.snd.nxt && b.snd.stream == m.snd.stream
    requires b.tx == m.tx.(slist := b.tx.slist, unsent := b.tx.unsent, sndNxt := b.tx.sndNxt)
    ensures ok ==> AckEffect(a, b, seg, ackPos, now)
    ensures !ok && !aborted ==> GivesUp(state, a.snd, a.fast, seg, ackPos, a.net, b.net)
    ensures aborted <==> Fatal(a.snd, a.fast, a.size.cwnd, seg, ackPos, now)
    ensures Heard(a.snd, b.snd, a.tx, b.tx, ackPos, seg.wnd, true)
    ensures found <==> ackPos == a.snd.End() + 1
  {
    hide Stuck, AckedHead, FinHeadLeft, LargerOrEqual, Grown, Timed, Released, Measured, TimeDiff, ScaledWindow, Valued;
    if ok {
      ValuedFrom(a, m, b, n, seg, now);
    }
  }

  /** The timestamp to echo: that of a segment which covers what was last
      acknowledged. */
  function Restamped(t: Timing, a: Activity, seg: S.Segment): Timing {
    var covered := SmallerOrEqual(seg.sn, a.tsLastAck) && Smaller(a.tsLastAck, Add(seg.sn, |seg.data|));
    if covered then t.(tsRecent := seg.tsval) else t
  }

  /** Something was heard. */
  function Noticed(a: Activity, now: u32): Activity { a.(lastTraffic := now, lastRecv := now, bOutgoing := false) }

  lemma StampsSame(t: Timing, a: Activity, now: u32, seg: S.Segment)
    ensures Restamped(t, Noticed(a, now), seg) == Restamped(t, a, seg)
  {
  }

  /** The sizes after the MTU was adjusted, which happens when the handshake ends. */
  ghost predicate Adjusted(z: Sizing, y: Sizing, f: Recovery, e: Recovery) {
    && y == z.(mss := y.mss, msslevel := y.msslevel, cwnd := y.cwnd)
    && y.mss == z.mtuAdvise - PACKET_OVERHEAD && y.cwnd == Max(z.cwnd, y.mss)
    && e == f.(ssthresh := e.ssthresh) && e.ssthresh == Max(f.ssthresh, 2 * y.mss)
  }

  /** How the send loop finds what the acknowledgement has left, `m`. */
  ghost predicate Hands(m: Flight, e: Entry, opens: bool, f: Recovery, t: Timing) {
    && e.net == m.net && e.act == m.act && e.time == m.time && e.sits.tx == m.tx && TimerKept(m.time, t)
    && if opens then exists y :: Adjusted(m.size, y, m.fast, f) && e.sits.size == AfterPause(y, m.act, m.time, e.at)
       else f == m.fast && e.sits.size == AfterPause(m.size, m.act, m.time, e.at)
  }

  /** How the send loop finds what a call has queued, `buffered` bytes in all. */
  ghost predicate Offers(m: Flight, e: Entry, buffered: nat) {
    && e.flags == SfNone && e.net == m.net && e.act == m.act && e.time == m.time && e.sits.tx == m.tx
    && e.sits.buffered == buffered
    && e.sits.size == AfterPause(m.size, m.act, m.time, e.at)
  }

  /** A connect message has been queued, with a window of its own length, and goes out at
      once if the congestion window takes it, unless the network refuses it. */
  ghost predicate Launched(a: Flight, e: Entry, message: seq<byte>, m: Network) {
    && Offers(a.(tx := e.sits.tx), e, |message|)
    && e.sits.tx == a.tx.(slist := e.sits.tx.slist, unsent := e.sits.tx.unsent, sndWnd := e.sits.tx.sndWnd)
    && e.sits.tx.sndWnd == |message|
    && (CongestionWindow(e.sits.size, e.sits.dupAcks) >= |message| ==>
          |m.out| > |a.net.out| || m.failures > a.net.failures)
  }

  /** A message of a few bytes, all of the peer's window, is not held back. */
  lemma MessageGoes(a: Flight, o: Flight, e: Entry, message: seq<byte>, y: Sitting, b: Activity, u: Timing,
                    m: Network, nxt: int)
    requires Concluded(e, y, b, u, m, nxt) && Offers(o, e, |message|) && 0 < |message| == o.tx.sndWnd <= o.size.mss
    requires o.tx.sndNxt == o.tx.sndUna && o == a.(snd := o.snd, tx := o.tx)
    requires o.tx == a.tx.(slist := o.tx.slist, unsent := o.tx.unsent, sndWnd := o.tx.sndWnd)
    ensures Launched(a, e, message, m)
  {
    hide CongestionWindow, Wrap, Settled, AfterPause;
    assert e.sits.size.mss == o.size.mss by { PauseKeepsMss(o.size, o.act, o.time, e.at); }
    WrapNear(0);
    AddSubAreWrap(e.sits.tx.sndNxt, e.sits.tx.sndUna);
  }

  lemma PauseKeepsMss(z: Sizing, a: Activity, t: Timing, at: u32)
    ensures AfterPause(z, a, t, at) == z.(cwnd := AfterPause(z, a, t, at).cwnd)
  {
  }

  lemma HandsFrom(m: Flight, e: Entry, opens: bool, z: Sizing, f: Recovery, t: Timing)
    requires e.net == m.net && e.act == m.act && e.time == m.time && e.sits.tx == m.tx && TimerKept(m.time, t)
    requires e.sits.size == AfterPause(z, m.act, m.time, e.at)
    requires if opens then Adjusted(m.size, z, m.fast, f) else z == m.size && f == m.fast
    ensures Hands(m, e, opens, f, t)
  {
    hide AfterPause, Adjusted;
  }

  /** A change of the sizes in between. */
  lemma HandsOn(m: Flight, o: Flight, e: Entry, opens: bool, f: Recovery, t: Timing)
    requires Hands(o, e, false, f, t) && o == m.(size := o.size, fast := o.fast)
    requires if opens then Adjusted(m.size, o.size, m.fast, o.fast) else o == m
    ensures Hands(m, e, opens, f, t)
  {
    hide AfterPause, Adjusted;
  }

  /** Whether recovery is over is decided correctly. */
  lemma RecoveryIsOver(f: Recovery, size: Sizing, s: S.Sender, recoverPos: int, strained: bool)
    requires Entered(f, size, s, recoverPos, strained) && f.dupAcks >= 3 && 0 <= s.nxt - s.una < 0x4000_0000
    ensures LargerOrEqual(Wrap(s.una), f.recover) <==> recoverPos <= s.una
    ensures recoverPos > s.una ==> Recovering(f, size, s, recoverPos, strained) && s.una < s.nxt
    ensures strained || 2 * size.mss <= f.ssthresh
  {
    hide Wrap, LargerOrEqual;
    LargerOrEqualIsAtLeast(s.una, recoverPos);
  }

  /** The congestion window after a valuable acknowledgement outside recovery. */
  function Opened(size: Sizing, ssthresh: u32): nat
    requires size.cwnd > 0
  {
    if size.cwnd < ssthresh then size.cwnd + size.mss
    else size.cwnd + Max(1, Wrap(size.mss * size.mss) / size.cwnd)
  }

  /** The square of a segment size fits 32 bits, so congestion avoidance adds
      what it is meant to: one segment per window, rounded down, but never
      nothing and never more than a segment. */
  lemma OpenedGrows(size: Sizing, ssthresh: u32)
    requires 180 <= size.mss <= 65419 && size.mss <= size.cwnd
    ensures size.cwnd < Opened(size, ssthresh) <= size.cwnd + size.mss
    ensures Opened(size, ssthresh) ==
            size.cwnd + if size.cwnd < ssthresh then size.mss else Max(1, size.mss * size.mss / size.cwnd)
  {
    hide Wrap;
    SquareFits(size.mss);
    WrapNear(size.mss * size.mss);
    QuotientSmall(size.mss, size.cwnd);
  }

  /** The sizes after `k` valuable acknowledgements outside recovery. */
  function OpenedBy(size: Sizing, ssthresh: u32, k: nat): Sizing
    decreases k
  {
    if k == 0 || size.cwnd == 0 then size
    else OpenedBy(size.(cwnd := Wrap(Opened(size, ssthresh))), ssthresh, k - 1)
  }

  /** Slow start: every acknowledgement adds a segment as long as the window lies below
      the threshold, so that one window of them doubles it. */
  lemma {:induction false} SlowStart(size: Sizing, ssthresh: u32, k: nat)
    requires 0 < size.mss <= size.cwnd && size.cwnd + k * size.mss < ssthresh + size.mss
    requires size.cwnd + k * size.mss < MODULUS
    ensures OpenedBy(size, ssthresh, k).cwnd == size.cwnd + k * size.mss
    ensures k * size.mss == size.cwnd ==> OpenedBy(size, ssthresh, k).cwnd == 2 * size.cwnd
    decreases k
  {
    hide Wrap;
    if k > 0 {
      MulStep(k, size.mss);
      assert size.cwnd < ssthresh && Opened(size, ssthresh) == size.cwnd + size.mss;
      WrapNear(size.cwnd + size.mss);
      SlowStart(size.(cwnd := Wrap(Opened(size, ssthresh))), ssthresh, k - 1);
    }
  }

  lemma MulStep(k: nat, m: nat)
    requires k > 0
    ensures k * m == m + (k - 1) * m && (k - 1) * m >= 0
  {
  }

  /** What a measurement does to the estimates, as long as they fit 32 bits: the first one
      sets them, every other one moves the mean by an eighth and the deviation by a
      quarter, rounded down; the timeout is the mean and four times the deviation, at
      least a millisecond, within its limits. */
  lemma MeasuredAre(t: Timing, rtt: nat)
    requires rtt < 0x4000_0000 && t.rxSrtt < 0x1000_0000 && t.rxRttvar < 0x1000_0000
    ensures var r := Measured(t, rtt);
            && (t.rxSrtt == 0 ==> r.rxSrtt == rtt && r.rxRttvar == rtt / 2)
            && (t.rxSrtt > 0 ==>
                  && 8 * r.rxSrtt <= 7 * t.rxSrtt + rtt < 8 * r.rxSrtt + 8
                  && 4 * r.rxRttvar <= 3 * t.rxRttvar + (if rtt < t.rxSrtt then t.rxSrtt - rtt else rtt - t.rxSrtt)
                                     < 4 * r.rxRttvar + 4)
            && r.rxRto == Max(MIN_RTO, Min(r.rxSrtt + Max(1, 4 * r.rxRttvar), MAX_RTO))
  {
    hide Wrap;
    SignedNear(rtt - t.rxSrtt);
    WrapNear(3 * t.rxRttvar);
    WrapNear(7 * t.rxSrtt);
    WrapNear(7 * t.rxSrtt + rtt);
    var d := rtt - t.rxSrtt;
    WrapNear(3 * t.rxRttvar + if d < 0 then -d else d);
    WrapNear((7 * t.rxSrtt + rtt) / 8);
    var v := Measured(t, rtt).rxRttvar;
    WrapNear(4 * v);
    WrapNear(Measured(t, rtt).rxSrtt + Max(1, 4 * v));
  }

  lemma SquareFits(m: nat)
    requires m <= 65419
    ensures m * m < 0x1_0000_0000
  {
    MulMono(m, 65419, m);
    MulMono(m, 65419, 65419);
  }

  lemma QuotientSmall(m: nat, c: nat)
    requires 0 < m <= c
    ensures m * m / c <= m
  {
    MulMono(m, c, m);
    DivMono(m * m, m, c);
  }

  lemma DivMono(a: nat, b: nat, c: nat)
    requires c > 0 && a <= c * b
    ensures a / c <= b
  {
    assert a == c * (a / c) + a % c;
    if a / c > b {
      MulMono(b + 1, a / c, c);
    }
  }

  lemma FinAckedIn(state: TcpState, finAck: bool, s: S.Sender, rtoBase: u32, found: bool)
    requires AckedIn(state, finAck, s, rtoBase, found) && state != Closed
    ensures s.fins < 0x1000_0000
    ensures s.finAcked && s.una < s.nxt && S.Ok(s) ==> s.fins >= 2
  {
    hide FinCount;
    if s.finAcked && s.una < s.nxt && S.Ok(s) {
      SentFins(s);
    }
  }

  lemma SentFins(s: S.Sender)
    requires S.Ok(s) && s.finAcked
    ensures s.nxt == s.una - 1 + s.fins
  {
    hide Laid, Total, EmptyAtEnd, SentPrefix;
    TotalSplit(s.slist, s.k);
  }

  lemma AckedInIsCoupled(state: TcpState, finAck: bool, s: S.Sender, rtoBase: u32)
    ensures AckedIn(state, finAck, s, rtoBase, false) <==> Coupled(state, finAck, s, rtoBase)
  {
  }

  lemma CoupledFins(state: TcpState, finAck: bool, s: S.Sender, rtoBase: u32)
    requires Coupled(state, finAck, s, rtoBase) && state != Closed
    ensures s.fins < 0x1000_0000
    ensures s.una < s.nxt ==> !s.finAcked
    ensures Loose(finAck, s)
  {
    hide FinCount;
  }

  /** What taking in an acknowledgement number leads to: processing goes on, with
      the own FIN found acknowledged or not; the segment is rejected for its
      timestamp; a segment could not be sent again; an assertion fails. */
  datatype Outcome = Go(found: bool) | Rejected | Broken | Aborted

  lemma MeasurableTime(now: u32, tsecr: u32)
    ensures -0x8000_0000 <= TimeDiff(now, tsecr) < 0x8000_0000
  {
    hide TimeDiff;
    TimeDiffIsSignedDifference(now, tsecr);
  }

  /** The acknowledgement and the window of a segment are taken over if its number
      is in flight or the oldest one not acknowledged, and the segment was not
      rejected. */
  ghost predicate Heard(s: S.Sender, t: S.Sender, a: Outgoing, b: Outgoing, ackPos: int, field: nat, taken: bool) {
    && t.stream == s.stream && t.nxt == s.nxt && b.swndScale == a.swndScale
    && t.una == (if taken && s.una <= ackPos <= s.nxt then ackPos else s.una)
    && b.sndWnd == (if taken && s.una <= ackPos <= s.nxt then ScaledWindow(field, a.swndScale) else a.sndWnd)
  }

  lemma AnswerIs(seg: S.Segment, ackPos: int, s: S.Sender)
    requires Answers(seg, ackPos, s) && 0 <= s.nxt - s.una < 0x4000_0000
    ensures Larger(seg.ack, Wrap(s.una)) && SmallerOrEqual(seg.ack, Wrap(s.nxt)) <==> s.una < ackPos <= s.nxt
    ensures seg.ack == Wrap(s.una) <==> ackPos == s.una
  {
    hide Wrap, Larger, LargerOrEqual;
    AckIs(seg.ack, ackPos, s.una, s.nxt);
  }

  /** A segment found acknowledged when it is to be sent again is a FIN that was
      repeated in LAST-ACK. */
  lemma OnlyLastAckRepeats(state: TcpState, finAck: bool, s: S.Sender, rtoBase: u32, found: bool)
    requires AckedIn(state, finAck, s, rtoBase, found) && state != Closed
    ensures s.finAcked && s.fins >= 2 ==> state == LastAck
  {
    hide FinCount;
  }

  lemma FoundIn(state: TcpState, finAck: bool, s: S.Sender, rtoBase: u32, found: bool)
    requires AckedIn(state, finAck, s, rtoBase, found)
    ensures found ==> finAck && HasSentFin(state)
    ensures !found ==> Coupled(state, finAck, s, rtoBase)
  {
  }

  ghost predicate TakenOver(s: S.Sender, t: S.Sender, a: Outgoing, b: Outgoing, ackPos: int, field: nat) {
    s.una <= ackPos <= s.nxt && t.una == ackPos && b.sndWnd == ScaledWindow(field, a.swndScale)
  }

  /** What a segment does to the send half: its acknowledgement may be taken over,
      and is if processing ends well; then new bytes may go out within the window,
      unless everything is flushed. */
  ghost predicate Digested(s: S.Sender, t: S.Sender, a: Outgoing, b: Outgoing, ackPos: int, field: nat, ok: bool) {
    && Sealing(s.stream, t.stream) && s.nxt <= t.nxt && b.swndScale == a.swndScale
    && (!t.stream.sealed ==> t.nxt <= Max(s.nxt, t.una + b.sndWnd))
    && (if ok && s.una <= ackPos <= s.nxt then TakenOver(s, t, a, b, ackPos, field)
        else (t.una == s.una && b.sndWnd == a.sndWnd) || (!ok && TakenOver(s, t, a, b, ackPos, field)))
  }

  lemma HeardDigested(s: S.Sender, t: S.Sender, a: Outgoing, b: Outgoing, ackPos: int, field: nat, taken: bool)
    requires Heard(s, t, a, b, ackPos, field, taken)
    ensures Digested(s, t, a, b, ackPos, field, false)
  {
  }

  lemma SentDigested(s: S.Sender, t: S.Sender, u: S.Sender, a: Outgoing, b: Outgoing, c: Outgoing, ackPos: int,
                     field: nat, ok: bool)
    requires Heard(s, t, a, b, ackPos, field, true) && Later(t, u) && u.nxt <= Max(t.nxt, u.una + c.sndWnd)
    requires c.sndWnd == b.sndWnd && c.swndScale == b.swndScale
    ensures Digested(s, u, a, c, ackPos, field, ok)
  {
  }

  lemma ClosedDigested(s: S.Sender, t: S.Sender, u: S.Sender, a: Outgoing, b: Outgoing, c: Outgoing, ackPos: int,
                       field: nat,
                       n: Network, m: Network)
    requires Heard(s, t, a, b, ackPos, field, true) && ((u == t && m == n) || Flushed(t, u, n, m, FLAG_RST))
    requires c.sndWnd == b.sndWnd && c.swndScale == b.swndScale
    ensures Digested(s, u, a, c, ackPos, field, false) && n.failures <= m.failures
  {
    hide FlushedInOrder, FinTotal, NoReset;
  }

  lemma AckedQueues(x: Outgoing, s: S.Sender, n: nat, fin: bool, ack: u32)
    requires Queues(x, s) && ack == Wrap(s.una + n)
    requires n <= |s.kept| + (if fin then 1 else 0) && (fin ==> n == |s.kept| + 1) && |s.kept| <= Total(s.slist)
    requires var t := S.Acknowledged(s, n, fin); t.k <= |t.slist| && t.slist[t.k..] == s.slist[s.k..]
    ensures Queues(x.(slist := DropAcked(s.slist, if fin then n - 1 else n), sndUna := ack), S.Acknowledged(s, n, fin))
    ensures x.slist == s.slist
  {
    hide S.Acknowledged, Total, DropAcked, Wrap;
    AckedQueue(s, n, fin);
    AckedFields(s, n, fin);
  }

  /** The assertion that a segment to be sent again has not been acknowledged can
      fail.  In LAST-ACK the FIN was sent twice and recovery was entered with both
      in flight; the acknowledgement of the FIN leaves the socket in recovery with
      the FIN at the head of the queue, one position before `una`, and the segment
      that brings it is one on which the program stops, at any time. */
  lemma RepeatedFinFailsAssertion()
    ensures var fin := SSegment(0, 0, 1, FLAG_FIN);
            var s := S.Sender(S.Stream([], 0, true), 0, 2, [], [fin, fin], 2, 2, false);
            var f := Recovery(2000, 3, 2);
            var z := Sizing(180, 9, 0, 296, 720);
            && S.Ok(s) && Coupled(LastAck, true, s, 1) && Recovering(f, z, s, 2, false)
            && var t := S.Acknowledged(s, 1, true);
            && S.Ok(t) && t.una < 2 && t.slist[0].xmit < 30 && Sub(t.slist[0].sn, Wrap(t.una)) > MAX_UNACKED
            && forall now :: Stops(0, LastAck, s, f, z.cwnd, S.Segment(0, 0, 1, FLAG_NONE, 100, [], 0, 0), 1, now)
  {
    var fin := SSegment(0, 0, 1, FLAG_FIN);
    var q := [fin, fin];
    assert q[1..] == [fin] && [fin][1..] == [];
    assert Total([fin]) == 0 by { TotalOne(fin); }
    assert Total(q) == 0 && q[..2] == q;
    var s := S.Sender(S.Stream([], 0, true), 0, 2, [], q, 2, 2, false);
    assert Laid(q, 0, 0) by { assert Laid([fin], 0, 0); }
    assert Waiting(s) == [];
    S.AcknowledgedKeeps(s, 1, true);
    assert DropAcked(q, 0) != [];
    assert !LargerOrEqual(1, 2);
  }
}
