/** The groups of fields of a socket, what they stand for and how they depend on
    each other. */
module Connection {
  import opened Seq32
  import opened Segments
  import opened States
  import opened SendLoop
  import opened Options
  import R = Reassembly
  import S = Sending

  datatype Shutdown = SdNone | SdGraceful | SdForceful

  datatype How = ShutdownRd | ShutdownWr | ShutdownRdWr

  datatype SendFlags = SfNone | SfDelayedAck | SfImmediateAck | SfFin | SfRst

  // Error codes.
  const EINVAL := 22
  const EWOULDBLOCK := 11
  const ENOTCONN := 107
  const EPIPE := 32

  datatype WriteResult = Success | TooLarge | Fail

  datatype RSegment = RSegment(sn: u32, len: nat)

  /** Shutdown, user settings. */
  datatype Control = Control(
    shutdown: Shutdown, shutdownReads: bool, error: int, bReadEnable: bool, bWriteEnable: bool,
    useNagling: bool, supportWndScale: bool, supportFinAck: bool)

  /** Incoming data. */
  datatype Incoming = Incoming(rlist: seq<RSegment>, rbufLen: u32, rcvNxt: u32, rcvWnd: u32, rwndScale: byte)

  /** Outgoing data. */
  datatype Outgoing = Outgoing(
    slist: seq<SSegment>, unsent: seq<SSegment>, sbufLen: u32, sndNxt: u32, sndWnd: u32, sndUna: u32, swndScale: byte)

  /** Retransmission timer and round-trip calculation. */
  datatype Timing = Timing(rtoBase: u32, tsRecent: u32, rxRttvar: u32, rxSrtt: u32, rxRto: u32, ackDelay: u32)

  /** Slow start threshold and fast recovery. */
  datatype Recovery = Recovery(ssthresh: u32, dupAcks: byte, recover: u32)

  /** When something last happened, and the delayed acknowledgement. */
  datatype Activity = Activity(
    lastTraffic: u32, lastRecv: u32, lastSend: u32, tsLastAck: u32, tAck: u32, bOutgoing: bool)

  predicate Flushes(f: SendFlags) { f == SfFin || f == SfRst }

  function Pow2(n: nat): nat
    ensures Pow2(n) > 0
  {
    if n == 0 then 1 else 2 * Pow2(n - 1)
  }

  /** The window field of a header: `(guint16) (rcv_wnd >> rwnd_scale)`. */
  function WindowField(wnd: u32, scale: nat): nat { wnd / Pow2(scale) % 0x1_0000 }

  /** The window a header field stands for at the other end. */
  function ScaledWindow(field: nat, scale: nat): u32 { Wrap(field * Pow2(scale)) }

  /** recv returns 0: a FIN has been heard, whatever is unread or missing before it,
      or reading was shut down. */
  predicate AtEnd(state: TcpState, c: Control) {
    if c.supportFinAck then c.shutdownReads || HasReceivedFin(state) else state == Closed
  }

  predicate Readable(state: TcpState, c: Control) {
    !AtEnd(state, c) && (c.supportFinAck || state == Established)
  }

  /** With FIN-ACK on and reads not shut down, reading goes on as long as no FIN has been
      heard: also after the own FIN, in FIN-WAIT-1 and FIN-WAIT-2.  Without FIN-ACK it
      takes an established connection. */
  lemma ReadsWhile(state: TcpState, c: Control)
    ensures c.supportFinAck && !c.shutdownReads ==>
              (Readable(state, c) <==> state in {Listen, SynSent, SynReceived, Established, FinWait1, FinWait2})
    ensures c.supportFinAck && c.shutdownReads ==> !Readable(state, c) && AtEnd(state, c)
    ensures !c.supportFinAck ==>
              (Readable(state, c) <==> state == Established) && (AtEnd(state, c) <==> state == Closed)
  {
  }

  /** Once a FIN has been heard no byte is ever read again, whatever becomes of the
      options. */
  lemma NothingReadAfterFin(h: seq<TcpState>, i: nat, j: nat, c: Control)
    requires History(h) && i <= j < |h| && HasReceivedFin(h[i])
    ensures !Readable(h[j], c)
  {
    FinIsFinal(h, i, j);
  }

  /** The writing direction was shut down.  Afterwards this end has sent a FIN, or as
      much as that.  A connection never made is closed silently; one that is open gets
      the end of its stream flushed, a FIN that leaves it what it was to the peer, or a
      reset exactly if received bytes would be lost; one whose FIN was sent before
      stays as it is. */
  ghost predicate WritesShut(state: TcpState, unread: nat, s: S.Sender, n: Network, state': TcpState,
                             s': S.Sender, n': Network) {
    && HasSentFin(state')
    && (HasSentFin(state) ==> state' == state && n' == n)
    && (state in {Listen, SynSent} ==> state' == Closed && n' == n)
    && (state in {SynReceived, Established, CloseWait} ==>
          if state == Established && unread > 0 then state' == Closed && Flushed(s, s', n, n', FLAG_RST)
          else
            && state' == (if state == CloseWait then LastAck else FinWait1) && Flushed(s, s', n, n', FLAG_FIN)
            && (HasReceivedFin(state') <==> HasReceivedFin(state)))
  }

  /** The peer is told of a reset: it is the last packet, if the network refuses none. */
  ghost predicate TellsReset(n: Network, m: Network) {
    && n.out <= m.out && n.failures <= m.failures
    && (m.failures == n.failures ==> |m.out| > |n.out| && m.out[|m.out| - 1].seg.flags == FLAG_RST)
  }

  lemma ResetTold(a: Network, s: S.Sender, t: S.Sender, n: Network, m: Network)
    requires Flushed(s, t, n, m, FLAG_RST) && a.out <= n.out && a.failures <= n.failures
    ensures TellsReset(a, m)
  {
  }

  /** Whether a read announces the window anew: there is room for half the buffer or
      a segment more than was announced, or less than was announced, which the
      unsigned comparison takes for a great deal more. */
  predicate Reopens(free: nat, wnd: u32, capacity: nat, mss: nat) {
    free < wnd || free - wnd >= Min(capacity / 2, mss)
  }

  /** A ring that is read empty is announced anew if its window was closed, and so is
      every window to which a segment could be added. */
  lemma ReopensWhen(free: nat, wnd: u32, capacity: nat, mss: nat)
    ensures wnd == 0 && free == capacity ==> Reopens(free, wnd, capacity, mss)
    ensures free >= wnd + mss || 2 * (free - wnd) >= capacity ==> Reopens(free, wnd, capacity, mss)
    ensures wnd <= free < wnd + mss && 2 * (free - wnd) < capacity - 1 ==> !Reopens(free, wnd, capacity, mss)
  {
  }

  /** The time asked for, or if it is 0 or past, the time after which a connection
      that hears nothing is looked at. */
  function AskedFor(timeout: nat, now: u32, later: nat): nat {
    if timeout == 0 || timeout < now then Add(now, later) else timeout
  }

  /** The congestion window after a pause: one segment. */
  function AfterPause(size: Sizing, act: Activity, time: Timing, now: u32): Sizing {
    if TimeDiff(now, act.lastSend) > time.rxRto then size.(cwnd := size.mss) else size
  }

  /** After a pause longer than the retransmission timeout, and only then, the congestion
      window is one segment; nothing else changes. */
  lemma PauseShrinks(size: Sizing, act: Activity, time: Timing, n: int, s: int)
    requires act.lastSend == Wrap(s) && 0 <= n - s < 0x4000_0000
    ensures AfterPause(size, act, time, Wrap(n)) == size.(cwnd := if n - s > time.rxRto then size.mss else size.cwnd)
  {
    hide Wrap, TimeDiff;
    TimeDiffOrdersInstants(n, s);
  }

  /** What decides what the send loop does first: the user setting, the queue, the
      bytes buffered, the sizes and the duplicate acknowledgements. */
  datatype Sitting = Sitting(nagling: bool, tx: Outgoing, buffered: nat, size: Sizing, dupAcks: byte)

  /** How many bytes the send loop may offer to the network: those queued behind the
      bytes in flight, at most a segment, as far as the windows go, but none rather
      than less than a quarter of the window. */
  function Offerable(x: Sitting): nat {
    var window := Min(x.tx.sndWnd, CongestionWindow(x.size, x.dupAcks));
    var inFlight: int := Sub(x.tx.sndNxt, x.tx.sndUna);
    var useable: nat := if inFlight < window then window - inFlight else 0;
    var ready: nat := if x.buffered < inFlight then 0 else Min(x.buffered - inFlight, x.size.mss);
    if ready <= useable then ready else if Wrap(useable * 4) < window then 0 else useable
  }

  /** The smaller of the peer's window and the congestion window, which limited transmit
      widens by a segment for each of the first two duplicate acknowledgements. */
  function Window(x: Sitting): nat {
    Min(x.tx.sndWnd, x.size.cwnd + if x.dupAcks == 1 then x.size.mss else if x.dupAcks == 2 then 2 * x.size.mss else 0)
  }

  /** `n` bytes may go: they are buffered behind those in flight, fit a segment and lie
      within the window. */
  ghost predicate MayGo(x: Sitting, n: nat) {
    var inFlight: int := Sub(x.tx.sndNxt, x.tx.sndUna);
    n <= x.size.mss && inFlight + n <= x.buffered && inFlight + n <= Window(x)
  }

  /** The small-window rule: more is ready than the rest of the window takes, and that
      rest is less than a quarter of the window. */
  ghost predicate SmallWindow(x: Sitting) {
    var inFlight: int := Sub(x.tx.sndNxt, x.tx.sndUna);
    && inFlight < Window(x) < x.buffered && Window(x) - inFlight < x.size.mss
    && Wrap(4 * (Window(x) - inFlight)) < Window(x)
  }

  /** What is offered is the greatest amount that may go, or nothing under the
      small-window rule. */
  lemma OfferableIsMost(x: Sitting)
    requires x.size.cwnd + 2 * x.size.mss < MODULUS
    ensures Offerable(x) > 0 ==> MayGo(x, Offerable(x))
    ensures !SmallWindow(x) ==> forall n: nat :: MayGo(x, n) ==> n <= Offerable(x)
    ensures SmallWindow(x) ==> Offerable(x) == 0
  {
    hide Wrap, Sub;
    AddSubAreWrap(x.size.cwnd, x.dupAcks * x.size.mss);
    if x.dupAcks == 1 || x.dupAcks == 2 {
      WrapNear(x.size.cwnd + x.dupAcks * x.size.mss);
    }
    WrapNear(0);
  }

  /** Nagle's algorithm holds back less than a segment while something is in flight,
      and with it the acknowledgement that was to go out. */
  predicate HeldBack(x: Sitting) {
    x.nagling && x.tx.sndNxt > x.tx.sndUna && 0 < Offerable(x) < x.size.mss
  }

  /** Which acknowledgement a segment calls for: one at once if it does not start at the
      position wanted, or if afterwards more has been taken in than it brought, a FIN or
      bytes that were listed; one now or later for bytes in order; otherwise none. */
  ghost predicate CallsFor(flags: SendFlags, inOrder: bool, bytes: bool, beyond: bool, ackDelay: u32) {
    flags == if !inOrder || beyond || (bytes && ackDelay == 0) then SfImmediateAck
             else if bytes then SfDelayedAck else SfNone
  }

  /** How things stand when the send loop is entered: what it looks at, what it is asked
      for, the times noted and whether an acknowledgement waits, the timer, what the
      network has, and the time. */
  datatype Entry = Entry(sits: Sitting, flags: SendFlags, act: Activity, time: Timing, net: Network, at: u32)

  /** An acknowledgement is due now: asked for at once, or for the second time. */
  predicate AckDueNow(e: Entry) {
    e.flags == SfImmediateAck || (e.flags == SfDelayedAck && e.act.tAck != 0)
  }

  /** What the send loop does at least, unless it flushes.  What Nagle's algorithm holds
      back it does not even offer to the network.  Without bytes to offer a packet of
      its own goes out for an acknowledgement that is due; one asked for later is put
      off.  Bytes that it may offer it does offer: they go out, and with them what
      waits, or the network refuses them. */
  ghost predicate Pushed(e: Entry, b: Activity, u: Timing, m: Network) {
    if HeldBack(e.sits) then m == e.net && b == e.act && u == e.time
    else
      && u == (if Offerable(e.sits) > 0 && |m.out| > |e.net.out| then ArmedBy(e.time, e.at) else e.time)
      && e.net.out <= m.out && e.net.failures <= m.failures
      && if Offerable(e.sits) == 0 then
           if AckDueNow(e) then
             && m.failures == e.net.failures && |m.out| == |e.net.out| + 1 && m.out[|e.net.out|].seg.data == []
             && Stamped(e.act, b, false, e.at)
           else m == e.net && b == e.act.(tAck := if e.flags == SfDelayedAck then e.at else e.act.tAck)
         else if |m.out| > |e.net.out| then m.out[|e.net.out|].seg.data != [] && Stamped(e.act, b, true, e.at)
         else m.failures > e.net.failures && b == e.act.(tsLastAck := b.tsLastAck)
  }

  /** Nothing more may be sent. */
  predicate Settled(x: Sitting) { Offerable(x) == 0 || HeldBack(x) }

  /** How the send loop, entered as `e` says, leaves things: `y` is what it would look at
      next.  It stops only when nothing more may be sent or a packet was refused, it
      changes nothing unless it gives something to the network, and every packet tells
      the position `nxt` that the receiver wants. */
  ghost predicate Concluded(e: Entry, y: Sitting, b: Activity, u: Timing, m: Network, nxt: int) {
    && Pushed(e, b, u, m)
    && y == e.sits.(tx := y.tx, size := y.size)
    && y.tx == e.sits.tx.(slist := y.tx.slist, unsent := y.tx.unsent, sndNxt := y.tx.sndNxt)
    && (m == e.net ==> y == e.sits) && (m.failures == e.net.failures ==> Settled(y))
    && forall i :: |e.net.out| <= i < |m.out| ==> m.out[i].ackPos == nxt && m.out[i].seg.ack == Wrap(nxt)
  }

  /** Bytes went out in the turn of the send loop that began as `e` says. */
  ghost predicate Goes(e: Entry, b: Activity, u: Timing, m: Network) {
    && !HeldBack(e.sits) && Offerable(e.sits) > 0 && u == ArmedBy(e.time, e.at)
    && e.net.out <= m.out && e.net.failures <= m.failures && |m.out| > |e.net.out|
    && m.out[|e.net.out|].seg.data != [] && Stamped(e.act, b, true, e.at)
  }

  /** One turn of the send loop that does not flush. */
  ghost predicate Turns(e: Entry, again: bool, next: SendFlags, y: Sitting, b: Activity, u: Timing, m: Network) {
    if again then Goes(e, b, u, m) && next == SfNone
    else Pushed(e, b, u, m) && (m == e.net ==> y == e.sits) && (m.failures == e.net.failures ==> Settled(y))
  }

  /** A turn without bytes to offer, or with bytes held back. */
  lemma TurnIdle(e: Entry, y: Sitting, b: Activity, m: Network)
    requires y == e.sits && Offerable(e.sits) == 0
    requires if AckDueNow(e) then
               && m.failures == e.net.failures && |m.out| == |e.net.out| + 1 && e.net.out <= m.out
               && m.out[|e.net.out|].seg.data == [] && Stamped(e.act, b, false, e.at)
             else m == e.net && b == e.act.(tAck := if e.flags == SfDelayedAck then e.at else e.act.tAck)
    ensures Turns(e, false, SfNone, y, b, e.time, m)
  {
    hide Offerable;
  }

  lemma TurnHeld(e: Entry)
    requires HeldBack(e.sits)
    ensures Turns(e, false, SfNone, e.sits, e.act, e.time, e.net)
  {
    hide HeldBack, Offerable;
  }

  /** A turn that offers bytes. */
  lemma TurnSends(e: Entry, ok: bool, y: Sitting, b: Activity, u: Timing, m: Network)
    requires u == if ok then ArmedBy(e.time, e.at) else e.time
    requires !HeldBack(e.sits) && Offerable(e.sits) > 0 && e.net.out <= m.out && e.net.failures <= m.failures
    requires if ok then |m.out| > |e.net.out| && m.out[|e.net.out|].seg.data != [] && Stamped(e.act, b, true, e.at)
             else m.out == e.net.out && m.failures > e.net.failures && b == e.act.(tsLastAck := b.tsLastAck)
    ensures Turns(e, ok, SfNone, y, b, u, m)
  {
    hide HeldBack, Offerable;
  }

  /** A further turn, `f`, of the loop that began with `e`. */
  lemma TurnsOn(e: Entry, f: Entry, again: bool, next: SendFlags, y: Sitting, b: Activity, u: Timing,
                m: Network)
    requires f == e || (Goes(e, f.act, f.time, f.net) && f.flags == SfNone && f.at == e.at)
    requires Turns(f, again, next, y, b, u, m)
    ensures Turns(e, again, next, y, b, u, m)
    ensures again ==> Goes(e, b, u, m) && next == SfNone
  {
    hide HeldBack, Offerable;
  }

  /** The end of the loop, with the packets it has given to the network. */
  lemma TurnsEnd(e: Entry, y: Sitting, b: Activity, u: Timing, m: Network, s: S.Sender, nxt: int, field: nat)
    requires Turns(e, false, SfNone, y, b, u, m) && Delivered(e.net, m, s, nxt, field)
    requires y == e.sits.(tx := y.tx, size := y.size)
    requires y.tx == e.sits.tx.(slist := y.tx.slist, unsent := y.tx.unsent, sndNxt := y.tx.sndNxt)
    ensures Concluded(e, y, b, u, m, nxt)
  {
    hide HeldBack, Offerable, Pushed, Settled, Wrap, S.WellCut;
    forall i | |e.net.out| <= i < |m.out| ensures m.out[i].ackPos == nxt && m.out[i].seg.ack == Wrap(nxt) {
      assert Fresh(m.out[i], s.stream, nxt, field, s.una, s.nxt);
    }
  }

  /** An acknowledgement that is due goes out but in two cases: held back, exactly if the
      network is offered nothing, or with bytes in a packet that the network refuses. */
  lemma AckLostWhen(e: Entry, b: Activity, u: Timing, m: Network)
    requires Pushed(e, b, u, m) && AckDueNow(e)
    ensures m == e.net <==> HeldBack(e.sits)
    ensures m.out == e.net.out ==> HeldBack(e.sits) || (Offerable(e.sits) > 0 && m.failures > e.net.failures)
    ensures m.failures == e.net.failures ==> (m.out == e.net.out <==> HeldBack(e.sits))
  {
    hide HeldBack, Offerable;
  }

  /** Of two acknowledgements asked for later, one after the other with nothing to send,
      the second goes out, or the first did: unless the clock showed 0 at the first,
      which the code takes for none waiting. */
  lemma SecondGoesOut(e: Entry, a: Activity, t: Timing, n: Network, f: Entry, b: Activity, u: Timing, m: Network)
    requires Pushed(e, a, t, n) && e.flags == SfDelayedAck && Offerable(e.sits) == 0 && e.at != 0
    requires Pushed(f, b, u, m) && f.flags == SfDelayedAck && Offerable(f.sits) == 0
    requires n.out <= f.net.out && (f.act.tAck == a.tAck || |f.net.out| > |n.out|)
    ensures e.net.out <= m.out && |m.out| > |e.net.out|
  {
    hide Offerable;
  }

  /** The retransmission timer after bytes went out: started if it was not running. */
  function ArmedBy(t: Timing, at: u32): Timing { t.(rtoBase := if t.rtoBase == 0 then at else t.rtoBase) }

  /** Sending starts the retransmission timer if it is not running, and leaves one
      that is running alone. */
  predicate TimerKept(t: Timing, u: Timing) {
    u == t.(rtoBase := u.rtoBase) && (t.rtoBase != 0 ==> u == t)
  }

  lemma TimerKeptTwice(t: Timing, u: Timing, v: Timing)
    requires TimerKept(t, u) && TimerKept(u, v)
    ensures TimerKept(t, v)
  {
  }

  /** Such a socket: one byte in flight and one queued behind it, and a ring of 4000
      bytes that is empty again after its window was closed.  Nagle's algorithm holds
      the byte back; without it, the packet with the byte may be refused. */
  lemma AckCanBeLost(a: Activity, t: Timing, n: Network)
    ensures var sent, queued := SSegment(1, 1, 1, FLAG_NONE), SSegment(2, 1, 0, FLAG_NONE);
            var s := S.Sender(S.Stream([0, 5, 6], 1, false), 1, 2, [5, 6], [sent, queued], 1, 0, false);
            var tx := Outgoing([sent, queued], [queued], 90000, 2, 10000, 1, 0);
            var z := Sizing(1000, 8, 0, 1060, 2000);
            && S.Ok(s) && Queues(tx, s) && Bounded(z, false) && Reopens(4000, 0, 4000, 1000)
            && HeldBack(Sitting(true, tx, 2, z, 0))
            && Pushed(Entry(Sitting(true, tx, 2, z, 0), SfImmediateAck, a, t, n, 9), a, t, n)
            && Pushed(Entry(Sitting(false, tx, 2, z, 0), SfImmediateAck, a, t, n, 9), a, t,
                      Network(n.out, n.failures + 1))
  {
    var sent, queued := SSegment(1, 1, 1, FLAG_NONE), SSegment(2, 1, 0, FLAG_NONE);
    var q := [sent, queued];
    assert q[1..] == [queued] && q[..1] == [sent];
    assert Total([queued]) == 1 + Total([]) && Total(q) == 1 + Total([queued]);
    assert Laid([queued], 2, 1) && Laid(q, 1, 1);
    var tx := Outgoing([sent, queued], [queued], 90000, 2, 10000, 1, 0);
    assert Offerable(Sitting(true, tx, 2, Sizing(1000, 8, 0, 1060, 2000), 0)) == 1;
  }

  // What the groups stand for ------------------------------------------------

  /** `slist` is the queue, `unsent` its suffix that was never transmitted, and
      the sequence numbers are the residues of the positions. */
  ghost predicate Queues(tx: Outgoing, snd: S.Sender) {
    && snd.k <= |snd.slist|
    && tx.slist == snd.slist
    && tx.unsent == snd.slist[snd.k..]
    && tx.sndUna == Wrap(snd.una)
    && tx.sndNxt == Wrap(snd.nxt)
  }

  /** What waits after a cut, in a segment that was sent or in the first that was
      not. */
  lemma CutTail(s: S.Sender, i: nat, n: nat)
    requires SentPrefix(s.slist, s.k) && i < |s.slist| && i <= s.k && n <= s.slist[i].len
    ensures var t := S.Cut(s, i, n);
            && t.k <= |t.slist|
            && t.slist[t.k..] == if s.slist[i].xmit > 0 then s.slist[s.k..]
                                 else [s.slist[i].(len := n), Rest(s.slist[i], n)] + s.slist[s.k..][1..]
  {
    S.SplitAt(s.slist, i, n);
    var t := S.Cut(s, i, n);
    if s.slist[i].xmit > 0 {
      forall j | 0 <= j < |s.slist| - s.k ensures t.slist[t.k..][j] == s.slist[s.k..][j] {
      }
    }
  }

  lemma MarkedQueues(x: Outgoing, y: Outgoing, s: S.Sender, i: nat)
    requires Queues(x, s) && SentPrefix(s.slist, s.k) && i < |s.slist| && (i == 0 || i == s.k)
    requires y.slist == s.slist[i := s.slist[i].(xmit := s.slist[i].xmit + 1)]
    requires s.slist[i].xmit == 0 ==> x.unsent != []
    requires y.unsent == if s.slist[i].xmit == 0 then x.unsent[1..] else x.unsent
    requires y.sndUna == x.sndUna && y.sndNxt == Wrap(S.Mark(s, i).nxt)
    ensures Queues(y, S.Mark(s, i))
  {
    hide Wrap;
    MarkedRest(s.slist, s.k, i);
  }

  ghost predicate Listed(rlist: seq<RSegment>, pieces: seq<R.Piece>) {
    && |rlist| == |pieces|
    && forall i :: 0 <= i < |rlist| ==> rlist[i] == RSegment(Wrap(pieces[i].pos), pieces[i].len)
  }

  /** The first listed piece that does not start before number `sn`. */
  method FindPlace(list: seq<RSegment>, sn: u32, ghost ps: seq<R.Piece>, ghost pos: int) returns (i: nat)
    requires Listed(list, ps) && sn == Wrap(pos)
    requires forall j :: 0 <= j < |ps| ==> -0x8000_0000 <= pos - ps[j].pos <= 0x7FFF_FFFF
    ensures i <= |ps| && (forall j :: 0 <= j < i ==> ps[j].pos < pos)
    ensures i < |ps| ==> ps[i].pos >= pos
  {
    hide Wrap, Larger;
    i := 0;
    while i < |list| && Smaller(list[i].sn, sn)
      invariant 0 <= i <= |list| && (forall j :: 0 <= j < i ==> ps[j].pos < pos)
    {
      LargerIsGreater(pos, ps[i].pos);
      i := i + 1;
    }
    if i < |list| {
      LargerIsGreater(pos, ps[i].pos);
    }
  }

  /** Positions the residue comparisons order correctly. */
  ghost predicate Near(pos: int, len: nat, nxt: int) {
    -0x7FFF_FFFF <= pos - nxt && pos + len - nxt <= 0x7FFF_FFFE
  }

  /** A segment the residue comparisons place correctly.  Control positions must not
      leave a listed piece so far behind that they no longer do; with data dropped
      anyway it does not matter. */
  ghost predicate Orderly(seg: S.Segment, pos: int, r: R.Receiver, ignoring: bool) {
    && seg.sn == Wrap(pos) && Near(pos, |seg.data|, r.nxt)
    && (!ignoring && seg.flags.fin && R.TrimFront(pos, seg.data, r.nxt).0 == r.nxt ==> R.Leads(r, 1))
    && (!ignoring && seg.flags.ctl && pos <= r.nxt < pos + |seg.data| ==> R.Leads(r, |seg.data|))
  }

  /** The comparisons made for a listed piece. */
  lemma PieceInReach(p: R.Piece, n: int, low: int, high: int)
    requires low < p.pos && p.End() <= high && low <= n <= high && high - low < 0x7000_0000
    ensures SmallerOrEqual(Wrap(p.pos), Wrap(n)) <==> p.pos <= n
    ensures Larger(Add(Wrap(p.pos), p.len), Wrap(n)) <==> p.End() > n
    ensures p.End() > n ==> Sub(Add(Wrap(p.pos), p.len), Wrap(n)) == p.End() - n
  {
    hide Wrap, Sub, Add, Larger, LargerOrEqual;
    LargerOrEqualIsAtLeast(n, p.pos);
    WrapArithmetic(p.pos, p.len);
    LargerIsGreater(p.End(), n);
    WrapInjective(p.End(), n);
  }

  lemma SubTwice(w: u32, a: int, b: int)
    ensures Sub(Sub(w, a), b) == Sub(w, a + b)
  {
    hide Wrap, Sub;
    AddSubAreWrap(w, a);
    WrapArithmetic(w - a, b);
    AddSubAreWrap(w, a + b);
  }

  // How the fields depend on each other --------------------------------------

  /** Connection state, queue and timer. */
  ghost predicate Coupled(state: TcpState, finAck: bool, s: S.Sender, rtoBase: u32) {
    && s.k <= |s.slist|
    && (s.stream.sealed ==> HasSentFin(state))
    && (s.fins > 0 ==> finAck && s.k == |s.slist|)
    && (s.finAcked ==> state in {FinWait2, TimeWait, Closed} && s.k == |s.slist|)
    && (s.finAcked && state != Closed ==> s.nxt == s.una && rtoBase == 0)
    && (state in {FinWait2, TimeWait} ==> s.finAcked)
    && (FinTotal(s) > 1 ==> state in {LastAck, Closed})
    && (state == Listen ==> S.Untouched(s))
    && (state != Closed ==> NoReset(s.slist))
    && FinTotal(s) < 0x1000_0000
  }

  /** The part of the coupling that does not depend on the connection state. */
  ghost predicate Loose(finAck: bool, s: S.Sender) {
    && s.k <= |s.slist|
    && (s.fins > 0 ==> finAck && s.k == |s.slist|)
    && (s.finAcked ==> s.k == |s.slist|)
    && FinTotal(s) < 0x1000_0000
  }

  lemma LooseFlushed(finAck: bool, s: S.Sender, t: S.Sender, n: Network, m: Network, flags: Flags)
    requires Flushed(s, t, n, m, flags) && finAck
    requires FinTotal(s) + (if flags.fin then 1 else 0) < 0x1000_0000
    ensures Loose(finAck, t)
  {
    hide FinCount, FlushedInOrder, NoReset;
  }

  lemma LooseIsEnoughWhenClosed(state: TcpState, finAck: bool, s: S.Sender, rtoBase: u32)
    ensures Coupled(state, finAck, s, rtoBase) ==> Loose(finAck, s)
    ensures Loose(finAck, s) && state == Closed ==> Coupled(state, finAck, s, rtoBase)
  {
  }

  lemma StartsCoupled(s: S.Sender, finAck: bool)
    requires S.Untouched(s)
    ensures Coupled(Listen, finAck, s, 0)
  {
    assert Waiting(s) == [];
  }

  lemma ListensUntouched(state: TcpState, finAck: bool, s: S.Sender, rtoBase: u32)
    requires Coupled(state, finAck, s, rtoBase) && state == Listen
    ensures S.Untouched(s)
  {
  }

  /** Before a FIN or RST is queued, FIN-ACK support may still change. */
  lemma CoupledOptions(state: TcpState, finAck: bool, s: S.Sender, rtoBase: u32, finAck': bool)
    requires Coupled(state, finAck, s, rtoBase) && S.Ok(s) && !HasSentFin(state)
    ensures Coupled(state, finAck', s, rtoBase)
  {
    hide S.Partition, S.InFlight, FinCount;
  }

  /** In fast recovery, `recover` is a position in flight. */
  ghost predicate Recovering(f: Recovery, size: Sizing, s: S.Sender, recoverPos: int, strained: bool) {
    f.dupAcks >= 3 ==>
      && f.recover == Wrap(recoverPos) && s.una <= recoverPos <= s.nxt
      && (strained || 2 * size.mss <= f.ssthresh)
  }

  lemma RecoveringKept(f: Recovery, z: Sizing, y: Sizing, s: S.Sender, t: S.Sender, recoverPos: int, strained: bool)
    requires Recovering(f, z, s, recoverPos, strained) && Searched(z, y) && t.una == s.una && s.nxt <= t.nxt
    ensures Recovering(f, y, t, recoverPos, strained)
  {
  }

  /** The congestion window plays no part in recovery. */
  lemma RecoveringCwnd(f: Recovery, z: Sizing, s: S.Sender, recoverPos: int, strained: bool, cwnd: u32, strained': bool)
    requires Recovering(f, z, s, recoverPos, strained) && (strained ==> strained')
    ensures Recovering(f, z.(cwnd := cwnd), s, recoverPos, strained')
  {
  }

  /** The buffer size is what the window scale was chosen for, so that the
      scaled window fits 16 bits. */
  ghost predicate Scaled(rx: Incoming, capacity: nat) {
    && rx.rbufLen == capacity <= 0xFFFF * Pow2(rx.rwndScale)
    && (rx.rwndScale > 0 ==> 0xFFFF < capacity)
  }

  /** Sending within the windows does not touch the coupling. */
  lemma CoupledSend(state: TcpState, finAck: bool, s: S.Sender, t: S.Sender, r: u32, r': u32)
    requires Coupled(state, finAck, s, r) && Later(s, t) && t.fins == s.fins
    requires t.k <= |t.slist| && FinTotal(t) == FinTotal(s)
    requires s.k == |s.slist| ==> t == s && r' == r
    ensures Coupled(state, finAck, t, r')
  {
  }

  /** Queueing a FIN or RST. */
  lemma QueuedMark(s: S.Sender, flags: Flags)
    requires S.Ok(s) && (flags == FLAG_FIN || flags == FLAG_RST)
    ensures var t := S.Enqueue(s, [], flags);
            && t.k == s.k <= |s.slist| <= |t.slist|
            && FinTotal(t) <= FinTotal(s) + (if flags.fin then 1 else 0)
            && (s.k == |s.slist| && flags.rst ==> AllReset(Waiting(t)))
            && (flags.fin && NoReset(s.slist) ==> NoReset(t.slist))
            && t.slist != [] && t.slist[|t.slist| - 1].flags == flags && t.k < |t.slist|
  {
    hide S.Ok, FinCount, NoReset, AllReset, Wrap;
    QueuedWaiting(s, [], flags);
    WaitingBound(s);
    var t := S.Enqueue(s, [], flags);
    var g := SSegment(Wrap(s.una + |s.kept|), 0, 0, flags);
    if Joins(s.slist, flags) {
      var last := s.slist[|s.slist| - 1];
      assert t.slist == s.slist by { assert s.slist[|s.slist| - 1 := last.(len := last.len + 0)] == s.slist; }
    } else {
      assert t.slist == s.slist + [g];
      QueueEnd(s.slist, s.k, g);
      FinCountConcat(Waiting(s), [g]);
      FinCountOne(g);
    }
  }

  lemma QueueEnd(q: seq<SSegment>, k: nat, g: SSegment)
    requires k <= |q|
    ensures (q + [g])[k..] == q[k..] + [g]
    ensures k == |q| && g.flags.rst ==> AllReset((q + [g])[k..])
    ensures NoReset(q) && !g.flags.rst ==> NoReset(q + [g])
  {
  }

  lemma WaitingBound(s: S.Sender)
    requires S.Ok(s)
    ensures s.k <= |s.slist| && (forall i :: s.k <= i < |s.slist| ==> s.slist[i].xmit == 0)
              && (forall i :: 0 <= i < s.k ==> s.slist[i].xmit > 0)
  {
  }

  // What one call gives to the network ---------------------------------------

  /** A stream after more bytes, or after its end was marked. */
  ghost predicate Extends(a: S.Stream, b: S.Stream) {
    && a.bytes <= b.bytes
    && (a.ctl == b.ctl || a.bytes == [])
    && (a.sealed ==> b.sealed && b.bytes == a.bytes)
    && (a.ctl <= |a.bytes| ==> b.ctl <= |b.bytes|)
  }

  /** The same stream, its end perhaps marked. */
  ghost predicate Sealing(a: S.Stream, b: S.Stream) {
    b == a.(sealed := b.sealed) && (a.sealed ==> b.sealed)
  }

  /** Where a call started: the network, the oldest unacknowledged position, the
      position wanted, and the right edge no announcement may pass. */
  datatype Start = Start(net: Network, una: int, ack: int, edge: int)

  /** A packet of that call. */
  ghost predicate SentIn(p: S.Packet, g: Start, stream: S.Stream, nxt: int, ack: int, scale: nat) {
    && S.WellCut(p, stream)
    && g.ack <= p.ackPos <= ack && p.seg.ack == Wrap(p.ackPos)
    && p.ackPos + p.seg.wnd * Pow2(scale) <= g.edge
    && (p.seg.data != [] ==> g.una <= p.pos && p.pos + |p.seg.data| <= nxt)
  }

  ghost predicate Emitted(g: Start, m: Network, stream: S.Stream, nxt: int, ack: int, scale: nat) {
    && g.net.out <= m.out && g.net.failures <= m.failures
    && forall i :: |g.net.out| <= i < |m.out| ==> SentIn(m.out[i], g, stream, nxt, ack, scale)
  }

  lemma NothingEmitted(g: Start, stream: S.Stream, nxt: int, ack: int, scale: nat)
    ensures Emitted(g, g.net, stream, nxt, ack, scale)
  {
  }

  /** Scaling down and up again loses, it never adds. */
  lemma FieldFits(wnd: u32, scale: nat)
    ensures WindowField(wnd, scale) * Pow2(scale) <= wnd
  {
    hide Pow2;
    DivFits(wnd, Pow2(scale));
    MulMono(wnd / Pow2(scale) % 0x1_0000, wnd / Pow2(scale), Pow2(scale));
  }

  lemma DivFits(w: nat, p: nat)
    requires p > 0
    ensures w / p * p <= w
  {
    assert w == p * (w / p) + w % p;
  }

  lemma MulMono(a: nat, b: nat, p: nat)
    requires a <= b
    ensures a * p <= b * p
  {
  }

  lemma WellCutExtends(p: S.Packet, a: S.Stream, b: S.Stream)
    requires S.WellCut(p, a) && Extends(a, b)
    ensures S.WellCut(p, b)
  {
    if p.seg.data != [] {
      assert b.bytes[p.pos..p.pos + |p.seg.data|] == a.bytes[p.pos..p.pos + |p.seg.data|];
    }
  }

  lemma SameStream(a: S.Stream)
    ensures Extends(a, a)
  {
  }

  /** Time passes: streams extend, positions advance. */
  lemma EmittedLater(g: Start, m: Network, a: S.Stream, b: S.Stream, nxt: int, nxt': int, ack: int, ack': int,
                     scale: nat)
    requires Emitted(g, m, a, nxt, ack, scale) && Extends(a, b) && nxt <= nxt' && ack <= ack'
    ensures Emitted(g, m, b, nxt', ack', scale)
  {
    forall i | |g.net.out| <= i < |m.out| ensures SentIn(m.out[i], g, b, nxt', ack', scale) {
      assert SentIn(m.out[i], g, a, nxt, ack, scale);
      WellCutExtends(m.out[i], a, b);
    }
  }

  /** What was handed over since `n` joins what was emitted before. */
  lemma EmittedMore(g: Start, n: Network, m: Network, s: S.Sender, ack: int, wnd: u32, scale: nat)
    requires Emitted(g, n, s.stream, s.nxt, ack, scale)
    requires Delivered(n, m, s, ack, WindowField(wnd, scale))
    requires g.una <= s.una && g.ack <= ack && ack + wnd <= g.edge
    ensures Emitted(g, m, s.stream, s.nxt, ack, scale)
  {
    hide S.WellCut, Wrap, WindowField;
    FieldFits(wnd, scale);
    forall i | |g.net.out| <= i < |m.out| ensures SentIn(m.out[i], g, s.stream, s.nxt, ack, scale) {
      if i < |n.out| {
        assert m.out[i] == n.out[i];
        assert SentIn(n.out[i], g, s.stream, s.nxt, ack, scale);
      } else {
        assert Fresh(m.out[i], s.stream, ack, WindowField(wnd, scale), s.una, s.nxt);
      }
    }
  }

  /** The same, after the sender has moved on. */
  lemma EmittedSince(g: Start, n: Network, m: Network, s: S.Sender, t: S.Sender, ack: int, wnd: u32, scale: nat)
    requires Emitted(g, n, s.stream, s.nxt, ack, scale) && t.stream == s.stream && s.nxt <= t.nxt && t.una == s.una
    requires Delivered(n, m, t, ack, WindowField(wnd, scale))
    requires g.una <= s.una && g.ack <= ack && ack + wnd <= g.edge
    ensures Emitted(g, m, t.stream, t.nxt, ack, scale)
  {
    hide Emitted, Delivered, WindowField;
    SameStream(s.stream);
    EmittedLater(g, n, s.stream, t.stream, s.nxt, t.nxt, ack, ack, scale);
    EmittedMore(g, n, m, t, ack, wnd, scale);
  }

  // The handshake ------------------------------------------------------------

  predicate Connects(seg: S.Segment) { seg.flags.ctl && seg.data != [] && seg.data[0] == CTL_CONNECT }

  /** A connect message may be heard at any time as long as it changes nothing;
      one that changes the options must come before there is data in the way:
      shrinking the ring loses what is listed, and bytes dropped meanwhile leave
      the list behind. */
  ghost predicate Timely(message: seq<byte>, p: Party, ignoring: bool, r: R.Receiver)
    requires message != []
  {
    var q := p.Hears(message);
    && (q.rwndScale != p.rwndScale ==> r.pieces == [] && r.held < DEFAULT_RCV_BUF_SIZE)
    && (ignoring && q.finAck ==> r.pieces == [])
  }

  lemma TimelyUnignored(message: seq<byte>, p: Party, r: R.Receiver)
    requires message != [] && Timely(message, p, true, r) && p.Hears(message).finAck
    ensures r.pieces == []
  {
  }

  /** A receiver whose ring was replaced by another; what it held is still there. */
  ghost predicate Resized(r: R.Receiver, t: R.Receiver, capacity: nat) {
    && r.pieces == [] && r.held <= |r.cells| && r.held <= |t.cells| == capacity
    && t.cells[..r.held] == r.cells[..r.held]
    && t.wnd == |t.cells| - r.held
    && t == r.(cells := t.cells, wnd := t.wnd)
  }

  lemma ResizedOk(r: R.Receiver, t: R.Receiver, capacity: nat)
    requires Resized(r, t, capacity)
    ensures R.Safe(t)
  {
  }

  lemma Pow2Doubles(n: nat)
    ensures Pow2(n + 1) == 2 * Pow2(n)
  {
  }

  /** The size of a receive buffer for which `size` was asked: its leading 16 bits. */
  function Rounded(size: nat): nat { if size <= 0xFFFF then size else 2 * Rounded(size / 2) }

  /** The window scale for a receive buffer: the smallest shift that makes its
      size fit 16 bits, and the size rounded down to that scale. */
  method ChooseScale(newSize: nat) returns (scale: nat, shifted: nat)
    ensures shifted * Pow2(scale) == Rounded(newSize)
    ensures shifted <= 0xFFFF && shifted * Pow2(scale) <= newSize < (shifted + 1) * Pow2(scale)
    ensures scale > 0 ==> shifted >= 0x8000
    ensures newSize <= 0xFFFF ==> scale == 0
  {
    hide Pow2;
    scale, shifted := 0, newSize;
    Pow2Base();
    while shifted > 0xFFFF
      invariant Rounded(newSize) == Rounded(shifted) * Pow2(scale)
      invariant shifted * Pow2(scale) <= newSize < (shifted + 1) * Pow2(scale)
      invariant scale > 0 ==> shifted >= 0x8000
      invariant newSize <= 0xFFFF ==> scale == 0
      decreases shifted
    {
      Pow2Doubles(scale);
      Halved(shifted, Pow2(scale), newSize);
      MulAssoc(Rounded(shifted / 2), Pow2(scale));
      scale := scale + 1;
      shifted := shifted / 2;
    }
  }

  lemma Pow2Base()
    ensures Pow2(0) == 1
  {
  }

  lemma Halved(x: nat, p: nat, n: nat)
    requires x * p <= n < (x + 1) * p
    ensures x / 2 * (2 * p) <= n < (x / 2 + 1) * (2 * p)
  {
    var h := x / 2;
    MulMono(2 * h, x, p);
    MulMono(x + 1, 2 * h + 2, p);
    assert h * (2 * p) == 2 * h * p;
    assert (h + 1) * (2 * p) == (2 * h + 2) * p;
  }

  /** The connect message queued in an untouched sender. */
  lemma ConnectQueued(s: S.Sender, message: seq<byte>, state: TcpState, finAck: bool, rtoBase: u32)
    requires S.Untouched(s) && message != [] && state in {SynSent, SynReceived}
    ensures Coupled(state, finAck, S.Enqueue(s, message, FLAG_CTL), rtoBase)
    ensures S.Enqueue(s, message, FLAG_CTL).stream == S.Stream(message, |message|, false)
    ensures S.Enqueue(s, message, FLAG_CTL).una == S.Enqueue(s, message, FLAG_CTL).nxt == 0
  {
    var t := S.Enqueue(s, message, FLAG_CTL);
    assert t.stream.bytes == message;
    assert t.slist == [SSegment(Wrap(0), |message|, 0, FLAG_CTL)];
    assert Waiting(t) == t.slist;
    FinCountOne(t.slist[0]);
  }

  lemma {:induction false} RoundedPositive(size: nat)
    ensures Rounded(size) <= size && (size > 0 ==> Rounded(size) > 0)
  {
    if size > 0xFFFF {
      RoundedPositive(size / 2);
    }
  }

  lemma MulAssoc(a: nat, p: nat)
    ensures 2 * a * p == a * (2 * p)
  {
  }

  lemma ScaledBy(shifted: nat, scale: nat)
    requires shifted <= 0xFFFF && (scale > 0 ==> shifted >= 0x8000)
    ensures shifted * Pow2(scale) <= 0xFFFF * Pow2(scale)
    ensures scale > 0 ==> 0xFFFF < shifted * Pow2(scale)
    ensures scale == 0 ==> shifted * Pow2(scale) == shifted && Pow2(scale) == 1
    ensures shifted > 0 ==> shifted * Pow2(scale) > 0
  {
    MulMono(shifted, 0xFFFF, Pow2(scale));
    if scale > 0 {
      MulMono(0x8000, shifted, Pow2(scale));
      Pow2Doubles(scale - 1);
      assert 0x8000 * Pow2(scale) == 0x1_0000 * Pow2(scale - 1);
      MulMono(1, Pow2(scale - 1), 0x1_0000);
    }
  }

  lemma ScaledIncoming(rx: Incoming, shifted: nat)
    requires shifted <= 0xFFFF && (rx.rwndScale > 0 ==> shifted >= 0x8000)
    requires rx.rbufLen == shifted * Pow2(rx.rwndScale)
    ensures Scaled(rx, rx.rbufLen)
  {
    ScaledBy(shifted, rx.rwndScale);
  }

  lemma ScaledStart(rx: Incoming)
    requires rx.rwndScale == 0 && rx.rbufLen <= 0xFFFF
    ensures Scaled(rx, rx.rbufLen)
  {
  }

  /** A buffer below 2^30 bytes needs a shift of at most 14. */
  lemma {:induction false} ScaleIsSmall(shifted: nat, scale: nat)
    requires scale > 0 ==> shifted >= 0x8000
    requires shifted * Pow2(scale) < 0x4000_0000
    ensures scale <= 14
  {
    if scale >= 15 {
      MulMono(0x8000, shifted, Pow2(scale));
      Pow2Grows(15, scale);
      Pow2Of15();
    }
  }

  lemma Pow2Of15()
    ensures Pow2(15) == 0x8000
  {
    assert Pow2(5) == 32;
    assert Pow2(10) == 1024;
  }

  lemma {:induction false} Pow2Grows(a: nat, b: nat)
    requires a <= b
    ensures Pow2(a) <= Pow2(b)
    decreases b
  {
    if a < b {
      Pow2Grows(a, b - 1);
    }
  }

  lemma EmittedWider(g: Start, m: Network, stream: S.Stream, nxt: int, ack: int, scale: nat, edge: int)
    requires Emitted(g, m, stream, nxt, ack, scale) && g.edge <= edge
    ensures Emitted(g.(edge := edge), m, stream, nxt, ack, scale)
  {
    hide S.WellCut, Wrap, Pow2;
    forall i | |g.net.out| <= i < |m.out| ensures SentIn(m.out[i], g.(edge := edge), stream, nxt, ack, scale) {
      assert SentIn(m.out[i], g, stream, nxt, ack, scale);
    }
  }

  /** Queueing data. */
  lemma CoupledData(state: TcpState, finAck: bool, s: S.Sender, rtoBase: u32, data: seq<byte>)
    requires Coupled(state, finAck, s, rtoBase) && S.Ok(s) && !HasSentFin(state) && state != Listen
    ensures Coupled(state, finAck, S.Enqueue(s, data, FLAG_NONE), rtoBase)
  {
    hide S.Partition, S.InFlight, FinCount, S.Enqueue, Appended;
    var t := S.Enqueue(s, data, FLAG_NONE);
    EnqueuedKept(s, data, FLAG_NONE);
    QueuedWaiting(s, data, FLAG_NONE);
    S.AppendedCases(s.slist, Wrap(s.una + |s.kept|), |data|, FLAG_NONE);
    if Joins(s.slist, FLAG_NONE) {
      JoinedFins(Waiting(s), Waiting(t));
    } else {
      FinCountConcat(Waiting(s), [SSegment(Wrap(s.una + |s.kept|), |data|, 0, FLAG_NONE)]);
      FinCountOne(SSegment(Wrap(s.una + |s.kept|), |data|, 0, FLAG_NONE));
    }
  }

  lemma {:induction false} JoinedFins(v: seq<SSegment>, w: seq<SSegment>)
    requires |v| == |w| && forall i :: 0 <= i < |v| ==> v[i].flags == w[i].flags
    ensures FinCount(v) == FinCount(w)
  {
    if v != [] {
      JoinedFins(v[1..], w[1..]);
    }
  }

  /** The coupling after a FIN was flushed and the state changed accordingly. */
  lemma CoupledFin(state: TcpState, next: TcpState, finAck: bool, s: S.Sender, t: S.Sender, n: Network, m: Network,
                   rtoBase: u32, rtoBase': u32)
    requires Coupled(state, finAck, s, rtoBase) && S.Ok(s) && finAck && Flushed(s, t, n, m, FLAG_FIN)
    requires (state in {SynReceived, Established} && next == FinWait1) || (state == CloseWait && next == LastAck)
    ensures Coupled(next, finAck, t, rtoBase')
  {
    hide S.Partition, S.InFlight, FlushedInOrder, FinCount;
    assert !s.finAcked && s.fins == 0;
    NoFin(Waiting(s));
  }

  lemma CoupledOpen(state: TcpState, finAck: bool, s: S.Sender, rtoBase: u32)
    requires Coupled(state, finAck, s, rtoBase) && !HasSentFin(state)
    ensures !s.stream.sealed && !s.finAcked
  {
  }

  lemma RecoveringQueued(f: Recovery, z: Sizing, s: S.Sender, t: S.Sender, recoverPos: int, strained: bool)
    requires Recovering(f, z, s, recoverPos, strained) && t.una == s.una && t.nxt == s.nxt
    ensures Recovering(f, z, t, recoverPos, strained)
  {
  }

  // The clock ----------------------------------------------------------------

  /** What the clock does to the send half: only a FIN or RST moves `nxt`. */
  ghost predicate Ticks(s: S.Sender, t: S.Sender) {
    && Sealing(s.stream, t.stream) && t.una == s.una && s.nxt <= t.nxt
    && (t.stream.sealed || t.nxt == s.nxt)
  }

  lemma TicksNothing(s: S.Sender)
    ensures Ticks(s, s)
  {
  }

  lemma TicksTwice(s: S.Sender, t: S.Sender, u: S.Sender)
    requires Ticks(s, t) && Ticks(t, u)
    ensures Ticks(s, u)
  {
  }

  lemma FlushedTicks(s: S.Sender, t: S.Sender, n: Network, m: Network, flags: Flags)
    requires Flushed(s, t, n, m, flags)
    ensures Ticks(s, t)
  {
    hide FlushedInOrder, FinTotal, NoReset;
  }

  lemma CoupledTimeWait(state: TcpState, finAck: bool, s: S.Sender, rtoBase: u32)
    requires Coupled(state, finAck, s, rtoBase)
    ensures state == TimeWait ==> rtoBase == 0
    ensures state == LastAck ==> !s.finAcked
    ensures s.finAcked && state != Closed ==> rtoBase == 0
  {
  }

  /** The retransmission timeout after one has run out. */
  function Backed(state: TcpState, rto: u32): u32 {
    Min(if state in {Listen, SynSent, SynReceived} then DEF_RTO else MAX_RTO, 2 * rto)
  }

  /** The timeout after `k` have run out one after the other. */
  function BackedTimes(state: TcpState, rto: u32, k: nat): u32 {
    if k == 0 then rto else Backed(state, BackedTimes(state, rto, k - 1))
  }

  /** `n` doubled `k` times. */
  function Doubled(n: nat, k: nat): nat { if k == 0 then n else 2 * Doubled(n, k - 1) }

  /** The timeout grows exponentially up to its limit, which is a second while connecting
      and a minute afterwards. */
  lemma {:induction false} BackoffIsExponential(state: TcpState, rto: u32, k: nat)
    requires 0 < rto <= if state in {Listen, SynSent, SynReceived} then 1000 else 60000
    ensures BackedTimes(state, rto, k) ==
            Min(if state in {Listen, SynSent, SynReceived} then 1000 else 60000, Doubled(rto, k))
  {
    if k > 0 {
      BackoffIsExponential(state, rto, k - 1);
    }
  }

  /** A timer started at one instant has run out at another exactly if the delay has
      passed between them. */
  lemma RunsOut(start: int, delay: u32, now: int)
    requires delay < 0x8000_0000 && 0 <= now - start < 0x4000_0000
    ensures TimeDiff(Add(Wrap(start), delay), Wrap(now)) <= 0 <==> now - start >= delay
  {
    hide TimeDiff, Wrap, Add;
    WrapArithmetic(start, delay);
    TimeDiffOrdersInstants(start + delay, now);
  }

  /** A timer that has just been started has not run out. */
  lemma JustStarted(now: u32, rto: u32)
    requires 0 < rto <= MAX_RTO
    ensures TimeDiff(Add(now, rto), now) > 0
  {
    hide TimeDiff, Wrap;
    AddSubAreWrap(now, rto);
    WrapNear(now);
    TimeDiffOrdersInstants(now + rto, now);
  }

  /** What a packet leaves of the acknowledgement that waits and of the times noted. */
  ghost predicate Stamped(a: Activity, b: Activity, bytes: bool, now: u32) {
    b.tAck == 0 && b.lastRecv == a.lastRecv && b.lastSend == if bytes then now else a.lastSend
  }

  /** After a timeout: a window of one segment, half of what was in flight as
      threshold, and twice the time to the next attempt, up to a limit that is
      lower while connecting. */
  ghost predicate BackedOff(state: TcpState, t: Timing, u: Timing, y: Sizing, f: Recovery, e: Recovery, inFlight: int,
                            now: u32) {
    && u == t.(rtoBase := now, rxRto := u.rxRto)
    && u.rxRto == Backed(state, t.rxRto)
    && y.cwnd == y.mss && e == f.(ssthresh := e.ssthresh) && e.ssthresh == Max(inFlight / 2, 2 * y.mss)
  }

  lemma BackedOffLater(state: TcpState, t: Timing, t': Timing, u: Timing, y: Sizing, f: Recovery, e: Recovery,
                       inFlight: int, now: u32)
    requires t' == t.(rtoBase := t'.rtoBase) && BackedOff(state, t', u, y, f, e, inFlight, now)
    ensures BackedOff(state, t, u, y, f, e, inFlight, now)
  {
  }

  /** A FIN repeated in LAST-ACK. */
  lemma CoupledFinAgain(finAck: bool, s: S.Sender, t: S.Sender, n: Network, m: Network, rtoBase: u32, rtoBase': u32)
    requires Coupled(LastAck, finAck, s, rtoBase) && finAck && Flushed(s, t, n, m, FLAG_FIN) && FinTotal(s) < 0xFFF_FFFF
    ensures Coupled(LastAck, finAck, t, rtoBase')
  {
    hide FlushedInOrder, FinCount;
  }

  lemma CoupledTimer(state: TcpState, finAck: bool, s: S.Sender, rtoBase: u32, rtoBase': u32)
    requires Coupled(state, finAck, s, rtoBase) && !s.finAcked
    ensures Coupled(state, finAck, s, rtoBase')
  {
  }
}
