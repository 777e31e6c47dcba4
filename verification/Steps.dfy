/** One call of a socket, seen from outside: what it does to the two streams. */
module Steps {
  import opened Seq32
  import Segments
  import Fifo
  import opened Options
  import opened SendLoop
  import opened Connection
  import opened Acking
  import R = Reassembly
  import S = Sending

  /** One end of a connection: the two halves, the bytes accepted by send and the
      bytes returned by recv so far, the packets given to the network so far, the
      peer's window, the options and whether incoming data is dropped. */
  datatype End = End(
    tx: S.Sender, rx: R.Receiver, sent: seq<byte>, got: seq<byte>, out: seq<S.Packet>, sndWnd: u32, party: Party,
        ignoring: bool)

  /** An end that has not done anything yet. */
  ghost predicate New(e: End) {
    && S.Untouched(e.tx) && e.rx.nxt == 0 && e.rx.held == 0 && e.rx.pieces == []
    && e.rx.wnd == |e.rx.cells| && e.sent == [] && e.got == [] && e.out == [] && e.sndWnd == 1 && !e.ignoring
    && e.party.swndScale == 0
  }

  /** The right edge of a receiver's own window, before the header rounds it. */
  function Edge(r: R.Receiver): int { r.nxt + r.wnd }

  /** What a call adds to the stream: the bytes send has accepted in it, or the
      connect message if there was nothing yet; and perhaps the mark of its end,
      after which nothing is added. */
  ghost predicate Grows(a: End, b: End) {
    && a.sent <= b.sent && (a.tx.stream.sealed ==> b.tx.stream.sealed && b.sent == a.sent)
    && (|| b.tx.stream == S.Stream(a.tx.stream.bytes + b.sent[|a.sent|..], a.tx.stream.ctl, b.tx.stream.sealed)
        || (a.tx.stream.bytes == [] && !a.tx.stream.sealed && b.sent == a.sent
              && b.tx.stream.ctl == |b.tx.stream.bytes|))
  }

  lemma GrowsNot(a: End, b: End)
    requires Sealing(a.tx.stream, b.tx.stream) && b.sent == a.sent
    ensures Grows(a, b)
  {
    assert a.tx.stream.bytes + [] == a.tx.stream.bytes;
  }

  lemma GrowsExtends(a: End, b: End)
    requires Grows(a, b)
    ensures Extends(a.tx.stream, b.tx.stream)
  {
  }

  /** Growth, and then the mark of the end. */
  lemma GrowsSealing(a: End, m: End, b: End)
    requires Grows(a, m) && Sealing(m.tx.stream, b.tx.stream) && b.sent == m.sent
    ensures Grows(a, b)
  {
  }

  lemma GrowsByMessage(a: End, b: End, message: seq<byte>)
    requires S.Untouched(a.tx) && b.tx.stream == S.Stream(message, |message|, false) && b.sent == a.sent
    ensures Grows(a, b)
  {
  }

  /** Sending leaves what was added as it is. */
  lemma GrowsLater(a: End, m: End, b: End)
    requires Grows(a, m) && b.tx.stream == m.tx.stream && b.sent == m.sent
    ensures Grows(a, b)
  {
  }

  /** The packets given to the network by one call. */
  ghost predicate Emits(a: End, b: End, edge: int) {
    && a.out <= b.out
    && forall i :: |a.out| <= i < |b.out| ==>
         SentIn(b.out[i], Start(Network(a.out, 0), a.tx.una, a.rx.nxt, edge), b.tx.stream, b.tx.nxt, b.rx.nxt,
                b.party.rwndScale)
  }

  /** New bytes go out only within the peer's window, until a FIN or RST flushes
      everything. */
  ghost predicate Windowed(a: End, b: End) {
    a.tx.nxt <= b.tx.nxt && (!b.tx.stream.sealed ==> b.tx.nxt <= Max(a.tx.nxt, b.tx.una + b.sndWnd))
  }

  /** Bytes leave the ring for the application, in order; the window stays or
      reopens to all the free space. */
  ghost predicate Takes(r: R.Receiver, t: R.Receiver, got: seq<byte>, now: seq<byte>) {
    && |got| <= |now| && |now| - |got| <= r.held <= |r.cells|
    && now == got + r.cells[..|now| - |got|]
    && t == R.TakeFront(r, |now| - |got|, t.wnd)
    && (t.wnd == r.wnd || t.wnd == t.Free())
  }

  /** The peer's window stays, or a connect message is queued and sets it to its own
      length. */
  ghost predicate SameWindow(a: End, b: End) {
    b.sndWnd == a.sndWnd || (S.Untouched(a.tx) && b.sndWnd <= MAX_CONNECT)
  }

  /** Any call other than the delivery of a packet. */
  ghost predicate Acts(a: End, b: End) {
    && Grows(a, b) && b.tx.una == a.tx.una && Windowed(a, b)
    && SameWindow(a, b)
    && b.party == a.party && (a.ignoring ==> b.ignoring)
    && Takes(a.rx, b.rx, a.got, b.got)
    && Emits(a, b, Max(Edge(a.rx), Edge(b.rx)))
  }

  /** What the segment of packet `p` does to a receiver. */
  function Received(r: R.Receiver, p: S.Packet, ignoring: bool): R.Receiver
    requires r.held <= |r.cells|
  {
    R.ReceiveSegment(r, p.seg.flags.fin, p.seg.flags.ctl || ignoring, p.pos, p.seg.data)
  }

  /** A connect message may replace the ring before the segment is taken in. */
  ghost predicate Retuned(a: End, b: End, p: S.Packet, heard: R.Receiver) {
    && (b.party == a.party || (p.seg.flags.ctl && p.seg.data != [] && b.party == a.party.Hears(p.seg.data)))
    && (a.ignoring && (b.party == a.party || !b.party.finAck) ==> b.ignoring)
    && (heard == a.rx || (b.party.rwndScale != a.party.rwndScale && Resized(a.rx, heard, DEFAULT_RCV_BUF_SIZE)))
  }

  /** Either no acknowledgement was taken over, or `p`'s, with its window. */
  ghost predicate Acknowledges(a: End, b: End, p: S.Packet) {
    || (b.tx.una == a.tx.una && SameWindow(a, b))
    || (b.tx.una == p.ackPos && a.tx.una <= p.ackPos <= a.tx.nxt
          && b.sndWnd == ScaledWindow(p.seg.wnd, b.party.swndScale))
  }

  /** The acknowledgement number of `p` is in flight, or the oldest one not
      acknowledged: it is taken over with the window, otherwise neither is. */
  ghost predicate Answered(a: End, b: End, p: S.Packet) {
    if a.tx.una <= p.ackPos <= a.tx.nxt then b.tx.una == p.ackPos
        && b.sndWnd == ScaledWindow(p.seg.wnd, b.party.swndScale)
    else b.tx.una == a.tx.una && (p.seg.flags.ctl || b.sndWnd == a.sndWnd)
  }

  /** The delivery of packet `p`. */
  ghost predicate Hears(a: End, b: End, p: S.Packet, heard: R.Receiver) {
    && Grows(a, b) && b.sent == a.sent && Windowed(a, b) && Acknowledges(a, b, p)
    && Retuned(a, b, p, heard) && heard.held <= |heard.cells|
    && b.got == a.got && (b.rx == heard || b.rx == Received(heard, p, b.ignoring))
    && Emits(a, b, Max(Edge(heard), Edge(b.rx)))
  }

  /** From the account a call keeps to the view from outside. */
  lemma EmitsFrom(a: End, b: End, g: Start, m: Network)
    requires g.net.out == a.out && g.una == a.tx.una && g.ack == a.rx.nxt
    requires m.out == b.out && Emitted(g, m, b.tx.stream, b.tx.nxt, b.rx.nxt, b.party.rwndScale)
    ensures Emits(a, b, g.edge)
  {
    hide S.WellCut, Wrap, Pow2;
    forall i | |a.out| <= i < |b.out|
      ensures SentIn(b.out[i], Start(Network(a.out, 0), a.tx.una, a.rx.nxt, g.edge), b.tx.stream, b.tx.nxt, b.rx.nxt,
                     b.party.rwndScale)
    {
      assert SentIn(m.out[i], g, b.tx.stream, b.tx.nxt, b.rx.nxt, b.party.rwndScale);
    }
  }

  /** Nothing given to the network. */
  lemma EmitsNothing(a: End, b: End, edge: int)
    requires b.out == a.out
    ensures Emits(a, b, edge)
  {
  }

  /** A connect message heard: options, ring and perhaps the own connect message. */
  ghost predicate Greets(a: End, m: End, p: S.Packet) {
    && Grows(a, m) && m.sent == a.sent && m.tx.una == a.tx.una && m.tx.nxt == a.tx.nxt
    && SameWindow(a, m)
    && Retuned(a, m, p, m.rx) && m.rx.nxt == a.rx.nxt && m.got == a.got && m.out == a.out
  }

  lemma GreetsNothing(a: End, p: S.Packet)
    ensures Greets(a, a, p)
  {
    GrowsNot(a, a);
  }

  lemma GreetsPositions(a: End, m: End, p: S.Packet)
    requires Greets(a, m, p)
    ensures m.tx.una == a.tx.una && m.tx.nxt == a.tx.nxt
  {
  }

  /** Options first, then the segment. */
  lemma HearsFrom(a: End, m: End, b: End, p: S.Packet, x: Outgoing, y: Outgoing, g: Start, net: Network, ok: bool)
    requires Greets(a, m, p) && m.rx.held <= |m.rx.cells| && (p.seg.flags.ctl || m == a)
    requires Digested(m.tx, b.tx, x, y, p.ackPos, p.seg.wnd, ok)
    requires x.sndWnd == m.sndWnd && y.sndWnd == b.sndWnd && x.swndScale == m.party.swndScale
    requires b.party == m.party && (m.ignoring ==> b.ignoring) && b.got == m.got && b.sent == m.sent
    requires b.rx == m.rx || b.rx == Received(m.rx, p, b.ignoring)
    requires g == Start(g.net, m.tx.una, m.rx.nxt, Max(Edge(m.rx), Edge(b.rx))) && g.net.out == m.out
    requires net.out == b.out && Emitted(g, net, b.tx.stream, b.tx.nxt, b.rx.nxt, b.party.rwndScale)
    ensures Hears(a, b, p, m.rx)
    ensures ok ==> Answered(a, b, p)
  {
    hide Emitted, Emits, Received, ScaledWindow, Grows, Resized, Party.Hears;
    GrowsSealing(a, m, b);
    EmitsFrom(a, b, g, net);
  }

  /** A packet that changes nothing. */
  lemma HearsNothing(a: End, p: S.Packet)
    requires a.rx.held <= |a.rx.cells|
    ensures Hears(a, a, p, a.rx)
  {
    hide Received, ScaledWindow, Party.Hears;
    GrowsNot(a, a);
    EmitsNothing(a, a, Edge(a.rx));
  }

  lemma GreetsFrom(a: End, m: End, p: S.Packet, message: seq<byte>)
    requires Orderly(p.seg, p.pos, a.rx, a.ignoring) && Answers(p.seg, p.ackPos, a.tx)
    requires p.seg.flags.ctl && p.seg.data != [] && m.party == a.party.Hears(p.seg.data)
    requires if m.party.rwndScale == a.party.rwndScale then m.rx == a.rx else Resized(a.rx, m.rx, DEFAULT_RCV_BUF_SIZE)
    requires (m.tx == a.tx && m.sndWnd == a.sndWnd)
              || (S.Untouched(a.tx) && m.tx == S.Enqueue(a.tx, message, Segments.FLAG_CTL) && m.sndWnd <= MAX_CONNECT)
    requires m.out == a.out && m.got == a.got && m.sent == a.sent
              && (a.ignoring && (m.party == a.party || !m.party.finAck) ==> m.ignoring)
    requires a.ignoring && !m.ignoring ==> a.rx.pieces == []
    ensures Greets(a, m, p) && Orderly(p.seg, p.pos, m.rx, m.ignoring) && Answers(p.seg, p.ackPos, m.tx)
  {
    hide Party.Hears, Wrap;
    if m.tx == a.tx {
      GrowsNot(a, m);
    }
    EnqueuedKept(a.tx, message, Segments.FLAG_CTL);
  }

  /** A packet that closes the socket. */
  lemma HearsClosing(a: End, b: End, p: S.Packet, g: Start, n: Network, m: Network)
    requires a.rx.held <= |a.rx.cells| && b == a.(tx := b.tx, out := b.out, ignoring := b.ignoring)
              && (a.ignoring ==> b.ignoring)
    requires b.tx == a.tx || Flushed(a.tx, b.tx, n, m, Segments.FLAG_RST)
    requires g == Start(n, a.tx.una, a.rx.nxt, Edge(a.rx)) && n.out == a.out && m.out == b.out
    requires Emitted(g, m, b.tx.stream, b.tx.nxt, b.rx.nxt, b.party.rwndScale)
    ensures Hears(a, b, p, a.rx)
  {
    hide Received, ScaledWindow, Party.Hears, Emitted, Emits, FlushedInOrder, FinTotal, NoReset;
    GrowsNot(a, b);
    EmitsFrom(a, b, g, m);
  }

  // Calls of the application -------------------------------------------------

  /** A call that leaves the receive half alone. */
  lemma ActsFrom(a: End, b: End, g: Start, m: Network)
    requires Grows(a, b) && b.tx.una == a.tx.una && Windowed(a, b)
    requires SameWindow(a, b)
    requires b.party == a.party && (a.ignoring ==> b.ignoring) && Takes(a.rx, b.rx, a.got, b.got)
    requires g == Start(g.net, a.tx.una, a.rx.nxt, Max(Edge(a.rx), Edge(b.rx))) && g.net.out == a.out && m.out == b.out
    requires Emitted(g, m, b.tx.stream, b.tx.nxt, b.rx.nxt, b.party.rwndScale)
    ensures Acts(a, b)
  {
    hide Emitted, Emits, Grows, Takes, Windowed;
    EmitsFrom(a, b, g, m);
  }

  lemma TakesNothing(r: R.Receiver, got: seq<byte>)
    requires r.held <= |r.cells|
    ensures Takes(r, r, got, got)
  {
    Fifo.RotateNothing(r.cells);
  }

  lemma ActsNothing(a: End)
    requires a.rx.held <= |a.rx.cells|
    ensures Acts(a, a)
  {
    GrowsNot(a, a);
    TakesNothing(a.rx, a.got);
    EmitsNothing(a, a, Edge(a.rx));
  }

  lemma TookBytes(r: R.Receiver, t: R.Receiver, got: seq<byte>, now: seq<byte>, data: seq<byte>)
    requires |data| <= r.held <= |r.cells| && data == r.cells[..|data|] && now == got + data
    requires t == R.TakeFront(r, |data|, r.wnd).(wnd := t.wnd) && (t.wnd == r.wnd || t.wnd == t.Free())
    ensures Takes(r, t, got, now) && t.nxt == r.nxt
  {
  }

  /** An empty read. */
  lemma TookNothing(a: End, b: End)
    requires a.rx.held <= |a.rx.cells|
    requires b == a.(rx := R.TakeFront(a.rx, 0, a.rx.wnd), got := a.got + [])
    ensures b == a
  {
    Fifo.RotateNothing(a.rx.cells);
    assert a.got + [] == a.got;
  }

  /** A call that only sends. */
  lemma ActsSending(a: End, b: End, g: Start, m: Network)
    requires a.rx.held <= |a.rx.cells| && b == a.(tx := b.tx, sent := b.sent, out := b.out, sndWnd :=
              b.sndWnd, ignoring := b.ignoring)
    requires a.ignoring ==> b.ignoring
    requires Grows(a, b) && b.tx.una == a.tx.una && Windowed(a, b)
    requires SameWindow(a, b)
    requires g == Start(g.net, a.tx.una, a.rx.nxt, Edge(a.rx)) && g.net.out == a.out && m.out == b.out
    requires Emitted(g, m, b.tx.stream, b.tx.nxt, b.rx.nxt, b.party.rwndScale)
    ensures Acts(a, b)
  {
    hide Emitted, Grows, Windowed, Takes;
    TakesNothing(a.rx, a.got);
    ActsFrom(a, b, g, m);
  }

  /** A call that seals the stream, or at least does not extend it. */
  lemma ActsClosing(a: End, b: End, g: Start, n: Network, m: Network, flags: Segments.Flags)
    requires a.rx.held <= |a.rx.cells| && b == a.(tx := b.tx, out := b.out, ignoring := b.ignoring)
    requires a.ignoring ==> b.ignoring
    requires b.tx == a.tx || Flushed(a.tx, b.tx, n, m, flags)
    requires g == Start(g.net, a.tx.una, a.rx.nxt, Edge(a.rx)) && g.net.out == a.out && m.out == b.out
    requires Emitted(g, m, b.tx.stream, b.tx.nxt, b.rx.nxt, b.party.rwndScale)
    ensures Acts(a, b)
  {
    hide Emitted, FlushedInOrder, FinTotal, NoReset;
    GrowsNot(a, b);
    ActsSending(a, b, g, m);
  }

  lemma ActsIgnoring(a: End, b: End)
    requires a.rx.held <= |a.rx.cells| && b == a.(ignoring := b.ignoring) && (a.ignoring ==> b.ignoring)
    ensures Acts(a, b)
  {
    GrowsNot(a, b);
    TakesNothing(a.rx, a.got);
    EmitsNothing(a, b, Edge(a.rx));
  }

  /** A call that lets time pass. */
  lemma ActsTicking(a: End, b: End, g: Start, m: Network)
    requires a.rx.held <= |a.rx.cells| && b == a.(tx := b.tx, out := b.out, ignoring := b.ignoring)
              && (a.ignoring ==> b.ignoring)
    requires Ticks(a.tx, b.tx)
    requires g == Start(g.net, a.tx.una, a.rx.nxt, Edge(a.rx)) && g.net.out == a.out && m.out == b.out
    requires Emitted(g, m, b.tx.stream, b.tx.nxt, b.rx.nxt, b.party.rwndScale)
    ensures Acts(a, b)
  {
    hide Emitted, Grows;
    GrowsNot(a, b);
    ActsSending(a, b, g, m);
  }
}
