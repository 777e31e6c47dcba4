/** Two sockets and a network that drops, duplicates and reorders packets. */
module Channel {
  import opened Seq32
  import opened Fifo
  import opened Segments
  import opened Options
  import opened SendLoop
  import opened Connection
  import opened Acking
  import opened Steps
  import R = Reassembly
  import S = Sending

  datatype Pair = Pair(a: End, b: End)

  // What one end makes of the other's stream ---------------------------------

  /** What the application has read and what the ring holds. */
  function Delivered(r: R.Receiver, got: seq<byte>): seq<byte>
    requires r.held <= |r.cells|
  {
    got + r.cells[..r.held]
  }

  /** The data of a stream: what follows the connect message. */
  function Data(s: S.Stream): seq<byte>
    requires s.ctl <= |s.bytes|
  {
    s.bytes[s.ctl..]
  }

  /** A receiver follows stream `s`: what it has delivered is the front of the
      data; before the connect message is complete it has delivered nothing; until
      the end of the stream it is faithful, and once it has accepted the FIN it
      has delivered everything, unless it drops data. */
  ghost predicate Follows(r: R.Receiver, got: seq<byte>, ignoring: bool, s: S.Stream) {
    && s.ctl <= |s.bytes| && r.held <= |r.cells|
    && 0 <= r.nxt <= |s.bytes| + (if s.sealed then 1 else 0)
    && Delivered(r, got) <= Data(s)
    && (r.nxt <= s.ctl ==> got == [] && r.held == 0)
    && (!ignoring && s.ctl <= r.nxt <= |s.bytes| ==> R.Faithful(r, s.bytes, s.ctl, got))
    && (!ignoring && r.nxt > |s.bytes| ==> Delivered(r, got) == Data(s))
  }

  /** A connect message comes in time.  If its bytes are the ones wanted nothing may
      be listed, see `ControlBytesInPlace`; nor if it makes the receiver give up its
      scale, and what the ring holds must then fit the smaller ring; and if it makes
      an end that drops data take data again, nothing may have been dropped yet. */
  ghost predicate ConnectsInTime(e: End, p: S.Packet, s: S.Stream) {
    p.seg.flags.ctl && p.seg.data != [] ==>
      var q := e.party.Hears(p.seg.data);
      && (p.pos <= e.rx.nxt < p.pos + |p.seg.data| ==> e.rx.pieces == [])
      && (q.rwndScale != e.party.rwndScale ==> e.rx.pieces == [] && e.rx.held < DEFAULT_RCV_BUF_SIZE)
      && (e.ignoring && q.finAck ==> e.rx.pieces == [] && e.rx.nxt <= s.ctl)
  }

  lemma FollowsMore(r: R.Receiver, got: seq<byte>, ignoring: bool, s: S.Stream, t: S.Stream)
    requires Follows(r, got, ignoring, s) && Extends(s, t)
    ensures Follows(r, got, ignoring, t)
  {
    hide R.Faithful, R.Landed;
    if s.bytes == [] && t.ctl != s.ctl {
      assert Delivered(r, got) == [];
      assert got == [] && r.held == 0;
    } else {
      var more := t.bytes[|s.bytes|..];
      assert t.bytes == s.bytes + more;
      SliceOfSum(s.bytes, more, s.ctl);
      PrefixOfSum(Delivered(r, got), Data(s), more);
      if !ignoring && s.ctl <= r.nxt <= |s.bytes| {
        R.StreamGrows(r, s.bytes, more, s.ctl, got);
      }
    }
  }

  /** What a faithful receiver has delivered. */
  lemma FaithfulFollows(r: R.Receiver, got: seq<byte>, ignoring: bool, s: S.Stream)
    requires R.Faithful(r, s.bytes, s.ctl, got)
    ensures Follows(r, got, ignoring, s)
  {
    hide R.Landed, R.Sorted, R.Between;
    assert s.bytes[s.ctl..r.nxt] <= Data(s);
    if r.nxt == s.ctl {
      assert got + r.cells[..r.held] == [];
    }
  }

  /** A receiver with nothing listed that has delivered nothing. */
  lemma BlankFollows(r: R.Receiver, got: seq<byte>, ignoring: bool, s: S.Stream)
    requires r.pieces == [] && r.held == 0 && got == [] && 0 <= r.nxt <= s.ctl <= |s.bytes|
    ensures Follows(r, got, ignoring, s)
  {
    assert got + r.cells[..0] == [] == s.bytes[s.ctl..s.ctl];
  }

  lemma FollowsData(r: R.Receiver, got: seq<byte>, s: S.Stream, p: S.Packet)
    requires Follows(r, got, false, s) && S.WellCut(p, s) && !p.seg.flags.fin && !p.seg.flags.ctl
    ensures Follows(R.Receive(r, p.pos, p.seg.data), got, false, s)
    ensures r.nxt <= R.Receive(r, p.pos, p.seg.data).nxt
  {
    hide R.Faithful, R.Store, Wrap;
    var t := R.Receive(r, p.pos, p.seg.data);
    R.TrimFits(r, p.pos, p.seg.data);
    if p.seg.data == [] || r.nxt > |s.bytes| {
      assert t == r;
    } else if r.nxt < s.ctl {
      EarlyData(r, p.pos, p.seg.data);
      assert t.cells[..t.held] == r.cells[..r.held];
    } else {
      R.ReceiveKeepsStream(r, s.bytes, s.ctl, got, p.pos, p.seg.data);
      FaithfulOk(r, s.bytes, s.ctl, got);
      R.ReceiveOk(r, p.pos, p.seg.data);
      FaithfulFollows(t, got, false, s);
    }
  }

  lemma FaithfulOk(r: R.Receiver, stream: seq<byte>, base: nat, got: seq<byte>)
    requires R.Faithful(r, stream, base, got)
    ensures R.Ok(r)
  {
  }

  /** Data past the position wanted is listed at most. */
  lemma EarlyData(r: R.Receiver, pos: int, data: seq<byte>)
    requires r.held == 0 && r.nxt < pos
    ensures var t := R.Receive(r, pos, data);
            t.nxt == r.nxt && t.held == r.held && |t.cells| == |r.cells| && t.wnd == r.wnd
  {
    hide R.Insert, Overwrite;
  }

  lemma FollowsIgnored(r: R.Receiver, got: seq<byte>, ignoring: bool, s: S.Stream, p: S.Packet)
    requires Follows(r, got, ignoring, s) && S.WellCut(p, s) && !p.seg.flags.fin && (p.seg.flags.ctl || ignoring)
    requires p.seg.flags.ctl && p.pos <= r.nxt < p.pos + |p.seg.data| ==> r.pieces == []
    ensures Follows(R.ReceiveIgnored(r, p.pos, p.seg.data), got, ignoring, s)
    ensures r.nxt <= R.ReceiveIgnored(r, p.pos, p.seg.data).nxt
  {
    hide R.Faithful, Wrap;
    var t := R.ReceiveIgnored(r, p.pos, p.seg.data);
    R.TrimFits(r, p.pos, p.seg.data);
    if t.nxt > r.nxt && p.seg.flags.ctl {
      BlankFollows(t, got, ignoring, s);
    }
  }

  lemma FollowsFin(r: R.Receiver, got: seq<byte>, ignoring: bool, s: S.Stream, p: S.Packet)
    requires Follows(r, got, ignoring, s) && S.WellCut(p, s) && p.seg.flags.fin
    ensures Follows(R.ReceiveFin(r, p.pos, p.seg.data), got, ignoring, s)
    ensures r.nxt <= R.ReceiveFin(r, p.pos, p.seg.data).nxt
  {
    hide R.Ok, R.Landed, Wrap;
    R.FinCountsOnce(r, p.pos);
    if !ignoring && r.nxt == |s.bytes| {
      assert s.bytes[s.ctl..r.nxt] == Data(s);
    }
  }

  /** A packet cut from the stream keeps a receiver on it. */
  lemma FollowsReceived(r: R.Receiver, got: seq<byte>, ignoring: bool, s: S.Stream, p: S.Packet)
    requires Follows(r, got, ignoring, s) && S.WellCut(p, s)
    requires p.seg.flags.ctl && p.pos <= r.nxt < p.pos + |p.seg.data| ==> r.pieces == []
    ensures Follows(Received(r, p, ignoring), got, ignoring, s)
    ensures r.nxt <= Received(r, p, ignoring).nxt
  {
    hide S.WellCut, R.Receive, R.ReceiveIgnored, R.ReceiveFin, Follows;
    assert r.held <= |r.cells| by { FollowsFits(r, got, ignoring, s); }
    if p.seg.flags.fin {
      FollowsFin(r, got, ignoring, s, p);
    } else if p.seg.flags.ctl || ignoring {
      FollowsIgnored(r, got, ignoring, s, p);
    } else {
      FollowsData(r, got, s, p);
    }
  }

  lemma FollowsFits(r: R.Receiver, got: seq<byte>, ignoring: bool, s: S.Stream)
    requires Follows(r, got, ignoring, s)
    ensures r.held <= |r.cells| && s.ctl <= |s.bytes| && got <= Data(s)
  {
    assert got <= Delivered(r, got);
  }

  // Two ends -----------------------------------------------------------------

  /** The data of the stream is what send has accepted. */
  ghost predicate Logged(x: End) {
    x.tx.stream.ctl <= |x.tx.stream.bytes| && Data(x.tx.stream) == x.sent
  }

  /** What holds from the sending end `x` to the receiving end `y`: the stream of `x`
      is what its send has accepted, every packet `x` ever sent is cut from that
      stream, `y` follows it, and `y` has acknowledged nothing that it does not
      have. */
  ghost predicate Linked(x: End, y: End) {
    && Logged(x) && (forall i :: 0 <= i < |x.out| ==> S.WellCut(x.out[i], x.tx.stream))
    && Follows(y.rx, y.got, y.ignoring, x.tx.stream)
    && (forall i :: 0 <= i < |y.out| ==> y.out[i].ackPos <= y.rx.nxt && y.out[i].seg.ack == Wrap(y.out[i].ackPos))
  }

  /** A packet that the peer sent, close enough for 32-bit numbers, a connect
      message in time. */
  ghost predicate Deliverable(e: End, peer: End, p: S.Packet) {
    && p in peer.out
    && Near(p.pos, |p.seg.data|, e.rx.nxt) && -0x8000_0000 <= p.ackPos - e.tx.una <= 0x8000_0000
    && ConnectsInTime(e, p, peer.tx.stream)
  }

  /** One step of the pair: a call at one end, or the delivery of a packet that
      the other end has sent at some time. */
  ghost predicate Step(p: Pair, q: Pair) {
    || (Acts(p.a, q.a) && q.b == p.b)
    || (Acts(p.b, q.b) && q.a == p.a)
    || (q.b == p.b && exists k, heard :: Deliverable(p.a, p.b, k) && Hears(p.a, q.a, k, heard))
    || (q.a == p.a && exists k, heard :: Deliverable(p.b, p.a, k) && Hears(p.b, q.b, k, heard))
  }

  /** A run from two new sockets. */
  ghost predicate Run(r: seq<Pair>) {
    && r != [] && New(r[0].a) && New(r[0].b)
    && forall i :: 0 <= i < |r| - 1 ==> Step(r[i], r[i + 1])
  }

  lemma NewLinked(x: End, y: End)
    requires New(x) && New(y)
    ensures Linked(x, y)
  {
    assert Delivered(y.rx, y.got) == [];
    assert y.got + y.rx.cells[..y.rx.held] == x.tx.stream.bytes[0..0];
  }

  lemma SentIsCut(a: End, b: End, edge: int, i: nat)
    requires Emits(a, b, edge) && |a.out| <= i < |b.out|
    ensures S.WellCut(b.out[i], b.tx.stream) && b.out[i].ackPos <= b.rx.nxt && b.out[i].seg.ack == Wrap(b.out[i].ackPos)
  {
    hide S.WellCut;
  }

  /** The sender moves on. */
  lemma SenderMoves(x: End, x': End, y: End, edge: int)
    requires Linked(x, y) && Grows(x, x') && Emits(x, x', edge)
    ensures Linked(x', y)
  {
    hide S.WellCut, Follows, Emits, Grows, Extends, Logged;
    StaysLogged(x, x');
    GrowsExtends(x, x');
    FollowsMore(y.rx, y.got, y.ignoring, x.tx.stream, x'.tx.stream);
    EmitsPrefix(x, x', edge);
    forall i | 0 <= i < |x'.out| ensures S.WellCut(x'.out[i], x'.tx.stream) {
      if i < |x.out| {
        assert x'.out[i] == x.out[i];
        WellCutExtends(x.out[i], x.tx.stream, x'.tx.stream);
      } else {
        SentIsCut(x, x', edge, i);
      }
    }
  }

  lemma StaysLogged(x: End, x': End)
    requires Logged(x) && Grows(x, x')
    ensures Logged(x')
  {
    SliceOfSum(x.tx.stream.bytes, x'.sent[|x.sent|..], x.tx.stream.ctl);
  }

  lemma PrefixOfSum(a: seq<byte>, b: seq<byte>, c: seq<byte>)
    requires a <= b
    ensures a <= b + c
  {
  }

  lemma SliceOfSum(a: seq<byte>, b: seq<byte>, k: nat)
    requires k <= |a|
    ensures (a + b)[k..] == a[k..] + b
  {
  }

  lemma EmitsPrefix(a: End, b: End, edge: int)
    requires Emits(a, b, edge)
    ensures a.out <= b.out
  {
  }

  /** The receiver moves on. */
  lemma ReceiverMoves(x: End, y: End, y': End, edge: int)
    requires Linked(x, y) && Emits(y, y', edge) && y.rx.nxt <= y'.rx.nxt
              && Follows(y'.rx, y'.got, y'.ignoring, x.tx.stream)
    ensures Linked(x, y')
  {
    hide S.WellCut, Follows, Emits;
    EmitsPrefix(y, y', edge);
    forall i | 0 <= i < |y'.out| ensures y'.out[i].ackPos <= y'.rx.nxt && y'.out[i].seg.ack == Wrap(y'.out[i].ackPos) {
      if i < |y.out| {
        assert y'.out[i] == y.out[i];
      } else {
        SentIsCut(y, y', edge, i);
      }
    }
  }

  /** The application reads. */
  lemma FollowsTaken(r: R.Receiver, t: R.Receiver, got: seq<byte>, now: seq<byte>, ignoring: bool, ignoring': bool,
                     s: S.Stream)
    requires Follows(r, got, ignoring, s) && Takes(r, t, got, now) && (ignoring ==> ignoring')
    ensures Follows(t, now, ignoring', s)
  {
    hide R.Faithful, Rotate, Takes, Delivered;
    TakenDelivered(r, t, got, now);
    if !ignoring' && s.ctl <= r.nxt <= |s.bytes| {
      TakenFaithful(r, t, got, now, s);
    }
  }

  /** A read hands over bytes that were delivered already. */
  lemma TakenDelivered(r: R.Receiver, t: R.Receiver, got: seq<byte>, now: seq<byte>)
    requires Takes(r, t, got, now)
    ensures r.held <= |r.cells| && t.held <= |t.cells| && t.nxt == r.nxt && Delivered(t, now) == Delivered(r, got)
    ensures got == [] && r.held == 0 ==> now == [] && t.held == 0
  {
    hide Rotate;
    var n := |now| - |got|;
    RotateFront(r.cells, n, r.held);
    var a, b := r.cells[..n], r.cells[..r.held][n..];
    assert r.cells[..r.held] == a + b;
    assert now == got + a && t.cells[..t.held] == b;
    assert (got + a) + b == got + (a + b);
  }

  lemma TakenFaithful(r: R.Receiver, t: R.Receiver, got: seq<byte>, now: seq<byte>, s: S.Stream)
    requires Takes(r, t, got, now) && R.Faithful(r, s.bytes, s.ctl, got)
    ensures R.Faithful(t, s.bytes, s.ctl, now)
  {
    hide R.Faithful, R.TakeFront;
    R.TakeFrontKeepsStream(r, s.bytes, s.ctl, got, |now| - |got|, t.wnd);
  }

  lemma ActsKeepsLinked(x: End, y: End, y': End)
    requires Acts(y, y') && Linked(x, y) && Linked(y, x)
    ensures Linked(x, y') && Linked(y', x)
  {
    hide Follows, Emits, Takes, Grows, Windowed, S.WellCut, Logged;
    SenderMoves(y, y', x, Max(Edge(y.rx), Edge(y'.rx)));
    FollowsTaken(y.rx, y'.rx, y.got, y'.got, y.ignoring, y'.ignoring, x.tx.stream);
    TakesKeepsPosition(y.rx, y'.rx, y.got, y'.got);
    ReceiverMoves(x, y, y', Max(Edge(y.rx), Edge(y'.rx)));
  }

  lemma TakesKeepsPosition(r: R.Receiver, t: R.Receiver, got: seq<byte>, now: seq<byte>)
    requires Takes(r, t, got, now)
    ensures t.nxt == r.nxt
  {
  }

  /** Options heard in time leave the receiver on the stream. */
  lemma FollowsRetuned(y: End, y': End, p: S.Packet, heard: R.Receiver, s: S.Stream)
    requires Follows(y.rx, y.got, y.ignoring, s) && Retuned(y, y', p, heard) && ConnectsInTime(y, p, s)
    ensures Follows(heard, y.got, y'.ignoring, s) && heard.nxt == y.rx.nxt && heard.pieces == y.rx.pieces
  {
    hide R.Faithful, Party.Hears;
    if y.ignoring && !y'.ignoring {
      BlankFollows(heard, y.got, y'.ignoring, s);
    } else if heard != y.rx && !y'.ignoring && s.ctl <= y.rx.nxt <= |s.bytes| {
      ResizedFaithful(y.rx, heard, s.bytes, s.ctl, y.got);
    }
  }

  lemma ResizedFaithful(r: R.Receiver, t: R.Receiver, stream: seq<byte>, base: nat, got: seq<byte>)
    requires R.Faithful(r, stream, base, got) && Resized(r, t, |t.cells|)
    ensures R.Faithful(t, stream, base, got)
  {
  }

  lemma HearsKeepsLinked(x: End, y: End, y': End, p: S.Packet, heard: R.Receiver)
    requires Deliverable(y, x, p) && Hears(y, y', p, heard) && Linked(x, y) && Linked(y, x)
    ensures Linked(x, y') && Linked(y', x)
  {
    hide Follows, Emits, Grows, Windowed, S.WellCut, Logged, Retuned, Received, Acknowledges, Wrap;
    SenderMoves(y, y', x, Max(Edge(heard), Edge(y'.rx)));
    FollowsRetuned(y, y', p, heard, x.tx.stream);
    var i :| 0 <= i < |x.out| && x.out[i] == p;
    assert S.WellCut(p, x.tx.stream);
    FollowsReceived(heard, y.got, y'.ignoring, x.tx.stream, p);
    ReceiverMoves(x, y, y', Max(Edge(heard), Edge(y'.rx)));
  }

  lemma StepKeepsLinked(p: Pair, q: Pair)
    requires Step(p, q) && Linked(p.a, p.b) && Linked(p.b, p.a)
    ensures Linked(q.a, q.b) && Linked(q.b, q.a)
  {
    hide Linked, Acts, Hears, Deliverable;
    if Acts(p.a, q.a) && q.b == p.b {
      ActsKeepsLinked(p.b, p.a, q.a);
    } else if Acts(p.b, q.b) && q.a == p.a {
      ActsKeepsLinked(p.a, p.b, q.b);
    } else if q.b == p.b && exists k, heard :: Deliverable(p.a, p.b, k) && Hears(p.a, q.a, k, heard) {
      var k, heard :| Deliverable(p.a, p.b, k) && Hears(p.a, q.a, k, heard);
      HearsKeepsLinked(p.b, p.a, q.a, k, heard);
    } else {
      var k, heard :| Deliverable(p.b, p.a, k) && Hears(p.b, q.b, k, heard);
      HearsKeepsLinked(p.a, p.b, q.b, k, heard);
    }
  }

  /** End-to-end safety.  In every state of every run, what recv has returned at
      one end is a front part of what send has accepted at the other. */
  lemma {:induction false} StreamSafety(r: seq<Pair>, i: nat)
    requires Run(r) && i < |r|
    ensures Linked(r[i].a, r[i].b) && Linked(r[i].b, r[i].a)
    ensures r[i].b.got <= r[i].a.sent && r[i].a.got <= r[i].b.sent
  {
    hide Linked, Step;
    if i == 0 {
      NewLinked(r[0].a, r[0].b);
      NewLinked(r[0].b, r[0].a);
    } else {
      StreamSafety(r, i - 1);
      assert Step(r[i - 1], r[i - 1 + 1]);
      StepKeepsLinked(r[i - 1], r[i]);
    }
    LinkedGot(r[i].a, r[i].b);
    LinkedGot(r[i].b, r[i].a);
  }

  lemma LinkedGot(x: End, y: End)
    requires Linked(x, y)
    ensures y.got <= x.sent
  {
    hide Follows;
    FollowsFits(y.rx, y.got, y.ignoring, x.tx.stream);
  }

  /** A FIN that has been accepted vouches for every byte before it. */
  lemma FinIsComplete(r: seq<Pair>, i: nat)
    requires Run(r) && i < |r| && r[i].b.rx.nxt > |r[i].a.tx.stream.bytes| && !r[i].b.ignoring
    ensures r[i].b.rx.held <= |r[i].b.rx.cells|
    ensures Delivered(r[i].b.rx, r[i].b.got) == r[i].a.sent && r[i].a.tx.stream.sealed
  {
    hide R.Faithful;
    StreamSafety(r, i);
  }

  /** Everything the peer's send accepted has been read exactly if the ring is empty
      and no byte of the stream is missing, or nothing was ever accepted. */
  lemma AllRead(x: End, y: End)
    requires Linked(x, y) && !y.ignoring
    ensures y.got == x.sent <==> y.rx.held == 0 && (x.sent == [] || |x.tx.stream.bytes| <= y.rx.nxt)
  {
    hide R.Landed, R.Ok, S.WellCut;
    var s := x.tx.stream;
    assert y.got <= Delivered(y.rx, y.got) <= x.sent;
    if s.ctl <= y.rx.nxt <= |s.bytes| {
      assert |Delivered(y.rx, y.got)| == y.rx.nxt - s.ctl;
    }
  }

  // From the channel to the sockets ------------------------------------------

  lemma PieceInStream(r: R.Receiver, stream: seq<byte>, base: nat, got: seq<byte>, i: nat)
    requires R.Faithful(r, stream, base, got) && i < |r.pieces|
    ensures r.nxt < r.pieces[i].pos < |stream|
  {
    assert R.Covers(r.pieces[i], r.pieces[i].pos);
    assert R.InPlace(r, stream, r.pieces[i].pos);
  }

  /** With nothing of the stream missing, nothing can be listed. */
  lemma NothingBeyondEnd(r: R.Receiver, stream: seq<byte>, base: nat, got: seq<byte>)
    requires R.Faithful(r, stream, base, got) && r.nxt == |stream|
    ensures r.pieces == []
  {
    hide R.Faithful;
    if r.pieces != [] {
      PieceInStream(r, stream, base, got, 0);
    }
  }

  /** What a delivery step promises is what a socket asks of a packet: between
      two linked ends no further assumption is needed. */
  lemma DeliverableIsAcceptable(e: End, peer: End, p: S.Packet)
    requires Deliverable(e, peer, p) && Linked(peer, e) && Linked(e, peer) && (e.ignoring ==> !e.party.finAck)
    ensures Orderly(p.seg, p.pos, e.rx, e.ignoring) && Answers(p.seg, p.ackPos, e.tx)
    ensures Connects(p.seg) ==> Timely(p.seg.data, e.party, e.ignoring, e.rx)
  {
    hide R.Faithful, Wrap, Party.Hears;
    var i :| 0 <= i < |peer.out| && peer.out[i] == p;
    assert S.WellCut(p, peer.tx.stream);
    if !e.ignoring && p.seg.flags.fin && p.pos == e.rx.nxt {
      NothingBeyondEnd(e.rx, peer.tx.stream.bytes, peer.tx.stream.ctl, e.got);
    }
  }
}
