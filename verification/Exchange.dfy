/** Two real sockets: what a call does to the pair is a step of the channel. */
module Exchange {
  import opened Seq32
  import opened Fifo
  import opened Segments
  import opened Options
  import opened States
  import opened SendLoop
  import opened Connection
  import opened Acking
  import opened Steps
  import opened Channel
  import opened PseudoTcp
  import R = Reassembly
  import S = Sending

  /** The views of two sockets. */
  ghost function Views(a: PseudoTcpSocket, b: PseudoTcpSocket): Pair
    reads a, b
  {
    Pair(a.View(), b.View())
  }

  /** Two sockets share nothing. */
  ghost predicate Apart(a: PseudoTcpSocket, b: PseudoTcpSocket)
    reads a, b, a.sbuf, a.rbuf, b.sbuf, b.rbuf
  {
    a != b && {a.sbuf, a.rbuf} !! {b.sbuf, b.rbuf} && {a.sbuf.buffer, a.rbuf.buffer} !! {b.sbuf.buffer, b.rbuf.buffer}
  }

  /** Two sockets, each following the other's stream. */
  ghost predicate Connected(a: PseudoTcpSocket, b: PseudoTcpSocket)
    reads a, b, a.sbuf, a.rbuf, a.sbuf.buffer, a.rbuf.buffer, b.sbuf, b.rbuf, b.sbuf.buffer, b.rbuf.buffer
  {
    Apart(a, b) && a.Valid() && b.Valid() && Linked(a.View(), b.View()) && Linked(b.View(), a.View())
  }

  /** Two new sockets. */
  method NewPair(conversation: u32, finAckA: bool, finAckB: bool) returns (a: PseudoTcpSocket, b: PseudoTcpSocket)
    ensures fresh(a) && fresh(b) && Connected(a, b) && Run([Views(a, b)])
  {
    hide PseudoTcpSocket.Valid, Linked;
    a := new PseudoTcpSocket(conversation, finAckA);
    b := new PseudoTcpSocket(conversation, finAckB);
    NewLinked(a.View(), b.View());
    NewLinked(b.View(), a.View());
  }

  datatype Call =
    | CallConnect | CallSend(data: seq<byte>) | CallRecv(len: nat) | CallShutdown(how: How) | CallClose(force: bool)
    | CallClock | CallNextClock(timeout: nat) | CallMtu(mtu: nat)

  /** What a call asks of its caller. */
  ghost predicate Callable(s: PseudoTcpSocket, c: Call)
    reads s
  {
    match c
    case CallMtu(mtu) => MIN_PACKET <= mtu <= MAX_PACKET
    case CallClock => s.state == LastAck ==> s.snd.k <= |s.snd.slist| && FinTotal(s.snd) < 0xFFF_FFFF
    case _ => true
  }

  /** What a call returns. */
  datatype Reply = Accepted(n: int) | Returned(n: int, data: seq<byte>) | Nothing

  /** The logs of accepted and returned bytes grow by what the call returns and by
      nothing else. */
  ghost predicate Logs(c: Call, r: Reply, sent: seq<byte>, sent': seq<byte>, got: seq<byte>, got': seq<byte>) {
    match c
    case CallSend(data) =>
      r.Accepted? && -1 <= r.n <= |data| && sent' == sent + data[..Max(0, r.n)] && got' == got
    case CallRecv(len) =>
      r.Returned? && -1 <= r.n <= len && |r.data| == Max(0, r.n) && got' == got + r.data && sent' == sent
    case _ =>
      sent' == sent && got' == got
  }

  /** Any call at `b` is one step of the channel and keeps the pair connected. */
  method Perform(a: PseudoTcpSocket, b: PseudoTcpSocket, c: Call) returns (r: Reply)
    requires Connected(a, b) && Callable(b, c)
    modifies b, b.sbuf, b.rbuf, b.sbuf.buffer, b.rbuf.buffer
    ensures Connected(a, b) && Step(old(Views(a, b)), Views(a, b))
    ensures Logs(c, r, old(b.sent), b.sent, old(b.got), b.got)
  {
    hide PseudoTcpSocket.Valid, Linked, Acts, FinCount, Logs;
    ghost var x, y := a.View(), b.View();
    r := CallIt(b, c);
    assert a.View() == x;
    ActsKeepsLinked(x, y, b.View());
  }

  method CallIt(b: PseudoTcpSocket, c: Call) returns (r: Reply)
    requires b.Valid() && Callable(b, c)
    modifies b, b.sbuf, b.rbuf, b.sbuf.buffer, b.rbuf.buffer
    ensures b.Valid() && Acts(old(b.View()), b.View())
    ensures Logs(c, r, old(b.sent), b.sent, old(b.got), b.got)
    ensures b.sbuf.buffer == old(b.sbuf.buffer) && b.rbuf.buffer == old(b.rbuf.buffer)
  {
    hide PseudoTcpSocket.Valid, Acts, FinCount;
    b.HeldFits();
    ActsNothing(b.View());
    r := Nothing;
    match c
    case CallConnect => var ok; ghost var e; ok, e := b.Connect();
    case CallSend(data) =>
      var n;
      ghost var e;
      n, e := b.Send(data);
      r := Accepted(n);
    case CallRecv(len) =>
      var n, data;
      ghost var at;
      n, data, at := b.Recv(len);
      r := Returned(n, data);
    case CallShutdown(how) => b.ShutDown(how);
    case CallClose(force) => b.Close(force);
    case CallClock => ghost var now, due := b.NotifyClock();
    case CallNextClock(timeout) => var ok, next; ghost var now; ok, next, now := b.GetNextClock(timeout);
    case CallMtu(mtu) => b.NotifyMtu(mtu);
  }

  /** A packet of `a` arrives at `b`.  Unless the program stops on it, that is one
      step of the channel which keeps the pair connected; `Stops` says exactly when
      it does. */
  method Deliver(a: PseudoTcpSocket, b: PseudoTcpSocket, seg: S.Segment, ghost p: S.Packet)
    returns (ok: bool, aborted: bool, ghost now: u32)
    requires Connected(a, b) && p.seg == seg && Deliverable(b.View(), a.View(), p)
    modifies b, b.sbuf, b.rbuf, b.sbuf.buffer, b.rbuf.buffer
    ensures aborted <==> Stops(b.conv, old(b.state), old(b.snd), old(b.fast), old(b.size.cwnd), seg, p.ackPos, now)
    ensures aborted ==> b.strained || (old(b.state) == LastAck && old(b.snd.fins) >= 2 && old(b.fast.dupAcks) >= 3)
    ensures !aborted ==> Connected(a, b) && Step(old(Views(a, b)), Views(a, b))
    ensures b.sent == old(b.sent) && b.got == old(b.got)
  {
    hide PseudoTcpSocket.Valid, Linked, Deliverable, Hears, Orderly, Answers, Timely, Stops;
    ghost var x, y := a.View(), b.View();
    DeliverableIsAcceptable(y, x, p);
    ghost var heard;
    ghost var m, e;
    ok, aborted, heard, now, m, e := b.Process(seg, p.pos, p.ackPos);
    if !aborted {
      assert a.View() == x;
      HearsKeepsLinked(x, y, b.View(), p, heard);
    }
  }

  /** All bytes that `Recv` has returned at `b`, after any number of such steps, are
      the front of those that `Send` has accepted at `a`. */
  lemma ReadIsPrefixOfSent(a: PseudoTcpSocket, b: PseudoTcpSocket)
    requires Connected(a, b)
    ensures b.got <= a.sent
  {
    hide PseudoTcpSocket.Valid, Linked;
    LinkedGot(a.View(), b.View());
  }

  /** When `Recv` has returned 0 at `b` and reading was not shut down, `b` has read
      everything exactly if its ring was empty and nothing of the stream of `a` was
      missing. */
  lemma ZeroMeansEnd(a: PseudoTcpSocket, b: PseudoTcpSocket)
    requires Connected(a, b) && b.tcb.supportFinAck
    ensures b.got == a.sent <==> b.rcv.held == 0 && (a.sent == [] || |a.snd.stream.bytes| <= b.rcv.nxt)
  {
    hide PseudoTcpSocket.Valid, Linked;
    AllRead(a.View(), b.View());
  }

  /** A FIN ends reading, wherever it lies in the stream.  It is accepted in
      ESTABLISHED; then `Recv` returns 0, and whatever was unread before is lost. */
  method FinEndsReading(a: PseudoTcpSocket, b: PseudoTcpSocket, seg: S.Segment, ghost p: S.Packet, len: nat)
    returns (ok: bool, n: int)
    requires Connected(a, b) && p.seg == seg && Deliverable(b.View(), a.View(), p)
    requires seg.flags == FLAG_FIN && b.state == Established && b.tcb.supportFinAck
    modifies b, b.sbuf, b.rbuf, b.sbuf.buffer, b.rbuf.buffer
    ensures b.got == old(b.got) && a.sent == old(a.sent)
    ensures ok ==> n == 0 && b.state == CloseWait
    ensures ok ==> (b.got == a.sent <==> old(b.rcv.held == 0 && (a.sent == [] || |a.snd.stream.bytes| <= b.rcv.nxt)))
  {
    hide PseudoTcpSocket.Valid, Linked, Deliverable, Orderly, Answers;
    ZeroMeansEnd(a, b);
    DeliverableIsAcceptable(b.View(), a.View(), p);
    ok, n := HearFin(b, seg, p, len);
  }

  method HearFin(b: PseudoTcpSocket, seg: S.Segment, ghost p: S.Packet, len: nat) returns (ok: bool, n: int)
    requires b.Valid() && p.seg == seg && Orderly(seg, p.pos, b.rcv, b.Ignoring()) && Answers(seg, p.ackPos, b.snd)
    requires seg.flags == FLAG_FIN && b.state == Established && b.tcb.supportFinAck
    modifies b, b.sbuf, b.rbuf, b.sbuf.buffer, b.rbuf.buffer
    ensures b.got == old(b.got)
    ensures ok ==> n == 0 && b.state == CloseWait
  {
    hide PseudoTcpSocket.Valid, Hears, Orderly, Answers, Timely, Stops, Acts;
    ghost var y := b.View();
    ghost var heard, now;
    var aborted;
    ghost var m, e;
    ok, aborted, heard, now, m, e := b.Process(seg, p.pos, p.ackPos);
    n := 0;
    if ok {
      SameParty(y, b.View(), p, heard);
      var data;
      ghost var at;
      n, data, at := b.Recv(len);
    }
  }

  /** A packet without options leaves the party as it is. */
  lemma SameParty(e: End, f: End, p: S.Packet, heard: R.Receiver)
    requires Hears(e, f, p, heard) && !p.seg.flags.ctl
    ensures f.party == e.party && f.got == e.got && f.sent == e.sent
  {
  }

  // Such a FIN, behind a stream of one control byte and the data byte 5.

  function ShortSender(): S.Sender {
    var q := [SSegment(0, 1, 1, FLAG_CTL), SSegment(1, 1, 1, FLAG_NONE), SSegment(2, 0, 1, FLAG_FIN)];
    S.Sender(S.Stream([0, 5], 1, true), 0, 3, [0, 5], q, 3, 1, false)
  }

  const FIN_BEHIND_5 := S.Packet(2, 0, S.Segment(0, 2, 0, FLAG_FIN, 4, [], 0, 0))

  function ShortEnd(): End {
    End(ShortSender(), R.Receiver(0, 4, [0, 0, 0, 0], 0, []), [5], [], [FIN_BEHIND_5], 4, Party(false, 0, 0, true),
        false)
  }

  function Reader(r: R.Receiver): End {
    End(S.Sender(S.Stream([], 0, false), 0, 0, [], [], 0, 0, false), r, [], [], [], 4, Party(false, 0, 0, true), false)
  }

  lemma ShortSenderOk()
    ensures S.Ok(ShortSender())
  {
    hide Laid, Total, Wrap, S.Ok;
    ShortQueue();
    AllSent(ShortSender());
  }

  /** A queue whose segments have all been sent, the last of them a FIN. */
  lemma AllSent(s: S.Sender)
    requires s.k == |s.slist| == 3 && forall i :: 0 <= i < 3 ==> s.slist[i].xmit == 1 && !s.slist[i].flags.rst
    requires s.slist[0].len > 0 && s.slist[1].len > 0 && s.slist[2].len == 0
    requires s.una == 0 && s.kept == s.stream.bytes && s.stream.sealed && s.fins == 1 && !s.finAcked
    requires s.stream.ctl <= |s.stream.bytes| && s.nxt == |s.stream.bytes| + 1
    requires Laid(s.slist, 0, s.stream.ctl) && Total(s.slist) == |s.stream.bytes|
    ensures S.Ok(s)
  {
    hide Laid, Total, Wrap;
    assert s.slist[..3] == s.slist && s.stream.bytes[0..] == s.stream.bytes;
  }

  lemma ShortQueue()
    ensures var q := ShortSender().slist; Total(q) == 2 && Laid(q, 0, 1)
  {
    var q := ShortSender().slist;
    assert q[1..][1..] == q[2..] && q[2..][1..] == [];
    assert Total(q[2..]) == 0 && Total(q[1..]) == 1;
    assert Laid(q[2..], 2, 1) && Laid(q[1..], 1, 1);
  }

  lemma ShortLinked(r: R.Receiver)
    requires Follows(r, [], false, ShortSender().stream) && 0 <= r.nxt <= 2
    ensures Linked(ShortEnd(), Reader(r)) && Linked(Reader(r), ShortEnd())
              && Deliverable(Reader(r), ShortEnd(), FIN_BEHIND_5)
  {
    hide Follows;
    assert Follows(ShortEnd().rx, [], false, Reader(r).tx.stream) by {
      BlankFollows(ShortEnd().rx, [], false, Reader(r).tx.stream);
    }
  }

  /** The byte is unread in the ring of one receiver and still missing at another; for
      both, the FIN ends reading. */
  lemma FinCanLoseData()
    ensures var e := Reader(R.Receiver(2, 3, [5, 0, 0, 0], 1, []));
            var f := Reader(R.Receiver(1, 4, [0, 0, 0, 0], 0, []));
            && S.Ok(ShortSender()) && StateAfter(Established, false, true, true, false) == CloseWait
            && Linked(ShortEnd(), e) && Deliverable(e, ShortEnd(), FIN_BEHIND_5) && e.got != ShortEnd().sent
            && Linked(ShortEnd(), f) && Deliverable(f, ShortEnd(), FIN_BEHIND_5) && f.got != ShortEnd().sent
  {
    hide Linked, Deliverable, S.Ok;
    ShortSenderOk();
    ShortLinked(R.Receiver(2, 3, [5, 0, 0, 0], 1, []));
    ShortLinked(R.Receiver(1, 4, [0, 0, 0, 0], 0, []));
  }
}
